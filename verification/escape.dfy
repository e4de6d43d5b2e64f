/**
 * The escaping of a text before it is spliced into a single-quoted JavaScript
 * string literal: three chained `replace` calls, backslash first, then the
 * single quote, then the newline.  The same chain appears in `speak_japanese`
 * and in `speak_with_tracking`; it is modelled once here.
 */
module Escape {

  /** `s.replace(c, rep)`: every occurrence of the character `c` becomes `rep`. */
  function Replace(s: string, c: char, rep: string): (r: string)
    ensures c !in s ==> r == s
    ensures c !in rep ==> c !in r
    ensures forall x :: x in r ==> x in s || x in rep
    decreases |s|
  {
    if |s| == 0 then ""
    else
      assert s == [s[0]] + s[1..];
      (if s[0] == c then rep else [s[0]]) + Replace(s[1..], c, rep)
  }

  /**
   * The chain as the source writes it.  No newline survives it, and every
   * character of the result comes from the input or from an escape; the whole
   * of what it computes is `EscapeJsIsSinglePass`.
   */
  function EscapeJs(s: string): (r: string)
    ensures '\n' !in r
    ensures forall x :: x in r ==> x in s || x == '\\' || x == '\'' || x == 'n'
  {
    Replace(Replace(Replace(s, '\\', "\\\\"), '\'', "\\'"), '\n', "\\n")
  }

  /** What one input character turns into, in a single left-to-right pass. */
  function EscapeChar(c: char): (r: string)
    ensures |r| == 1 || |r| == 2
    ensures |r| == 2 <==> c == '\\' || c == '\'' || c == '\n'
    ensures |r| == 2 ==> r[0] == '\\'
    ensures '\n' !in r
  {
    if c == '\\' then "\\\\"
    else if c == '\'' then "\\'"
    else if c == '\n' then "\\n"
    else [c]
  }

  /** The single-pass substitution: each character replaced by its escape. */
  function EscapeSinglePass(s: string): (r: string)
    decreases |s|
  {
    if |s| == 0 then "" else EscapeChar(s[0]) + EscapeSinglePass(s[1..])
  }

  /** How many times `c` occurs in `s`. */
  function Occurrences(s: string, c: char): (n: nat)
    decreases |s|
  {
    if |s| == 0 then 0 else (if s[0] == c then 1 else 0) + Occurrences(s[1..], c)
  }

  /** Reads an escaped literal body back: `\x` stands for `x`, except `\n`, which is a newline. */
  function Unescape(s: string): (r: string)
    decreases |s|
  {
    if |s| == 0 then ""
    else if s[0] == '\\' && |s| >= 2 then [if s[1] == 'n' then '\n' else s[1]] + Unescape(s[2..])
    else [s[0]] + Unescape(s[1..])
  }

  lemma {:induction false} ReplaceAppend(a: string, b: string, c: char, rep: string)
    ensures Replace(a + b, c, rep) == Replace(a, c, rep) + Replace(b, c, rep)
    decreases |a|
  {
    if |a| == 0 {
      assert a + b == b;
    } else {
      assert (a + b)[1..] == a[1..] + b;
      ReplaceAppend(a[1..], b, c, rep);
    }
  }

  lemma ReplaceOne(x: char, c: char, rep: string)
    ensures Replace([x], c, rep) == if x == c then rep else [x]
  {
    assert [x][1..] == [];
  }

  /** The chain on one character is that character's escape. */
  lemma EscapeJsOneChar(c: char)
    ensures EscapeJs([c]) == EscapeChar(c)
  {
    ReplaceOne(c, '\\', "\\\\");
    if c == '\'' {
      ReplaceOne(c, '\'', "\\'");
    } else if c != '\\' {
      ReplaceOne(c, '\'', "\\'");
      ReplaceOne(c, '\n', "\\n");
    }
  }

  lemma EscapeJsAppend(a: string, b: string)
    ensures EscapeJs(a + b) == EscapeJs(a) + EscapeJs(b)
  {
    ReplaceAppend(a, b, '\\', "\\\\");
    ReplaceAppend(Replace(a, '\\', "\\\\"), Replace(b, '\\', "\\\\"), '\'', "\\'");
    ReplaceAppend(Replace(Replace(a, '\\', "\\\\"), '\'', "\\'"),
                  Replace(Replace(b, '\\', "\\\\"), '\'', "\\'"), '\n', "\\n");
  }

  /**
   * Because backslashes are replaced first, the three passes never double a
   * backslash introduced by a later pass: the chain is the single-pass
   * per-character substitution.
   */
  lemma {:induction false} EscapeJsIsSinglePass(s: string)
    ensures EscapeJs(s) == EscapeSinglePass(s)
    decreases |s|
  {
    if |s| == 0 {
    } else {
      assert s == [s[0]] + s[1..];
      EscapeJsAppend([s[0]], s[1..]);
      EscapeJsOneChar(s[0]);
      EscapeJsIsSinglePass(s[1..]);
    }
  }

  lemma {:induction false} SinglePassShape(s: string)
    ensures |EscapeSinglePass(s)| == |s| + Occurrences(s, '\\') + Occurrences(s, '\'') + Occurrences(s, '\n')
    ensures '\n' !in EscapeSinglePass(s)
    decreases |s|
  {
    if |s| > 0 {
      SinglePassShape(s[1..]);
    }
  }

  /**
   * The escaped text holds no newline (so the literal stays on one line), and
   * it is longer than the input by exactly one character per backslash, quote
   * and newline of the input.
   */
  lemma EscapeJsShape(s: string)
    ensures '\n' !in EscapeJs(s)
    ensures |EscapeJs(s)| == |s| + Occurrences(s, '\\') + Occurrences(s, '\'') + Occurrences(s, '\n')
  {
    EscapeJsIsSinglePass(s);
    SinglePassShape(s);
  }

  /** Each backslash, quote and newline is preceded by a backslash in the output; any other character is kept. */
  lemma EscapeJsSplits(a: string, c: char, b: string)
    ensures EscapeJs(a + [c] + b) == EscapeJs(a) + EscapeChar(c) + EscapeJs(b)
  {
    EscapeJsAppend(a + [c], b);
    EscapeJsAppend(a, [c]);
    EscapeJsOneChar(c);
  }

  lemma {:induction false} UnescapeSinglePass(s: string)
    ensures Unescape(EscapeSinglePass(s)) == s
    decreases |s|
  {
    if |s| > 0 {
      var e := EscapeChar(s[0]);
      var rest := EscapeSinglePass(s[1..]);
      assert EscapeSinglePass(s) == e + rest;
      if |e| == 2 {
        assert (e + rest)[2..] == rest;
      } else {
        assert (e + rest)[1..] == rest;
      }
      UnescapeSinglePass(s[1..]);
      assert s == [s[0]] + s[1..];
    }
  }

  /** The escape loses nothing: reading the literal back yields the original text. */
  lemma EscapeJsRoundTrip(s: string)
    ensures Unescape(EscapeJs(s)) == s
  {
    EscapeJsIsSinglePass(s);
    UnescapeSinglePass(s);
  }
}
