/**
 * Highlight tracking (`char_index_to_token` and the body of the polling loop
 * in `SentenceAnalysis`): a speech-boundary character index is mapped onto the
 * aligned ranges, and the highlighted-token state is updated from each value
 * the polling loop reads back from the page.
 */
module Tracker {
  import opened Wrappers
  import opened Alignment
  import Tokenizer

  /** The half-open range `[start, end)` contains the character index `c`. */
  predicate Covers(r: Range, c: nat)
  {
    r.start <= c < r.end
  }

  /** The position in `ranges` of the first range that contains `c`. */
  function FirstCovering(ranges: seq<Range>, c: nat): (r: Option<nat>)
    ensures r.Some? ==> r.value < |ranges| && Covers(ranges[r.value], c)
    ensures r.Some? ==> forall j :: 0 <= j < r.value ==> !Covers(ranges[j], c)
    ensures r.None? ==> forall j :: 0 <= j < |ranges| ==> !Covers(ranges[j], c)
    decreases |ranges|
  {
    if |ranges| == 0 then None
    else if Covers(ranges[0], c) then Some(0)
    else
      match FirstCovering(ranges[1..], c)
      case None => None
      case Some(k) => Some(k + 1)
  }

  /**
   * The token to highlight for a boundary at character `c`: the first range
   * containing `c`; failing that the last token when `c` is at or past the
   * last range's start; otherwise none.  So a token is found exactly when
   * some range contains `c` or `c` is at or past the last range's start, and
   * it is always the token of one of the ranges.
   */
  function TokenAt(ranges: seq<Range>, c: nat): (r: Option<nat>)
    ensures r.Some? <==> (exists k :: 0 <= k < |ranges| && Covers(ranges[k], c))
                         || (|ranges| > 0 && ranges[|ranges| - 1].start <= c)
    ensures r.Some? ==> exists k :: 0 <= k < |ranges| && r.value == ranges[k].token
  {
    match FirstCovering(ranges, c)
    case Some(k) => Some(ranges[k].token)
    case None =>
      if |ranges| > 0 && c >= ranges[|ranges| - 1].start then Some(ranges[|ranges| - 1].token)
      else None
  }

  /** `char_index_to_token`: a scan with early return. */
  method CharIndexToToken(c: nat, ranges: seq<Range>) returns (t: Option<nat>)
    ensures t == TokenAt(ranges, c)
  {
    for k := 0 to |ranges|
      invariant forall j :: 0 <= j < k ==> !Covers(ranges[j], c)
    {
      var r := ranges[k];
      if c >= r.start && c < r.end {
        FirstCoveringIs(ranges, c, k);
        return Some(r.token);
      }
    }
    if |ranges| > 0 {
      var last := ranges[|ranges| - 1];
      if c >= last.start {
        return Some(last.token);
      }
    }
    return None;
  }

  lemma {:induction false} FirstCoveringIs(ranges: seq<Range>, c: nat, k: nat)
    requires k < |ranges| && Covers(ranges[k], c)
    requires forall j :: 0 <= j < k ==> !Covers(ranges[j], c)
    ensures FirstCovering(ranges, c) == Some(k)
    decreases k
  {
    if k > 0 {
      FirstCoveringIs(ranges[1..], c, k - 1);
    }
  }

  /**
   * The three rules of the lookup, in order: the first containing range wins;
   * otherwise an index at or past the last range's start gives the last token;
   * otherwise (including no ranges at all) nothing is highlighted.
   */
  lemma TokenAtRules(ranges: seq<Range>, c: nat)
    ensures forall k :: 0 <= k < |ranges| && Covers(ranges[k], c) &&
                        (forall j :: 0 <= j < k ==> !Covers(ranges[j], c)) ==>
              TokenAt(ranges, c) == Some(ranges[k].token)
    ensures (forall k :: 0 <= k < |ranges| ==> !Covers(ranges[k], c)) ==>
              TokenAt(ranges, c) ==
                if |ranges| > 0 && ranges[|ranges| - 1].start <= c then Some(ranges[|ranges| - 1].token) else None
  {
    forall k | 0 <= k < |ranges| && Covers(ranges[k], c) && (forall j :: 0 <= j < k ==> !Covers(ranges[j], c))
      ensures TokenAt(ranges, c) == Some(ranges[k].token)
    {
      FirstCoveringIs(ranges, c, k);
    }
  }

  /** On ordered ranges at most one range contains a given index, so "first" is "the". */
  lemma OrderedCoverUnique(ranges: seq<Range>, c: nat, k: nat)
    requires Ordered(ranges) && k < |ranges| && Covers(ranges[k], c)
    ensures TokenAt(ranges, c) == Some(ranges[k].token)
    ensures forall j :: 0 <= j < |ranges| && j != k ==> !Covers(ranges[j], c)
  {
    FirstCoveringIs(ranges, c, k);
  }

  /** When each range carries its own position, the highlighted token is an existing one. */
  lemma TokenAtInRange(ranges: seq<Range>, c: nat)
    requires forall k :: 0 <= k < |ranges| ==> ranges[k].token == k
    ensures TokenAt(ranges, c).Some? ==> TokenAt(ranges, c).value < |ranges|
    ensures |ranges| > 0 && c >= ranges[|ranges| - 1].start ==> TokenAt(ranges, c).Some?
  {
  }

  lemma {:induction false} ContiguousCovers(ranges: seq<Range>, c: nat)
    requires |ranges| > 0 && ranges[0].start == 0 && c < ranges[|ranges| - 1].end
    requires forall i :: 0 < i < |ranges| ==> ranges[i - 1].end == ranges[i].start
    ensures exists k :: 0 <= k < |ranges| && Covers(ranges[k], c)
    decreases |ranges|
  {
    var n := |ranges|;
    if c < ranges[n - 1].start {
      var init := ranges[..n - 1];
      ContiguousCovers(init, c);
      var k :| 0 <= k < |init| && Covers(init[k], c);
      assert Covers(ranges[k], c);
    } else {
      assert Covers(ranges[n - 1], c);
    }
  }

  /** Ranges laid end to end over `[0, len)`. */
  ghost predicate Tiles(ranges: seq<Range>, len: nat)
  {
    && |ranges| > 0
    && ranges[0].start == 0
    && ranges[|ranges| - 1].end == len
    && (forall i :: 0 <= i < |ranges| ==> ranges[i].start <= ranges[i].end)
    && (forall i :: 0 < i < |ranges| ==> ranges[i - 1].end == ranges[i].start)
  }

  /**
   * Over ranges that tile `[0, len)`, every index highlights a token: inside,
   * the token whose range holds the index; at or past `len`, the last token.
   */
  lemma TilesHighlight(ranges: seq<Range>, len: nat, c: nat)
    requires Tiles(ranges, len)
    ensures TokenAt(ranges, c).Some?
    ensures c < len ==> exists k :: 0 <= k < |ranges| && Covers(ranges[k], c) && TokenAt(ranges, c) == Some(ranges[k].token)
    ensures c >= len ==> TokenAt(ranges, c) == Some(ranges[|ranges| - 1].token)
  {
    var n := |ranges|;
    OrderedFromAdjacent(ranges);
    if c < len {
      ContiguousCovers(ranges, c);
      var k :| 0 <= k < n && Covers(ranges[k], c);
      OrderedCoverUnique(ranges, c, k);
    } else {
      forall k | 0 <= k < n
        ensures !Covers(ranges[k], c)
      {
        if k < n - 1 {
          assert ranges[k].end <= ranges[n - 1].start;
        }
      }
      TokenAtRules(ranges, c);
    }
  }

  /**
   * When the surfaces concatenate to the sentence (and there is at least one),
   * every boundary index highlights a token: an index inside the sentence
   * highlights the token whose range holds that character, and any later
   * index highlights the last token.
   */
  lemma TiledAlwaysHighlights(sentence: string, surfaces: seq<string>, c: nat)
    requires Concat(surfaces) == sentence && |surfaces| > 0
    ensures var r := Align(sentence, surfaces);
            && TokenAt(r, c).Some?
            && (c < |sentence| ==> Covers(r[TokenAt(r, c).value], c))
            && (c >= |sentence| ==> TokenAt(r, c) == Some(|surfaces| - 1))
  {
    var r := Align(sentence, surfaces);
    AlignTiles(sentence, surfaces);
    TilesHighlight(r, |sentence|, c);
  }

  /**
   * Lookups on 今日 / は / 晴れ and on a range list with a gap: an index inside
   * a range, an index past the end, an index in the gap, and no ranges at all.
   */
  lemma TokenAtExamples()
    ensures TokenAt([Range(0, 2, 0), Range(2, 3, 1), Range(3, 5, 2)], 1) == Some(0)
    ensures TokenAt([Range(0, 2, 0), Range(2, 3, 1), Range(3, 5, 2)], 6) == Some(2)
    ensures TokenAt([Range(0, 2, 0), Range(3, 5, 2)], 2) == None
    ensures TokenAt([], 0) == None
  {
    var tiled := [Range(0, 2, 0), Range(2, 3, 1), Range(3, 5, 2)];
    FirstCoveringIs(tiled, 1, 0);
    TokenAtRules(tiled, 6);
    TokenAtRules([Range(0, 2, 0), Range(3, 5, 2)], 2);
  }

  // ---------------------------------------------------------------------------
  // The polling step.

  /** A value read back from the page, as `serde_json` sees it. */
  datatype JsValue = JsNull | JsInteger(n: int) | JsOther

  /** The outcome of one `document::eval` of the polling script. */
  datatype EvalResult = EvalFailed | Evaluated(value: JsValue)

  const I64_MIN: int := -0x8000_0000_0000_0000
  const I64_MAX: int := 0x7fff_ffff_ffff_ffff

  /** `value.as_i64()`: an integer that fits in 64 signed bits. */
  function AsI64(v: JsValue): (r: Option<int>)
    ensures r.Some? <==> v.JsInteger? && I64_MIN <= v.n <= I64_MAX
    ensures r.Some? ==> r.value == v.n
  {
    match v
    case JsInteger(n) => if I64_MIN <= n <= I64_MAX then Some(n) else None
    case _ => None
  }

  /**
   * The boundary value a poll delivers: there is one exactly when the
   * evaluation succeeded and returned an integer in the signed 64-bit range.
   */
  function BoundaryOf(result: EvalResult): (r: Option<int>)
    ensures r.Some? <==> result.Evaluated? && result.value.JsInteger? && I64_MIN <= result.value.n <= I64_MAX
    ensures r.Some? ==> r.value == result.value.n
  {
    match result
    case EvalFailed => None
    case Evaluated(v) => AsI64(v)
  }

  /** The surfaces of the analysed tokens, in order. */
  function SurfacesOf(tokens: seq<Tokenizer.AnalyzedToken>): (r: seq<string>)
    ensures |r| == |tokens|
    ensures forall i :: 0 <= i < |tokens| ==> r[i] == tokens[i].surface
  {
    seq(|tokens|, i requires 0 <= i < |tokens| => tokens[i].surface)
  }

  /** The per-sentence highlight state: the aligned ranges and `speaking_token_idx`. */
  class Highlighter {
    const ranges: seq<Range>
    var speakingTokenIdx: Option<nat>

    /** Each range carries its position, and the highlighted token, if any, exists. */
    ghost predicate Valid()
      reads this
    {
      && (forall k :: 0 <= k < |ranges| ==> ranges[k].token == k)
      && (speakingTokenIdx.Some? ==> speakingTokenIdx.value < |ranges|)
    }

    /**
     * The ranges are built once from the analysis result, aligning its tokens'
     * surfaces onto its text; nothing is highlighted yet.
     */
    constructor (analysis: Tokenizer.AnalyzedSentence)
      ensures Valid()
      ensures ranges == Align(analysis.text, SurfacesOf(analysis.tokens))
      ensures speakingTokenIdx == None
    {
      var surfaces := SurfacesOf(analysis.tokens);
      var sentenceText := analysis.text;
      var r := BuildCharOffsetRanges(sentenceText, surfaces);
      ranges := r;
      speakingTokenIdx := None;
    }

    /**
     * One pass of the polling loop: a negative boundary (end of speech or an
     * error) clears the highlight, a non-negative one highlights the token it
     * falls into, and anything else leaves the state as it was.
     */
    method Poll(result: EvalResult)
      requires Valid()
      modifies this
      ensures Valid()
      ensures BoundaryOf(result).Some? && BoundaryOf(result).value < 0 ==> speakingTokenIdx == None
      ensures BoundaryOf(result).Some? && BoundaryOf(result).value >= 0 ==>
                speakingTokenIdx == TokenAt(ranges, BoundaryOf(result).value)
      ensures BoundaryOf(result).None? ==> speakingTokenIdx == old(speakingTokenIdx)
    {
      if result.Evaluated? {
        var v := AsI64(result.value);
        if v.Some? {
          var charIdx := v.value;
          if charIdx < 0 {
            speakingTokenIdx := None;
          } else {
            var tokenIdx := CharIndexToToken(charIdx, ranges);
            TokenAtInRange(ranges, charIdx);
            speakingTokenIdx := tokenIdx;
          }
        }
      }
    }
  }
}
