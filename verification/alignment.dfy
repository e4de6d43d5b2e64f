/**
 * Token alignment (`build_char_offset_ranges`): each token surface produced by
 * the tokenizer is placed back onto the sentence as a half-open interval of
 * code-point offsets, by a forward exact search from a cursor, falling back to
 * "assume contiguous" when the surface does not occur at or after the cursor.
 */
module Alignment {
  import opened Wrappers

  /** The `(start, end, token_index)` triple, in code points. */
  datatype Range = Range(start: nat, end: nat, token: nat)

  /** `surf` occurs in `sentence` at offset `k`, entirely within the sentence. */
  predicate MatchesAt(sentence: string, surf: string, k: nat)
  {
    k + |surf| <= |sentence| && sentence[k..k + |surf|] == surf
  }

  /** Some occurrence of `surf` starts at or after `pos`. */
  ghost predicate OccursFrom(sentence: string, surf: string, pos: nat)
  {
    exists j: nat :: pos <= j && MatchesAt(sentence, surf, j)
  }

  /** The smallest offset at or after `pos` where `surf` occurs. */
  function FirstMatch(sentence: string, surf: string, pos: nat): (r: Option<nat>)
    ensures r.Some? ==> pos <= r.value && MatchesAt(sentence, surf, r.value)
    ensures r.Some? ==> forall j: nat :: pos <= j < r.value ==> !MatchesAt(sentence, surf, j)
    ensures r.None? ==> forall j: nat :: pos <= j ==> !MatchesAt(sentence, surf, j)
    decreases |sentence| - pos
  {
    if pos + |surf| > |sentence| then None
    else if sentence[pos..pos + |surf|] == surf then Some(pos)
    else FirstMatch(sentence, surf, pos + 1)
  }

  /**
   * The range emitted for surface number `i` when the cursor stands at `pos`:
   * at the first occurrence at or after the cursor, or at the cursor itself
   * when there is none.  Either way it is as long as the surface.
   */
  function PlaceToken(sentence: string, surf: string, pos: nat, i: nat): (r: Range)
    ensures r.token == i && r.end == r.start + |surf| && pos <= r.start
    ensures OccursFrom(sentence, surf, pos) ==>
              MatchesAt(sentence, surf, r.start) &&
              forall j: nat :: pos <= j < r.start ==> !MatchesAt(sentence, surf, j)
    ensures !OccursFrom(sentence, surf, pos) ==> r.start == pos
  {
    match FirstMatch(sentence, surf, pos)
    case Some(k) => Range(k, k + |surf|, i)
    case None => Range(pos, pos + |surf|, i)
  }

  /** Where the cursor stands after the ranges emitted so far: the end of the last one. */
  function CursorAfter(ranges: seq<Range>): nat
  {
    if |ranges| == 0 then 0 else ranges[|ranges| - 1].end
  }

  /** The ranges the alignment emits, one per surface, in surface order. */
  function Align(sentence: string, surfaces: seq<string>): (r: seq<Range>)
    ensures |r| == |surfaces|
    ensures forall i :: 0 <= i < |r| ==> r[i].token == i && r[i].end == r[i].start + |surfaces[i]|
    decreases |surfaces|
  {
    if |surfaces| == 0 then []
    else
      var prev := Align(sentence, surfaces[..|surfaces| - 1]);
      prev + [PlaceToken(sentence, surfaces[|surfaces| - 1], CursorAfter(prev), |surfaces| - 1)]
  }

  /** The surfaces written one after the other. */
  function Concat(surfaces: seq<string>): string
    decreases |surfaces|
  {
    if |surfaces| == 0 then "" else Concat(surfaces[..|surfaces| - 1]) + surfaces[|surfaces| - 1]
  }

  /** Ranges are in order and do not overlap. */
  ghost predicate Ordered(ranges: seq<Range>)
  {
    forall i, j :: 0 <= i < j < |ranges| ==> ranges[i].end <= ranges[j].start
  }

  // ---------------------------------------------------------------------------
  // The search range of the inner loop, as written and as corrected.

  /** The starts visited by `for start in pos..=len.saturating_sub(surf_len)`. */
  function ScanStartsAsWritten(len: nat, surfLen: nat, pos: nat): (r: seq<nat>)
    ensures forall k :: 0 <= k < |r| ==> r[k] == pos + k
  {
    var bound := if len >= surfLen then len - surfLen else 0;
    if pos > bound then [] else seq(bound - pos + 1, k => pos + k)
  }

  /**
   * As written, the loop slices `sentence_chars[start..start + surf_len]` past
   * the end of the sentence exactly when the cursor is 0 and the surface is
   * longer than the sentence: the saturating subtraction turns the empty range
   * into `0..=0`.
   */
  lemma ScanStartsAsWrittenOutOfBounds(len: nat, surfLen: nat, pos: nat)
    ensures (exists k :: 0 <= k < |ScanStartsAsWritten(len, surfLen, pos)|
                         && ScanStartsAsWritten(len, surfLen, pos)[k] + surfLen > len)
            <==> pos == 0 && surfLen > len
  {
    var r := ScanStartsAsWritten(len, surfLen, pos);
    if pos == 0 && surfLen > len {
      assert r[0] + surfLen > len;
    }
  }

  /** Sentence "a", surface "ab": the first slice `[0..2]` of a one-character sentence is out of bounds. */
  lemma ScanStartsAsWrittenCounterexample()
    ensures |ScanStartsAsWritten(|"a"|, |"ab"|, 0)| == 1
    ensures ScanStartsAsWritten(|"a"|, |"ab"|, 0)[0] + |"ab"| > |"a"|
  {
  }

  /**
   * The starts the search visits in this model: the same as the source's
   * except that a surface longer than the sentence is searched nowhere (and so
   * falls back), instead of panicking.  Every visited slice is in bounds and
   * every offset where the surface could fit is visited.
   */
  function ScanStarts(len: nat, surfLen: nat, pos: nat): (r: seq<nat>)
    ensures forall k :: 0 <= k < |r| ==> r[k] == pos + k && r[k] + surfLen <= len
    ensures pos + |r| + surfLen > len
    ensures !(pos == 0 && surfLen > len) ==> r == ScanStartsAsWritten(len, surfLen, pos)
  {
    if surfLen > len then [] else ScanStartsAsWritten(len, surfLen, pos)
  }

  // ---------------------------------------------------------------------------
  // The imperative alignment.

  /** Aligning one more surface appends the range placed at the current cursor. */
  lemma AlignSnoc(sentence: string, surfaces: seq<string>, i: nat)
    requires i < |surfaces|
    ensures var prev := Align(sentence, surfaces[..i]);
            Align(sentence, surfaces[..i + 1]) == prev + [PlaceToken(sentence, surfaces[i], CursorAfter(prev), i)]
  {
    var pre := surfaces[..i + 1];
    assert pre[..i] == surfaces[..i];
  }

  /** The search's answer is pinned down by "occurs there, and nowhere between the cursor and there". */
  lemma FirstMatchIs(sentence: string, surf: string, pos: nat, start: nat)
    requires pos <= start && MatchesAt(sentence, surf, start)
    requires forall j: nat :: pos <= j < start ==> !MatchesAt(sentence, surf, j)
    ensures FirstMatch(sentence, surf, pos) == Some(start)
  {
    var r := FirstMatch(sentence, surf, pos);
    assert r.Some?;
    assert MatchesAt(sentence, surf, r.value);
  }

  /**
   * The inner search of `build_char_offset_ranges`: the first start, among
   * those `ScanStarts` visits, where the surface's slice equals the surface.
   */
  method SearchFrom(sentence: string, surf: string, pos: nat) returns (found: Option<nat>)
    ensures found == FirstMatch(sentence, surf, pos)
  {
    var starts := ScanStarts(|sentence|, |surf|, pos);
    found := None;
    var k := 0;
    while k < |starts|
      invariant 0 <= k <= |starts|
      invariant forall j: nat :: pos <= j < pos + k ==> !MatchesAt(sentence, surf, j)
    {
      var start := starts[k];
      if sentence[start..start + |surf|] == surf {
        found := Some(start);
        FirstMatchIs(sentence, surf, pos, start);
        break;
      }
      k := k + 1;
    }
    if found.None? {
      assert forall j: nat :: pos <= j ==> !MatchesAt(sentence, surf, j);
    }
  }

  /** `build_char_offset_ranges`: one range per surface, found or assumed contiguous. */
  method BuildCharOffsetRanges(sentence: string, surfaces: seq<string>) returns (ranges: seq<Range>)
    ensures ranges == Align(sentence, surfaces)
  {
    ranges := [];
    var pos: nat := 0;
    for i := 0 to |surfaces|
      invariant ranges == Align(sentence, surfaces[..i])
      invariant pos == CursorAfter(ranges)
    {
      var surf := surfaces[i];
      var found := SearchFrom(sentence, surf, pos);
      AlignSnoc(sentence, surfaces, i);
      match found {
        case Some(start) =>
          ranges := ranges + [Range(start, start + |surf|, i)];
          pos := start + |surf|;
        case None =>
          // Fallback: assume contiguous.
          ranges := ranges + [Range(pos, pos + |surf|, i)];
          pos := pos + |surf|;
      }
    }
    assert surfaces[..|surfaces|] == surfaces;
  }

  // ---------------------------------------------------------------------------
  // Properties of the alignment.

  lemma {:induction false} AlignPrefix(sentence: string, surfaces: seq<string>, n: nat)
    requires n <= |surfaces|
    ensures Align(sentence, surfaces[..n]) == Align(sentence, surfaces)[..n]
    decreases |surfaces|
  {
    if n < |surfaces| {
      var init := surfaces[..|surfaces| - 1];
      AlignPrefix(sentence, init, n);
      assert init[..n] == surfaces[..n];
    } else {
      assert surfaces[..n] == surfaces;
    }
  }

  /** Range `i` is the one placed for surface `i` at the end of range `i - 1`. */
  lemma AlignStep(sentence: string, surfaces: seq<string>, i: nat)
    requires i < |surfaces|
    ensures var r := Align(sentence, surfaces);
            r[i] == PlaceToken(sentence, surfaces[i], if i == 0 then 0 else r[i - 1].end, i)
  {
    var r := Align(sentence, surfaces);
    var pre := surfaces[..i + 1];
    AlignPrefix(sentence, surfaces, i + 1);
    assert pre[..i] == surfaces[..i];
    assert pre[i] == surfaces[i];
    var prev := Align(sentence, surfaces[..i]);
    AlignPrefix(sentence, surfaces, i);
    assert Align(sentence, pre) == prev + [PlaceToken(sentence, surfaces[i], CursorAfter(prev), i)];
  }

  /**
   * Range `i` starts at or after the end of range `i - 1` (the cursor), is as
   * long as surface `i` and carries index `i`.  When the surface occurs at or
   * after the cursor, the range sits on its first such occurrence, so the
   * slice of the sentence is the surface and lies inside the sentence;
   * otherwise the range starts at the cursor.
   */
  lemma AlignedRange(sentence: string, surfaces: seq<string>, i: nat)
    requires i < |surfaces|
    ensures var r := Align(sentence, surfaces);
            var cursor := if i == 0 then 0 else r[i - 1].end;
            && cursor <= r[i].start
            && r[i].end == r[i].start + |surfaces[i]|
            && r[i].token == i
            && (OccursFrom(sentence, surfaces[i], cursor) ==>
                  && r[i].end <= |sentence|
                  && sentence[r[i].start..r[i].end] == surfaces[i]
                  && forall j: nat :: cursor <= j < r[i].start ==> !MatchesAt(sentence, surfaces[i], j))
            && (!OccursFrom(sentence, surfaces[i], cursor) ==> r[i].start == cursor)
  {
    var r := Align(sentence, surfaces);
    var cursor := if i == 0 then 0 else r[i - 1].end;
    AlignStep(sentence, surfaces, i);
    var placed := PlaceToken(sentence, surfaces[i], cursor, i);
    assert r[i] == placed;
  }

  lemma {:induction false} OrderedFromAdjacent(ranges: seq<Range>)
    requires forall k :: 0 <= k < |ranges| ==> ranges[k].start <= ranges[k].end
    requires forall k :: 0 < k < |ranges| ==> ranges[k - 1].end <= ranges[k].start
    ensures Ordered(ranges)
    decreases |ranges|
  {
    if |ranges| > 1 {
      var init := ranges[..|ranges| - 1];
      OrderedFromAdjacent(init);
      forall i, j | 0 <= i < j < |ranges|
        ensures ranges[i].end <= ranges[j].start
      {
        if j == |ranges| - 1 && i < j - 1 {
          assert init[i].end <= init[j - 1].start;
        }
      }
    }
  }

  /** The ranges are monotone and pairwise non-overlapping. */
  lemma AlignOrdered(sentence: string, surfaces: seq<string>)
    ensures Ordered(Align(sentence, surfaces))
  {
    var r := Align(sentence, surfaces);
    forall k | 0 < k < |r|
      ensures r[k - 1].end <= r[k].start
    {
      AlignedRange(sentence, surfaces, k);
    }
    OrderedFromAdjacent(r);
  }

  /** Alignment of the surfaces whose concatenation begins the sentence. */
  lemma {:induction false} AlignTilesPrefix(sentence: string, surfaces: seq<string>)
    requires Concat(surfaces) <= sentence
    ensures var r := Align(sentence, surfaces);
            && CursorAfter(r) == |Concat(surfaces)|
            && (|r| > 0 ==> r[0].start == 0)
            && (forall i :: 0 < i < |r| ==> r[i - 1].end == r[i].start)
            && (forall i :: 0 <= i < |r| ==> r[i].end <= |sentence| && sentence[r[i].start..r[i].end] == surfaces[i])
    decreases |surfaces|
  {
    if |surfaces| > 0 {
      var n := |surfaces|;
      var init := surfaces[..n - 1];
      var last := surfaces[n - 1];
      var c := |Concat(init)|;
      assert Concat(surfaces) == Concat(init) + last;
      assert Concat(init) <= sentence;
      AlignTilesPrefix(sentence, init);
      var prev := Align(sentence, init);
      assert sentence[c..c + |last|] == last by {
        assert sentence[..c + |last|] == Concat(surfaces);
      }
      FirstMatchIs(sentence, last, c, c);
      var placed := Range(c, c + |last|, n - 1);
      assert PlaceToken(sentence, last, c, n - 1) == placed;
      var r := prev + [placed];
      assert Align(sentence, surfaces) == r;
      forall i | 0 <= i < n
        ensures r[i].end <= |sentence| && sentence[r[i].start..r[i].end] == surfaces[i]
      {
        if i < n - 1 {
          assert r[i] == prev[i];
        }
      }
    }
  }

  /**
   * When the surfaces concatenate to the sentence, the ranges tile it: the
   * first starts at 0, each starts where the previous ends, the last ends at
   * the sentence's length, and each covers exactly its surface.
   */
  lemma AlignTiles(sentence: string, surfaces: seq<string>)
    requires Concat(surfaces) == sentence
    ensures var r := Align(sentence, surfaces);
            && (|r| > 0 ==> r[0].start == 0 && r[|r| - 1].end == |sentence|)
            && (forall i :: 0 < i < |r| ==> r[i - 1].end == r[i].start)
            && (forall i :: 0 <= i < |r| ==> r[i].end <= |sentence| && sentence[r[i].start..r[i].end] == surfaces[i])
  {
    AlignTilesPrefix(sentence, surfaces);
  }

  /** 今日 / は / 晴れ over 今日は晴れ. */
  lemma AlignExample()
    ensures Align("今日は晴れ", ["今日", "は", "晴れ"]) == [Range(0, 2, 0), Range(2, 3, 1), Range(3, 5, 2)]
  {
    var surfaces := ["今日", "は", "晴れ"];
    assert surfaces[..1][..0] == [];
    assert surfaces[..2][..1] == surfaces[..1];
    assert surfaces[..2] == surfaces[..|surfaces| - 1];
    assert Concat(surfaces[..1]) == "今日";
    assert Concat(surfaces[..2]) == "今日は";
    assert Concat(surfaces) == "今日は晴れ";
    AlignTiles("今日は晴れ", surfaces);
  }
}
