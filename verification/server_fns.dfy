/**
 * The dialogue queries served to the UI (`apps/dialogue/src/server_fns.rs`):
 * loading the corpus, the per-topic summary, one page of a topic's dialogues
 * with an optional text search, and lookup of one dialogue by id.  The corpus
 * is whatever the JSON parser produced for each embedded data file.
 */
module ServerFns {
  import opened Wrappers
  import opened Dialogues
  import Alignment

  // ---------------------------------------------------------------------------
  // load_all_dialogues

  /**
   * The dialogues of every successfully parsed file, in file order: a dialogue
   * is in the result exactly when some parsed file holds it.
   */
  function Flatten(parsed: seq<Result<seq<Dialogue>, string>>): (r: seq<Dialogue>)
    ensures forall d :: d in r <==> exists k :: 0 <= k < |parsed| && parsed[k].Ok? && d in parsed[k].value
    decreases |parsed|
  {
    if |parsed| == 0 then []
    else
      Flatten(parsed[..|parsed| - 1])
      + (match parsed[|parsed| - 1] case Ok(ds) => ds case Err(_) => [])
  }

  /**
   * `load_all_dialogues`: the parsed files are appended one after another;
   * the first file that failed to parse aborts the load with its message.
   */
  method LoadAllDialogues(parsed: seq<Result<seq<Dialogue>, string>>) returns (r: Result<seq<Dialogue>, string>)
    ensures r.Ok? <==> forall k :: 0 <= k < |parsed| ==> parsed[k].Ok?
    ensures r.Ok? ==> r.value == Flatten(parsed)
    ensures r.Err? ==> exists k :: 0 <= k < |parsed| && parsed[k] == Err(r.error) &&
                                   forall j :: 0 <= j < k ==> parsed[j].Ok?
  {
    var all: seq<Dialogue> := [];
    for i := 0 to |parsed|
      invariant forall j :: 0 <= j < i ==> parsed[j].Ok?
      invariant all == Flatten(parsed[..i])
    {
      assert parsed[..i + 1][..i] == parsed[..i];
      match parsed[i] {
        case Err(e) =>
          return Err(e);
        case Ok(dialogues) =>
          all := all + dialogues;
      }
    }
    assert parsed[..|parsed|] == parsed;
    return Ok(all);
  }

  // ---------------------------------------------------------------------------
  // get_topics

  /** How many dialogues belong to topic `id`. */
  function CountTopic(ds: seq<Dialogue>, id: nat): (n: nat)
    ensures n <= |ds|
    ensures n == 0 <==> forall j :: 0 <= j < |ds| ==> ds[j].topicId != id
    decreases |ds|
  {
    if |ds| == 0 then 0
    else CountTopic(ds[..|ds| - 1], id) + (if ds[|ds| - 1].topicId == id then 1 else 0)
  }

  /** The position of the first dialogue of topic `id`. */
  function FirstOfTopic(ds: seq<Dialogue>, id: nat): (r: Option<nat>)
    ensures r.Some? ==> r.value < |ds| && ds[r.value].topicId == id
    ensures r.Some? ==> forall j :: 0 <= j < r.value ==> ds[j].topicId != id
    ensures r.None? ==> forall j :: 0 <= j < |ds| ==> ds[j].topicId != id
    decreases |ds|
  {
    if |ds| == 0 then None
    else
      match FirstOfTopic(ds[..|ds| - 1], id)
      case Some(k) => Some(k)
      case None => if ds[|ds| - 1].topicId == id then Some(|ds| - 1) else None
  }

  /** The topic name carried by the first dialogue of topic `id`. */
  function TopicNameOf(ds: seq<Dialogue>, id: nat): string
  {
    match FirstOfTopic(ds, id)
    case Some(k) => ds[k].topicName
    case None => ""
  }

  /** The sum of the dialogue counts. */
  function SumCounts(topics: seq<TopicSummary>): nat
    decreases |topics|
  {
    if |topics| == 0 then 0 else topics[0].dialogueCount + SumCounts(topics[1..])
  }

  ghost predicate DistinctIds(topics: seq<TopicSummary>)
  {
    forall a, b :: 0 <= a < b < |topics| ==> topics[a].topicId != topics[b].topicId
  }

  ghost predicate StrictlySortedById(topics: seq<TopicSummary>)
  {
    forall a, b :: 0 <= a < b < |topics| ==> topics[a].topicId < topics[b].topicId
  }

  /**
   * Every summary is the true summary of its topic in `ds` (count, name of the
   * first dialogue, at least one dialogue), and every dialogue's topic has a
   * summary.
   */
  ghost predicate Summarizes(topics: seq<TopicSummary>, ds: seq<Dialogue>)
  {
    && (forall t :: t in topics ==>
          && t.dialogueCount == CountTopic(ds, t.topicId)
          && t.dialogueCount > 0
          && t.topicName == TopicNameOf(ds, t.topicId))
    && (forall j :: 0 <= j < |ds| ==> exists t :: t in topics && t.topicId == ds[j].topicId)
  }

  /** The position of the first summary with topic `id`, as the mutable search of `get_topics` finds it. */
  method FindTopic(topics: seq<TopicSummary>, id: nat) returns (r: Option<nat>)
    ensures r.Some? ==> r.value < |topics| && topics[r.value].topicId == id
    ensures r.Some? ==> forall j :: 0 <= j < r.value ==> topics[j].topicId != id
    ensures r.None? ==> forall j :: 0 <= j < |topics| ==> topics[j].topicId != id
  {
    for k := 0 to |topics|
      invariant forall j :: 0 <= j < k ==> topics[j].topicId != id
    {
      if topics[k].topicId == id {
        return Some(k);
      }
    }
    return None;
  }

  /** Insert `x` into a list ordered by topic id, before the first entry with a larger or equal id. */
  function InsertById(x: TopicSummary, s: seq<TopicSummary>): (r: seq<TopicSummary>)
    ensures multiset(r) == multiset(s) + multiset{x}
    ensures SumCounts(r) == x.dialogueCount + SumCounts(s)
    decreases |s|
  {
    if |s| == 0 then [x]
    else if x.topicId <= s[0].topicId then [x] + s
    else
      assert s == [s[0]] + s[1..];
      [s[0]] + InsertById(x, s[1..])
  }

  /**
   * `sort_by_key(|t| t.topic_id)`, an insertion sort.  The library sort is
   * stable; with distinct ids any sort gives this same result.
   */
  function SortById(s: seq<TopicSummary>): (r: seq<TopicSummary>)
    ensures multiset(r) == multiset(s)
    ensures SumCounts(r) == SumCounts(s)
    decreases |s|
  {
    if |s| == 0 then []
    else
      assert s == [s[0]] + s[1..];
      InsertById(s[0], SortById(s[1..]))
  }

  lemma {:induction false} InsertByIdSorted(x: TopicSummary, s: seq<TopicSummary>)
    requires StrictlySortedById(s)
    requires forall t :: t in s ==> t.topicId != x.topicId
    ensures StrictlySortedById(InsertById(x, s))
    decreases |s|
  {
    if |s| > 0 && x.topicId > s[0].topicId {
      var rest := InsertById(x, s[1..]);
      assert StrictlySortedById(s[1..]);
      InsertByIdSorted(x, s[1..]);
      forall t | t in rest
        ensures s[0].topicId < t.topicId
      {
        assert t in multiset(rest);
        assert t in s[1..] || t == x;
      }
    }
  }

  lemma {:induction false} SortByIdSorted(s: seq<TopicSummary>)
    requires DistinctIds(s)
    ensures StrictlySortedById(SortById(s))
    decreases |s|
  {
    if |s| > 0 {
      var rest := SortById(s[1..]);
      SortByIdSorted(s[1..]);
      forall t | t in rest
        ensures t.topicId != s[0].topicId
      {
        assert t in multiset(rest);
        assert t in s[1..];
      }
      InsertByIdSorted(s[0], rest);
    }
  }

  lemma {:induction false} SumCountsAppend(s: seq<TopicSummary>, x: TopicSummary)
    ensures SumCounts(s + [x]) == SumCounts(s) + x.dialogueCount
    decreases |s|
  {
    if |s| > 0 {
      assert (s + [x])[1..] == s[1..] + [x];
      SumCountsAppend(s[1..], x);
    }
  }

  lemma {:induction false} SumCountsIncrement(s: seq<TopicSummary>, k: nat, t: TopicSummary)
    requires k < |s| && t.dialogueCount == s[k].dialogueCount + 1
    ensures SumCounts(s[k := t]) == SumCounts(s) + 1
    decreases |s|
  {
    if k > 0 {
      assert s[k := t][1..] == s[1..][k - 1 := t];
      SumCountsIncrement(s[1..], k - 1, t);
    }
  }

  /** One more dialogue: counts and first names move to the longer list. */
  lemma AppendDialogue(ds: seq<Dialogue>, d: Dialogue, id: nat)
    ensures CountTopic(ds + [d], id) == CountTopic(ds, id) + (if d.topicId == id then 1 else 0)
    ensures FirstOfTopic(ds, id).Some? ==> FirstOfTopic(ds + [d], id) == FirstOfTopic(ds, id)
    ensures FirstOfTopic(ds, id).Some? ==> TopicNameOf(ds + [d], id) == TopicNameOf(ds, id)
    ensures FirstOfTopic(ds, id).None? && d.topicId == id ==> TopicNameOf(ds + [d], id) == d.topicName
  {
    assert (ds + [d])[..|ds|] == ds;
  }

  /** What the accumulation loop of `get_topics` keeps about the dialogues seen so far. */
  ghost predicate Accumulated(topics: seq<TopicSummary>, ds: seq<Dialogue>)
  {
    && DistinctIds(topics)
    && Summarizes(topics, ds)
    && SumCounts(topics) == |ds|
  }

  /** A dialogue of a topic already summarised bumps that topic's count. */
  lemma AccumulateExisting(topics: seq<TopicSummary>, ds: seq<Dialogue>, d: Dialogue, k: nat)
    requires Accumulated(topics, ds)
    requires k < |topics| && topics[k].topicId == d.topicId
    ensures Accumulated(topics[k := TopicSummary(topics[k].topicId, topics[k].topicName, topics[k].dialogueCount + 1)], ds + [d])
  {
    var t := topics[k];
    var after := topics[k := TopicSummary(t.topicId, t.topicName, t.dialogueCount + 1)];
    SumCountsIncrement(topics, k, after[k]);
    forall u | u in after
      ensures u.dialogueCount == CountTopic(ds + [d], u.topicId)
      ensures u.dialogueCount > 0
      ensures u.topicName == TopicNameOf(ds + [d], u.topicId)
    {
      var m :| 0 <= m < |after| && after[m] == u;
      AppendDialogue(ds, d, u.topicId);
      if m != k {
        assert topics[m] == u;
      } else {
        assert t in topics;
      }
    }
    forall j | 0 <= j < |ds + [d]|
      ensures exists u :: u in after && u.topicId == (ds + [d])[j].topicId
    {
      if j < |ds| {
        var u :| u in topics && u.topicId == ds[j].topicId;
        var m :| 0 <= m < |topics| && topics[m] == u;
        assert after[m].topicId == u.topicId;
      } else {
        assert after[k].topicId == d.topicId;
      }
    }
  }

  /** A dialogue of a topic not yet seen adds a summary with count one. */
  lemma AccumulateNew(topics: seq<TopicSummary>, ds: seq<Dialogue>, d: Dialogue)
    requires Accumulated(topics, ds)
    requires forall j :: 0 <= j < |topics| ==> topics[j].topicId != d.topicId
    ensures Accumulated(topics + [TopicSummary(d.topicId, d.topicName, 1)], ds + [d])
  {
    var added := TopicSummary(d.topicId, d.topicName, 1);
    var after := topics + [added];
    SumCountsAppend(topics, added);
    AppendDialogue(ds, d, d.topicId);
    assert CountTopic(ds, d.topicId) == 0 by {
      forall j | 0 <= j < |ds|
        ensures ds[j].topicId != d.topicId
      {
        var u :| u in topics && u.topicId == ds[j].topicId;
      }
    }
    forall u | u in after
      ensures u.dialogueCount == CountTopic(ds + [d], u.topicId)
      ensures u.dialogueCount > 0
      ensures u.topicName == TopicNameOf(ds + [d], u.topicId)
    {
      AppendDialogue(ds, d, u.topicId);
      if u != added {
        assert u in topics;
      }
    }
    forall j | 0 <= j < |ds + [d]|
      ensures exists u :: u in after && u.topicId == (ds + [d])[j].topicId
    {
      if j < |ds| {
        var u :| u in topics && u.topicId == ds[j].topicId;
        assert u in after;
      } else {
        assert added in after;
      }
    }
  }

  /** Sorting the accumulated summaries orders them by id and keeps what they say. */
  lemma SortAccumulated(topics: seq<TopicSummary>, ds: seq<Dialogue>)
    requires Accumulated(topics, ds)
    ensures Summarizes(SortById(topics), ds)
    ensures StrictlySortedById(SortById(topics))
    ensures SumCounts(SortById(topics)) == |ds|
  {
    var sorted := SortById(topics);
    SortByIdSorted(topics);
    forall t | t in sorted
      ensures t in topics
    {
      assert t in multiset(sorted);
    }
    forall j | 0 <= j < |ds|
      ensures exists t :: t in sorted && t.topicId == ds[j].topicId
    {
      var u :| u in topics && u.topicId == ds[j].topicId;
      assert u in multiset(topics);
      assert u in sorted;
    }
  }

  /**
   * `get_topics`: one summary per distinct topic id, with the number of its
   * dialogues and the topic name of its first dialogue, sorted by id; the
   * counts add up to the number of dialogues.
   */
  method GetTopics(dialogues: seq<Dialogue>) returns (topics: seq<TopicSummary>)
    ensures Summarizes(topics, dialogues)
    ensures StrictlySortedById(topics)
    ensures SumCounts(topics) == |dialogues|
  {
    topics := [];
    for i := 0 to |dialogues|
      invariant Accumulated(topics, dialogues[..i])
    {
      var d := dialogues[i];
      ghost var seen := dialogues[..i];
      assert dialogues[..i + 1] == seen + [d];
      var found := FindTopic(topics, d.topicId);
      match found {
        case Some(k) =>
          AccumulateExisting(topics, seen, d, k);
          var t := topics[k];
          topics := topics[k := TopicSummary(t.topicId, t.topicName, t.dialogueCount + 1)];
        case None =>
          AccumulateNew(topics, seen, d);
          topics := topics + [TopicSummary(d.topicId, d.topicName, 1)];
      }
    }
    assert dialogues[..|dialogues|] == dialogues;
    SortAccumulated(topics, dialogues);
    topics := SortById(topics);
  }

  // ---------------------------------------------------------------------------
  // get_dialogues_by_topic

  /** Page sizes: 0 asks for the default of 20, and no page holds more than 100. */
  function EffectivePerPage(perPage: nat): (r: nat)
    ensures 1 <= r <= 100
    ensures perPage == 0 ==> r == 20
    ensures 1 <= perPage ==> r == if perPage <= 100 then perPage else 100
  {
    if perPage == 0 then 20 else if perPage < 100 then perPage else 100
  }

  /** `hay.contains(needle)`: `needle` occurs in `hay` as a contiguous run of characters. */
  predicate ContainsSubstring(hay: string, needle: string)
  {
    exists k: nat :: k <= |hay| && Alignment.MatchesAt(hay, needle, k)
  }

  /** The filter of the query: the topic matches, and an empty search or some utterance containing it. */
  predicate Selected(d: Dialogue, topicId: nat, search: string)
  {
    && d.topicId == topicId
    && (|search| == 0 || exists u :: u in d.utterances && ContainsSubstring(u.utterance, search))
  }

  /** The selected dialogues, in corpus order: exactly the dialogues of `ds` that pass the filter. */
  function FilterDialogues(ds: seq<Dialogue>, topicId: nat, search: string): (r: seq<Dialogue>)
    ensures |r| <= |ds|
    ensures forall d :: d in r <==> d in ds && Selected(d, topicId, search)
    decreases |ds|
  {
    if |ds| == 0 then []
    else
      assert ds == [ds[0]] + ds[1..];
      (if Selected(ds[0], topicId, search) then [ds[0]] else []) + FilterDialogues(ds[1..], topicId, search)
  }

  /**
   * The number of pages: `total` divided by the page size, rounded up.  It is
   * the ceiling of the quotient, and 0 exactly when there is nothing to show.
   */
  function TotalPages(total: nat, perPage: nat): (r: nat)
    requires perPage >= 1
    ensures r * perPage >= total
    ensures r * perPage < total + perPage
    ensures r == 0 <==> total == 0
  {
    var q := (total + perPage - 1) / perPage;
    assert q * perPage + (total + perPage - 1) % perPage == total + perPage - 1;
    q
  }

  /**
   * The requested page, or the last page when it asks for more; 0 when there
   * are no pages.
   */
  function ClampPage(page: nat, totalPages: nat): (r: nat)
    ensures r <= page
    ensures totalPages == 0 ==> r == 0
    ensures totalPages > 0 ==> r < totalPages
    ensures page < totalPages ==> r == page
    ensures page >= totalPages > 0 ==> r == totalPages - 1
  {
    var last := if totalPages >= 1 then totalPages - 1 else 0;
    if page <= last then page else last
  }

  /** `iter.skip(n)`: everything after the first `n` elements, in order. */
  function Skip<T>(s: seq<T>, n: nat): (r: seq<T>)
    ensures |r| == if n <= |s| then |s| - n else 0
    ensures forall k :: 0 <= k < |r| ==> r[k] == s[n + k]
  {
    if n >= |s| then [] else s[n..]
  }

  /** `iter.take(n)`: at most the first `n` elements, in order. */
  function Take<T>(s: seq<T>, n: nat): (r: seq<T>)
    ensures |r| == if n <= |s| then n else |s|
    ensures forall k :: 0 <= k < |r| ==> r[k] == s[k]
  {
    if n >= |s| then s else s[..n]
  }

  lemma MulMonotone(a: nat, b: nat, c: nat)
    requires a <= b
    ensures a * c <= b * c
  {
  }

  /** The first item of the clamped page lies within the selection, strictly so when it is non-empty. */
  lemma ClampPageBounds(total: nat, perPage: nat, page: nat)
    requires perPage >= 1
    ensures ClampPage(page, TotalPages(total, perPage)) * perPage <= total
    ensures total > 0 ==> ClampPage(page, TotalPages(total, perPage)) * perPage < total
  {
    var totalPages := TotalPages(total, perPage);
    var p := ClampPage(page, totalPages);
    if total > 0 {
      MulMonotone(p, totalPages - 1, perPage);
      assert (totalPages - 1) * perPage == totalPages * perPage - perPage;
    }
  }

  /** Skipping `start` and taking `n` is the slice from `start` of length at most `n`. */
  lemma TakeSkipSlice<T>(s: seq<T>, start: nat, n: nat)
    requires start <= |s|
    ensures Take(Skip(s, start), n) == s[start..if start + n <= |s| then start + n else |s|]
  {
  }

  /**
   * `get_dialogues_by_topic`: `per_page` within 1..100, `total` the number of
   * selected dialogues, `total_pages` the ceiling of `total / per_page`, the
   * page clamped to the last page (0 when nothing matches), and the dialogues
   * the slice of the selected ones that the page covers, in corpus order.
   */
  function GetDialoguesByTopic(ds: seq<Dialogue>, topicId: nat, page: nat, perPage: nat, search: string): (r: DialoguePage)
    ensures 1 <= r.perPage <= 100
    ensures perPage == 0 ==> r.perPage == 20
    ensures 1 <= perPage <= 100 ==> r.perPage == perPage
    ensures perPage > 100 ==> r.perPage == 100
    ensures r.total == |FilterDialogues(ds, topicId, search)|
    ensures r.totalPages * r.perPage >= r.total
    ensures r.totalPages * r.perPage < r.total + r.perPage
    ensures r.total == 0 ==> r.page == 0 && r.totalPages == 0
    ensures r.total > 0 ==> r.page < r.totalPages && r.page == if page < r.totalPages then page else r.totalPages - 1
    ensures r.page * r.perPage <= r.total
    ensures r.dialogues == FilterDialogues(ds, topicId, search)[r.page * r.perPage ..
              if r.page * r.perPage + r.perPage <= r.total then r.page * r.perPage + r.perPage else r.total]
    ensures |r.dialogues| <= r.perPage
  {
    var perPage := EffectivePerPage(perPage);
    var filtered := FilterDialogues(ds, topicId, search);
    var total := |filtered|;
    var totalPages := TotalPages(total, perPage);
    ClampPageBounds(total, perPage, page);
    var page := ClampPage(page, totalPages);
    var start := page * perPage;
    TakeSkipSlice(filtered, start, perPage);
    DialoguePage(Take(Skip(filtered, start), perPage), total, page, perPage, totalPages)
  }

  /** The filter keeps corpus order: filtering a concatenation concatenates the filtered parts. */
  lemma {:induction false} FilterDialoguesAppend(a: seq<Dialogue>, b: seq<Dialogue>, topicId: nat, search: string)
    ensures FilterDialogues(a + b, topicId, search) == FilterDialogues(a, topicId, search) + FilterDialogues(b, topicId, search)
    decreases |a|
  {
    if |a| > 0 {
      assert (a + b)[1..] == a[1..] + b;
      FilterDialoguesAppend(a[1..], b, topicId, search);
    } else {
      assert a + b == b;
    }
  }

  /** Every dialogue on the page belongs to the topic and, for a non-empty search, contains it in some utterance. */
  lemma GetDialoguesByTopicSelected(ds: seq<Dialogue>, topicId: nat, page: nat, perPage: nat, search: string)
    ensures forall d :: d in GetDialoguesByTopic(ds, topicId, page, perPage, search).dialogues ==>
              d in ds && d.topicId == topicId &&
              (|search| > 0 ==> exists u :: u in d.utterances && ContainsSubstring(u.utterance, search))
  {
    var r := GetDialoguesByTopic(ds, topicId, page, perPage, search);
    var filtered := FilterDialogues(ds, topicId, search);
    forall d | d in r.dialogues
      ensures d in filtered
    {
      var i :| 0 <= i < |r.dialogues| && r.dialogues[i] == d;
      assert d == filtered[r.page * r.perPage + i];
    }
  }

  /** The index `j` lies on page `j / per_page`, which is never clamped, at position `j % per_page`. */
  lemma PageOfIndex(total: nat, perPage: nat, j: nat)
    requires perPage >= 1 && j < total
    ensures ClampPage(j / perPage, TotalPages(total, perPage)) == j / perPage
    ensures (j / perPage) * perPage + j % perPage == j && j % perPage < perPage
  {
    var q := j / perPage;
    var tp := TotalPages(total, perPage);
    assert q * perPage + j % perPage == j;
    if q >= tp {
      MulMonotone(tp, q, perPage);
    }
  }

  /**
   * The pages partition the selection: the `j`-th selected dialogue is on
   * page `j / per_page`, at position `j % per_page`.
   */
  lemma GetDialoguesByTopicCovers(ds: seq<Dialogue>, topicId: nat, perPage: nat, search: string, j: nat)
    requires j < |FilterDialogues(ds, topicId, search)|
    ensures var pp := EffectivePerPage(perPage);
            var r := GetDialoguesByTopic(ds, topicId, j / pp, perPage, search);
            && r.page == j / pp
            && j % pp < |r.dialogues|
            && r.dialogues[j % pp] == FilterDialogues(ds, topicId, search)[j]
  {
    var pp := EffectivePerPage(perPage);
    var filtered := FilterDialogues(ds, topicId, search);
    PageOfIndex(|filtered|, pp, j);
    var start := (j / pp) * pp;
    TakeSkipSlice(filtered, start, pp);
  }

  // ---------------------------------------------------------------------------
  // get_dialogue

  /** `get_dialogue`: the first dialogue with the given id, or the error "Dialogue not found". */
  function GetDialogue(ds: seq<Dialogue>, dialogueId: nat): (r: Result<Dialogue, string>)
    ensures r.Ok? ==> exists k :: 0 <= k < |ds| && ds[k] == r.value && r.value.dialogueId == dialogueId &&
                                  forall j :: 0 <= j < k ==> ds[j].dialogueId != dialogueId
    ensures r.Err? <==> forall j :: 0 <= j < |ds| ==> ds[j].dialogueId != dialogueId
    ensures r.Err? ==> r.error == "Dialogue not found"
    decreases |ds|
  {
    if |ds| == 0 then Err("Dialogue not found")
    else if ds[0].dialogueId == dialogueId then Ok(ds[0])
    else GetDialogue(ds[1..], dialogueId)
  }
}
