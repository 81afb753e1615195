/** Cursor queries over the index of a channel (chat_history.c:441-452 and 686-743). */
module HistoryQuery {
  import opened Bits
  import opened Wrappers
  import opened HistoryRecord
  import opened HistoryScan

  const MAX_LIMIT: nat := 200
  const DEFAULT_LIMIT: nat := 50
  const LAST_ID: u64 := 0xffff_ffff_ffff_ffff

  predicate Sorted(xs: seq<Idx>) {
    forall i, j :: 0 <= i < j < |xs| ==> xs[i].id < xs[j].id
  }

  // ----- binary search

  /** How many leading entries have an id below the target. */
  function Rank(xs: seq<Idx>, target: nat): (r: nat)
    ensures r <= |xs|
  {
    if xs == [] || xs[0].id >= target then 0 else 1 + Rank(xs[1..], target)
  }

  lemma {:induction false} RankSplits(xs: seq<Idx>, target: nat)
    requires Sorted(xs)
    ensures forall i :: 0 <= i < |xs| ==> (xs[i].id < target <==> i < Rank(xs, target))
    decreases |xs|
  {
    if xs != [] && xs[0].id < target {
      RankSplits(xs[1..], target);
      forall i | 0 <= i < |xs|
        ensures xs[i].id < target <==> i < Rank(xs, target)
      {
        if i > 0 {
          assert xs[i] == xs[1..][i - 1];
        }
      }
    }
  }

  // Where the entries below the target end.
  lemma RankIs(xs: seq<Idx>, target: nat, r: nat)
    requires Sorted(xs) && r <= |xs|
    requires r > 0 ==> xs[r - 1].id < target
    requires r < |xs| ==> xs[r].id >= target
    ensures Rank(xs, target) == r
  {
    hide Rank;
    RankSplits(xs, target);
  }

  /** lm_idx_lower_bound. */
  method LowerBound(xs: seq<Idx>, target: u64) returns (lo: nat)
    requires Sorted(xs)
    ensures lo == Rank(xs, target)
  {
    hide Rank;
    var hi := |xs|;
    lo := 0;
    while lo < hi
      invariant 0 <= lo <= hi <= |xs|
      invariant lo > 0 ==> xs[lo - 1].id < target
      invariant hi < |xs| ==> xs[hi].id >= target
    {
      var mid := lo + (hi - lo) / 2;
      if xs[mid].id < target {
        lo := mid + 1;
      } else {
        hi := mid;
      }
    }
    RankIs(xs, target, lo);
  }

  // ----- the window

  datatype Win = Win(start: nat, end: nat, more: bool)

  /** The limit in force: 0 and everything above 200 mean 50. */
  function Effective(limit: u16): (l: nat)
    ensures 1 <= l <= MAX_LIMIT
  {
    if limit == 0 || limit > MAX_LIMIT then DEFAULT_LIMIT else limit
  }

  /** size_t subtraction. */
  function Sub64(a: u64, b: u64): u64 { if a >= b then a - b else a - b + 0x1_0000_0000_0000_0000 }

  type Log = xs: seq<Idx> | |xs| < 0x1000_0000_0000_0000

  /** The window of index positions the code computes. */
  function Window(xs: Log, before: u64, after: u64, l: nat): Win
    requires 1 <= l <= MAX_LIMIT
  {
    if after != 0 && before != 0 then
      var start, end := Rank(xs, Add64(after, 1)), Rank(xs, before);
      if Sub64(end, start) > l then Win(start, start + l, true) else Win(start, end, false)
    else if after != 0 then
      var start := Rank(xs, Add64(after, 1));
      if start + l >= |xs| then Win(start, |xs|, false) else Win(start, start + l, true)
    else
      var end := if before != 0 then Rank(xs, before) else |xs|;
      var start := if end > l then end - l else 0;
      Win(start, end, start > 0)
  }

  method FindWindow(xs: Log, before: u64, after: u64, limit: u16) returns (w: Win)
    requires Sorted(xs)
    ensures w == Window(xs, before, after, Effective(limit))
  {
    hide Rank;
    var l: nat := limit;
    if l == 0 || l > MAX_LIMIT {
      l := DEFAULT_LIMIT;
    }
    var start, end, more := 0, 0, false;
    if after != 0 && before != 0 {
      start := LowerBound(xs, Add64(after, 1));
      end := LowerBound(xs, before);
      if Sub64(end, start) > l {
        end := start + l;
        more := true;
      }
    } else if after != 0 {
      start := LowerBound(xs, Add64(after, 1));
      end := start + l;
      if end >= |xs| {
        end := |xs|;
      } else {
        more := true;
      }
    } else if before != 0 {
      end := LowerBound(xs, before);
      start := if end > l then end - l else 0;
      if start > 0 {
        more := true;
      }
    } else {
      end := |xs|;
      start := if end > l then end - l else 0;
      if start > 0 {
        more := true;
      }
    }
    w := Win(start, end, more);
  }

  // ----- the specification: filter, then take one end

  predicate Matches(x: Idx, before: u64, after: u64) {
    (after == 0 || x.id > after) && (before == 0 || x.id < before)
  }

  /** The entries within the cursors, oldest first. */
  function Matching(xs: seq<Idx>, before: u64, after: u64): seq<Idx> {
    if xs == [] then []
    else (if Matches(xs[0], before, after) then [xs[0]] else []) + Matching(xs[1..], before, after)
  }

  /** The first l matches with an AFTER cursor, the last l without. */
  function Page(xs: seq<Idx>, before: u64, after: u64, l: nat): seq<Idx> {
    var m := Matching(xs, before, after);
    if |m| <= l then m else if after != 0 then m[..l] else m[|m| - l..]
  }

  /** The window holds exactly this page, and tells whether matches were left out. */
  predicate Right(xs: seq<Idx>, w: Win, before: u64, after: u64, l: nat) {
    w.start <= w.end <= |xs| && xs[w.start..w.end] == Page(xs, before, after, l)
    && (w.more <==> |Matching(xs, before, after)| > l)
  }

  function Lo(xs: seq<Idx>, after: u64): (r: nat)
    ensures r <= |xs|
  {
    if after == 0 then 0 else Rank(xs, after as int + 1)
  }

  function Hi(xs: seq<Idx>, before: u64): (r: nat)
    ensures r <= |xs|
  {
    if before == 0 then |xs| else Rank(xs, before)
  }

  lemma LoHiStep(xs: seq<Idx>, before: u64, after: u64)
    requires Sorted(xs) && xs != []
    ensures Sorted(xs[1..])
    ensures if after != 0 && xs[0].id <= after then Lo(xs, after) == 1 + Lo(xs[1..], after)
            else Lo(xs, after) == 0 && Lo(xs[1..], after) == 0
    ensures if before == 0 || xs[0].id < before then Hi(xs, before) == 1 + Hi(xs[1..], before)
            else Hi(xs, before) == 0 && Hi(xs[1..], before) == 0
  {
    var t := xs[1..];
    assert forall i :: 0 <= i < |t| ==> t[i] == xs[i + 1];
    assert t != [] ==> xs[0].id < t[0].id;
  }

  /** Positions lo to hi, none if they cross. */
  function Cut(xs: seq<Idx>, lo: nat, hi: nat): seq<Idx>
    requires hi <= |xs|
  {
    if lo < hi then xs[lo..hi] else []
  }

  lemma CutNone(xs: seq<Idx>, lo: nat)
    ensures Cut(xs, lo, 0) == []
  {
  }

  lemma CutStep(xs: seq<Idx>, lo: nat, hi: nat)
    requires xs != [] && hi <= |xs|
    ensures 0 < lo && 0 < hi ==> Cut(xs, lo, hi) == Cut(xs[1..], lo - 1, hi - 1)
    ensures 0 < hi ==> Cut(xs, 0, hi) == [xs[0]] + Cut(xs[1..], 0, hi - 1)
  {
    var t := xs[1..];
    assert forall i :: 0 <= i < |t| ==> t[i] == xs[i + 1];
  }

  lemma MatchingStep(xs: seq<Idx>, before: u64, after: u64)
    ensures xs == [] ==> Matching(xs, before, after) == []
    ensures xs != [] ==>
      Matching(xs, before, after)
      == if Matches(xs[0], before, after) then [xs[0]] + Matching(xs[1..], before, after) else Matching(xs[1..], before, after)
  {
    hide Matches;
  }

  /** In a sorted log the matches are one stretch. */
  lemma {:induction false} MatchingIsSlice(xs: seq<Idx>, before: u64, after: u64)
    requires Sorted(xs)
    ensures Matching(xs, before, after) == Cut(xs, Lo(xs, after), Hi(xs, before))
    decreases |xs|
  {
    hide Sorted, Lo, Hi, Cut, Matching;
    MatchingStep(xs, before, after);
    CutNone(xs, Lo(xs, after));
    if xs != [] {
      LoHiStep(xs, before, after);
      MatchingIsSlice(xs[1..], before, after);
      CutStep(xs, Lo(xs, after), Hi(xs, before));
      CutNone(xs[1..], Lo(xs[1..], after));
    }
  }

  /** When the code computes the page: AFTER must not be the largest number, for AFTER + 1 wraps
      to 0, and a range must not be turned around with entries between its ends; in both cases
      the code is right only if it has nothing to find. */
  predicate Proper(xs: seq<Idx>, before: u64, after: u64) {
    if after == LAST_ID then (if before == 0 then xs == [] else Rank(xs, before) == 0)
    else after != 0 && before != 0 ==> Rank(xs, after + 1) <= Rank(xs, before)
  }

  /** A query equals the filter exactly in these cases. */
  lemma QueryIsFilter(xs: Log, before: u64, after: u64, l: nat)
    requires Sorted(xs) && 1 <= l <= MAX_LIMIT
    ensures Right(xs, Window(xs, before, after, l), before, after, l) <==> Proper(xs, before, after)
  {
    hide *;
    if after == LAST_ID {
      LargestCursor(xs, before, l);
    } else if after != 0 && before != 0 {
      RangeCursor(xs, before, after, l);
    } else {
      OneCursor(xs, before, after, l);
    }
  }

  lemma OneCursor(xs: Log, before: u64, after: u64, l: nat)
    requires Sorted(xs) && 1 <= l <= MAX_LIMIT && after != LAST_ID && (after == 0 || before == 0)
    ensures Right(xs, Window(xs, before, after, l), before, after, l) && Proper(xs, before, after)
  {
    hide Rank, Matching;
    MatchingIsSlice(xs, before, after);
    var w := Window(xs, before, after, l);
    var lo, hi := Lo(xs, after), Hi(xs, before);
    if lo < hi {
      Stretch(xs, lo, hi, l);
    } else {
      assert xs[w.start..w.end] == [];
    }
  }

  lemma Stretch(xs: seq<Idx>, lo: nat, hi: nat, l: nat)
    requires lo <= hi <= |xs|
    ensures var m := xs[lo..hi]; |m| > l ==> m[..l] == xs[lo..lo + l] && m[|m| - l..] == xs[hi - l..hi]
  {
  }

  lemma RankZero(xs: seq<Idx>)
    ensures Rank(xs, 0) == 0
  {
  }

  lemma RankAll(xs: seq<Idx>)
    requires Sorted(xs)
    ensures Rank(xs, 0x1_0000_0000_0000_0000) == |xs|
  {
    RankIs(xs, 0x1_0000_0000_0000_0000, |xs|);
  }

  lemma LargestCursor(xs: Log, before: u64, l: nat)
    requires Sorted(xs) && 1 <= l <= MAX_LIMIT
    ensures Right(xs, Window(xs, before, LAST_ID, l), before, LAST_ID, l) <==> Proper(xs, before, LAST_ID)
  {
    hide Rank, Matching;
    MatchingIsSlice(xs, before, LAST_ID);
    RankZero(xs);
    RankAll(xs);
  }

  lemma RangeCursor(xs: Log, before: u64, after: u64, l: nat)
    requires Sorted(xs) && 1 <= l <= MAX_LIMIT && after != LAST_ID && after != 0 && before != 0
    ensures Right(xs, Window(xs, before, after, l), before, after, l) <==> Proper(xs, before, after)
  {
    hide Rank, Matching;
    MatchingIsSlice(xs, before, after);
  }

  lemma {:induction false} RankMonotone(xs: seq<Idx>, a: nat, b: nat)
    requires a <= b
    ensures Rank(xs, a) <= Rank(xs, b)
    decreases |xs|
  {
    if xs != [] && xs[0].id < a {
      RankMonotone(xs[1..], a, b);
    }
  }

  /** AFTER is not the largest number and a range is the right way around. */
  predicate Safe(before: u64, after: u64) {
    after != LAST_ID && (after != 0 && before != 0 ==> after < before)
  }

  lemma SafeCursors(xs: Log, before: u64, after: u64, l: nat)
    requires Sorted(xs) && 1 <= l <= MAX_LIMIT && Safe(before, after)
    ensures Right(xs, Window(xs, before, after, l), before, after, l)
  {
    hide Rank, Right, Window;
    if after != 0 && before != 0 {
      RankMonotone(xs, after + 1, before);
    }
    QueryIsFilter(xs, before, after, l);
  }

  /** Every sorted log is answered right. */
  ghost predicate AlwaysRight(before: u64, after: u64, l: nat)
    requires 1 <= l <= MAX_LIMIT
  {
    forall xs: Log :: Sorted(xs) ==> Right(xs, Window(xs, before, after, l), before, after, l)
  }

  /** A caller who does not know the log is answered right exactly with these cursors. */
  lemma AlwaysRightIffSafe(before: u64, after: u64, l: nat)
    requires 1 <= l <= MAX_LIMIT
    ensures AlwaysRight(before, after, l) <==> Safe(before, after)
  {
    hide Rank, Right, Window, Sorted;
    if Safe(before, after) {
      forall xs: Log | Sorted(xs)
        ensures Right(xs, Window(xs, before, after, l), before, after, l)
      {
        SafeCursors(xs, before, after, l);
      }
    } else {
      var id: u64 := if after != LAST_ID then before else if before == 0 then 7 else before - 1;
      OneEntry(id, after, before);
      QueryIsFilter([Idx(id, 0, 10)], before, after, l);
    }
  }

  lemma OneEntry(id: u64, after: u64, before: u64)
    ensures var xs := [Idx(id, 0, 10)];
            && Sorted(xs) && Rank(xs, before) == (if id < before then 1 else 0)
            && (after < LAST_ID ==> Rank(xs, after + 1) == if id <= after then 1 else 0)
  {
    var xs := [Idx(id, 0, 10)];
    assert xs[1..] == [];
  }

  /** A turned range that finds an entry reads past the end of the index. */
  lemma TurnedRange()
    ensures var xs := [Idx(7, 0, 10)]; Window(xs, 7, 7, 50).end > |xs|
  {
    OneEntry(7, 7, 7);
  }

  /** After the largest number comes the first entry. */
  lemma LargestAfter()
    ensures var xs := [Idx(7, 0, 10)];
            Window(xs, 0, LAST_ID, 50) == Win(0, 1, false) && Page(xs, 0, LAST_ID, 50) == []
  {
    var xs := [Idx(7, 0, 10)];
    assert Rank(xs, 0) == 0 && xs[1..] == [] && Matching(xs[1..], 0, LAST_ID) == [];
  }

  /** The header says that a limit is clamped to 200: so it is exactly up to 200; above, it becomes 50. */
  lemma LimitClamped(limit: u16)
    requires limit > 0
    ensures Effective(limit) == (if limit > MAX_LIMIT then MAX_LIMIT else limit) <==> limit <= MAX_LIMIT
    ensures Effective(201) == 50
  {
  }

  // ----- paging

  /** The entries a query returns (none when the window is not one of the log). */
  function Fetch(xs: Log, before: u64, after: u64, l: nat): seq<Idx>
    requires 1 <= l <= MAX_LIMIT
  {
    var w := Window(xs, before, after, l);
    if w.start <= w.end <= |xs| then xs[w.start..w.end] else []
  }

  function More(xs: Log, before: u64, after: u64, l: nat): bool
    requires 1 <= l <= MAX_LIMIT
  {
    Window(xs, before, after, l).more
  }

  /** Scrolling back: each query uses the first id of the page before it; the log may be a
      different one at each query. None if the queries end before the last page. */
  function Back(logs: seq<Log>, before: u64, l: nat): Option<seq<Idx>>
    requires 1 <= l <= MAX_LIMIT
  {
    if logs == [] then None
    else
      var page := Fetch(logs[0], before, 0, l);
      if !More(logs[0], before, 0, l) || page == [] then Some(page)
      else
        var older := Back(logs[1..], page[0].id, l);
        if older.None? then None else Some(older.value + page)
  }

  /** Logs that only grow at the end. */
  predicate Growing(logs: seq<Log>) {
    && (forall i :: 0 <= i < |logs| ==> Sorted(logs[i]))
    && (forall i :: 0 <= i < |logs| - 1 ==> logs[i] <= logs[i + 1])
  }

  lemma BackPage(xs: Log, n: nat, before: u64, l: nat)
    requires Sorted(xs) && 1 <= l <= MAX_LIMIT && n <= |xs|
    requires if before == 0 then n == |xs| else n < |xs| && xs[n].id == before
    ensures Fetch(xs, before, 0, l) == xs[if n > l then n - l else 0..n]
    ensures More(xs, before, 0, l) <==> n > l
  {
    hide Rank;
    if before != 0 {
      assert n > 0 ==> xs[n - 1].id < xs[n].id;
      RankIs(xs, before, n);
    }
  }

  lemma {:induction false} BackRun(logs: seq<Log>, xs: Log, n: nat, before: u64, l: nat)
    requires Growing(logs) && 1 <= l <= MAX_LIMIT && logs != []
    requires Sorted(xs) && n <= |xs| && xs <= logs[0] && (|xs| > 0 ==> xs[0].id > 0)
    requires if before == 0 then n == |xs| && logs[0] == xs else n < |xs| && xs[n].id == before
    requires n <= |logs| * l
    ensures Back(logs, before, l) == Some(xs[..n])
    decreases |logs|
  {
    hide Fetch, More, Sorted;
    var now := logs[0];
    BackPage(now, n, before, l);
    var page := Fetch(now, before, 0, l);
    if n <= l {
      assert page == xs[..n];
    } else {
      assert page == xs[n - l..n];
      var rest := logs[1..];
      OneMore(|logs|, l);
      RestGrows(logs);
      assert page[0] == xs[n - l];
      LaterIds(xs, n - l);
      BackRun(rest, xs, n - l, page[0].id, l);
      assert xs[..n - l] + page == xs[..n];
    }
  }

  lemma OneMore(q: nat, l: nat)
    requires q > 0
    ensures q * l == (q - 1) * l + l && (q * l > l ==> q >= 2)
  {
  }

  lemma RestGrows(logs: seq<Log>)
    requires Growing(logs) && |logs| >= 2
    ensures Growing(logs[1..]) && logs[0] <= logs[1..][0]
  {
    hide Sorted;
    var rest := logs[1..];
    assert logs[0] <= logs[0 + 1];
    forall i | 0 <= i < |rest| - 1
      ensures rest[i] <= rest[i + 1]
    {
      assert logs[i + 1] <= logs[i + 1 + 1];
    }
  }

  lemma LaterIds(xs: seq<Idx>, i: nat)
    requires Sorted(xs) && i < |xs| && xs[0].id > 0
    ensures xs[i].id > 0
  {
  }

  /** Scrolling back from the newest entry visits every entry of the first log exactly once and
      stops, within ceil(n / l) queries, whatever is appended in between. */
  lemma PagingBack(logs: seq<Log>, l: nat)
    requires Growing(logs) && 1 <= l <= MAX_LIMIT && logs != [] && (logs[0] != [] ==> logs[0][0].id > 0)
    requires |logs[0]| <= |logs| * l
    ensures Back(logs, 0, l) == Some(logs[0])
  {
    hide Back;
    BackRun(logs, logs[0], |logs[0]|, 0, l);
    assert logs[0][..|logs[0]|] == logs[0];
  }

  /** Scrolling forward on a fixed log: each query uses the last id of the page before it. */
  function Forward(xs: Log, after: u64, l: nat, queries: nat): Option<seq<Idx>>
    requires 1 <= l <= MAX_LIMIT
    decreases queries
  {
    if queries == 0 then None
    else
      var page := Fetch(xs, 0, after, l);
      if !More(xs, 0, after, l) || page == [] then Some(page)
      else
        var newer := Forward(xs, page[|page| - 1].id, l, queries - 1);
        if newer.None? then None else Some(page + newer.value)
  }

  lemma ForwardPage(xs: Log, n: nat, after: u64, l: nat)
    requires Sorted(xs) && 1 <= l <= MAX_LIMIT && 0 < after < LAST_ID && n == Rank(xs, after + 1)
    ensures Fetch(xs, 0, after, l) == xs[n..if n + l >= |xs| then |xs| else n + l]
    ensures More(xs, 0, after, l) <==> n + l < |xs|
  {
    hide Rank;
  }

  lemma {:induction false} ForwardRun(xs: Log, n: nat, after: u64, l: nat, queries: nat)
    requires Sorted(xs) && 1 <= l <= MAX_LIMIT && 0 < after < LAST_ID && n == Rank(xs, after + 1)
    requires queries > 0 && |xs| - n <= queries * l
    ensures Forward(xs, after, l, queries) == Some(xs[n..])
    decreases queries
  {
    hide Fetch, More, Rank;
    ForwardPage(xs, n, after, l);
    var page := Fetch(xs, 0, after, l);
    if n + l >= |xs| {
      assert page == xs[n..];
    } else {
      var m := n + l;
      assert page == xs[n..m];
      assert page[|page| - 1] == xs[m - 1];
      assert xs[m - 1].id < xs[m].id;
      NextRank(xs, m);
      RankSplits(xs, after + 1);
      OneMore(queries, l);
      ForwardRun(xs, m, xs[m - 1].id, l, queries - 1);
      assert page + xs[m..] == xs[n..];
    }
  }

  lemma NextRank(xs: seq<Idx>, m: nat)
    requires Sorted(xs) && 0 < m < |xs|
    ensures Rank(xs, xs[m - 1].id + 1) == m
  {
    hide Rank;
    assert xs[m - 1].id < xs[m].id;
    RankIs(xs, xs[m - 1].id + 1, m);
  }

  /** Scrolling forward visits every entry newer than the cursor exactly once and stops. */
  lemma PagingForward(xs: Log, after: u64, l: nat, queries: nat)
    requires Sorted(xs) && 1 <= l <= MAX_LIMIT && 0 < after < LAST_ID
    requires queries > 0 && |xs| <= queries * l
    ensures Forward(xs, after, l, queries) == Some(Matching(xs, 0, after))
  {
    hide Forward, Rank, Matching;
    ForwardRun(xs, Rank(xs, after + 1), after, l, queries);
    MatchingIsSlice(xs, 0, after);
    var lo := Rank(xs, after + 1);
    assert xs[lo..|xs|] == xs[lo..];
    assert lo == |xs| ==> xs[lo..] == [];
  }
}
