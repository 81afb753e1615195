/** Scanning a channel file at startup, and repairing it after a crash
    (chat_history.c:322-374), and the tombstone sidecar (377-394). */
module HistoryScan {
  import opened Bits
  import opened Wrappers
  import opened Text
  import opened HistoryRecord

  /** lm_chat_idx_entry_t */
  datatype Idx = Idx(id: u64, offset: nat, length: nat)

  // ----- fgets

  function Fgets(s: Str, size: nat): (r: Str)
    ensures r <= s && (size > 0 ==> |r| < size)
    ensures s != [] && size > 1 ==> r != []
    ensures forall i :: 0 <= i < |r| - 1 ==> r[i] != NEWLINE
  {
    if s == [] || size <= 1 then []
    else if s[0] == NEWLINE then [s[0]]
    else [s[0]] + Fgets(s[1..], size - 1)
  }

  predicate NoNewline(a: Str) { forall i :: 0 <= i < |a| ==> a[i] != NEWLINE }

  lemma UnbrokenLine(a: Str)
    requires Unbroken(a)
    ensures NoNewline(a)
  {
  }

  lemma {:induction false} FgetsLine(a: Str, rest: Str, size: nat)
    requires NoNewline(a) && |a| + 1 < size
    ensures Fgets(a + [NEWLINE] + rest, size) == a + [NEWLINE]
    decreases |a|
  {
    var s := a + [NEWLINE] + rest;
    if a == [] {
      assert s[0] == NEWLINE;
    } else {
      assert s[0] == a[0] && s[1..] == a[1..] + [NEWLINE] + rest;
      FgetsLine(a[1..], rest, size - 1);
      assert [a[0]] + (a[1..] + [NEWLINE]) == a + [NEWLINE];
    }
  }

  lemma {:induction false} FgetsFull(a: Str, rest: Str, size: nat)
    requires NoNewline(a) && |a| + 1 == size
    ensures Fgets(a + rest, size) == a
    decreases |a|
  {
    if a != [] {
      assert (a + rest)[0] == a[0] && (a + rest)[1..] == a[1..] + rest;
      FgetsFull(a[1..], rest, size - 1);
      assert [a[0]] + a[1..] == a;
    }
  }

  lemma {:induction false} FgetsTorn(a: Str, size: nat)
    requires NoNewline(a) && |a| < size
    ensures Fgets(a, size) == a
    decreases |a|
  {
    if a != [] {
      FgetsTorn(a[1..], size - 1);
      assert [a[0]] + a[1..] == a;
    }
  }

  // ----- the lines of a file

  /** A line the scan accepts. */
  predicate GoodLine(l: Str) { IsLine(l) && |l| < LINE_MAX && GetU64(l, ID).Some? }

  function IdOf(l: Str): u64
    requires GoodLine(l)
  {
    GetU64(l, ID).value
  }

  predicate AllGood(lines: seq<Str>) { forall i :: 0 <= i < |lines| ==> GoodLine(lines[i]) }

  /** The good lines a file begins with. */
  function LinesOf(file: Str): (lines: seq<Str>)
    ensures AllGood(lines)
  {
    var chunk := Fgets(file, LINE_MAX);
    if file == [] || !GoodLine(chunk) then [] else [chunk] + LinesOf(file[|chunk|..])
  }

  /** The index of these lines, the first one at offset base. */
  function IndexOf(lines: seq<Str>, base: nat): (r: seq<Idx>)
    requires AllGood(lines)
    ensures |r| == |lines|
    decreases |lines|
  {
    if lines == [] then []
    else [Idx(IdOf(lines[0]), base, |lines[0]|)] + IndexOf(lines[1..], base + |lines[0]|)
  }

  lemma OneLine(l: Str, base: nat)
    ensures Concat([l]) == l
    ensures GoodLine(l) ==> IndexOf([l], base) == [Idx(IdOf(l), base, |l|)]
  {
    hide GoodLine;
    var one := [l];
    var none := one[1..];
    assert none == [];
    assert Concat(none) == [];
    if GoodLine(l) {
      assert IndexOf(none, base + |l|) == [];
    }
  }

  lemma NoLines()
    ensures Concat([]) == [] && LinesOf([]) == []
  {
  }

  lemma {:induction false} ConcatSplit(a: seq<Str>, b: seq<Str>)
    ensures Concat(a + b) == Concat(a) + Concat(b)
    decreases |a|
  {
    if a == [] {
      assert a + b == b;
    } else {
      ConcatSplit(a[1..], b);
      assert (a + b)[1..] == a[1..] + b;
      assert (a + b)[0] == a[0];
      assert a[0] + (Concat(a[1..]) + Concat(b)) == (a[0] + Concat(a[1..])) + Concat(b);
    }
  }

  lemma First(l: Str, lines: seq<Str>, base: nat)
    ensures Concat([l] + lines) == l + Concat(lines)
    ensures AllGood([l] + lines) <==> GoodLine(l) && AllGood(lines)
    ensures AllGood([l] + lines) ==> IndexOf([l] + lines, base) == [Idx(IdOf(l), base, |l|)] + IndexOf(lines, base + |l|)
  {
    hide GoodLine, IdOf;
    assert ([l] + lines)[1..] == lines;
    if AllGood([l] + lines) {
      assert ([l] + lines)[0] == l;
      assert forall i :: 0 <= i < |lines| ==> lines[i] == ([l] + lines)[i + 1];
    }
  }

  lemma {:induction false} IndexSplit(a: seq<Str>, b: seq<Str>, base: nat)
    requires AllGood(a) && AllGood(b)
    ensures AllGood(a + b)
    ensures IndexOf(a + b, base) == IndexOf(a, base) + IndexOf(b, base + |Concat(a)|)
    decreases |a|
  {
    hide GoodLine, IdOf, AllGood, IndexOf, Concat;
    if a == [] {
      NoLines();
      assert a + b == b;
    } else {
      var rest := a[1..];
      assert a == [a[0]] + rest;
      First(a[0], rest, base);
      IndexSplit(rest, b, base + |a[0]|);
      assert a + b == [a[0]] + (rest + b);
      First(a[0], rest + b, base);
    }
  }

  lemma GoodParts(lines: seq<Str>, i: nat)
    requires AllGood(lines) && i <= |lines|
    ensures AllGood(lines[..i]) && AllGood(lines[i..])
  {
    hide GoodLine;
  }

  /** The index tiles the file: entry i begins where the lines before it end, and its bytes are line i. */
  lemma IndexTiles(lines: seq<Str>, i: nat)
    requires AllGood(lines) && i < |lines|
    ensures var x := IndexOf(lines, 0)[i];
            && x.id == IdOf(lines[i]) && x.offset == |Concat(lines[..i])| && x.length == |lines[i]|
            && x.offset + x.length == |Concat(lines[..i + 1])| <= |Concat(lines)|
            && Concat(lines)[x.offset..x.offset + x.length] == lines[i]
  {
    hide GoodLine, AllGood;
    var a, b := lines[..i], lines[i..];
    assert lines == a + b && b[0] == lines[i];
    GoodParts(lines, i);
    IndexSplit(a, b, 0);
    ConcatSplit(a, b);
    ConcatSplit(a, [lines[i]]);
    assert lines[..i + 1] == a + [lines[i]];
    OneLine(lines[i], 0);
    assert Concat(b) == lines[i] + Concat(b[1..]);
  }

  // ----- crash recovery

  /** How many lines lie entirely within the first n bytes. */
  function Complete(lines: seq<Str>, n: nat): (k: nat)
    ensures k <= |lines|
    decreases |lines|
  {
    if lines == [] || |lines[0]| > n then 0 else 1 + Complete(lines[1..], n - |lines[0]|)
  }

  /** Complete is the largest such number. */
  lemma {:induction false} CompleteIsMost(lines: seq<Str>, n: nat)
    ensures var k := Complete(lines, n);
            && |Concat(lines[..k])| <= n
            && (k < |lines| ==> n < |Concat(lines[..k + 1])|)
    decreases |lines|
  {
    var k := Complete(lines, n);
    if lines == [] || |lines[0]| > n {
      assert lines[..0] == [];
      if lines != [] {
        assert lines[..1] == [lines[0]];
        OneLine(lines[0], 0);
      }
    } else {
      CompleteIsMost(lines[1..], n - |lines[0]|);
      assert lines[..k][0] == lines[0] && lines[..k][1..] == lines[1..][..k - 1];
      if k < |lines| {
        assert lines[..k + 1][0] == lines[0] && lines[..k + 1][1..] == lines[1..][..k];
      }
    }
  }

  lemma FirstLine(l: Str, rest: Str)
    requires GoodLine(l)
    ensures LinesOf(l + rest) == [l] + LinesOf(rest)
  {
    hide GetU64;
    var a := l[..|l| - 1];
    assert l == a + [NEWLINE];
    FgetsLine(a, rest, LINE_MAX);
    assert (l + rest)[|l|..] == rest;
  }

  lemma TornLine(l: Str, n: nat)
    requires GoodLine(l) && n < |l|
    ensures LinesOf(l[..n]) == []
  {
    hide GetU64;
    var a := l[..n];
    assert Unbroken(a);
    FgetsTorn(a, LINE_MAX);
  }

  /** A file of good lines, cut at any byte: the scan finds exactly the complete lines. */
  lemma {:induction false} CutFile(lines: seq<Str>, n: nat)
    requires AllGood(lines) && n <= |Concat(lines)|
    ensures LinesOf(Concat(lines)[..n]) == lines[..Complete(lines, n)]
    decreases |lines|
  {
    hide GoodLine, LinesOf;
    var file := Concat(lines);
    if lines == [] {
      NoLines();
    } else if |lines[0]| > n {
      assert file[..n] == lines[0][..n];
      TornLine(lines[0], n);
      assert lines[..0] == [];
    } else {
      var rest := lines[1..];
      var m := n - |lines[0]|;
      assert AllGood(rest) by {
        assert forall i :: 0 <= i < |rest| ==> rest[i] == lines[i + 1];
      }
      CutFile(rest, m);
      assert file[..n] == lines[0] + Concat(rest)[..m];
      FirstLine(lines[0], Concat(rest)[..m]);
      assert [lines[0]] + rest[..Complete(rest, m)] == lines[..1 + Complete(rest, m)];
    }
  }

  lemma {:induction false} CompleteAll(lines: seq<Str>)
    ensures Complete(lines, |Concat(lines)|) == |lines|
    decreases |lines|
  {
    if lines != [] {
      CompleteAll(lines[1..]);
    }
  }

  /** A file of good lines is read as those lines. */
  lemma LinesOfConcat(lines: seq<Str>)
    requires AllGood(lines)
    ensures LinesOf(Concat(lines)) == lines
  {
    hide GoodLine, LinesOf;
    CutFile(lines, |Concat(lines)|);
    CompleteAll(lines);
    assert Concat(lines)[..|Concat(lines)|] == Concat(lines) && lines[..|lines|] == lines;
  }

  lemma ConcatFirst(l: Str, lines: seq<Str>)
    ensures Concat([l] + lines) == l + Concat(lines)
    ensures lines == [] ==> Concat(lines) == []
  {
    assert ([l] + lines)[1..] == lines;
  }

  /** What the scan keeps of a file is a prefix of it, and the first byte behind it does not
      begin another good line. */
  lemma {:induction false} KeptPrefix(file: Str)
    ensures Concat(LinesOf(file)) <= file
    ensures LinesOf(file[|Concat(LinesOf(file))|..]) == []
    decreases |file|
  {
    hide GoodLine, Fgets, Concat;
    var chunk := Fgets(file, LINE_MAX);
    if file == [] || !GoodLine(chunk) {
      assert file[0..] == file;
      ConcatFirst([], LinesOf(file));
    } else {
      var rest := file[|chunk|..];
      KeptPrefix(rest);
      ConcatFirst(chunk, LinesOf(rest));
      var kept := Concat(LinesOf(rest));
      assert file == chunk + rest;
      assert file[|chunk| + |kept|..] == rest[|kept|..];
    }
  }

  function MaxId(lines: seq<Str>, m: u64): (r: u64)
    requires AllGood(lines)
    ensures r >= m
    decreases |lines|
  {
    if lines == [] then m else MaxId(lines[1..], if IdOf(lines[0]) > m then IdOf(lines[0]) else m)
  }

  lemma {:induction false} MaxIdIsMost(lines: seq<Str>, m: u64)
    requires AllGood(lines)
    ensures var r := MaxId(lines, m);
            && (forall i :: 0 <= i < |lines| ==> IdOf(lines[i]) <= r)
            && (r == m || exists i :: 0 <= i < |lines| && IdOf(lines[i]) == r)
    decreases |lines|
  {
    hide GoodLine, IdOf;
    if lines != [] {
      var rest := lines[1..];
      var m' := if IdOf(lines[0]) > m then IdOf(lines[0]) else m;
      assert forall i :: 0 <= i < |rest| ==> rest[i] == lines[i + 1];
      MaxIdIsMost(rest, m');
      var r := MaxId(lines, m);
      forall i | 0 <= i < |lines|
        ensures IdOf(lines[i]) <= r
      {
        if i > 0 {
          assert IdOf(rest[i - 1]) <= r;
        }
      }
      if r != m && r != IdOf(lines[0]) {
        var i :| 0 <= i < |rest| && IdOf(rest[i]) == r;
        assert IdOf(lines[i + 1]) == r;
      }
    }
  }

  // ----- the scan loop

  function StrLen(s: Str): (n: nat)
    ensures n <= |s| && (n < |s| ==> s[n] == 0)
    ensures forall i :: 0 <= i < n ==> s[i] != 0
  {
    if s == [] || s[0] == 0 then 0 else 1 + StrLen(s[1..])
  }

  // The test of the scan: the C string ends in a newline.
  lemma CompleteTest(chunk: Str)
    requires forall i :: 0 <= i < |chunk| - 1 ==> chunk[i] != NEWLINE
    ensures var n := StrLen(chunk);
            n > 0 && chunk[n - 1] == NEWLINE <==> IsLine(chunk)
    ensures IsLine(chunk) ==> StrLen(chunk) == |chunk|
  {
    hide StrLen, Unbroken;
    var n := StrLen(chunk);
    if n < |chunk| {
      NulBreaks(chunk[..|chunk| - 1], n);
    } else if n > 0 {
      FrontUnbroken(chunk[..n - 1]);
    }
  }

  lemma NulBreaks(s: Str, n: nat)
    ensures n < |s| && s[n] == 0 ==> !Unbroken(s)
  {
  }

  lemma FrontUnbroken(s: Str)
    requires forall i :: 0 <= i < |s| ==> s[i] != NEWLINE && s[i] != 0
    ensures Unbroken(s)
  {
  }

  /** lm_channel_scan of an existing file: the index, the file after the repair, and the
      largest id seen so far. */
  method ChannelScan(file: Str, maxId: u64) returns (entries: seq<Idx>, repaired: Str, newMax: u64)
    ensures entries == IndexOf(LinesOf(file), 0)
    ensures repaired == Concat(LinesOf(file))
    ensures newMax == MaxId(LinesOf(file), maxId)
  {
    hide *;
    entries, newMax := [], maxId;
    var pos, lastGood := 0, 0;
    var corrupted := false;
    ghost var seen: seq<Str> := [];
    BeforeScan(file, maxId);
    while pos < |file|
      invariant 0 <= pos <= |file| && lastGood == pos
      invariant AllGood(seen) && LinesOf(file) == seen + LinesOf(file[pos..])
      invariant Concat(seen) == file[..pos]
      invariant entries == IndexOf(seen, 0) && newMax == MaxId(seen, maxId)
    {
      var start := pos;
      var line := Fgets(file[pos..], LINE_MAX);
      var len := StrLen(line);
      CompleteTest(line);
      ScanTurn(file, pos, seen, maxId);
      if len == 0 || line[len - 1] != NEWLINE {
        corrupted := true;
        break;
      }
      var id := GetU64(line, ID);
      if id.None? {
        corrupted := true;
        break;
      }
      entries := entries + [Idx(id.value, start, len)];
      if id.value > newMax {
        newMax := id.value;
      }
      seen := seen + [line];
      lastGood := start + len;
      pos := pos + |line|;
    }
    AtEnd(file, pos);
    assert seen + [] == seen;
    if corrupted {
      repaired := file[..lastGood];
    } else {
      repaired := file;
      assert file[..pos] == file;
    }
  }

  lemma BeforeScan(file: Str, maxId: u64)
    ensures AllGood([]) && [] + LinesOf(file[0..]) == LinesOf(file)
    ensures Concat([]) == file[..0] && IndexOf([], 0) == [] && MaxId([], maxId) == maxId
  {
    hide LinesOf;
    assert file[0..] == file;
  }

  lemma AtEnd(file: Str, pos: nat)
    requires pos <= |file|
    ensures pos == |file| ==> LinesOf(file[pos..]) == []
  {
  }

  lemma {:induction false} MaxIdSnoc(lines: seq<Str>, l: Str, m: u64)
    requires AllGood(lines) && GoodLine(l)
    ensures AllGood(lines + [l]) && MaxId(lines + [l], m) == if IdOf(l) > MaxId(lines, m) then IdOf(l) else MaxId(lines, m)
    decreases |lines|
  {
    hide GoodLine;
    if lines == [] {
      assert MaxId([l][1..], IdOf(l)) == IdOf(l) && MaxId([l][1..], m) == m;
    } else {
      assert forall i :: 0 <= i < |lines[1..]| ==> lines[1..][i] == lines[i + 1];
      MaxIdSnoc(lines[1..], l, if IdOf(lines[0]) > m then IdOf(lines[0]) else m);
      assert (lines + [l])[1..] == lines[1..] + [l];
    }
  }

  // One turn: the chunk is the next good line, or the scan ends here.
  lemma ScanTurn(file: Str, pos: nat, seen: seq<Str>, maxId: u64)
    requires pos < |file| && AllGood(seen) && Concat(seen) == file[..pos]
    ensures var l := Fgets(file[pos..], LINE_MAX);
            && |l| <= |file| - pos && |l| > 0
            && (forall i :: 0 <= i < |l| - 1 ==> l[i] != NEWLINE)
            && (!IsLine(l) || GetU64(l, ID).None? ==> LinesOf(file[pos..]) == [])
            && (IsLine(l) && GetU64(l, ID).Some? ==>
                  && AllGood(seen + [l]) && seen + LinesOf(file[pos..]) == seen + [l] + LinesOf(file[pos + |l|..])
                  && Concat(seen + [l]) == file[..pos + |l|]
                  && IndexOf(seen + [l], 0) == IndexOf(seen, 0) + [Idx(GetU64(l, ID).value, pos, |l|)]
                  && MaxId(seen + [l], maxId) == if GetU64(l, ID).value > MaxId(seen, maxId) then GetU64(l, ID).value else MaxId(seen, maxId))
  {
    hide IsLine, GetU64, MaxId, IndexOf, Fgets;
    var s := file[pos..];
    var l := Fgets(s, LINE_MAX);
    if GoodLine(l) {
      MaxIdSnoc(seen, l, maxId);
      IndexSplit(seen, [l], 0);
      OneLine(l, pos);
      ConcatSplit(seen, [l]);
      assert l == s[..|l|] && s[|l|..] == file[pos + |l|..];
      assert file[..pos] + l == file[..pos + |l|];
    }
  }
}
