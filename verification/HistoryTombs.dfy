/** The tombstone sidecar: one line per deleted message (chat_history.c:377-394 and 768-784). */
module HistoryTombs {
  import opened Bits
  import opened Wrappers
  import opened Text
  import opened HistoryRecord
  import opened HistoryScan

  const TOMB_MAX: nat := 256
  // ,"deleted":true}
  const DELETED: Str := [44, 34, 100, 101, 108, 101, 116, 101, 100, 34, 58, 116, 114, 117, 101, 125]

  /** {"id":<id>,"deleted":true} and a newline */
  function TombLine(id: u64): Str { [OPEN_BRACE] + (KeyOf(ID) + (Dec(id) + (DELETED + [NEWLINE]))) }

  function TombFile(ids: seq<u64>): Str {
    if ids == [] then [] else TombLine(ids[0]) + TombFile(ids[1..])
  }

  /** The ids one chunk gives. */
  function ChunkIds(chunk: Str): (r: seq<u64>)
    ensures |r| <= 1
  {
    var id := GetU64(CString(chunk), ID);
    if id.Some? then [id.value] else []
  }

  /** What the scan finds: chunks without an id are passed over, incomplete lines are not. */
  function TombsOf(file: Str): seq<u64> {
    if file == [] then []
    else
      var chunk := Fgets(file, TOMB_MAX);
      ChunkIds(chunk) + TombsOf(file[|chunk|..])
  }

  lemma ChunkFirst(f: Str)
    requires f != []
    ensures TombsOf(f) == ChunkIds(Fgets(f, TOMB_MAX)) + TombsOf(f[|Fgets(f, TOMB_MAX)|..])
  {
    hide ChunkIds, Fgets;
  }

  /** lm_tombstones_scan. */
  method TombstonesScan(file: Str) returns (tombs: seq<u64>)
    ensures tombs == TombsOf(file)
  {
    hide GetU64, CString, Fgets, TombsOf;
    tombs := [];
    var pos := 0;
    assert file[0..] == file && [] + TombsOf(file) == TombsOf(file);
    NoTombs();
    while pos < |file|
      invariant 0 <= pos <= |file|
      invariant tombs + TombsOf(file[pos..]) == TombsOf(file)
    {
      var line := Fgets(file[pos..], TOMB_MAX);
      ChunkFirst(file[pos..]);
      assert file[pos..][|line|..] == file[pos + |line|..];
      pos := pos + |line|;
      var id := GetU64(CString(line), ID);
      if id.None? {
        assert [] + TombsOf(file[pos..]) == TombsOf(file[pos..]);
        continue;
      }
      assert tombs + ([id.value] + TombsOf(file[pos..])) == tombs + [id.value] + TombsOf(file[pos..]);
      tombs := tombs + [id.value];
    }
    assert tombs + [] == tombs && file[pos..] == [];
  }

  // ----- reading back

  lemma TombLineShape(id: u64)
    ensures IsLine(TombLine(id)) && |TombLine(id)| < TOMB_MAX - 1 && 0 !in TombLine(id)
  {
    assert Unbroken(DELETED) && Unbroken(KeyOf(ID)) && Unbroken([OPEN_BRACE]);
    hide Dec, Unbroken;
    DigitsUnbroken(Dec(id));
    Pow10Values();
    DecLength(id, 20);
    var front := [OPEN_BRACE] + (KeyOf(ID) + (Dec(id) + DELETED));
    UnbrokenConcat(Dec(id), DELETED);
    UnbrokenConcat(KeyOf(ID), Dec(id) + DELETED);
    UnbrokenConcat([OPEN_BRACE], KeyOf(ID) + (Dec(id) + DELETED));
    assert TombLine(id) == front + [NEWLINE];
    assert TombLine(id)[..|TombLine(id)| - 1] == front;
    NoNul(front);
  }

  lemma NoNul(front: Str)
    requires Unbroken(front)
    ensures 0 !in front + [NEWLINE]
  {
  }

  lemma TombIdReadBack(id: u64)
    ensures GetU64(TombLine(id), ID) == Some(id)
  {
    hide After, Dec, Strtoull, SkipBlanks;
    var t := Dec(id) + (DELETED + [NEWLINE]);
    AfterPlain([OPEN_BRACE], KeyOf(ID) + t, KeyOf(ID));
    AfterHere(KeyOf(ID), t);
    StrtoullDec(id, DELETED + [NEWLINE]);
  }

  lemma FirstTomb(id: u64, rest: Str)
    ensures TombsOf(TombLine(id) + rest) == [id] + TombsOf(rest)
  {
    hide TombLine, GetU64, Unbroken;
    TombLineShape(id);
    TombIdReadBack(id);
    var l := TombLine(id);
    assert l == l[..|l| - 1] + [NEWLINE];
    assert NoNewline(l[..|l| - 1]) by { UnbrokenLine(l[..|l| - 1]); }
    FgetsLine(l[..|l| - 1], rest, TOMB_MAX);
    CStringWhole(l);
    assert (l + rest)[|l|..] == rest;
  }

  lemma NoTombs()
    ensures TombsOf([]) == []
  {
  }

  /** The sidecar as tombstone wrote it is read back. */
  lemma {:induction false} TombsReadBack(ids: seq<u64>)
    ensures TombsOf(TombFile(ids)) == ids
  {
    NoTombs();
    hide TombLine, TombsOf;
    if ids != [] {
      TombsReadBack(ids[1..]);
      FirstTomb(ids[0], TombFile(ids[1..]));
    }
  }

  lemma {:induction false} TombFileSnoc(ids: seq<u64>, id: u64)
    ensures TombFile(ids + [id]) == TombFile(ids) + TombLine(id)
  {
    hide TombLine;
    if ids == [] {
      assert TombFile([id][1..]) == [];
    } else {
      TombFileSnoc(ids[1..], id);
      assert (ids + [id])[1..] == ids[1..] + [id];
    }
  }

  // ----- a crash while a tombstone is written

  /** What the first m bytes of a tombstone are read as: nothing, or the number its first digits make. */
  function Torn(id: u64, m: nat): (r: seq<u64>)
    ensures |r| <= 1
  {
    if m <= 6 then []
    else
      var d := Dec(id)[..if m - 6 < |Dec(id)| then m - 6 else |Dec(id)|];
      TornInRange(id, |d|);
      [DigitsValue(d)]
  }

  lemma TornInRange(id: u64, j: nat)
    requires j <= |Dec(id)|
    ensures DigitsValue(Dec(id)[..j]) <= id
  {
    hide Dec;
    DecValue(id);
    PrefixValue(Dec(id), j);
  }

  function AfterCut(ids: seq<u64>, n: nat): seq<u64> {
    if ids == [] then []
    else if n < |TombLine(ids[0])| then Torn(ids[0], n)
    else [ids[0]] + AfterCut(ids[1..], n - |TombLine(ids[0])|)
  }

  /** The sidecar cut at any byte: the complete tombstones, and a torn one is taken for the
      number that is left of its id. */
  lemma {:induction false} CutTombs(ids: seq<u64>, n: nat)
    requires n <= |TombFile(ids)|
    ensures TombsOf(TombFile(ids)[..n]) == AfterCut(ids, n)
    decreases |ids|
  {
    NoTombs();
    hide TombLine, TombsOf, Torn;
    if ids != [] {
      var l := TombLine(ids[0]);
      if n < |l| {
        TornTomb(ids[0], n);
        assert TombFile(ids)[..n] == l[..n];
      } else {
        CutTombs(ids[1..], n - |l|);
        assert TombFile(ids)[..n] == l + TombFile(ids[1..])[..n - |l|];
        FirstTomb(ids[0], TombFile(ids[1..])[..n - |l|]);
      }
    }
  }

  lemma TornTomb(id: u64, m: nat)
    requires m < |TombLine(id)|
    ensures TombsOf(TombLine(id)[..m]) == Torn(id, m)
  {
    hide TombLine, GetU64, Torn;
    TombLineShape(id);
    var p := TombLine(id)[..m];
    assert Unbroken(p) && 0 !in p;
    FgetsTorn(p, TOMB_MAX);
    CStringWhole(p);
    assert p[|p|..] == [];
    assert TombsOf([]) == [];
    TornId(id, m);
  }

  lemma TornId(id: u64, m: nat)
    requires m < |TombLine(id)|
    ensures var r := GetU64(TombLine(id)[..m], ID); if m <= 6 then r.None? && Torn(id, m) == [] else r.Some? && Torn(id, m) == [r.value]
  {
    NoDigits();
    hide After, Dec, DigitsValue, Strtoull, SkipBlanks;
    var p := TombLine(id)[..m];
    if m < 6 {
      TooShort(p);
    } else {
      var all := Dec(id) + (DELETED + [NEWLINE]);
      var t := all[..m - 6];
      assert p == [OPEN_BRACE] + (KeyOf(ID) + t);
      AfterPlain([OPEN_BRACE], KeyOf(ID) + t, KeyOf(ID));
      AfterHere(KeyOf(ID), t);
      if m > 6 {
        var j := if m - 6 < |Dec(id)| then m - 6 else |Dec(id)|;
        var rest := (DELETED + [NEWLINE])[..m - 6 - j];
        assert t == Dec(id)[..j] + rest;
        TornInRange(id, j);
        StrtoullDigits(Dec(id)[..j], rest);
      }
    }
  }

  lemma NoDigits()
    ensures Strtoull(SkipBlanks([])).None?
  {
  }

  lemma TooShort(p: Str)
    requires |p| < 6 && (p != [] ==> p[0] == OPEN_BRACE)
    ensures After(p, KeyOf(ID)).None?
  {
    hide Find;
    FindIsFirst(p, KeyOf(ID));
    assert p[0..] == p && KeyOf(ID)[0] == QUOTE;
  }

  lemma Longer(id: u64)
    ensures |TombLine(id)| > 7
  {
    hide Dec;
  }

  /** So a crash can delete another message: cut after one digit, the tombstone of 12 is one of 1. */
  lemma TornNamesOther()
    ensures TombsOf(TombFile([12])[..7]) == [1]
  {
    hide TombsOf, TombLine;
    Longer(12);
    assert |TombFile([12])| >= 7;
    CutTombs([12], 7);
    assert Dec(12) == [49, 50] && Dec(12)[..1] == [49];
    assert DigitsValue([49]) == 1 by {
      assert [49][..0] == [];
    }
  }

  /** Cut at n bytes: how many bytes of an unfinished tombstone are left, and of which. */
  function CutInside(ids: seq<u64>, n: nat): (m: nat) {
    if ids == [] then 0
    else if n < |TombLine(ids[0])| then n
    else CutInside(ids[1..], n - |TombLine(ids[0])|)
  }

  function CutAt(ids: seq<u64>, n: nat): (k: nat)
    ensures k <= |ids|
  {
    if ids == [] || n < |TombLine(ids[0])| then 0 else 1 + CutAt(ids[1..], n - |TombLine(ids[0])|)
  }

  lemma {:induction false} AfterCutIs(ids: seq<u64>, n: nat)
    ensures var k, m := CutAt(ids, n), CutInside(ids, n);
            && (k == |ids| ==> m == 0 && AfterCut(ids, n) == ids)
            && (k < |ids| ==> m < |TombLine(ids[k])| && AfterCut(ids, n) == ids[..k] + Torn(ids[k], m))
    decreases |ids|
  {
    hide TombLine, Torn;
    if ids != [] {
      if n >= |TombLine(ids[0])| {
        var rest := ids[1..];
        AfterCutIs(rest, n - |TombLine(ids[0])|);
        var k := CutAt(ids, n);
        assert [ids[0]] + rest == ids;
        assert ids[..k] == [ids[0]] + rest[..k - 1];
        if k < |ids| {
          assert ids[k] == rest[k - 1];
          assert [ids[0]] + (rest[..k - 1] + Torn(ids[k], CutInside(ids, n))) == ids[..k] + Torn(ids[k], CutInside(ids, n));
        }
      } else {
        assert ids[..0] == [] && [] + Torn(ids[0], n) == Torn(ids[0], n);
      }
    }
  }

  // A proper beginning of a number is a smaller number.
  lemma ShorterIsSmaller(id: u64, j: nat)
    requires j <= |Dec(id)|
    ensures j < |Dec(id)| && j > 0 ==> DigitsValue(Dec(id)[..j]) < id
    ensures j == |Dec(id)| ==> DigitsValue(Dec(id)[..j]) == id
  {
    hide DigitsValue;
    DecValue(id);
    if j < |Dec(id)| && id >= 10 {
      var d := Dec(id / 10);
      assert Dec(id)[..j] == d[..j];
      DecValue(id / 10);
      PrefixValue(d, j);
    } else {
      assert j == |Dec(id)| ==> Dec(id)[..j] == Dec(id);
    }
  }

  lemma TornIs(id: u64, m: nat)
    ensures Torn(id, m) == [] <==> m <= 6
    ensures Torn(id, m) == [id] <==> m >= 6 + |Dec(id)|
  {
    hide Dec, DigitsValue;
    if m > 6 {
      ShorterIsSmaller(id, if m - 6 < |Dec(id)| then m - 6 else |Dec(id)|);
    }
  }

  /** After a cut the scan reads exactly a beginning of what was written iff the cut leaves no
      digit of an id, or all of them. */
  lemma CutReadsPrefix(ids: seq<u64>, n: nat)
    ensures AfterCut(ids, n) <= ids <==>
      CutInside(ids, n) <= 6 || CutInside(ids, n) >= 6 + |Dec(ids[if CutAt(ids, n) < |ids| then CutAt(ids, n) else 0])|
  {
    hide Torn, AfterCut, CutAt, CutInside, Dec, TombLine;
    AfterCutIs(ids, n);
    var k, m := CutAt(ids, n), CutInside(ids, n);
    if k < |ids| {
      TornIs(ids[k], m);
      PrefixBy(ids, k, Torn(ids[k], m));
    }
  }

  lemma PrefixBy(ids: seq<u64>, k: nat, t: seq<u64>)
    requires k < |ids| && |t| <= 1
    ensures ids[..k] + t <= ids <==> t == [] || t == [ids[k]]
  {
    if |t| == 1 {
      assert (ids[..k] + t)[k] == t[0];
      if t[0] == ids[k] {
        assert ids[..k] + t == ids[..k + 1];
      }
    } else {
      assert ids[..k] + t == ids[..k];
    }
  }

  /** After a cut only ids that were written are read iff no digit of a torn id is left, or the
      number its digits make is itself one that was written. */
  lemma CutReadsWritten(ids: seq<u64>, n: nat)
    ensures var k, m := CutAt(ids, n), CutInside(ids, n);
            (forall i :: 0 <= i < |AfterCut(ids, n)| ==> AfterCut(ids, n)[i] in ids)
            <==> k == |ids| || m <= 6 || DigitsValue(Dec(ids[k])[..if m - 6 < |Dec(ids[k])| then m - 6 else |Dec(ids[k])|]) in ids
  {
    hide AfterCut, CutAt, CutInside, Dec, TombLine, DigitsValue;
    AfterCutIs(ids, n);
    var k, m := CutAt(ids, n), CutInside(ids, n);
    if k < |ids| && m > 6 {
      assert AfterCut(ids, n)[k] == Torn(ids[k], m)[0];
    }
  }

  // ----- a tombstone behind whatever the sidecar holds

  /** The last line of a sidecar if it is unfinished: no newline, and not yet a full chunk. */
  function Unfinished(f: Str): (u: Str)
    ensures |u| < TOMB_MAX - 1
  {
    if f == [] then []
    else
      var c := Fgets(f, TOMB_MAX);
      if |c| < |f| then Unfinished(f[|c|..])
      else if c[|c| - 1] == NEWLINE || |c| == TOMB_MAX - 1 then [] else c
  }

  /** What is in front of it. */
  function FrontIds(f: Str): seq<u64> {
    if f == [] then []
    else
      var c := Fgets(f, TOMB_MAX);
      if |c| < |f| then ChunkIds(c) + FrontIds(f[|c|..])
      else if c[|c| - 1] == NEWLINE || |c| == TOMB_MAX - 1 then ChunkIds(c) else []
  }

  /** Its text keeps a later id from being read: it holds a NUL or the key of an id. */
  predicate Deaf(u: Str) { 0 in u || Find(u, KeyOf(ID)).Some? }

  /** When a tombstone written behind f will be read: the last line is finished; or it ends one
      byte short of a full chunk; or it is not deaf and leaves room for the id in its chunk. */
  predicate KeepsNext(f: Str, id: u64) {
    var u := Unfinished(f);
    u == [] || |u| == TOMB_MAX - 2 || (!Deaf(u) && |u| + 6 + |Dec(id)| <= TOMB_MAX - 1)
  }

  lemma {:induction false} FgetsStops(s: Str, t: Str, size: nat)
    requires size > 1
    ensures var c := Fgets(s, size);
            && (|c| < |s| ==> Fgets(s + t, size) == c)
            && (c != [] && c[|c| - 1] == NEWLINE ==> Fgets(s + t, size) == c)
            && (|c| == size - 1 ==> Fgets(s + t, size) == c)
    decreases |s|
  {
    if s != [] && s[0] != NEWLINE && size > 2 {
      FgetsStops(s[1..], t, size - 1);
      assert (s + t)[1..] == s[1..] + t;
    } else if s != [] {
      assert (s + t)[0] == s[0];
    }
  }

  /** The chunk f begins with ends inside f or is finished: what follows f does not change it. */
  predicate FirstDone(f: Str)
    requires f != []
  {
    var c := Fgets(f, TOMB_MAX);
    |c| < |f| || c[|c| - 1] == NEWLINE || |c| == TOMB_MAX - 1
  }

  lemma UnfinishedStep(f: Str)
    ensures f == [] ==> Unfinished(f) == [] && FrontIds(f) == []
    ensures f != [] && FirstDone(f) ==>
      var c := Fgets(f, TOMB_MAX);
      Unfinished(f) == Unfinished(f[|c|..]) && FrontIds(f) == ChunkIds(c) + FrontIds(f[|c|..])
    ensures f != [] && !FirstDone(f) ==> Unfinished(f) == f && FrontIds(f) == []
  {
    hide Fgets, ChunkIds;
    if f != [] {
      var c := Fgets(f, TOMB_MAX);
      if |c| == |f| {
        assert f[|c|..] == [] && c == f;
        assert Unfinished([]) == [] && FrontIds([]) == [];
        assert ChunkIds(c) + [] == ChunkIds(c);
      }
    }
  }

  lemma {:induction false} AppendSplit(f: Str, t: Str)
    ensures TombsOf(f + t) == FrontIds(f) + TombsOf(Unfinished(f) + t)
    decreases |f|
  {
    hide Fgets, ChunkIds, Unfinished, FrontIds, TombsOf;
    UnfinishedStep(f);
    if f == [] {
      assert f + t == t && [] + t == t;
    } else if FirstDone(f) {
      var c := Fgets(f, TOMB_MAX);
      var rest := f[|c|..];
      FgetsStops(f, t, TOMB_MAX);
      AppendSplit(rest, t);
      assert (f + t)[|c|..] == rest + t;
      ChunkFirst(f + t);
      assert ChunkIds(c) + (FrontIds(rest) + TombsOf(Unfinished(rest) + t)) == ChunkIds(c) + FrontIds(rest) + TombsOf(Unfinished(rest) + t);
    }
  }

  // ----- what a chunk gives when the beginning of a tombstone is behind it

  // Text that cannot go on a number ends it.
  lemma NumberEnds(t: Str, x: Str)
    requires x != [] && x[0] == OPEN_BRACE
    ensures Strtoull(SkipBlanks(t + x)) == Strtoull(SkipBlanks(t))
  {
    hide Strtoull;
    BlanksEnd(t, x);
    NumberEndsHere(SkipBlanks(t), x);
  }

  lemma {:induction false} BlanksEnd(t: Str, x: Str)
    requires x != [] && x[0] == OPEN_BRACE
    ensures SkipBlanks(t + x) == SkipBlanks(t) + x && SkipSpace(t + x) == SkipSpace(t) + x
    decreases |t|
  {
    if t == [] {
      assert t + x == x;
    } else {
      assert (t + x)[0] == t[0] && (t + x)[1..] == t[1..] + x;
      BlanksEnd(t[1..], x);
    }
  }

  lemma NumberEndsHere(t: Str, x: Str)
    requires x != [] && x[0] == OPEN_BRACE
    ensures Strtoull(t + x) == Strtoull(t)
  {
    hide SkipSpace, Digits;
    BlanksEnd(t, x);
    var u := SkipSpace(t);
    if u != [] && (u[0] == MINUS || u[0] == PLUS) {
      DigitsEnd(u[0] == MINUS, u[1..], x);
      assert (u + x)[0] == u[0] && (u + x)[1..] == u[1..] + x;
    } else {
      DigitsEnd(false, u, x);
      assert (u + x)[0] == (if u != [] then u[0] else OPEN_BRACE);
    }
  }

  lemma DigitsEnd(neg: bool, u: Str, x: Str)
    requires x != [] && x[0] == OPEN_BRACE
    ensures Digits(neg, u + x) == Digits(neg, u)
  {
    hide DigitsValue;
    DigitCountEnds(u, x);
    var n := DigitCount(u);
    assert (u + x)[..n] == u[..n];
  }

  lemma {:induction false} DigitCountEnds(u: Str, x: Str)
    requires x != [] && x[0] == OPEN_BRACE
    ensures DigitCount(u + x) == DigitCount(u)
    decreases |u|
  {
    if u == [] {
      assert u + x == x;
    } else {
      assert (u + x)[0] == u[0] && (u + x)[1..] == u[1..] + x;
      DigitCountEnds(u[1..], x);
    }
  }

  lemma {:induction false} FindMore(u: Str, x: Str, needle: Str)
    requires Find(u, needle).Some?
    ensures Find(u + x, needle) == Find(u, needle)
    decreases |u|
  {
    if !(needle <= u) && u != [] {
      FindMore(u[1..], x, needle);
      assert (u + x)[1..] == u[1..] + x;
      assert |needle| <= |u| && (u + x)[..|needle|] == u[..|needle|];
    } else {
      assert u <= u + x;
    }
  }

  // A key does not reach over a brace.
  lemma NoKeyAcross(u: Str, x: Str)
    requires Find(u, KeyOf(ID)).None? && x != [] && x[0] == OPEN_BRACE
    ensures After(u + x, KeyOf(ID)) == After(x, KeyOf(ID))
  {
    hide Find, After;
    var key := KeyOf(ID);
    FindIsFirst(u, key);
    assert key == [QUOTE, 105, 100, QUOTE, COLON];
    forall j | 0 <= j < |u|
      ensures !MatchAt(u + x, key, j)
    {
      assert !MatchAt(u, key, j);
      AcrossBrace(u, x, key, j);
    }
    FindSkip(u, x, key);
    AfterShift(u, x, key);
  }

  lemma AcrossBrace(u: Str, x: Str, key: Str, j: nat)
    requires key == [QUOTE, 105, 100, QUOTE, COLON] && j < |u| && x != [] && x[0] == OPEN_BRACE
    ensures MatchAt(u + x, key, j) ==> MatchAt(u, key, j)
  {
    var s := u + x;
    if j + 5 <= |u| {
      assert s[j..][..5] == u[j..][..5];
    } else {
      assert s[j..][|u| - j] == OPEN_BRACE;
      assert key[|u| - j] != OPEN_BRACE;
    }
  }

  lemma {:induction false} CStringAppend(u: Str, x: Str)
    ensures 0 in u ==> CString(u + x) == CString(u)
    ensures 0 !in u ==> CString(u + x) == u + CString(x)
    decreases |u|
  {
    if u == [] {
      assert u + x == x && [] + CString(x) == CString(x);
    } else {
      assert (u + x)[0] == u[0] && (u + x)[1..] == u[1..] + x;
      CStringAppend(u[1..], x);
      assert u == [u[0]] + u[1..];
      if u[0] != 0 {
        assert 0 in u <==> 0 in u[1..];
        assert [u[0]] + (u[1..] + CString(x)) == u + CString(x);
      }
    }
  }

  /** A deaf text gives what it gave; behind any other, what is read is the tombstone itself. */
  lemma BehindText(u: Str, x: Str)
    requires x != [] && x[0] == OPEN_BRACE && 0 !in x
    ensures Deaf(u) ==> ChunkIds(u + x) == ChunkIds(u)
    ensures !Deaf(u) ==> ChunkIds(u) == [] && ChunkIds(u + x) == ChunkIds(x)
  {
    hide CString, Find, Strtoull, SkipBlanks;
    CStringAppend(u, x);
    CStringWhole(x);
    if 0 !in u {
      CStringWhole(u);
      if Find(u, KeyOf(ID)).Some? {
        FindMore(u, x, KeyOf(ID));
        var at := Find(u, KeyOf(ID)).value + 5;
        assert (u + x)[at..] == u[at..] + x;
        NumberEnds(u[at..], x);
      } else {
        NoKeyAcross(u, x);
      }
    }
  }

  // What is left of a tombstone in the next chunk: the id, if only the brace is gone.
  lemma RestOfLine(id: u64, k: nat)
    requires 1 <= k < |TombLine(id)|
    ensures ChunkIds(TombLine(id)[k..]) == if k == 1 then [id] else []
  {
    hide After, Dec, Strtoull, SkipBlanks, Find;
    TombLineShape(id);
    var r := TombLine(id)[k..];
    assert 0 !in r;
    CStringWhole(r);
    if k == 1 {
      var t := Dec(id) + (DELETED + [NEWLINE]);
      assert r == KeyOf(ID) + t;
      AfterHere(KeyOf(ID), t);
      StrtoullDec(id, DELETED + [NEWLINE]);
    } else {
      NoKeyInRest(id, k);
    }
  }

  lemma NoKeyInRest(id: u64, k: nat)
    requires 2 <= k < |TombLine(id)|
    ensures After(TombLine(id)[k..], KeyOf(ID)).None?
  {
    hide Find, TombLine;
    var r := TombLine(id)[k..];
    var key := KeyOf(ID);
    assert key[0] == QUOTE && key[1] == 105;
    FindIsFirst(r, key);
    forall j | 0 <= j <= |r|
      ensures !MatchAt(r, key, j)
    {
      QuotesInLine(id, k + j);
      if j + 1 < |r| {
        assert r[j..][0] == TombLine(id)[k + j] && r[j..][1] == TombLine(id)[k + j + 1];
      }
    }
  }

  lemma QuotesInLine(id: u64, p: nat)
    requires p >= 2
    ensures p + 1 < |TombLine(id)| && TombLine(id)[p] == QUOTE ==> TombLine(id)[p + 1] != 105
  {
    hide Dec;
    var l, d := TombLine(id), Dec(id);
    assert l == [OPEN_BRACE, QUOTE, 105, 100, QUOTE, COLON] + d + (DELETED + [NEWLINE]);
    if 6 <= p < 6 + |d| {
      assert l[p] == d[p - 6];
    } else if 6 + |d| <= p < |l| {
      assert l[p] == (DELETED + [NEWLINE])[p - 6 - |d|];
    }
  }

  // ----- when the next tombstone is kept

  lemma UnfinishedPlain(f: Str)
    ensures NoNewline(Unfinished(f)) && (Unfinished(f) != [] ==> Fgets(Unfinished(f), TOMB_MAX) == Unfinished(f))
    decreases |f|
  {
    hide Fgets, Unfinished;
    UnfinishedStep(f);
    if f != [] && FirstDone(f) {
      UnfinishedPlain(f[|Fgets(f, TOMB_MAX)|..]);
    }
  }

  // A short unfinished line and the tombstone make one chunk, a long one pushes its end into the next.
  lemma TwoChunks(u: Str, l: Str)
    requires NoNewline(u) && u != [] && |u| < TOMB_MAX - 1 && IsLine(l) && |l| < TOMB_MAX - 1
    ensures |u| + |l| < TOMB_MAX ==> TombsOf(u + l) == ChunkIds(u + l)
    ensures |u| + |l| >= TOMB_MAX ==>
      var k := TOMB_MAX - 1 - |u|; TombsOf(u + l) == ChunkIds(u + l[..k]) + ChunkIds(l[k..])
  {
    hide Fgets, ChunkIds, TombsOf;
    var front := l[..|l| - 1];
    UnbrokenLine(front);
    ChunkFirst(u + l);
    NoTombs();
    if |u| + |l| < TOMB_MAX {
      assert u + l == (u + front) + [NEWLINE] + [] && (u + front) + [NEWLINE] == u + l;
      FgetsLine(u + front, [], TOMB_MAX);
      assert (u + l)[|u + l|..] == [] && ChunkIds(u + l) + [] == ChunkIds(u + l);
    } else {
      var k := TOMB_MAX - 1 - |u|;
      assert u + l == (u + l[..k]) + l[k..];
      FgetsFull(u + l[..k], l[k..], TOMB_MAX);
      assert (u + l)[TOMB_MAX - 1..] == l[k..];
      var rest := front[k..];
      assert l[k..] == rest + [NEWLINE] + [] && rest + [NEWLINE] == l[k..];
      FgetsLine(rest, [], TOMB_MAX);
      ChunkFirst(l[k..]);
      assert l[k..][|l[k..]|..] == [] && ChunkIds(l[k..]) + [] == ChunkIds(l[k..]);
    }
  }

  lemma ChunkOfPrefix(id: u64, k: nat)
    requires 1 <= k <= |TombLine(id)|
    ensures ChunkIds(TombLine(id)[..k]) == Torn(id, k)
  {
    hide TombLine, GetU64, CString, Torn;
    TombLineShape(id);
    var x := TombLine(id)[..k];
    assert 0 !in x;
    CStringWhole(x);
    if k < |TombLine(id)| {
      TornId(id, k);
    } else {
      assert x == TombLine(id);
      TombIdReadBack(id);
      TornIs(id, k);
      LineLength(id);
    }
  }

  lemma LineLength(id: u64)
    ensures |TombLine(id)| == 6 + |Dec(id)| + 17 && |TombLine(id)| <= 43
    ensures TombLine(id)[0] == OPEN_BRACE
  {
    hide Dec;
    Pow10Values();
    DecLength(id, 20);
  }

  // The unfinished line u alone.
  lemma BehindUnfinished(u: Str, id: u64)
    requires NoNewline(u) && u != [] && |u| < TOMB_MAX - 1
    ensures TombsOf(u + TombLine(id)) == ChunkIds(u) + [id]
            <==> |u| == TOMB_MAX - 2 || (!Deaf(u) && |u| + 6 + |Dec(id)| <= TOMB_MAX - 1)
  {
    hide ChunkIds, TombsOf, TombLine, Deaf, Torn, Dec, NoNewline, IsLine;
    var l := TombLine(id);
    TombLineShape(id);
    LineLength(id);
    TwoChunks(u, l);
    var k := if |u| + |l| < TOMB_MAX then |l| else TOMB_MAX - 1 - |u|;
    BehindPart(u, id, k);
    if k < |l| {
      RestOfLine(id, k);
    }
    var first := ChunkIds(u + l[..k]);
    assert k == |l| ==> TombsOf(u + l) == first;
    assert 1 < k < |l| ==> TombsOf(u + l) == first + [] == first;
  }

  // The chunk that holds u and k bytes of the tombstone.
  lemma BehindPart(u: Str, id: u64, k: nat)
    requires 1 <= k <= |TombLine(id)|
    ensures k == |TombLine(id)| ==> TombLine(id)[..k] == TombLine(id)
    ensures k == 1 ==> ChunkIds(u + TombLine(id)[..k]) == ChunkIds(u)
    ensures ChunkIds(u + TombLine(id)[..k]) == ChunkIds(u) + [id] <==> !Deaf(u) && k >= 6 + |Dec(id)|
  {
    hide ChunkIds, TombLine, Deaf, Torn, Dec;
    var x := TombLine(id)[..k];
    TombLineShape(id);
    LineLength(id);
    assert 0 !in x;
    BehindText(u, x);
    ChunkOfPrefix(id, k);
    TornIs(id, k);
    if Deaf(u) {
      assert |ChunkIds(u + x)| != |ChunkIds(u) + [id]|;
    }
  }

  /** For every sidecar: a tombstone written behind it is read, and changes nothing else that is
      read, exactly under this condition on the unfinished last line. */
  lemma AppendedTombIff(f: Str, id: u64)
    ensures TombsOf(f + TombLine(id)) == TombsOf(f) + [id] <==> KeepsNext(f, id)
  {
    hide ChunkIds, TombsOf, TombLine, Deaf, Dec, Unfinished, FrontIds, Fgets;
    var u, l := Unfinished(f), TombLine(id);
    AppendSplit(f, l);
    AppendSplit(f, []);
    assert f + [] == f && u + [] == u;
    UnfinishedPlain(f);
    NoTombs();
    if u == [] {
      assert [] + l == l && l + [] == l;
      FirstTomb(id, []);
    } else {
      BehindUnfinished(u, id);
      ChunkFirst(u);
      assert u[|u|..] == [];
    }
    SameFront(FrontIds(f), TombsOf(u + l), TombsOf(u), id);
  }

  lemma SameFront(a: seq<u64>, b: seq<u64>, c: seq<u64>, id: u64)
    ensures a + b == a + c + [id] <==> b == c + [id]
  {
    if a + b == a + c + [id] {
      assert (a + b)[|a|..] == b && (a + c + [id])[|a|..] == c + [id];
    } else {
      assert b == c + [id] ==> a + b == a + c + [id];
    }
  }

  /** A tombstone behind a torn one is lost, and the message it hides shows again at the next
      start: behind the first seven bytes of the tombstone of 12, whatever its id, what is read
      is 1 and nothing else. */
  lemma LostTombstone(id: u64)
    ensures TombsOf(TombFile([12])[..7] + TombLine(id)) == [1]
  {
    hide ChunkIds, TombsOf, TombLine, Deaf, Dec;
    LineLength(12);
    LineLength(id);
    TombLineShape(id);
    var u := TombFile([12])[..7];
    assert u == TombLine(12)[..7];
    TornNamesOther();
    TornDeaf(12, 7);
    TwoChunks(u, TombLine(id));
    BehindText(u, TombLine(id));
    ChunkFirst(u);
    NoTombs();
    FgetsTorn(u, TOMB_MAX);
    assert u[|u|..] == [];
  }

  lemma TornDeaf(id: u64, m: nat)
    requires m < |TombLine(id)|
    ensures var u := TombLine(id)[..m]; NoNewline(u) && (Deaf(u) <==> m >= 6)
  {
    hide TombLine, Find, After;
    TombLineShape(id);
    LineLength(id);
    var l := TombLine(id);
    var u := l[..m];
    assert Unbroken(l[..|l| - 1]) && u == l[..|l| - 1][..m];
    if m < 6 {
      TooShort(u);
      NotFound(u);
    } else {
      KeyFound(id, m);
    }
  }

  lemma NotFound(u: Str)
    ensures After(u, KeyOf(ID)).None? <==> Find(u, KeyOf(ID)).None?
  {
    hide Find;
  }

  lemma KeyFound(id: u64, m: nat)
    requires 6 <= m < |TombLine(id)|
    ensures Find(TombLine(id)[..m], KeyOf(ID)).Some?
  {
    hide After, Dec;
    var t := (Dec(id) + (DELETED + [NEWLINE]))[..m - 6];
    assert TombLine(id)[..m] == [OPEN_BRACE] + (KeyOf(ID) + t);
    AfterPlain([OPEN_BRACE], KeyOf(ID) + t, KeyOf(ID));
    AfterHere(KeyOf(ID), t);
    NotFound(TombLine(id)[..m]);
  }

  lemma {:induction false} CutUnfinished(ids: seq<u64>, n: nat)
    requires n <= |TombFile(ids)|
    ensures var k := CutAt(ids, n);
            && (k == |ids| ==> Unfinished(TombFile(ids)[..n]) == [])
            && (k < |ids| ==> CutInside(ids, n) < |TombLine(ids[k])| && Unfinished(TombFile(ids)[..n]) == TombLine(ids[k])[..CutInside(ids, n)])
    decreases |ids|
  {
    hide TombLine, Unfinished, FrontIds, ChunkIds, Fgets;
    var f := TombFile(ids)[..n];
    UnfinishedStep(f);
    if ids != [] {
      var l := TombLine(ids[0]);
      TombLineShape(ids[0]);
      if n < |l| {
        assert f == l[..n];
        TornDeaf(ids[0], n);
        LineLength(ids[0]);
        FgetsTorn(f, TOMB_MAX);
        if n > 0 {
          assert f[n - 1] != NEWLINE;
        }
      } else {
        var rest := TombFile(ids[1..])[..n - |l|];
        assert f == l[..|l| - 1] + [NEWLINE] + rest;
        UnbrokenLine(l[..|l| - 1]);
        FgetsLine(l[..|l| - 1], rest, TOMB_MAX);
        assert f[|l|..] == rest;
        CutUnfinished(ids[1..], n - |l|);
      }
    }
  }

  /** Behind a sidecar that a crash has cut, the next tombstone is kept exactly if fewer than six
      bytes of the torn one are left. */
  lemma CutKeepsNext(ids: seq<u64>, n: nat, id: u64)
    requires n <= |TombFile(ids)|
    ensures KeepsNext(TombFile(ids)[..n], id) <==> CutInside(ids, n) < 6
  {
    hide TombLine, Unfinished, Deaf, Dec, CutAt, CutInside, AfterCut;
    CutUnfinished(ids, n);
    AfterCutIs(ids, n);
    Pow10Values();
    DecLength(id, 20);
    var k, m := CutAt(ids, n), CutInside(ids, n);
    if k < |ids| {
      LineLength(ids[k]);
      TornDeaf(ids[k], m);
    }
  }

  /** Every tombstone finishes the line: after one, the next is kept whatever came before. */
  lemma TombFinishes(f: Str, id: u64)
    ensures Unfinished(f + TombLine(id)) == []
    decreases |f|
  {
    hide TombLine, Unfinished, FrontIds, ChunkIds, Fgets;
    var l := TombLine(id);
    TombLineShape(id);
    EndsFinished(f + l);
  }

  lemma {:induction false} EndsFinished(f: Str)
    requires f != [] && f[|f| - 1] == NEWLINE
    ensures Unfinished(f) == []
    decreases |f|
  {
    hide Fgets, FrontIds, ChunkIds;
    var c := Fgets(f, TOMB_MAX);
    if |c| < |f| {
      EndsFinished(f[|c|..]);
    }
  }
}
