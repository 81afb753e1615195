/** The in-place UTF-8 sanitizer in front of the YAML parser (threaded_news_yaml.c:137-172). */
module Utf8 {
  import opened Bits

  const QUESTION: byte := 63

  // ----- the byte classes, by value and by mask

  predicate Ascii(c: byte) { c < 0x80 }
  predicate Continuation(c: byte) { 0x80 <= c < 0xC0 }

  /** How many continuation bytes a lead byte asks for, 0 if it is none. */
  function Wanted(c: byte): (n: nat)
    ensures n <= 3
  {
    if 0xC0 <= c < 0xE0 then 1 else if 0xE0 <= c < 0xF0 then 2 else if 0xF0 <= c < 0xF8 then 3 else 0
  }

  // A mask of the high bits down to bit k cuts off the low k bits.
  lemma HighMask(c: byte, k: nat, m: nat, p: nat, q: nat)
    requires p == Pow2(k) && q == Pow2(m) && p * q == 0x100
    ensures BitAnd(c, 0x100 - p) == p * (c / p)
  {
    hide *;
    var d: nat := c / p;
    AndSplit(c, k, 0, q - 1);
    SplitOff(c, p, q - 1);
    assert p * (q - 1) == 0x100 - p by { Distrib(p, q, -1); }
    DivBelow(c, p, q);
    AndLowMask(d, m);
    SmallMod(d, q);
  }

  lemma SplitOff(x: nat, p: nat, hi: nat)
    requires p > 0 && AndSplits(x, p, 0, hi)
    ensures BitAnd(x, p * hi) == p * BitAnd(x / p, hi)
  {
    hide BitAnd;
    AndZero(x % p);
    assert 0 + p * hi == p * hi;
  }

  lemma SmallMod(a: nat, q: nat)
    requires a < q
    ensures a % q == a
  {
  }

  lemma Masks(c: byte)
    ensures And8(c, 0xC0) == 0x80 <==> Continuation(c)
    ensures And8(c, 0xE0) == 0xC0 <==> Wanted(c) == 1
    ensures And8(c, 0xF0) == 0xE0 <==> Wanted(c) == 2
    ensures And8(c, 0xF8) == 0xF0 <==> Wanted(c) == 3
  {
    hide BitAnd, Pow2;
    Pow2Small();
    Pow2Values();
    HighMask(c, 6, 2, 64, 4);
    HighMask(c, 5, 3, 32, 8);
    HighMask(c, 4, 4, 16, 16);
    HighMask(c, 3, 5, 8, 32);
  }

  // ----- the specification

  /** n continuation bytes come behind the first one. */
  predicate Followed(s: seq<byte>, n: nat) {
    n < |s| && forall j :: 1 <= j <= n ==> Continuation(s[j])
  }

  /** The length of the ASCII byte or lead-and-continuations group s begins with, 0 if none. */
  function GroupLength(s: seq<byte>): (n: nat)
    requires s != []
    ensures n <= |s|
  {
    var w := Wanted(s[0]);
    if Ascii(s[0]) then 1
    else if w > 0 && Followed(s, w) then 1 + w
    else 0
  }

  /** Made only of ASCII bytes and groups. */
  predicate WellShaped(s: seq<byte>) {
    s == [] || (GroupLength(s) > 0 && WellShaped(s[GroupLength(s)..]))
  }

  function Sanitized(s: seq<byte>): (r: seq<byte>)
    ensures |r| == |s|
  {
    if s == [] then []
    else
      var n := GroupLength(s);
      if n > 0 then s[..n] + Sanitized(s[n..]) else [QUESTION] + Sanitized(s[1..])
  }

  lemma GroupInFront(s: seq<byte>, t: seq<byte>)
    requires s != [] && GroupLength(s) > 0
    ensures GroupLength(s[..GroupLength(s)] + t) == GroupLength(s)
  {
    var n := GroupLength(s);
    var u := s[..n] + t;
    assert u[0] == s[0];
    assert forall j :: 0 <= j < n ==> u[j] == s[j];
  }

  lemma QuestionGroup(t: seq<byte>)
    ensures GroupLength([QUESTION] + t) == 1
  {
  }

  /** The result is well shaped. */
  lemma {:induction false} SanitizedWellShaped(s: seq<byte>)
    ensures WellShaped(Sanitized(s))
    decreases |s|
  {
    hide GroupLength;
    if s != [] {
      var n := GroupLength(s);
      if n > 0 {
        SanitizedWellShaped(s[n..]);
        GroupInFront(s, Sanitized(s[n..]));
        assert Sanitized(s)[n..] == Sanitized(s[n..]);
      } else {
        SanitizedWellShaped(s[1..]);
        var r := Sanitized(s);
        QuestionGroup(Sanitized(s[1..]));
        assert r[1..] == Sanitized(s[1..]);
      }
    }
  }

  lemma {:induction false} WellShapedStays(s: seq<byte>)
    requires WellShaped(s)
    ensures Sanitized(s) == s
    decreases |s|
  {
    hide GroupLength;
    if s != [] {
      var n := GroupLength(s);
      WellShapedStays(s[n..]);
      assert s[..n] + s[n..] == s;
    }
  }

  /** A buffer is left as it is exactly when it is well shaped; and doing it twice changes nothing more. */
  lemma UntouchedIffWellShaped(s: seq<byte>)
    ensures Sanitized(s) == s <==> WellShaped(s)
    ensures Sanitized(Sanitized(s)) == Sanitized(s)
  {
    hide Sanitized, WellShaped;
    SanitizedWellShaped(s);
    WellShapedStays(Sanitized(s));
    if WellShaped(s) {
      WellShapedStays(s);
    }
  }

  /** Bytes change only to a question mark, and ASCII bytes never do. */
  lemma {:induction false} OnlyQuestionMarks(s: seq<byte>, i: nat)
    requires i < |s|
    ensures Sanitized(s)[i] == s[i] || (Sanitized(s)[i] == QUESTION && !Ascii(s[i]))
    decreases |s|
  {
    var n := GroupLength(s);
    if n > 0 && i >= n {
      OnlyQuestionMarks(s[n..], i - n);
    } else if n == 0 && i > 0 {
      OnlyQuestionMarks(s[1..], i - 1);
    }
  }

  // ----- what stays, without a scan

  /** A group begins at i, and position p is in it. */
  predicate InGroup(s: seq<byte>, i: nat, p: nat)
    requires p < |s|
  {
    i <= p && GroupLength(s[i..]) > 0 && p < i + GroupLength(s[i..])
  }

  predicate Covered(s: seq<byte>, p: nat)
    requires p < |s|
  {
    exists i: nat :: i <= p && InGroup(s, i, p)
  }

  /** In any buffer a byte stays exactly if it is in a group, wherever the group begins; all other
      bytes become question marks. */
  lemma {:induction false} StaysIff(s: seq<byte>, p: nat)
    requires p < |s|
    ensures Sanitized(s)[p] == if Covered(s, p) then s[p] else QUESTION
    decreases |s|
  {
    hide GroupLength, Covered;
    var n := GroupLength(s);
    assert s[0..] == s;
    if p < n || (n == 0 && p == 0) {
      FirstCovered(s, p);
    } else {
      var m := if n > 0 then n else 1;
      StaysIff(s[m..], p - m);
      CoveredLater(s, m, p);
    }
  }

  lemma FirstCovered(s: seq<byte>, p: nat)
    requires p < |s| && (p < GroupLength(s) || (GroupLength(s) == 0 && p == 0))
    ensures Covered(s, p) <==> GroupLength(s) > 0
  {
    hide GroupLength;
    assert s[0..] == s;
    assert InGroup(s, 0, p) <==> GroupLength(s) > 0;
  }

  // No group that begins inside the first one, or at a byte in no group, covers anything.
  lemma CoveredLater(s: seq<byte>, m: nat, p: nat)
    requires s != [] && m == (if GroupLength(s) > 0 then GroupLength(s) else 1) && m <= p < |s|
    ensures Covered(s, p) <==> Covered(s[m..], p - m)
  {
    hide GroupLength;
    assert s[0..] == s;
    forall i: nat | i < m
      ensures !InGroup(s, i, p)
    {
      if i > 0 {
        InsideNoGroup(s, i);
      }
    }
    forall i: nat | m <= i <= p
      ensures InGroup(s, i, p) <==> InGroup(s[m..], i - m, p - m)
    {
      assert s[m..][i - m..] == s[i..];
    }
    if Covered(s, p) {
      var i: nat :| i <= p && InGroup(s, i, p);
      assert InGroup(s[m..], i - m, p - m);
    }
    if Covered(s[m..], p - m) {
      var i: nat :| i <= p - m && InGroup(s[m..], i, p - m);
      assert InGroup(s, i + m, p);
    }
  }

  // The later bytes of a group are continuation bytes and begin no group.
  lemma InsideNoGroup(s: seq<byte>, i: nat)
    requires s != [] && 0 < i < GroupLength(s)
    ensures GroupLength(s[i..]) == 0
  {
    assert Continuation(s[i]);
  }

  // ----- valid UTF-8

  predicate Within(c: byte, lo: nat, hi: nat) { lo <= c <= hi }

  /** The length of the UTF8-char of section 4 of RFC 3629 that s begins with, 0 if none. */
  function ValidLength(s: seq<byte>): (n: nat)
    requires s != []
    ensures n <= |s|
  {
    if Within(s[0], 0x00, 0x7F) then 1
    else if |s| >= 2 && Within(s[0], 0xC2, 0xDF) && Continuation(s[1]) then 2
    else if |s| >= 3 && ValidSecondOfThree(s[0], s[1]) && Continuation(s[2]) then 3
    else if |s| >= 4 && ValidSecondOfFour(s[0], s[1]) && Continuation(s[2]) && Continuation(s[3]) then 4
    else 0
  }

  predicate ValidSecondOfThree(a: byte, b: byte) {
    || (a == 0xE0 && Within(b, 0xA0, 0xBF))
    || (Within(a, 0xE1, 0xEC) && Continuation(b))
    || (a == 0xED && Within(b, 0x80, 0x9F))
    || (Within(a, 0xEE, 0xEF) && Continuation(b))
  }

  predicate ValidSecondOfFour(a: byte, b: byte) {
    || (a == 0xF0 && Within(b, 0x90, 0xBF))
    || (Within(a, 0xF1, 0xF3) && Continuation(b))
    || (a == 0xF4 && Within(b, 0x80, 0x8F))
  }

  predicate ValidUtf8(s: seq<byte>) {
    s == [] || (ValidLength(s) > 0 && ValidUtf8(s[ValidLength(s)..]))
  }

  /** The number the bits of a group make. */
  function CodePoint(g: seq<byte>): int
    requires 1 <= |g| <= 4
  {
    if |g| == 1 then g[0]
    else if |g| == 2 then (g[0] as int - 0xC0) * 0x40 + (g[1] as int - 0x80)
    else if |g| == 3 then (g[0] as int - 0xE0) * 0x1000 + (g[1] as int - 0x80) * 0x40 + (g[2] as int - 0x80)
    else (g[0] as int - 0xF0) * 0x4_0000 + (g[1] as int - 0x80) * 0x1000 + (g[2] as int - 0x80) * 0x40 + (g[3] as int - 0x80)
  }

  /** A shorter group would hold the same number. */
  predicate Overlong(g: seq<byte>)
    requires 1 <= |g| <= 4
  {
    (|g| == 2 && CodePoint(g) < 0x80) || (|g| == 3 && CodePoint(g) < 0x800) || (|g| == 4 && CodePoint(g) < 0x1_0000)
  }

  predicate Proper(g: seq<byte>) {
    1 <= |g| <= 4 && !Overlong(g) && !(0xD800 <= CodePoint(g) <= 0xDFFF) && CodePoint(g) <= 0x10_FFFF
  }

  /** The groups, ASCII bytes included, that the pass keeps in s. */
  function KeptGroups(s: seq<byte>): seq<seq<byte>>
    decreases |s|
  {
    if s == [] then []
    else
      var n := GroupLength(s);
      if n > 0 then [s[..n]] + KeptGroups(s[n..]) else KeptGroups(s[1..])
  }

  predicate AllProper(gs: seq<seq<byte>>) { forall i :: 0 <= i < |gs| ==> Proper(gs[i]) }

  lemma ShapeOfGroup(s: seq<byte>)
    requires s != [] && GroupLength(s) > 0
    ensures var n := GroupLength(s);
            && (Ascii(s[0]) || Wanted(s[0]) > 0) && n == (if Ascii(s[0]) then 1 else 1 + Wanted(s[0]))
            && (n >= 2 ==> Continuation(s[1])) && (n >= 3 ==> Continuation(s[2])) && (n == 4 ==> Continuation(s[3]))
  {
  }

  // A group is a valid character exactly if its number is in its range.
  lemma GroupValidIff(s: seq<byte>)
    requires s != [] && GroupLength(s) > 0
    ensures ValidLength(s) > 0 <==> Proper(s[..GroupLength(s)])
    ensures ValidLength(s) > 0 ==> ValidLength(s) == GroupLength(s)
  {
    hide GroupLength;
    ShapeOfGroup(s);
    var g := s[..GroupLength(s)];
    var n := |g|;
    assert g[0] == s[0] && (n >= 2 ==> g[1] == s[1]) && (n >= 3 ==> g[2] == s[2]) && (n == 4 ==> g[3] == s[3]);
  }

  lemma ValidIsGroup(s: seq<byte>)
    requires s != [] && ValidLength(s) > 0
    ensures GroupLength(s) == ValidLength(s)
  {
  }

  lemma ProperFirst(g: seq<byte>, gs: seq<seq<byte>>)
    ensures AllProper([g] + gs) <==> Proper(g) && AllProper(gs)
  {
    hide Proper;
    var all := [g] + gs;
    assert all[0] == g;
    assert forall i :: 0 <= i < |gs| ==> gs[i] == all[i + 1];
  }

  /** The result is valid UTF-8 exactly if no group kept in s is overlong, a surrogate or above U+10FFFF. */
  lemma {:induction false} ValidIffGroupsProper(s: seq<byte>)
    ensures ValidUtf8(Sanitized(s)) <==> AllProper(KeptGroups(s))
    decreases |s|
  {
    hide GroupLength, ValidLength, Proper, AllProper;
    if s == [] {
      NoGroups();
    } else {
      var n, r := GroupLength(s), Sanitized(s);
      if n > 0 {
        ValidIffGroupsProper(s[n..]);
        GroupInFront(s, Sanitized(s[n..]));
        GroupValidIff(r);
        assert r[..n] == s[..n] && r[n..] == Sanitized(s[n..]);
        ProperFirst(s[..n], KeptGroups(s[n..]));
      } else {
        ValidIffGroupsProper(s[1..]);
        QuestionValid(Sanitized(s[1..]));
        assert r[1..] == Sanitized(s[1..]);
      }
    }
  }

  lemma NoGroups()
    ensures AllProper([])
  {
  }

  lemma QuestionValid(t: seq<byte>)
    ensures ValidLength([QUESTION] + t) == 1
  {
  }

  /** Valid UTF-8 is never changed. */
  lemma {:induction false} ValidIsWellShaped(s: seq<byte>)
    requires ValidUtf8(s)
    ensures WellShaped(s) && Sanitized(s) == s
    decreases |s|
  {
    hide GroupLength, ValidLength;
    if s != [] {
      ValidIsGroup(s);
      ValidIsWellShaped(s[ValidLength(s)..]);
    }
    WellShapedStays(s);
  }

  /** The comment promises valid UTF-8, but the overlong form of NUL, a surrogate and a number
      above U+10FFFF all pass unchanged and are not valid. */
  lemma InvalidPasses()
    ensures Sanitized([0xC0, 0x80]) == [0xC0, 0x80] && !ValidUtf8(Sanitized([0xC0, 0x80]))
    ensures Sanitized([0xED, 0xA0, 0x80]) == [0xED, 0xA0, 0x80] && !ValidUtf8(Sanitized([0xED, 0xA0, 0x80]))
    ensures Sanitized([0xF4, 0x90, 0x80, 0x80]) == [0xF4, 0x90, 0x80, 0x80] && !ValidUtf8(Sanitized([0xF4, 0x90, 0x80, 0x80]))
  {
    OneGroupStays([0xC0, 0x80]);
    OneGroupStays([0xED, 0xA0, 0x80]);
    OneGroupStays([0xF4, 0x90, 0x80, 0x80]);
  }

  lemma OneGroupStays(g: seq<byte>)
    requires g != [] && GroupLength(g) == |g|
    ensures Sanitized(g) == g && (ValidLength(g) == 0 ==> !ValidUtf8(g))
  {
    hide GroupLength, ValidLength;
    assert g[|g|..] == [] && WellShaped([]);
    WellShapedStays(g);
  }

  // ----- the loop

  /** The continuation bytes behind position i are there. */
  method Follows(buf: array<byte>, i: nat, expected: nat) returns (ok: bool)
    requires i < buf.Length
    ensures ok <==> Followed(buf[i..], expected)
  {
    hide BitAnd;
    ghost var s := buf[i..];
    var j := 1;
    while j <= expected
      invariant 1 <= j <= expected + 1 && j - 1 < |s|
      invariant forall k :: 1 <= k < j ==> Continuation(s[k])
    {
      if i + j >= buf.Length {
        return false;
      }
      assert s[j] == buf[i + j];
      Masks(buf[i + j]);
      if And8(buf[i + j], 0xC0) != 0x80 {
        return false;
      }
      j := j + 1;
    }
    ok := true;
  }

  /** The number of bytes the lead byte at i asks for, by its masks; 0 for a bad one. */
  method Expected(c: byte) returns (expected: nat)
    requires !Ascii(c)
    ensures expected == Wanted(c)
  {
    hide BitAnd;
    Masks(c);
    if And8(c, 0xE0) == 0xC0 {
      expected := 1;
    } else if And8(c, 0xF0) == 0xE0 {
      expected := 2;
    } else if And8(c, 0xF8) == 0xF0 {
      expected := 3;
    } else {
      expected := 0;
    }
  }

  /** The first i bytes are done, the others are as they were. */
  ghost predicate Done(now: seq<byte>, was: seq<byte>, i: nat) {
    i <= |was| == |now| && now[i..] == was[i..] && Sanitized(was) == now[..i] + Sanitized(was[i..])
  }

  lemma DoneGroup(now: seq<byte>, was: seq<byte>, i: nat)
    requires Done(now, was, i) && i < |was|
    ensures now[i] == was[i] && GroupLength(was[i..]) == GroupLength(now[i..])
    ensures GroupLength(was[i..]) > 0 ==> Done(now, was, i + GroupLength(was[i..]))
    ensures GroupLength(was[i..]) == 0 ==> Done(now[i := QUESTION], was, i + 1)
  {
    hide GroupLength;
    var s := was[i..];
    var n := GroupLength(s);
    assert now[i] == now[i..][0] == s[0];
    if n > 0 {
      assert s[n..] == was[i + n..] && now[i + n..] == s[n..];
      assert now[..i + n] == now[..i] + s[..n] by { assert now[i..][..n] == now[i..i + n]; }
      assert now[..i] + (s[..n] + Sanitized(s[n..])) == now[..i + n] + Sanitized(was[i + n..]);
    } else {
      var next := now[i := QUESTION];
      assert s[1..] == was[i + 1..] && next[i + 1..] == now[i..][1..];
      assert next[..i + 1] == now[..i] + [QUESTION];
      assert now[..i] + ([QUESTION] + Sanitized(s[1..])) == next[..i + 1] + Sanitized(was[i + 1..]);
    }
  }

  /** sanitize_utf8. */
  method Sanitize(buf: array<byte>) returns (len: nat)
    modifies buf
    ensures len == buf.Length && buf[..] == Sanitized(old(buf[..]))
  {
    hide Sanitized, Done;
    ghost var was := buf[..];
    var i := 0;
    DoneStart(was);
    while i < buf.Length
      invariant 0 <= i <= buf.Length == |was| && Done(buf[..], was, i)
    {
      DoneGroup(buf[..], was, i);
      assert buf[..][i..] == buf[i..];
      var c := buf[i];
      if c < 0x80 {
        i := i + 1;
        continue;
      }
      var expected := Expected(c);
      if expected == 0 {
        buf[i] := QUESTION;
        i := i + 1;
        continue;
      }
      var ok := Follows(buf, i, expected);
      if ok {
        i := i + 1 + expected;
      } else {
        buf[i] := QUESTION;
        i := i + 1;
      }
    }
    DoneEnd(buf[..], was);
    len := buf.Length;
  }

  lemma DoneStart(was: seq<byte>)
    ensures Done(was, was, 0)
  {
    assert was[0..] == was && was[..0] == [];
  }

  lemma DoneEnd(now: seq<byte>, was: seq<byte>)
    requires Done(now, was, |was|)
    ensures now == Sanitized(was)
  {
    assert was[|was|..] == [] && now[..|now|] == now;
  }
}
