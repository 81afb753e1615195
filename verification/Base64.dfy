/** Base64 of section 4 of RFC 4648, as the chat history writes encrypted bodies
    (chat_history.c:240-301). */
module Base64 {
  import opened Bits
  import opened Wrappers
  import opened Text

  const PAD: byte := 61

  type sextet = v: int | 0 <= v < 64

  /** The alphabet b64enc. */
  function Char(v: sextet): (c: byte)
    ensures 43 <= c < 128 && c != PAD
  {
    if v < 26 then 65 + v else if v < 52 then 71 + v else if v < 62 then v - 4 else if v == 62 then 43 else 47
  }

  /** The table tbl: the padding counts as zero, everything outside the alphabet as -1. */
  function Value(c: byte): (v: int)
    ensures -1 <= v < 64
  {
    if 65 <= c <= 90 then c - 65
    else if 97 <= c <= 122 then c - 71
    else if 48 <= c <= 57 then c + 4
    else if c == 43 then 62
    else if c == 47 then 63
    else if c == PAD then 0
    else -1
  }

  lemma ValueOfChar(v: sextet)
    ensures Value(Char(v)) == v
  {
  }

  // ----- the specification, group by group

  function Group(a: byte, b: byte, c: byte): (g: Str)
    ensures |g| == 4
  {
    [Char(a / 4), Char((a as int % 4) * 16 + b / 16), Char((b as int % 16) * 4 + c / 64), Char(c % 64)]
  }

  function LastOne(a: byte): (g: Str)
    ensures |g| == 4
  {
    [Char(a / 4), Char((a as int % 4) * 16), PAD, PAD]
  }

  function LastTwo(a: byte, b: byte): (g: Str)
    ensures |g| == 4
  {
    [Char(a / 4), Char((a as int % 4) * 16 + b / 16), Char((b as int % 16) * 4), PAD]
  }

  function Encode(s: seq<byte>): (r: Str)
    ensures |r| == (|s| + 2) / 3 * 4
  {
    if |s| == 0 then []
    else if |s| == 1 then LastOne(s[0])
    else if |s| == 2 then LastTwo(s[0], s[1])
    else Group(s[0], s[1], s[2]) + Encode(s[3..])
  }

  /** The bytes of one group; a padding in the third or fourth place drops its byte. */
  function Ungroup(a: byte, b: byte, c: byte, d: byte): (r: Option<seq<byte>>)
    ensures r.Some? ==> 1 <= |r.value| <= 3
  {
    if Value(a) < 0 || Value(b) < 0 || Value(c) < 0 || Value(d) < 0 then None
    else Some([Value(a) * 4 + Value(b) / 16]
              + (if c != PAD then [Value(b) % 16 * 16 + Value(c) / 4] else [])
              + (if d != PAD then [Value(c) % 4 * 64 + Value(d)] else []))
  }

  function Decode(s: Str): Option<seq<byte>> {
    if |s| == 0 then Some([])
    else if |s| < 4 then None
    else
      var g := Ungroup(s[0], s[1], s[2], s[3]);
      var r := Decode(s[4..]);
      if g.None? || r.None? then None else Some(g.value + r.value)
  }

  // ----- the round trip

  lemma UngroupGroup(a: byte, b: byte, c: byte)
    ensures var g := Group(a, b, c); Ungroup(g[0], g[1], g[2], g[3]) == Some([a, b, c])
    ensures var g := LastTwo(a, b); Ungroup(g[0], g[1], g[2], g[3]) == Some([a, b])
    ensures var g := LastOne(a); Ungroup(g[0], g[1], g[2], g[3]) == Some([a])
  {
    hide Char, Value;
    ValueOfChar(a / 4);
    ValueOfChar((a as int % 4) * 16 + b / 16);
    ValueOfChar((b as int % 16) * 4 + c / 64);
    ValueOfChar(c % 64);
    ValueOfChar((b as int % 16) * 4);
    ValueOfChar((a as int % 4) * 16);
    PadValue();
    Rejoin(a, b, c);
    Rejoin(a, b, 0);
    Rejoin(a, 0, 0);
    assert [a] + [b] + [c] == [a, b, c];
    assert [a] + [b] + [] == [a, b];
    assert [a] + [] + [] == [a];
  }

  lemma Rejoin(a: int, b: int, c: int)
    requires 0 <= a < 0x100 && 0 <= b < 0x100 && 0 <= c < 0x100
    ensures var v1, v2 := a % 4 * 16 + b / 16, b % 16 * 4 + c / 64;
            a / 4 * 4 + v1 / 16 == a && v1 % 16 * 16 + v2 / 4 == b && v2 % 4 * 64 + c % 64 == c
  {
  }

  lemma PadValue()
    ensures Value(PAD) == 0
  {
  }

  /** Decoding inverts encoding. */
  lemma {:induction false} DecodeEncode(s: seq<byte>)
    ensures Decode(Encode(s)) == Some(s)
    decreases |s|
  {
    hide Group, LastOne, LastTwo, Ungroup;
    if |s| >= 3 {
      UngroupGroup(s[0], s[1], s[2]);
      DecodeEncode(s[3..]);
      assert Encode(s)[4..] == Encode(s[3..]);
      assert s == [s[0], s[1], s[2]] + s[3..];
    } else if |s| == 2 {
      UngroupGroup(s[0], s[1], 0);
      assert Encode(s)[4..] == [] && s == [s[0], s[1]];
      assert Decode([]) == Some([]) && [s[0], s[1]] + [] == s;
    } else if |s| == 1 {
      UngroupGroup(s[0], 0, 0);
      assert Encode(s)[4..] == [] && s == [s[0]];
      assert Decode([]) == Some([]) && [s[0]] + [] == s;
    }
  }

  /** Plain ASCII above the control bytes, without quote or backslash. */
  predicate Plain(s: Str) {
    forall i :: 0 <= i < |s| ==> 43 <= s[i] < 128 && s[i] != BACKSLASH
  }

  /** What is written needs no escape inside a JSON string. */
  lemma {:induction false} EncodePlain(s: seq<byte>)
    ensures Plain(Encode(s))
    decreases |s|
  {
    if |s| >= 3 {
      EncodePlain(s[3..]);
      GroupPlain(s[0], s[1], s[2]);
      PlainConcat(Group(s[0], s[1], s[2]), Encode(s[3..]));
    } else if |s| == 2 {
      GroupPlain(s[0], s[1], 0);
    } else if |s| == 1 {
      GroupPlain(s[0], 0, 0);
    }
  }

  lemma GroupPlain(a: byte, b: byte, c: byte)
    ensures Plain(Group(a, b, c)) && Plain(LastTwo(a, b)) && Plain(LastOne(a))
  {
  }

  lemma PlainConcat(a: Str, b: Str)
    requires Plain(a) && Plain(b)
    ensures Plain(a + b)
  {
  }

  // ----- the loops

  function Join24(a: byte, b: byte, c: byte): u32 {
    Or32(Or32(Shl32(a, 16), Shl32(b, 8)), c)
  }

  lemma Join24Is(a: byte, b: byte, c: byte)
    ensures Join24(a, b, c) == 0x1_0000 * (a as int) + 0x100 * (b as int) + c as int
  {
    hide BitOr, Pow2;
    Pow2Values();
    assert Shl32(a, 16) == 0x1_0000 * (a as int) && Shl32(b, 8) == 0x100 * (b as int);
    OrIsAdd(0x100 * (b as int), 16, a);
    OrIsAdd(c, 8, 0x100 * (a as int) + b as int);
  }

  /** The sextet k bits up in v. */
  function Sextet(v: u32, k: nat): sextet {
    hide BitAnd, Shr;
    SextetIs(v, k, Pow2(k));
    BitAnd(Shr(v, k), 0x3F)
  }

  lemma SextetIs(v: u32, k: nat, p: nat)
    requires p == Pow2(k)
    ensures BitAnd(Shr(v, k), 0x3F) == v / p % 64
  {
    hide BitAnd;
    Pow2Values();
    AndLowMask(Shr(v, k), 6);
  }

  lemma Split24(a: int, b: int, c: int)
    requires 0 <= a < 0x100 && 0 <= b < 0x100 && 0 <= c < 0x100
    ensures var v := 0x1_0000 * a + 0x100 * b + c;
            v / 0x4_0000 % 64 == a / 4 && v / 0x1000 % 64 == a % 4 * 16 + b / 16
            && v / 64 % 64 == b % 16 * 4 + c / 64 && v % 64 == c % 64
  {
    var v := 0x1_0000 * a + 0x100 * b + c;
    DivModUnique(v, 0x4_0000, a / 4, a % 4 * 0x1_0000 + 0x100 * b + c);
    DivModUnique(v, 0x1000, 16 * a + b / 16, b % 16 * 0x100 + c);
    DivModUnique(16 * a + b / 16, 64, a / 4, a % 4 * 16 + b / 16);
    DivModUnique(v, 64, 0x400 * a + 4 * b + c / 64, c % 64);
    DivModUnique(0x400 * a + 4 * b + c / 64, 64, 16 * a + b / 16, b % 16 * 4 + c / 64);
  }

  lemma SextetsOf(a: byte, b: byte, c: byte)
    ensures var v := Join24(a, b, c);
            Sextet(v, 18) == a / 4 && Sextet(v, 12) == (a as int % 4) * 16 + b / 16
            && Sextet(v, 6) == (b as int % 16) * 4 + c / 64 && Sextet(v, 0) == c % 64
  {
    hide Join24, BitAnd, Shr, Pow2;
    Pow2Small();
    var v := Join24(a, b, c);
    Join24Is(a, b, c);
    Pow2Values();
    SextetIs(v, 18, 0x4_0000);
    SextetIs(v, 12, 0x1000);
    SextetIs(v, 6, 64);
    SextetIs(v, 0, 1);
    Split24(a, b, c);
  }

  /** lm_b64_encode. */
  method B64Encode(input: seq<byte>) returns (out: Str)
    ensures out == Encode(input)
  {
    hide Join24, Sextet, Encode, Char;
    out := [];
    var i := 0;
    assert input[0..] == input;
    while i + 3 <= |input|
      invariant 0 <= i <= |input|
      invariant out + Encode(input[i..]) == Encode(input)
    {
      var v := Join24(input[i], input[i + 1], input[i + 2]);
      SextetsOf(input[i], input[i + 1], input[i + 2]);
      var g := [Char(Sextet(v, 18)), Char(Sextet(v, 12)), Char(Sextet(v, 6)), Char(Sextet(v, 0))];
      EncodeTurn(input, i);
      assert out + (g + Encode(input[i + 3..])) == out + g + Encode(input[i + 3..]);
      out := out + g;
      i := i + 3;
    }
    EncodeEnd(input, i);
    if i < |input| {
      var second := if i + 1 < |input| then input[i + 1] else 0;
      var v := Join24(input[i], second, 0);
      SextetsOf(input[i], second, 0);
      out := out + [Char(Sextet(v, 18)), Char(Sextet(v, 12)),
                    if i + 1 < |input| then Char(Sextet(v, 6)) else PAD, PAD];
    } else {
      assert out + [] == out;
    }
  }

  lemma EncodeTurn(s: seq<byte>, i: nat)
    requires i + 3 <= |s|
    ensures Encode(s[i..]) == Group(s[i], s[i + 1], s[i + 2]) + Encode(s[i + 3..])
  {
    assert s[i..][3..] == s[i + 3..];
  }

  lemma EncodeEnd(s: seq<byte>, i: nat)
    requires i <= |s| < i + 3
    ensures i == |s| ==> Encode(s[i..]) == []
    ensures i + 1 == |s| ==> Encode(s[i..]) == LastOne(s[i])
    ensures i + 2 == |s| ==> Encode(s[i..]) == LastTwo(s[i], s[i + 1])
  {
  }

  function Fit(r: Option<seq<byte>>, cap: nat): Option<seq<byte>> {
    if r.Some? && |r.value| <= cap then r else None
  }

  function Join4(a: sextet, b: sextet, c: sextet, d: sextet): u32 {
    Or32(Or32(Or32(Shl32(a, 18), Shl32(b, 12)), Shl32(c, 6)), d)
  }

  lemma Join4Is(a: sextet, b: sextet, c: sextet, d: sextet)
    ensures Join4(a, b, c, d) == 0x4_0000 * (a as int) + 0x1000 * (b as int) + 64 * (c as int) + d as int
  {
    hide BitOr, Pow2;
    Pow2Values();
    assert Shl32(a, 18) == 0x4_0000 * (a as int) && Shl32(b, 12) == 0x1000 * (b as int) && Shl32(c, 6) == 64 * (c as int);
    OrIsAdd(0x1000 * (b as int), 18, a);
    OrIsAdd(64 * (c as int), 12, 64 * (a as int) + b as int);
    OrIsAdd(d, 6, 0x1000 * (a as int) + 64 * (b as int) + c as int);
  }

  /** The byte k bits up in v. */
  function Octet(v: u32, k: nat): byte {
    hide BitAnd, Shr;
    OctetIs(v, k, Pow2(k));
    BitAnd(Shr(v, k), 0xFF)
  }

  lemma OctetIs(v: u32, k: nat, p: nat)
    requires p == Pow2(k)
    ensures BitAnd(Shr(v, k), 0xFF) == v / p % 0x100
  {
    hide BitAnd;
    Pow2Values();
    AndLowMask(Shr(v, k), 8);
  }

  lemma SplitFour(a: int, b: int, c: int, d: int)
    requires 0 <= a < 64 && 0 <= b < 64 && 0 <= c < 64 && 0 <= d < 64
    ensures var v := 0x4_0000 * a + 0x1000 * b + 64 * c + d;
            v / 0x1_0000 % 0x100 == a * 4 + b / 16 && v / 0x100 % 0x100 == b % 16 * 16 + c / 4
            && v % 0x100 == c % 4 * 64 + d
  {
    var v := 0x4_0000 * a + 0x1000 * b + 64 * c + d;
    DivModUnique(v, 0x1_0000, 4 * a + b / 16, b % 16 * 0x1000 + 64 * c + d);
    DivModUnique(v, 0x100, 0x400 * a + 16 * b + c / 4, c % 4 * 64 + d);
    DivModUnique(0x400 * a + 16 * b + c / 4, 0x100, 4 * a + b / 16, b % 16 * 16 + c / 4);
  }

  lemma OctetsOf(a: sextet, b: sextet, c: sextet, d: sextet)
    ensures var v := Join4(a, b, c, d);
            Octet(v, 16) == a * 4 + b / 16 && Octet(v, 8) == (b as int % 16) * 16 + c / 4
            && Octet(v, 0) == (c as int % 4) * 64 + d
  {
    hide Join4, BitAnd, Shr, Pow2;
    Pow2Small();
    var v := Join4(a, b, c, d);
    Join4Is(a, b, c, d);
    Pow2Values();
    OctetIs(v, 16, 0x1_0000);
    OctetIs(v, 8, 0x100);
    OctetIs(v, 0, 1);
    SplitFour(a, b, c, d);
  }

  /** The index into the table: a signed char, widened with its sign and taken as unsigned. */
  function TableIndex(c: byte): nat { if c < 0x80 then c else 0xffff_ff00 + c }

  /** The 256 entries of the table. */
  function TableEntry(i: nat): int
    requires i < 0x100
  {
    Value(i)
  }

  predicate GroupInTable(a: byte, b: byte, c: byte, d: byte) {
    TableIndex(a) < 0x100 && TableIndex(b) < 0x100 && TableIndex(c) < 0x100 && TableIndex(d) < 0x100
  }

  /** Decoding s into room bytes stays inside the table: every group up to the one it stops at. */
  predicate InTable(s: Str, room: nat) {
    |s| < 4
    || (GroupInTable(s[0], s[1], s[2], s[3])
        && var g := Ungroup(s[0], s[1], s[2], s[3]);
           g.None? || |g.value| > room || InTable(s[4..], room - |g.value|))
  }

  predicate Ascii(s: Str) { forall i :: 0 <= i < |s| ==> s[i] < 0x80 }

  lemma {:induction false} AsciiInTable(s: Str, room: nat)
    requires Ascii(s)
    ensures InTable(s, room)
    decreases |s|
  {
    hide Ungroup;
    if |s| >= 4 {
      assert forall i :: 0 <= i < |s[4..]| ==> s[4..][i] == s[i + 4];
      var g := Ungroup(s[0], s[1], s[2], s[3]);
      if g.Some? && |g.value| <= room {
        AsciiInTable(s[4..], room - |g.value|);
      }
    }
  }

  /** The bytes of one group go behind out, unless they do not fit. */
  method PutGroup(out: seq<byte>, cap: nat, a: byte, b: byte, c: byte, d: byte) returns (r: Option<seq<byte>>)
    requires |out| <= cap && GroupInTable(a, b, c, d)
    ensures Ungroup(a, b, c, d).None? ==> r.None?
    ensures Ungroup(a, b, c, d).Some? ==> r == Fit(Some(out + Ungroup(a, b, c, d).value), cap)
  {
    hide Value, Join4, Octet;
    var va, vb, vc, vd := TableEntry(TableIndex(a)), TableEntry(TableIndex(b)), TableEntry(TableIndex(c)), TableEntry(TableIndex(d));
    if va < 0 || vb < 0 || vc < 0 || vd < 0 {
      return None;
    }
    var v := Join4(va, vb, vc, vd);
    OctetsOf(va, vb, vc, vd);
    if |out| + 1 > cap {
      return None;
    }
    var o := out + [Octet(v, 16)];
    if c != PAD {
      if |o| + 1 > cap {
        return None;
      }
      o := o + [Octet(v, 8)];
    }
    if d != PAD {
      if |o| + 1 > cap {
        return None;
      }
      o := o + [Octet(v, 0)];
    }
    assert o == out + Ungroup(a, b, c, d).value;
    r := Some(o);
  }

  function Before(out: seq<byte>, r: Option<seq<byte>>): Option<seq<byte>> {
    if r.None? then None else Some(out + r.value)
  }

  lemma DecodeNothing()
    ensures Decode([]) == Some([])
  {
  }

  lemma DecodeTurn(s: Str, i: nat, out: seq<byte>)
    requires i < |s|
    ensures i + 3 >= |s| ==> Decode(s[i..]).None?
    ensures i + 3 < |s| ==>
      var g := Ungroup(s[i], s[i + 1], s[i + 2], s[i + 3]);
      Before(out, Decode(s[i..])) == if g.None? then None else Before(out + g.value, Decode(s[i + 4..]))
  {
    hide Ungroup;
    if i + 3 < |s| {
      var t := s[i..];
      assert t[4..] == s[i + 4..];
      var g, r := Ungroup(s[i], s[i + 1], s[i + 2], s[i + 3]), Decode(s[i + 4..]);
      if g.Some? && r.Some? {
        assert out + (g.value + r.value) == out + g.value + r.value;
      }
    }
  }

  // The group at i, in terms of the rest.
  lemma InTableTurn(s: Str, i: nat, room: nat)
    requires i + 3 < |s| && InTable(s[i..], room)
    ensures GroupInTable(s[i], s[i + 1], s[i + 2], s[i + 3])
    ensures var g := Ungroup(s[i], s[i + 1], s[i + 2], s[i + 3]);
            g.Some? && |g.value| <= room ==> InTable(s[i + 4..], room - |g.value|)
  {
    hide Ungroup;
    assert s[i..][4..] == s[i + 4..];
  }

  /** lm_b64_decode, where its reads of the table are defined. */
  method B64Decode(input: Str, cap: nat) returns (r: Option<seq<byte>>)
    requires InTable(input, cap)
    ensures r == Fit(Decode(input), cap)
  {
    hide Decode, Ungroup, InTable, GroupInTable;
    DecodeNothing();
    var out: seq<byte> := [];
    var i := 0;
    assert input[0..] == input;
    assert Decode(input) == Before([], Decode(input)) by {
      if Decode(input).Some? {
        assert [] + Decode(input).value == Decode(input).value;
      }
    }
    while i < |input|
      invariant 0 <= i <= |input| && |out| <= cap
      invariant Decode(input) == Before(out, Decode(input[i..]))
      invariant InTable(input[i..], cap - |out|)
    {
      DecodeTurn(input, i, out);
      if i + 3 >= |input| {
        return None;
      }
      InTableTurn(input, i, cap - |out|);
      var next := PutGroup(out, cap, input[i], input[i + 1], input[i + 2], input[i + 3]);
      if next.None? {
        return None;
      }
      out := next.value;
      i := i + 4;
    }
    assert input[i..] == [];
    assert out + [] == out;
    r := Some(out);
  }
}
