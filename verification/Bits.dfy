/** Bytes, fixed-width words and the bit operations of C on unsigned integers.
    Words are integers with their range in the type; wrap-around is written out. */
module Bits {
  type byte = b: int | 0 <= b < 0x100
  type u16 = w: int | 0 <= w < 0x1_0000
  type u32 = w: int | 0 <= w < 0x1_0000_0000
  type u64 = w: int | 0 <= w < 0x1_0000_0000_0000_0000

  function Pow2(k: nat): (p: nat)
    ensures p >= 1
  {
    if k == 0 then 1 else 2 * Pow2(k - 1)
  }

  function BitAnd(a: nat, b: nat): nat {
    if a == 0 || b == 0 then 0
    else 2 * BitAnd(a / 2, b / 2) + (if a % 2 == 1 && b % 2 == 1 then 1 else 0)
  }

  function BitOr(a: nat, b: nat): nat
    decreases a + b
  {
    if a == 0 && b == 0 then 0
    else 2 * BitOr(a / 2, b / 2) + (if a % 2 == 1 || b % 2 == 1 then 1 else 0)
  }

  function BitXor(a: nat, b: nat): nat
    decreases a + b
  {
    if a == 0 && b == 0 then 0
    else 2 * BitXor(a / 2, b / 2) + (if a % 2 != b % 2 then 1 else 0)
  }

  // ----- 32- and 64-bit unsigned arithmetic, wrapping as in C

  function Add32(a: u32, b: u32): u32 { (a + b) % 0x1_0000_0000 }
  function Sub32(a: u32, b: u32): u32 { (a - b) % 0x1_0000_0000 }
  function Mul32(a: u32, b: u32): u32 { (a * b) % 0x1_0000_0000 }
  function Add64(a: u64, b: u64): u64 { (a + b) % 0x1_0000_0000_0000_0000 }
  function Low64(a: nat): u64 { a % 0x1_0000_0000_0000_0000 }
  function Mul64(a: u64, b: u64): u64 { MulSign(a, b); Low64(a * b) }
  lemma MulSign(a: nat, b: nat)
    ensures a * b >= 0
  {
  }
  function Low32(a: u64): u32 { a % 0x1_0000_0000 }
  function Shl32(a: u32, k: nat): u32 { (a * Pow2(k)) % 0x1_0000_0000 }

  function Shr(a: nat, k: nat): (r: nat)
    ensures r <= a
  {
    DivRange(a, Pow2(k));
    a / Pow2(k)
  }

  function Not32(a: u32): u32 { 0xffff_ffff - a }

  function Or32(a: u32, b: u32): u32 {
    assert Pow2(32) == 0x1_0000_0000 by { Pow2Values(); }
    OrRange(a, b, 32);
    BitOr(a, b)
  }

  function And32(a: u32, b: u32): u32 {
    AndRange(a, b);
    BitAnd(a, b)
  }

  // ----- facts about the bit operations

  lemma MulAtLeast(p: int, k: int)
    ensures p >= 0 && k >= 1 ==> p * k >= p
  {
    assert p * k - p == p * (k - 1);
  }

  lemma DivRange(a: nat, p: nat)
    requires p > 0
    ensures 0 <= a / p <= a
  {
    var q := a / p;
    assert a == p * q + a % p;
    MulAtLeast(p, -q);
    MulAtLeast(q, p);
  }

  lemma {:induction false} AndLowMask(x: nat, k: nat)
    ensures BitAnd(x, Pow2(k) - 1) == x % Pow2(k)
    decreases k
  {
    if x == 0 || k == 0 {
    } else {
      var p := Pow2(k - 1);
      AndLowMask(x / 2, k - 1);
      assert (2 * p - 1) / 2 == p - 1 && (2 * p - 1) % 2 == 1;
      ModTwice(x, p);
    }
  }

  lemma ModTwice(x: nat, p: nat)
    requires p > 0
    ensures x % (2 * p) == 2 * ((x / 2) % p) + x % 2
  {
    var y := x / 2;
    var q := y / p;
    assert y == p * q + y % p;
    assert x == (2 * p) * q + (2 * (y % p) + x % 2) by {
      assert x == 2 * y + x % 2;
      assert 2 * (p * q) == (2 * p) * q;
    }
    DivModUnique(x, 2 * p, q, 2 * (y % p) + x % 2);
  }

  lemma DivModUnique(x: int, d: int, q: int, r: int)
    requires d > 0 && 0 <= r < d && x == d * q + r
    ensures x / d == q && x % d == r
  {
    var q', r' := x / d, x % d;
    assert x == d * q' + r';
    var k := q - q';
    assert d * k == r' - r;
    assert k >= 1 ==> d * k >= d;
    assert k <= -1 ==> d * k <= -d;
  }

  // A mask made of a low and a high part acts on the two parts separately.
  lemma {:induction false} AndSplit(x: nat, k: nat, lo: nat, hi: nat)
    requires lo < Pow2(k)
    ensures AndSplits(x, Pow2(k), lo, hi)
    decreases k
  {
    if k == 0 {
      AndSplitUnit(x, hi);
    } else {
      AndSplit(x / 2, k - 1, lo / 2, hi);
      AndSplitStep(x, Pow2(k - 1), lo, hi);
    }
  }

  ghost predicate AndSplits(x: nat, p: nat, lo: nat, hi: nat)
    requires p > 0
  {
    BitAnd(x, lo + p * hi) == BitAnd(x % p, lo) + p * BitAnd(x / p, hi)
  }

  lemma AndSplitUnit(x: nat, hi: nat)
    ensures AndSplits(x, 1, 0, hi)
  {
    assert x % 1 == 0 && x / 1 == x && BitAnd(0, 0) == 0;
    assert 0 + 1 * hi == hi;
  }

  lemma AndSplitStep(x: nat, p: nat, lo: nat, hi: nat)
    requires p > 0 && AndSplits(x / 2, p, lo / 2, hi)
    ensures AndSplits(x, 2 * p, lo, hi)
  {
    DivDiv(x, p);
    var a := BitAnd(x / (2 * p), hi);
    HalveMask(x, p, lo, hi, a);
    AndCombine(x, lo + (2 * p) * hi, x % (2 * p), lo, p * a);
  }

  lemma HalveMask(x: nat, p: nat, lo: nat, hi: nat, a: nat)
    requires p > 0
    ensures var m := lo + (2 * p) * hi;
            m / 2 == lo / 2 + p * hi && m % 2 == lo % 2
    ensures var y := x % (2 * p);
            y / 2 == (x / 2) % p && y % 2 == x % 2
    ensures (2 * p) * a == 2 * (p * a)
  {
    MulAssoc(2, p, hi);
    MulAssoc(2, p, a);
    ModTwice(x, p);
  }

  lemma AndCombine(x: nat, m: nat, y: nat, lo: nat, v: int)
    requires x % 2 == y % 2 && m % 2 == lo % 2
    requires BitAnd(x / 2, m / 2) == BitAnd(y / 2, lo / 2) + v
    ensures BitAnd(x, m) == BitAnd(y, lo) + 2 * v
  {
    AndStep(x, m);
    AndStep(y, lo);
  }

  lemma MulAssoc(a: int, b: int, c: int)
    ensures (a * b) * c == a * (b * c)
  {
  }

  lemma AndStep(a: nat, b: nat)
    ensures BitAnd(a, b) == 2 * BitAnd(a / 2, b / 2) + (if a % 2 == 1 && b % 2 == 1 then 1 else 0)
  {
  }

  lemma DivDiv(x: nat, p: nat)
    requires p > 0
    ensures (x / 2) / p == x / (2 * p)
  {
    var y := x / 2;
    assert y == p * (y / p) + y % p;
    assert x == (2 * p) * (y / p) + (2 * (y % p) + x % 2) by {
      assert 2 * (p * (y / p)) == (2 * p) * (y / p);
    }
    DivModUnique(x, 2 * p, y / p, 2 * (y % p) + x % 2);
  }

  lemma AndZero(x: nat)
    ensures BitAnd(x, 0) == 0
  {
  }

  // OR of values that share no bit position is addition.
  lemma {:induction false} OrIsAdd(a: nat, k: nat, b: nat)
    requires a < Pow2(k)
    ensures BitOr(a, b * Pow2(k)) == a + b * Pow2(k)
    ensures BitOr(b * Pow2(k), a) == a + b * Pow2(k)
    decreases k
  {
    if k == 0 {
      OrZero(b);
    } else {
      var p := Pow2(k - 1);
      assert b * (2 * p) == 2 * (b * p);
      OrIsAdd(a / 2, k - 1, b);
      var c := b * Pow2(k);
      assert c / 2 == b * p && c % 2 == 0;
    }
  }

  lemma OrOfShl(a: nat, b: nat, k: nat, p: nat)
    requires p == Pow2(k) && a < p && b * p < 0x1_0000_0000
    ensures b < 0x1_0000_0000 && BitOr(a, Shl32(b, k)) == a + b * p
  {
    hide BitOr;
    OrIsAdd(a, k, b);
    LessEqMul(b, p);
    assert b * p % 0x1_0000_0000 == b * p;
  }

  lemma LessEqMul(b: nat, p: nat)
    requires p > 0
    ensures b <= b * p
  {
  }

  lemma {:induction false} OrZero(a: nat)
    ensures BitOr(a, 0) == a && BitOr(0, a) == a
  {
    if a != 0 {
      OrZero(a / 2);
    }
  }

  lemma {:induction false} OrIsZero(a: nat, b: nat)
    ensures BitOr(a, b) == 0 <==> a == 0 && b == 0
    decreases a + b
  {
    if a != 0 || b != 0 {
      OrIsZero(a / 2, b / 2);
    }
  }

  lemma {:induction false} OrRange(a: nat, b: nat, k: nat)
    requires a < Pow2(k) && b < Pow2(k)
    ensures BitOr(a, b) < Pow2(k)
    decreases k
  {
    if k != 0 && (a != 0 || b != 0) {
      OrRange(a / 2, b / 2, k - 1);
    }
  }

  lemma {:induction false} XorRange(a: nat, b: nat, k: nat)
    requires a < Pow2(k) && b < Pow2(k)
    ensures BitXor(a, b) < Pow2(k)
    decreases k
  {
    if k != 0 && (a != 0 || b != 0) {
      XorRange(a / 2, b / 2, k - 1);
    }
  }

  lemma {:induction false} XorTwice(a: nat, b: nat)
    ensures BitXor(BitXor(a, b), b) == a
    decreases a + b
  {
    if a != 0 || b != 0 {
      XorTwice(a / 2, b / 2);
      var x := BitXor(a, b);
      assert x / 2 == BitXor(a / 2, b / 2);
    }
  }

  lemma {:induction false} XorIsZero(a: nat, b: nat)
    ensures BitXor(a, b) == 0 <==> a == b
    decreases a + b
  {
    if a != 0 || b != 0 {
      XorIsZero(a / 2, b / 2);
    }
  }

  /** Exclusive or works on the low k bits and the others apart. */
  lemma {:induction false} XorApart(x: nat, u: nat, y: nat, v: nat, k: nat, p: nat)
    requires p == Pow2(k) && x < p && u < p
    ensures BitXor(x + p * y, u + p * v) == BitXor(x, u) + p * BitXor(y, v)
    decreases k
  {
    hide BitXor;
    if k == 0 {
      XorNothing();
    } else {
      var q := Pow2(k - 1);
      MulAssoc(2, q, y);
      MulAssoc(2, q, v);
      MulAssoc(2, q, BitXor(y, v));
      XorApart(x / 2, u / 2, y, v, k - 1, q);
      XorApartStep(x, u, q * y, q * v);
    }
  }

  lemma XorNothing()
    ensures BitXor(0, 0) == 0
  {
  }

  lemma XorApartStep(x: nat, u: nat, y: nat, v: nat)
    ensures BitXor(x + 2 * y, u + 2 * v) - BitXor(x, u) == 2 * BitXor(x / 2 + y, u / 2 + v) - 2 * BitXor(x / 2, u / 2)
  {
    hide BitXor;
    XorTwoStep(x + 2 * y, u + 2 * v);
    XorTwoStep(x, u);
  }

  lemma XorTwoStep(a: nat, b: nat)
    ensures BitXor(a, b) == 2 * BitXor(a / 2, b / 2) + (if a % 2 != b % 2 then 1 else 0)
  {
  }

  function And8(a: byte, b: byte): byte {
    AndRange(a, b);
    BitAnd(a, b)
  }

  lemma {:induction false} AndRange(a: nat, b: nat)
    ensures BitAnd(a, b) <= a
    decreases a
  {
    if a != 0 && b != 0 {
      AndRange(a / 2, b / 2);
    }
  }

  /** Exclusive or of two bytes. */
  function Xor8(a: byte, b: byte): (r: byte)
    ensures Xor8Inverts(a, b, r)
  {
    XorRange(a, b, 8);
    XorTwice(a, b);
    XorIsZero(a, b);
    BitXor(a, b)
  }

  function Or8(a: byte, b: byte): byte {
    OrRange(a, b, 8);
    BitOr(a, b)
  }

  ghost predicate Xor8Inverts(a: byte, b: byte, r: byte) {
    BitXor(r, b) == a && (r == 0 <==> a == b)
  }

  // ----- little- and big-endian numbers

  function LeNum(b: seq<byte>): nat {
    if b == [] then 0 else b[0] + 0x100 * LeNum(b[1..])
  }

  function LeBytes(n: nat, len: nat): (b: seq<byte>)
    ensures |b| == len
  {
    if len == 0 then [] else [n % 0x100] + LeBytes(n / 0x100, len - 1)
  }

  lemma {:induction false} LeNumOfBytes(n: nat, len: nat)
    ensures LeNum(LeBytes(n, len)) == n % Pow2(8 * len)
    decreases len
  {
    if len != 0 {
      LeNumOfBytes(n / 0x100, len - 1);
      Pow2Byte(len - 1);
      ModByte(n, Pow2(8 * (len - 1)));
    }
  }

  lemma ModByte(n: nat, p: nat)
    requires p > 0
    ensures n % (0x100 * p) == 0x100 * ((n / 0x100) % p) + n % 0x100
  {
    var y := n / 0x100;
    assert y == p * (y / p) + y % p;
    MulAssoc(0x100, p, y / p);
    DivModUnique(n, 0x100 * p, y / p, 0x100 * (y % p) + n % 0x100);
  }

  lemma Pow2Byte(k: nat)
    ensures Pow2(8 * (k + 1)) == 0x100 * Pow2(8 * k)
  {
    Pow2Add(8 * k, 8);
    assert Pow2(8) == 0x100;
  }

  lemma {:induction false} Pow2Add(a: nat, b: nat)
    ensures Pow2(a + b) == Pow2(a) * Pow2(b)
    decreases b
  {
    if b != 0 {
      Pow2Add(a, b - 1);
      assert Pow2(a + b) == 2 * Pow2(a + b - 1);
      assert 2 * (Pow2(a) * Pow2(b - 1)) == Pow2(a) * (2 * Pow2(b - 1));
    }
  }

  lemma Pow2Low()
    ensures Pow2(2) == 4 && Pow2(4) == 0x10 && Pow2(6) == 0x40 && Pow2(8) == 0x100
  {
    Pow2Add(2, 2);
    Pow2Add(4, 2);
    Pow2Add(4, 4);
  }

  lemma Pow2Values()
    ensures Pow2(2) == 4 && Pow2(4) == 0x10 && Pow2(6) == 0x40 && Pow2(8) == 0x100
    ensures Pow2(12) == 0x1000 && Pow2(14) == 0x4000 && Pow2(16) == 0x1_0000
    ensures Pow2(18) == 0x4_0000 && Pow2(20) == 0x10_0000 && Pow2(24) == 0x100_0000
    ensures Pow2(26) == 0x400_0000 && Pow2(32) == 0x1_0000_0000
  {
    hide Pow2;
    Pow2Low();
    Pow2Add(8, 4);
    Pow2Add(8, 6);
    Pow2Add(8, 8);
    Pow2Add(16, 2);
    Pow2Add(16, 4);
    Pow2Add(16, 8);
    Pow2Add(20, 6);
    Pow2Add(16, 16);
  }

  lemma Pow2Small()
    ensures Pow2(0) == 1 && Pow2(3) == 8 && Pow2(5) == 32
  {
  }

  lemma {:induction false} LeBytesOfNum(b: seq<byte>)
    ensures LeBytes(LeNum(b), |b|) == b
  {
    if b != [] {
      LeBytesOfNum(b[1..]);
      var n := LeNum(b);
      assert n / 0x100 == LeNum(b[1..]) && n % 0x100 == b[0];
      assert b == [b[0]] + b[1..];
    }
  }

  lemma {:induction false} LeNumConcat(a: seq<byte>, b: seq<byte>)
    ensures LeNum(a + b) == LeNum(a) + Pow2(8 * |a|) * LeNum(b)
  {
    if a == [] {
      assert a + b == b;
    } else {
      LeNumConcat(a[1..], b);
      assert (a + b)[1..] == a[1..] + b;
      Pow2Byte(|a| - 1);
      assert 0x100 * (Pow2(8 * (|a| - 1)) * LeNum(b)) == Pow2(8 * |a|) * LeNum(b);
    }
  }

  function Four(b: seq<byte>, at: nat): nat
    requires at + 4 <= |b|
  {
    b[at] as int + 0x100 * (b[at + 1] as int) + 0x1_0000 * (b[at + 2] as int) + 0x100_0000 * (b[at + 3] as int)
  }

  lemma LeNumFour(b: seq<byte>)
    requires |b| >= 4
    ensures LeNum(b) == Four(b, 0) + 0x1_0000_0000 * LeNum(b[4..])
  {
    var b1, b2, b3 := b[1..], b[2..], b[3..];
    assert b1[1..] == b2 && b2[1..] == b3 && b3[1..] == b[4..];
    assert b1[0] == b[1] && b2[0] == b[2] && b3[0] == b[3];
    assert LeNum(b) == b[0] + 0x100 * LeNum(b1);
    assert LeNum(b1) == b1[0] + 0x100 * LeNum(b2);
    assert LeNum(b2) == b2[0] + 0x100 * LeNum(b3);
    assert LeNum(b3) == b3[0] + 0x100 * LeNum(b[4..]);
  }

  lemma LeNumSixteen(b: seq<byte>)
    requires |b| == 16
    ensures LeNum(b) == Four(b, 0) + 0x1_0000_0000 * Four(b, 4)
                      + 0x1_0000_0000_0000_0000 * Four(b, 8)
                      + 0x1_0000_0000_0000_0000_0000_0000 * Four(b, 12)
  {
    hide LeNum;
    LeNumFour(b);
    LeNumFour(b[4..]);
    assert b[4..][4..] == b[8..];
    LeNumFour(b[8..]);
    assert b[8..][4..] == b[12..];
    LeNumFour(b[12..]);
    assert b[12..][4..] == [];
    LeNumEmpty();
  }

  lemma LeNumEmpty()
    ensures LeNum([]) == 0
  {
  }

  /** Big-endian bytes, as on the Hotline wire (types.h). */
  function BeNum(b: seq<byte>): nat {
    if b == [] then 0 else BeNum(b[..|b| - 1]) * 0x100 + b[|b| - 1]
  }

  function BeBytes(n: nat, len: nat): (b: seq<byte>)
    ensures |b| == len
  {
    if len == 0 then [] else BeBytes(n / 0x100, len - 1) + [n % 0x100]
  }

  lemma {:induction false} BeBytesWrap(n: nat, len: nat)
    ensures BeBytes(n % Pow2(8 * len), len) == BeBytes(n, len)
    decreases len
  {
    if len != 0 {
      var p := Pow2(8 * (len - 1));
      Pow2Byte(len - 1);
      ModByte(n, p);
      var m := n % (0x100 * p);
      assert m / 0x100 == (n / 0x100) % p && m % 0x100 == n % 0x100;
      BeBytesWrap(n / 0x100, len - 1);
    }
  }

  lemma {:induction false} BeNumOfBytes(n: nat, len: nat)
    requires n < Pow2(8 * len)
    ensures BeNum(BeBytes(n, len)) == n
    decreases len
  {
    if len != 0 {
      Pow2Byte(len - 1);
      BeNumOfBytes(n / 0x100, len - 1);
      var b := BeBytes(n, len);
      assert b[..|b| - 1] == BeBytes(n / 0x100, len - 1);
    }
  }

  function CharByte(c: char): byte
    requires c as int < 0x80
  {
    c as int
  }

  /** The bytes of a text. */
  function BytesOf(s: string): (b: seq<byte>)
    requires forall i :: 0 <= i < |s| ==> s[i] as int < 0x80
    ensures |b| == |s|
  {
    var b: seq<byte> := seq(|s|, i requires 0 <= i < |s| => CharByte(s[i]));
    b
  }

  function Concat(parts: seq<seq<byte>>): seq<byte>
    decreases |parts|
  {
    if parts == [] then [] else parts[0] + Concat(parts[1..])
  }

  lemma PrefixLonger(e: seq<byte>, more: seq<byte>)
    ensures e + more <= e ==> e + more == e
  {
  }

  // ----- words of a buffer, and shifts

  lemma Load32Sum(b0: byte, b1: byte, b2: byte, b3: byte)
    ensures BitOr(BitOr(BitOr(b0, Shl32(b1, 8)), Shl32(b2, 16)), Shl32(b3, 24))
         == b0 + 0x100 * b1 + 0x1_0000 * b2 + 0x100_0000 * b3
  {
    hide *;
    Pow2Values();
    var x: nat := b0;
    OrOfShl(x, b1, 8, 0x100);
    OrOfShl(x + 0x100 * b1, b2, 16, 0x1_0000);
    OrOfShl(x + 0x100 * b1 + 0x1_0000 * b2, b3, 24, 0x100_0000);
  }

  function Load32(b: seq<byte>, at: nat): (w: u32)
    requires at + 4 <= |b|
    ensures w == Four(b, at)
  {
    Load32Sum(b[at], b[at + 1], b[at + 2], b[at + 3]);
    BitOr(BitOr(BitOr(b[at], Shl32(b[at + 1], 8)), Shl32(b[at + 2], 16)), Shl32(b[at + 3], 24))
  }

  lemma ShrIs(a: nat, k: nat, p: nat)
    requires p == Pow2(k)
    ensures Shr(a, k) == a / p
  {
  }

  lemma DivBelow(a: nat, p: nat, q: nat)
    requires p > 0 && a < p * q
    ensures a / p < q
  {
    var d := a / p - q;
    assert a == p * (q + d) + a % p;
    Distrib(p, q, d);
    Distrib(p, d, 1);
    MulAtLeast(p, d + 1);
  }

  lemma ShlWindow(b: u32, p: nat, q: nat)
    requires p > 0 && p * q == 0x1_0000_0000
    ensures (b * q) % 0x1_0000_0000 == q * (b % p)
  {
    var d, r := b / p, b % p;
    assert b == p * d + r;
    assert b * q == (p * q) * d + q * r by {
      assert (p * d) * q == (p * q) * d;
    }
    assert q * r < p * q by {
      assert q >= 1;
      assert q * r <= q * (p - 1);
      assert q * (p - 1) == p * q - q;
    }
    DivModUnique(b * q, 0x1_0000_0000, d, q * r);
  }

  lemma Distrib(p: int, a: int, b: int)
    ensures p * (a + b) == p * a + p * b
  {
  }

  lemma Xor8Twice(a: byte, b: byte)
    ensures Xor8(Xor8(a, b), b) == a
  {
    hide BitXor;
    XorTwice(a, b);
  }

  /** buf is orig with data written at base. */
  ghost predicate Written(buf: array<byte>, orig: seq<byte>, base: nat, data: seq<byte>)
    reads buf
  {
    && buf.Length == |orig| && base + |data| <= |orig|
    && buf[..] == orig[..base] + data + orig[base + |data|..]
  }

  /** memcpy into a buffer. */
  method Store(buf: array<byte>, at: nat, src: seq<byte>)
    requires at + |src| <= buf.Length
    modifies buf
    ensures Written(buf, old(buf[..]), at, src)
  {
    var i := 0;
    while i < |src|
      invariant 0 <= i <= |src|
      invariant buf[..at] == old(buf[..at]) && buf[at..at + i] == src[..i] && buf[at + i..] == old(buf[at + i..])
    {
      buf[at + i] := src[i];
      i := i + 1;
      assert buf[at..at + i] == buf[at..at + i - 1] + [src[i - 1]] == src[..i];
    }
  }

  /** memcpy behind what has been written so far. */
  method StoreNext(buf: array<byte>, at: nat, src: seq<byte>, ghost orig: seq<byte>, ghost base: nat, ghost data: seq<byte>)
    requires Written(buf, orig, base, data) && at == base + |data| && at + |src| <= buf.Length
    modifies buf
    ensures Written(buf, orig, base, data + src)
  {
    ghost var mid := buf[..];
    Store(buf, at, src);
    WrittenMore(orig, base, data, src, mid, buf[..]);
  }

  lemma WrittenMore(orig: seq<byte>, base: nat, data: seq<byte>, src: seq<byte>, mid: seq<byte>, now: seq<byte>)
    requires base + |data| + |src| <= |orig|
    requires mid == orig[..base] + data + orig[base + |data|..]
    requires now == mid[..base + |data|] + src + mid[base + |data| + |src|..]
    ensures now == orig[..base] + (data + src) + orig[base + |data| + |src|..]
  {
    assert mid[..base + |data|] == orig[..base] + data;
    assert mid[base + |data| + |src|..] == orig[base + |data| + |src|..];
  }

  lemma WrittenNothing(buf: array<byte>, base: nat)
    requires base <= buf.Length
    ensures Written(buf, buf[..], base, [])
  {
  }
}
