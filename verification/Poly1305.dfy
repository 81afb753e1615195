/** Poly1305 with five 26-bit limbs (chacha20poly1305.c:147-297), proved equal to the
    polynomial of section 2.5 of RFC 8439. */
module Poly1305 {
  import opened Bits

  const P: nat := 0x3_ffff_ffff_ffff_ffff_ffff_ffff_ffff_fffb  // 2^130 - 5
  const TWO128: nat := 0x1_0000_0000_0000_0000_0000_0000_0000_0000
  const L26: nat := 0x400_0000

  // ----- the specification

  /** Block i of a message: its little-endian number plus the marker bit `top`. */
  function BlockNum(data: seq<byte>, i: nat, top: nat): nat
    requires 16 * i + 16 <= |data|
  {
    LeNum(data[16 * i..16 * i + 16]) + top
  }

  /** Evaluation over the integers, unreduced, of the first n blocks after an accumulator. */
  function PolyFrom(acc: nat, data: seq<byte>, n: nat, r: nat, top: nat): nat
    requires 16 * n <= |data|
  {
    if n == 0 then acc else (PolyFrom(acc, data, n - 1, r, top) + BlockNum(data, n - 1, top)) * r
  }

  /** The polynomial of a message of whole blocks at r. */
  function Poly(data: seq<byte>, r: nat): nat {
    PolyFrom(0, data, |data| / 16, r, TWO128)
  }

  function Power(r: nat, k: nat): nat {
    if k == 0 then 1 else r * Power(r, k - 1)
  }

  function PolySum(data: seq<byte>, n: nat, k: nat, r: nat): nat
    requires 16 * n <= |data|
  {
    if n == 0 then 0 else PolySum(data, n - 1, k + 1, r) + BlockNum(data, n - 1, TWO128) * Power(r, k)
  }

  /** The same polynomial as a sum of block i times r to the power n - i. */
  lemma {:induction false} PolyIsSum(data: seq<byte>, n: nat, k: nat, r: nat)
    requires 16 * n <= |data|
    ensures PolySum(data, n, k + 1, r) == PolyFrom(0, data, n, r, TWO128) * Power(r, k)
    decreases n
  {
    if n != 0 {
      PolyIsSum(data, n - 1, k + 1, r);
      var p, b, w := PolyFrom(0, data, n - 1, r, TWO128), BlockNum(data, n - 1, TWO128), Power(r, k);
      HornerStep(p, b, r, w);
    }
  }

  lemma HornerStep(p: nat, b: nat, r: nat, w: nat)
    ensures p * (r * w) + b * (r * w) == ((p + b) * r) * w
  {
    MulAssoc(p + b, r, w);
  }

  function ClampByte(i: nat, b: byte): byte {
    if i == 3 || i == 7 || i == 11 || i == 15 then And8(b, 15)
    else if i == 4 || i == 8 || i == 12 then And8(b, 252)
    else b
  }

  lemma ClampMasks(b: byte)
    ensures And8(b, 15) == b % 16
    ensures And8(b, 252) == b - b % 4
  {
    hide BitAnd, Pow2;
    Pow2Values();
    AndLowMask(b, 4);
    assert Pow2(0) == 1 by { Pow2Zero(); }
    TwoRuns(b, 0, 4, 64, 0, 2, 6);
  }

  lemma Pow2Zero()
    ensures Pow2(0) == 1
  {
  }

  function ClampBytes(key: seq<byte>): (c: seq<byte>)
    requires |key| == 32
    ensures |c| == 16
  {
    seq(16, i requires 0 <= i < 16 => ClampByte(i, key[i]))
  }

  /** r of section 2.5.1: the first 16 key bytes with 22 bits cleared. */
  function ClampedR(key: seq<byte>): nat
    requires |key| == 32
  {
    LeNum(ClampBytes(key))
  }

  function Tag(key: seq<byte>, data: seq<byte>): nat
    requires |key| == 32 && |data| % 16 == 0
  {
    (Poly(data, ClampedR(key)) % P + LeNum(key[16..])) % TWO128
  }

  // ----- the limbs

  datatype Limbs = Limbs(l0: u32, l1: u32, l2: u32, l3: u32, l4: u32) {
    function Val(): nat {
      l0 + 0x400_0000 * l1 + 0x10_0000_0000_0000 * l2 + 0x4000_0000_0000_0000_0000 * l3
      + 0x1_0000_0000_0000_0000_0000_0000_00 * l4
    }
  }

  datatype Words = Words(w0: u32, w1: u32, w2: u32, w3: u32) {
    function Val(): nat {
      w0 + 0x1_0000_0000 * w1 + 0x1_0000_0000_0000_0000 * w2 + 0x1_0000_0000_0000_0000_0000_0000 * w3
    }
  }

  const ZERO := Limbs(0, 0, 0, 0, 0)

  function Mask26(x: u32): (r: u32)
    ensures r == x % 0x400_0000
  {
    Mask26Is(x);
    BitAnd(x, 0x3ff_ffff)
  }

  // ----- key setup (poly1305_init)

  function InitR(key: seq<byte>): Limbs
    requires |key| == 32
  {
    var t0, t1, t2, t3 := Load32(key, 0), Load32(key, 4), Load32(key, 8), Load32(key, 12);
    InitRMasks(t0, t1, t2, t3);
    Limbs(BitAnd(t0, 0x3ff_ffff),
          BitAnd(BitOr(Shr(t0, 26), Shl32(t1, 6)), 0x3ff_ff03),
          BitAnd(BitOr(Shr(t1, 20), Shl32(t2, 12)), 0x3ff_c0ff),
          BitAnd(BitOr(Shr(t2, 14), Shl32(t3, 18)), 0x3f0_3fff),
          BitAnd(Shr(t3, 8), 0xf_ffff))
  }

  lemma Mask26Is(x: nat)
    ensures BitAnd(x, 0x3ff_ffff) == x % 0x400_0000
  {
    hide *;
    Pow2Values();
    AndLowMask(x, 26);
  }

  // Each limb of r is a window of the key with its clamped bits removed.
  lemma InitRMasks(t0: u32, t1: u32, t2: u32, t3: u32)
    ensures BitAnd(t0, 0x3ff_ffff) == t0 % 0x400_0000
    ensures BitAnd(BitOr(Shr(t0, 26), Shl32(t1, 6)), 0x3ff_ff03)
         == (t0 / 0x400_0000) % 4 + 0x100 * ((t1 / 4) % 0x4_0000)
    ensures BitAnd(BitOr(Shr(t1, 20), Shl32(t2, 12)), 0x3ff_c0ff)
         == (t1 / 0x10_0000) % 0x100 + 0x4000 * ((t2 / 4) % 0x1000)
    ensures BitAnd(BitOr(Shr(t2, 14), Shl32(t3, 18)), 0x3f0_3fff)
         == (t2 / 0x4000) % 0x4000 + 0x10_0000 * ((t3 / 4) % 0x40)
    ensures BitAnd(Shr(t3, 8), 0xf_ffff) == (t3 / 0x100) % 0x10_0000
  {
    hide *;
    Pow2Values();
    Mask26Is(t0);
    ShrIs(t3, 8, 0x100);
    AndLowMask(t3 / 0x100, 20);
    Window(t0, 26, 0x400_0000, t1, 6, 0x40);
    TwoRuns(t0 / 0x400_0000 + 0x40 * (t1 % 0x400_0000), 3, 0x100, 0x4_0000, 2, 8, 18);
    Limb1(t0, t1);
    Window(t1, 20, 0x10_0000, t2, 12, 0x1000);
    TwoRuns(t1 / 0x10_0000 + 0x1000 * (t2 % 0x10_0000), 0xff, 0x4000, 0x1000, 8, 14, 12);
    Limb2(t1, t2);
    Window(t2, 14, 0x4000, t3, 18, 0x4_0000);
    TwoRuns(t2 / 0x4000 + 0x4_0000 * (t3 % 0x4000), 0x3fff, 0x10_0000, 0x40, 14, 20, 6);
    Limb3(t2, t3);
  }

  // Dropping high bits first does not change a window of low bits.
  lemma LowDiv(b: nat, c: nat, n: nat, m: nat, all: nat)
    requires c > 0 && n > 0 && m > 0 && all == c * (n * m) && all > 0
    ensures ((b % all) / c) % n == (b / c) % n
  {
    var q, v := b / all, b % all;
    var w := v / c;
    assert b == all * q + v;
    assert all * q == c * (n * (m * q));
    DivModUnique(b, c, n * (m * q) + w, v % c);
    assert n * (m * q) + w == n * (m * q + w / n) + w % n;
    DivModUnique(n * (m * q) + w, n, m * q + w / n, w % n);
  }

  lemma Limb1(a: u32, b: u32)
    ensures var x := a / 0x400_0000 + 0x40 * (b % 0x400_0000);
            (x % 0x100) % 4 == (a / 0x400_0000) % 4 && (x / 0x100) % 0x4_0000 == (b / 4) % 0x4_0000
  {
    var u, v := a / 0x400_0000, b % 0x400_0000;
    DivModUnique(u + 0x40 * v, 0x100, v / 4, u + 0x40 * (v % 4));
    DivModUnique(u + 0x40 * (v % 4), 4, u / 4 + 0x10 * (v % 4), u % 4);
    LowDiv(b, 4, 0x4_0000, 0x40, 0x400_0000);
  }

  lemma Limb2(a: u32, b: u32)
    ensures var x := a / 0x10_0000 + 0x1000 * (b % 0x10_0000);
            (x % 0x4000) % 0x100 == (a / 0x10_0000) % 0x100 && (x / 0x4000) % 0x1000 == (b / 4) % 0x1000
  {
    var u, v := a / 0x10_0000, b % 0x10_0000;
    DivModUnique(u + 0x1000 * v, 0x4000, v / 4, u + 0x1000 * (v % 4));
    DivModUnique(u + 0x1000 * (v % 4), 0x100, u / 0x100 + 0x10 * (v % 4), u % 0x100);
    LowDiv(b, 4, 0x1000, 0x40, 0x10_0000);
  }

  lemma Limb3(a: u32, b: u32)
    ensures var x := a / 0x4000 + 0x4_0000 * (b % 0x4000);
            (x % 0x10_0000) % 0x4000 == (a / 0x4000) % 0x4000 && (x / 0x10_0000) % 0x40 == (b / 4) % 0x40
  {
    var u, v := a / 0x4000, b % 0x4000;
    DivModUnique(u + 0x4_0000 * v, 0x10_0000, v / 4, u + 0x4_0000 * (v % 4));
    DivModUnique(u + 0x4_0000 * (v % 4), 0x4000, u / 0x4000 + 0x10 * (v % 4), u % 0x4000);
    LowDiv(b, 4, 0x40, 0x40, 0x4000);
  }
  // (a >> k) | (b << m) with k + m == 32 is a sum.
  lemma Window(a: u32, k: nat, p: nat, b: u32, m: nat, q: nat)
    requires p == Pow2(k) && q == Pow2(m) && p * q == 0x1_0000_0000
    ensures BitOr(Shr(a, k), Shl32(b, m)) == a / p + q * (b % p)
  {
    hide BitOr, Pow2;
    ShrIs(a, k, p);
    DivBelow(a, p, q);
    ShlWindow(b, p, q);
    OrIsAdd(a / p, m, b % p);
  }

  // A mask with ones in the bits [0, k) and [m, m + n).
  lemma TwoRuns(x: nat, lo: nat, pm: nat, pn: nat, k: nat, m: nat, n: nat)
    requires lo == Pow2(k) - 1 && pm == Pow2(m) && pn == Pow2(n) && lo < pm
    ensures BitAnd(x, lo + pm * (pn - 1)) == (x % pm) % (lo + 1) + pm * ((x / pm) % pn)
  {
    hide BitAnd, Pow2;
    AndSplit(x, m, lo, pn - 1);
    assert AndSplits(x, pm, lo, pn - 1);
    DivRange(x, pm);
    AndLowMask(x % pm, k);
    AndLowMask(x / pm, n);
  }

  predicate Clamped(r: Limbs) {
    r.l0 < 0x400_0000 && r.l1 <= 0x3ff_ff03 && r.l2 <= 0x3ff_c0ff && r.l3 <= 0x3f0_3fff && r.l4 <= 0xf_ffff
  }

  lemma InitRIsClampedR(key: seq<byte>)
    requires |key| == 32
    ensures Clamped(InitR(key))
    ensures InitR(key).Val() == ClampedR(key)
  {
    hide BitAnd, BitOr, LeNum, Shl32, Shr, ClampByte;
    var t0, t1, t2, t3 := Load32(key, 0), Load32(key, 4), Load32(key, 8), Load32(key, 12);
    InitRMasks(t0, t1, t2, t3);
    LimbBounds(t0, t1, t2, t3);
    Split(t0, 0x400_0000, 0x1000_0000, 4);
    Split2(t1, 0x10_0000, 0x4_0000, 0x100);
    Split2(t2, 0x4000, 0x1000, 0x4000);
    Split2(t3, 0x100, 0x40, 0x10_0000);
    var c := ClampBytes(key);
    LeNumSixteen(c);
    ClampFirst(key);
    ClampWord(key, 4);
    ClampWord(key, 8);
    ClampWord(key, 12);
  }

  lemma LimbBounds(t0: u32, t1: u32, t2: u32, t3: u32)
    ensures (t0 / 0x400_0000) % 4 + 0x100 * ((t1 / 4) % 0x4_0000) <= 0x3ff_ff03
    ensures (t1 / 0x10_0000) % 0x100 + 0x4000 * ((t2 / 4) % 0x1000) <= 0x3ff_c0ff
    ensures (t2 / 0x4000) % 0x4000 + 0x10_0000 * ((t3 / 4) % 0x40) <= 0x3f0_3fff
  {
  }

  // Cutting a residue at p and putting the pieces together again.
  lemma Split(t: nat, p: nat, all: nat, q: nat)
    requires p > 0 && q > 0 && all == p * q && all > 0
    ensures t % p + p * ((t / p) % q) == t % all
  {
    var u, v := t / p, t % p;
    DivRange(t, p);
    DivRange(u, q);
    var x, y := u / q, u % q;
    assert t == p * (q * x + y) + v;
    Distrib(p, q * x, y);
    MulAssoc(p, q, x);
    PieceBelow(p, q, y);
    DivModUnique(t, all, x, p * y + v);
  }

  lemma PieceBelow(p: nat, q: nat, y: nat)
    requires y < q
    ensures 0 <= p * y <= p * q - p
  {
    Distrib(p, y, q - y);
    MulAtLeast(p, q - y);
  }

  lemma Split2(t: nat, p: nat, p4: nat, q: nat)
    requires p == 4 * p4 && p4 > 0 && q > 0 && p * q == 0x1000_0000
    ensures 4 * ((t / 4) % p4) + p * ((t / p) % q) == t % 0x1000_0000 - t % 4
  {
    Split(t, 4, p, p4);
    Split(t, p, 0x1000_0000, q);
  }

  lemma ClampFirst(key: seq<byte>)
    requires |key| == 32
    ensures Four(ClampBytes(key), 0) == Four(key, 0) % 0x1000_0000
  {
    hide BitAnd;
    ClampMasks(key[3]);
    TopByte(key, 0);
  }

  lemma ClampWord(key: seq<byte>, at: nat)
    requires |key| == 32 && (at == 4 || at == 8 || at == 12)
    ensures Four(ClampBytes(key), at) == Four(key, at) % 0x1000_0000 - Four(key, at) % 4
  {
    hide BitAnd;
    ClampMasks(key[at]);
    ClampMasks(key[at + 3]);
    TopByte(key, at);
  }

  lemma TopByte(b: seq<byte>, at: nat)
    requires at + 4 <= |b|
    ensures Four(b, at) % 0x1000_0000 == Four(b, at) - 0x1000_0000 * (b[at + 3] as int / 16)
    ensures Four(b, at) % 4 == b[at] % 4
  {
    var x0: nat, x1: nat, x2: nat, x3: nat := b[at], b[at + 1], b[at + 2], b[at + 3];
    DivModUnique(Four(b, at), 0x1000_0000, x3 / 16, x0 + 0x100 * x1 + 0x1_0000 * x2 + 0x100_0000 * (x3 % 16));
    DivModUnique(Four(b, at), 4, x0 / 4 + 0x40 * x1 + 0x4000 * x2 + 0x40_0000 * x3, x0 % 4);
  }

  // ----- one block (the loop body of poly1305_blocks)

  function AddBlock(h: Limbs, b: seq<byte>, hibit: u32): Limbs
    requires |b| == 16
  {
    Limbs(Add32(h.l0, Mask26(Load32(b, 0))),
          Add32(h.l1, Mask26(Shr(Load32(b, 3), 2))),
          Add32(h.l2, Mask26(Shr(Load32(b, 6), 4))),
          Add32(h.l3, Mask26(Shr(Load32(b, 9), 6))),
          Add32(h.l4, Or32(Shr(Load32(b, 12), 8), hibit)))
  }

  function Dot(a: Limbs, b0: u32, b1: u32, b2: u32, b3: u32, b4: u32): u64 {
    Add64(Add64(Add64(Add64(Mul64(a.l0, b0), Mul64(a.l1, b1)), Mul64(a.l2, b2)), Mul64(a.l3, b3)), Mul64(a.l4, b4))
  }

  function Carry(d: u64): u32 { Low32(Shr(d, 26)) }

  /** Propagates the carries of the five column sums once around. */
  function Reduce(d0: u64, d1: u64, d2: u64, d3: u64, d4: u64): Limbs {
    var e1 := Add64(d1, Carry(d0));
    var e2 := Add64(d2, Carry(e1));
    var e3 := Add64(d3, Carry(e2));
    var e4 := Add64(d4, Carry(e3));
    var h0 := Add32(Mask26(Low32(d0)), Mul32(Carry(e4), 5));
    Limbs(Mask26(h0), Add32(Mask26(Low32(e1)), Shr(h0, 26)),
          Mask26(Low32(e2)), Mask26(Low32(e3)), Mask26(Low32(e4)))
  }

  function MulMod(h: Limbs, r: Limbs): Limbs {
    var s1, s2, s3, s4 := Mul32(r.l1, 5), Mul32(r.l2, 5), Mul32(r.l3, 5), Mul32(r.l4, 5);
    Reduce(Dot(h, r.l0, s4, s3, s2, s1),
           Dot(h, r.l1, r.l0, s4, s3, s2),
           Dot(h, r.l2, r.l1, r.l0, s4, s3),
           Dot(h, r.l3, r.l2, r.l1, r.l0, s4),
           Dot(h, r.l4, r.l3, r.l2, r.l1, r.l0))
  }

  /** What holds of the accumulator at every loop head: only h1 may exceed 26 bits. */
  predicate LoopHead(h: Limbs) {
    h.l0 < L26 && h.l1 < L26 + 64 && h.l2 < L26 && h.l3 < L26 && h.l4 < L26
  }

  /** Bounds after a block has been added. */
  predicate Loaded(h: Limbs) {
    h.l0 < 2 * L26 && h.l1 < 2 * L26 + 64 && h.l2 < 2 * L26 && h.l3 < 2 * L26 && h.l4 < L26 + L26 / 2
  }

  lemma AddBlockExact(h: Limbs, b: seq<byte>, hibit: u32)
    requires |b| == 16 && LoopHead(h) && (hibit == 0 || hibit == 0x100_0000)
    ensures Loaded(AddBlock(h, b, hibit))
    ensures AddBlock(h, b, hibit).Val() == h.Val() + LeNum(b) + 0x1_0000_0000_0000_0000_0000_0000_00 * hibit
  {
    hide *;
    LeNumSixteen(b);
    var m0, m1, m2, m3, m4 := Cut1(b), Cut4(b), Cut16(b), Cut64(b), Top24(b);
    AddLimbs(h, b, hibit, m0, m1, m2, m3, m4);
    BlockSum(b, m0, m1, m2, m3, m4);
  }

  lemma AddLimbs(h: Limbs, b: seq<byte>, hibit: u32, m0: nat, m1: nat, m2: nat, m3: nat, m4: nat)
    requires |b| == 16 && LoopHead(h) && (hibit == 0 || hibit == 0x100_0000)
    requires m0 == Four(b, 0) % 0x400_0000 && m1 == (Four(b, 3) / 4) % 0x400_0000
    requires m2 == (Four(b, 6) / 16) % 0x400_0000 && m3 == (Four(b, 9) / 64) % 0x400_0000
    requires m4 == Four(b, 12) / 0x100 && m4 < 0x100_0000
    ensures Loaded(AddBlock(h, b, hibit))
    ensures AddBlock(h, b, hibit).Val() == h.Val()
         + m0 + 0x400_0000 * m1 + 0x10_0000_0000_0000 * m2 + 0x4000_0000_0000_0000_0000 * m3
         + 0x1_0000_0000_0000_0000_0000_0000_00 * (m4 + hibit)
  {
    hide Four, Shr, Mask26, Or32, Add32;
    Pow2Values4();
    ShrIs(Load32(b, 3), 2, 4);
    ShrIs(Load32(b, 6), 4, 16);
    ShrIs(Load32(b, 9), 6, 64);
    ShrIs(Load32(b, 12), 8, 0x100);
    OrHibit(m4, hibit);
    AddSmall(h.l0, m0); AddSmall(h.l1, m1); AddSmall(h.l2, m2); AddSmall(h.l3, m3);
    AddSmall(h.l4, m4 + hibit);
  }

  lemma Pow2Values4()
    ensures 4 == Pow2(2) && 16 == Pow2(4) && 64 == Pow2(6) && 0x100 == Pow2(8)
  {
  }

  lemma OrHibit(m: nat, hibit: u32)
    requires m < 0x100_0000 && (hibit == 0 || hibit == 0x100_0000)
    ensures Or32(m, hibit) == m + hibit
  {
    hide BitOr, Pow2;
    Pow2Values();
    OrZero(m);
    OrIsAdd(m, 24, 1);
  }

  lemma AddSmall(a: u32, b: u32)
    ensures a + b < 0x1_0000_0000 ==> Add32(a, b) == a + b
  {
  }

  // The 26-bit windows of a 16-byte block.
  function Cut1(b: seq<byte>): (m: nat)
    requires |b| == 16
    ensures m == Four(b, 0) % 0x400_0000
    ensures m == b[0] as int + 0x100 * (b[1] as int) + 0x1_0000 * (b[2] as int) + 0x100_0000 * (b[3] as int % 4)
  {
    CutSame(b[0], b[1], b[2], b[3]);
    Four(b, 0) % 0x400_0000
  }

  function Cut4(b: seq<byte>): (m: nat)
    requires |b| == 16
    ensures m == (Four(b, 3) / 4) % 0x400_0000
    ensures m == b[3] as int / 4 + 0x40 * (b[4] as int) + 0x4000 * (b[5] as int) + 0x40_0000 * (b[6] as int % 16)
  {
    var x: nat, y: nat, z: nat, w: nat := b[3], b[4], b[5], b[6];
    Middle(Four(b, 3), 4, 0x400_0000, x % 4, x / 4 + 0x40 * y + 0x4000 * z + 0x40_0000 * (w % 16), w / 16);
    (Four(b, 3) / 4) % 0x400_0000
  }

  function Cut16(b: seq<byte>): (m: nat)
    requires |b| == 16
    ensures m == (Four(b, 6) / 16) % 0x400_0000
    ensures m == b[6] as int / 16 + 0x10 * (b[7] as int) + 0x1000 * (b[8] as int) + 0x10_0000 * (b[9] as int % 64)
  {
    var x: nat, y: nat, z: nat, w: nat := b[6], b[7], b[8], b[9];
    Middle(Four(b, 6), 16, 0x400_0000, x % 16, x / 16 + 0x10 * y + 0x1000 * z + 0x10_0000 * (w % 64), w / 64);
    (Four(b, 6) / 16) % 0x400_0000
  }

  function Cut64(b: seq<byte>): (m: nat)
    requires |b| == 16
    ensures m == (Four(b, 9) / 64) % 0x400_0000
    ensures m == b[9] as int / 64 + 4 * (b[10] as int) + 0x400 * (b[11] as int) + 0x4_0000 * (b[12] as int)
  {
    var x: nat, y: nat, z: nat, w: nat := b[9], b[10], b[11], b[12];
    Middle(Four(b, 9), 64, 0x400_0000, x % 64, x / 64 + 4 * y + 0x400 * z + 0x4_0000 * w, 0);
    (Four(b, 9) / 64) % 0x400_0000
  }

  function Top24(b: seq<byte>): (m: nat)
    requires |b| == 16
    ensures m == Four(b, 12) / 0x100
    ensures m == b[13] as int + 0x100 * (b[14] as int) + 0x1_0000 * (b[15] as int)
  {
    var x: nat, y: nat, z: nat := b[13], b[14], b[15];
    DivModUnique(Four(b, 12), 0x100, x + 0x100 * y + 0x1_0000 * z, b[12]);
    Four(b, 12) / 0x100
  }

  lemma CutSame(x: nat, y: nat, z: nat, w: nat)
    requires x < 0x100 && y < 0x100 && z < 0x100 && w < 0x100
    ensures (x + 0x100 * y + 0x1_0000 * z + 0x100_0000 * w) % 0x400_0000
         == x + 0x100 * y + 0x1_0000 * z + 0x100_0000 * (w % 4)
  {
    DivModUnique(x + 0x100 * y + 0x1_0000 * z + 0x100_0000 * w, 0x400_0000, w / 4,
                 x + 0x100 * y + 0x1_0000 * z + 0x100_0000 * (w % 4));
  }

  // A field of a number made of a low, a middle and a high part.
  lemma Middle(t: nat, p: nat, q: nat, lo: nat, mid: nat, hi: nat)
    requires p > 0 && q > 0 && lo < p && mid < q
    requires t == lo + p * (mid + q * hi)
    ensures (t / p) % q == mid
  {
    DivModUnique(t, p, mid + q * hi, lo);
    DivModUnique(mid + q * hi, q, hi, mid);
  }

  lemma BlockSum(b: seq<byte>, m0: nat, m1: nat, m2: nat, m3: nat, m4: nat)
    requires |b| == 16
    requires m0 == b[0] as int + 0x100 * (b[1] as int) + 0x1_0000 * (b[2] as int) + 0x100_0000 * (b[3] as int % 4)
    requires m1 == b[3] as int / 4 + 0x40 * (b[4] as int) + 0x4000 * (b[5] as int) + 0x40_0000 * (b[6] as int % 16)
    requires m2 == b[6] as int / 16 + 0x10 * (b[7] as int) + 0x1000 * (b[8] as int) + 0x10_0000 * (b[9] as int % 64)
    requires m3 == b[9] as int / 64 + 4 * (b[10] as int) + 0x400 * (b[11] as int) + 0x4_0000 * (b[12] as int)
    requires m4 == b[13] as int + 0x100 * (b[14] as int) + 0x1_0000 * (b[15] as int)
    ensures m0 + 0x400_0000 * m1 + 0x10_0000_0000_0000 * m2 + 0x4000_0000_0000_0000_0000 * m3
          + 0x1_0000_0000_0000_0000_0000_0000_00 * m4
         == Four(b, 0) + 0x1_0000_0000 * Four(b, 4) + 0x1_0000_0000_0000_0000 * Four(b, 8)
          + 0x1_0000_0000_0000_0000_0000_0000 * Four(b, 12)
  {
  }

  // ----- multiplication modulo 2^130 - 5

  // The five columns of the schoolbook product, columns 5 to 8 folded back times 5.
  function Col0(h: Limbs, r: Limbs): int {
    h.l0 * r.l0 + h.l1 * (5 * r.l4) + h.l2 * (5 * r.l3) + h.l3 * (5 * r.l2) + h.l4 * (5 * r.l1)
  }
  function Col1(h: Limbs, r: Limbs): int {
    h.l0 * r.l1 + h.l1 * r.l0 + h.l2 * (5 * r.l4) + h.l3 * (5 * r.l3) + h.l4 * (5 * r.l2)
  }
  function Col2(h: Limbs, r: Limbs): int {
    h.l0 * r.l2 + h.l1 * r.l1 + h.l2 * r.l0 + h.l3 * (5 * r.l4) + h.l4 * (5 * r.l3)
  }
  function Col3(h: Limbs, r: Limbs): int {
    h.l0 * r.l3 + h.l1 * r.l2 + h.l2 * r.l1 + h.l3 * r.l0 + h.l4 * (5 * r.l4)
  }
  function Col4(h: Limbs, r: Limbs): int {
    h.l0 * r.l4 + h.l1 * r.l3 + h.l2 * r.l2 + h.l3 * r.l1 + h.l4 * r.l0
  }

  lemma ProductBound(a: nat, b: nat, x: nat, y: nat)
    requires a <= x && b <= y
    ensures 0 <= a * b <= x * y
  {
    Distrib(a, b, y - b);
    assert a * (y - b) >= 0;
    assert (x - a) * y >= 0;
  }

  lemma DotExact(a: Limbs, b0: u32, b1: u32, b2: u32, b3: u32, b4: u32)
    requires 0 <= a.l0 * b0 < 0x1000_0000_0000_0000 && 0 <= a.l1 * b1 < 0x1000_0000_0000_0000
    requires 0 <= a.l2 * b2 < 0x1000_0000_0000_0000 && 0 <= a.l3 * b3 < 0x1000_0000_0000_0000
    requires 0 <= a.l4 * b4 < 0x1000_0000_0000_0000
    ensures Dot(a, b0, b1, b2, b3, b4) == a.l0 * b0 + a.l1 * b1 + a.l2 * b2 + a.l3 * b3 + a.l4 * b4
  {
    hide Add64;
    SumExact(a.l0 * b0, a.l1 * b1, a.l2 * b2, a.l3 * b3, a.l4 * b4);
  }

  lemma SumExact(p0: nat, p1: nat, p2: nat, p3: nat, p4: nat)
    requires p0 < 0x1000_0000_0000_0000 && p1 < 0x1000_0000_0000_0000 && p2 < 0x1000_0000_0000_0000
    requires p3 < 0x1000_0000_0000_0000 && p4 < 0x1000_0000_0000_0000
    ensures Low64(p0) == p0 && Low64(p1) == p1 && Low64(p2) == p2 && Low64(p3) == p3 && Low64(p4) == p4
    ensures Add64(Add64(Add64(Add64(p0, p1), p2), p3), p4) == p0 + p1 + p2 + p3 + p4
  {
    hide Add64;
    AddSmall64(p0, p1);
    AddSmall64(p0 + p1, p2);
    AddSmall64(p0 + p1 + p2, p3);
    AddSmall64(p0 + p1 + p2 + p3, p4);
  }

  /** No column overflows 64 bits, and the last one leaves room for five times its carry. */
  lemma ColumnsExact(h: Limbs, r: Limbs)
    requires Loaded(h) && Clamped(r)
    ensures var s1, s2, s3, s4 := Mul32(r.l1, 5), Mul32(r.l2, 5), Mul32(r.l3, 5), Mul32(r.l4, 5);
            && Dot(h, r.l0, s4, s3, s2, s1) == Col0(h, r) && 0 <= Col0(h, r) < 0x380_0000_0000_0000
            && Dot(h, r.l1, r.l0, s4, s3, s2) == Col1(h, r) && 0 <= Col1(h, r) < 0x380_0000_0000_0000
            && Dot(h, r.l2, r.l1, r.l0, s4, s3) == Col2(h, r) && 0 <= Col2(h, r) < 0x380_0000_0000_0000
            && Dot(h, r.l3, r.l2, r.l1, r.l0, s4) == Col3(h, r) && 0 <= Col3(h, r) < 0x380_0000_0000_0000
            && Dot(h, r.l4, r.l3, r.l2, r.l1, r.l0) == Col4(h, r) && 0 <= Col4(h, r) < 0x80_0000_0000_0000
  {
    hide Dot, Mul32;
    MulSmall(r.l1);
    MulSmall(r.l2);
    MulSmall(r.l3);
    MulSmall(r.l4);
    var s1, s2, s3, s4 := 5 * r.l1, 5 * r.l2, 5 * r.l3, 5 * r.l4;
    Column(h, r.l0, s4, s3, s2, s1);
    Column(h, r.l1, r.l0, s4, s3, s2);
    Column(h, r.l2, r.l1, r.l0, s4, s3);
    Column(h, r.l3, r.l2, r.l1, r.l0, s4);
    Column(h, r.l4, r.l3, r.l2, r.l1, r.l0);
    LastColumn(h, r.l4, r.l3, r.l2, r.l1, r.l0);
  }

  lemma Column(h: Limbs, b0: u32, b1: u32, b2: u32, b3: u32, b4: u32)
    requires Loaded(h)
    requires b0 < 5 * L26 && b1 < 5 * L26 && b2 < 5 * L26 && b3 < 5 * L26 && b4 < 5 * L26
    ensures Dot(h, b0, b1, b2, b3, b4) == h.l0 * b0 + h.l1 * b1 + h.l2 * b2 + h.l3 * b3 + h.l4 * b4
    ensures h.l0 * b0 + h.l1 * b1 + h.l2 * b2 + h.l3 * b3 + h.l4 * b4 < 0x380_0000_0000_0000
  {
    hide Dot;
    var x, y := 2 * L26 + 63, 5 * L26;
    ProductBound(h.l0, b0, x, y);
    ProductBound(h.l1, b1, x, y);
    ProductBound(h.l2, b2, x, y);
    ProductBound(h.l3, b3, x, y);
    ProductBound(h.l4, b4, x, y);
    DotExact(h, b0, b1, b2, b3, b4);
  }

  lemma LastColumn(h: Limbs, b0: u32, b1: u32, b2: u32, b3: u32, b4: u32)
    requires Loaded(h)
    requires b0 <= 0xf_ffff && b1 < L26 && b2 < L26 && b3 < L26 && b4 < L26
    ensures h.l0 * b0 + h.l1 * b1 + h.l2 * b2 + h.l3 * b3 + h.l4 * b4 < 0x80_0000_0000_0000
  {
    var x := 2 * L26 + 63;
    ProductBound(h.l0, b0, x, 0xf_ffff);
    ProductBound(h.l1, b1, x, L26);
    ProductBound(h.l2, b2, x, L26);
    ProductBound(h.l3, b3, x, L26);
    ProductBound(h.l4, b4, L26 + L26 / 2, L26);
  }

  /** One trip of carries keeps the value modulo P and restores the loop-head bounds. */
  lemma ReduceExact(d0: u64, d1: u64, d2: u64, d3: u64, d4: u64) returns (k: nat)
    requires d0 < 0x380_0000_0000_0000 && d1 < 0x380_0000_0000_0000
    requires d2 < 0x380_0000_0000_0000 && d3 < 0x380_0000_0000_0000 && d4 < 0x80_0000_0000_0000
    ensures LoopHead(Reduce(d0, d1, d2, d3, d4))
    ensures Reduce(d0, d1, d2, d3, d4).Val() + P * k
         == d0 + 0x400_0000 * d1 + 0x10_0000_0000_0000 * d2 + 0x4000_0000_0000_0000_0000 * d3
            + 0x1_0000_0000_0000_0000_0000_0000_00 * d4
  {
    var e1 := d1 + d0 / 0x400_0000;
    var e2 := d2 + e1 / 0x400_0000;
    var e3 := d3 + e2 / 0x400_0000;
    var e4 := d4 + e3 / 0x400_0000;
    k := e4 / 0x400_0000;
    var h0 := d0 % 0x400_0000 + 5 * k;
    ReduceIs(d0, d1, d2, d3, d4, e1, e2, e3, e4, h0);
    var r := Reduce(d0, d1, d2, d3, d4);
    assert r == Limbs(h0 % 0x400_0000, e1 % 0x400_0000 + h0 / 0x400_0000,
                      e2 % 0x400_0000, e3 % 0x400_0000, e4 % 0x400_0000);
    CarrySum(d0, d1, d2, d3, d4, e1, e2, e3, e4, h0, k);
  }

  lemma ReduceIs(d0: u64, d1: u64, d2: u64, d3: u64, d4: u64, e1: u64, e2: u64, e3: u64, e4: u64, h0: nat)
    requires d0 < 0x380_0000_0000_0000 && d1 < 0x380_0000_0000_0000
    requires d2 < 0x380_0000_0000_0000 && d3 < 0x380_0000_0000_0000 && d4 < 0x80_0000_0000_0000
    requires e1 == d1 + d0 / 0x400_0000 && e2 == d2 + e1 / 0x400_0000
    requires e3 == d3 + e2 / 0x400_0000 && e4 == d4 + e3 / 0x400_0000
    requires h0 == d0 % 0x400_0000 + 5 * (e4 / 0x400_0000)
    ensures h0 / 0x400_0000 < 64
    ensures Reduce(d0, d1, d2, d3, d4)
         == Limbs(h0 % 0x400_0000, e1 % 0x400_0000 + h0 / 0x400_0000,
                  e2 % 0x400_0000, e3 % 0x400_0000, e4 % 0x400_0000)
  {
    hide Carry, Mask26, Low32, Shr, Mul32, Add32, Add64;
    Cut(d0);
    AddSmall64(d1, d0 / 0x400_0000);
    Cut(e1);
    AddSmall64(d2, e1 / 0x400_0000);
    Cut(e2);
    AddSmall64(d3, e2 / 0x400_0000);
    Cut(e3);
    AddSmall64(d4, e3 / 0x400_0000);
    Cut(e4);
    MulSmall(e4 / 0x400_0000);
    AddSmall(d0 % 0x400_0000, 5 * (e4 / 0x400_0000));
    Pow26();
    ShrIs(h0, 26, 0x400_0000);
    AddSmall(e1 % 0x400_0000, h0 / 0x400_0000);
  }

  lemma AddSmall64(a: u64, b: u64)
    ensures a + b < 0x1_0000_0000_0000_0000 ==> Add64(a, b) == a + b
  {
  }

  lemma MulSmall(a: u32)
    ensures 5 * a < 0x1_0000_0000 ==> Mul32(a, 5) == 5 * a
  {
  }

  lemma CarrySum(d0: nat, d1: nat, d2: nat, d3: nat, d4: nat, e1: nat, e2: nat, e3: nat, e4: nat, h0: nat, k: nat)
    requires e1 == d1 + d0 / 0x400_0000 && e2 == d2 + e1 / 0x400_0000
    requires e3 == d3 + e2 / 0x400_0000 && e4 == d4 + e3 / 0x400_0000
    requires k == e4 / 0x400_0000 && h0 == d0 % 0x400_0000 + 5 * k
    ensures h0 % 0x400_0000 + 0x400_0000 * (e1 % 0x400_0000 + h0 / 0x400_0000)
            + 0x10_0000_0000_0000 * (e2 % 0x400_0000) + 0x4000_0000_0000_0000_0000 * (e3 % 0x400_0000)
            + 0x1_0000_0000_0000_0000_0000_0000_00 * (e4 % 0x400_0000) + P * k
         == d0 + 0x400_0000 * d1 + 0x10_0000_0000_0000 * d2 + 0x4000_0000_0000_0000_0000 * d3
            + 0x1_0000_0000_0000_0000_0000_0000_00 * d4
  {
  }

  lemma Pow26()
    ensures 0x400_0000 == Pow2(26)
  {
    hide Pow2;
    Pow2Values();
  }

  lemma Cut(d: u64)
    requires d < 0x400_0000_0000_0000
    ensures Carry(d) == d / 0x400_0000
    ensures Mask26(Low32(d)) == d % 0x400_0000
  {
    hide Pow2, Shr;
    Pow26();
    ShrIs(d, 26, 0x400_0000);
    var q, r := d / 0x1_0000_0000, d % 0x1_0000_0000;
    DivModUnique(d, 0x400_0000, 0x40 * q + r / 0x400_0000, r % 0x400_0000);
  }

  /** Multiplying limbs multiplies the values modulo P. */
  lemma MulModExact(h: Limbs, r: Limbs)
    requires Loaded(h) && Clamped(r)
    ensures LoopHead(MulMod(h, r))
    ensures MulMod(h, r).Val() % P == (h.Val() * r.Val()) % P
  {
    hide *;
    MulModIsReduce(h, r);
    var k := ReduceExact(Col0(h, r), Col1(h, r), Col2(h, r), Col3(h, r), Col4(h, r));
    var m := ColumnsAreProduct(h, r);
    SameResidue(MulMod(h, r).Val(), h.Val() * r.Val(), m, k);
  }

  lemma MulModIsReduce(h: Limbs, r: Limbs)
    requires Loaded(h) && Clamped(r)
    ensures 0 <= Col0(h, r) < 0x380_0000_0000_0000 && 0 <= Col1(h, r) < 0x380_0000_0000_0000
    ensures 0 <= Col2(h, r) < 0x380_0000_0000_0000 && 0 <= Col3(h, r) < 0x380_0000_0000_0000
    ensures 0 <= Col4(h, r) < 0x80_0000_0000_0000
    ensures MulMod(h, r) == Reduce(Col0(h, r), Col1(h, r), Col2(h, r), Col3(h, r), Col4(h, r))
  {
    hide Reduce, Dot, Mul32, Col0, Col1, Col2, Col3, Col4, Loaded, Clamped;
    ColumnsExact(h, r);
  }

  lemma SameResidue(a: nat, b: nat, m: int, k: int)
    requires b - P * m == a + P * k
    ensures a % P == b % P
  {
    DivModUnique(b, P, a / P + m + k, a % P);
  }

  // The folded columns and the product differ by a multiple of P, as 2^130 = P + 5.
  lemma ColumnsAreProduct(h: Limbs, r: Limbs) returns (m: int)
    ensures h.Val() * r.Val() - P * m
         == Col0(h, r) + 0x400_0000 * Col1(h, r) + 0x10_0000_0000_0000 * Col2(h, r)
            + 0x4000_0000_0000_0000_0000 * Col3(h, r) + 0x1_0000_0000_0000_0000_0000_0000_00 * Col4(h, r)
  {
    hide *;
    var v := r.Val();
    var p := Partials(h, r);
    RowIs(h, r);
    ColumnsAre(h, r);
    Rows(h, v);
    m := Folded(p);
    Fold(p, h.l0 * v, h.l1 * v, h.l2 * v, h.l3 * v, h.l4 * v,
         Col0(h, r), Col1(h, r), Col2(h, r), Col3(h, r), Col4(h, r));
  }

  function Partials(h: Limbs, r: Limbs): (p: seq<int>)
    ensures |p| == 25
  {
    [h.l0 * r.l0, h.l0 * r.l1, h.l0 * r.l2, h.l0 * r.l3, h.l0 * r.l4,
     h.l1 * r.l0, h.l1 * r.l1, h.l1 * r.l2, h.l1 * r.l3, h.l1 * r.l4,
     h.l2 * r.l0, h.l2 * r.l1, h.l2 * r.l2, h.l2 * r.l3, h.l2 * r.l4,
     h.l3 * r.l0, h.l3 * r.l1, h.l3 * r.l2, h.l3 * r.l3, h.l3 * r.l4,
     h.l4 * r.l0, h.l4 * r.l1, h.l4 * r.l2, h.l4 * r.l3, h.l4 * r.l4]
  }

  ghost predicate IsRow(x: int, p: seq<int>, at: nat)
    requires |p| == 25 && at + 5 <= 25
  {
    x == p[at] + 0x400_0000 * p[at + 1] + 0x10_0000_0000_0000 * p[at + 2]
         + 0x4000_0000_0000_0000_0000 * p[at + 3] + 0x1_0000_0000_0000_0000_0000_0000_00 * p[at + 4]
  }

  lemma RowIs(h: Limbs, r: Limbs)
    ensures IsRow(h.l0 * r.Val(), Partials(h, r), 0) && IsRow(h.l1 * r.Val(), Partials(h, r), 5)
    ensures IsRow(h.l2 * r.Val(), Partials(h, r), 10) && IsRow(h.l3 * r.Val(), Partials(h, r), 15)
    ensures IsRow(h.l4 * r.Val(), Partials(h, r), 20)
  {
    hide Limbs.Val;
    Row(h.l0, r);
    Row(h.l1, r);
    Row(h.l2, r);
    Row(h.l3, r);
    Row(h.l4, r);
  }

  ghost predicate AreColumns(p: seq<int>, c0: int, c1: int, c2: int, c3: int, c4: int)
    requires |p| == 25
  {
    && c0 == p[0] + 5 * p[9] + 5 * p[13] + 5 * p[17] + 5 * p[21]
    && c1 == p[1] + p[5] + 5 * p[14] + 5 * p[18] + 5 * p[22]
    && c2 == p[2] + p[6] + p[10] + 5 * p[19] + 5 * p[23]
    && c3 == p[3] + p[7] + p[11] + p[15] + 5 * p[24]
    && c4 == p[4] + p[8] + p[12] + p[16] + p[20]
  }

  lemma ColumnsAre(h: Limbs, r: Limbs)
    ensures AreColumns(Partials(h, r), Col0(h, r), Col1(h, r), Col2(h, r), Col3(h, r), Col4(h, r))
  {
    Fives(h, r);
  }

  function Folded(p: seq<int>): int
    requires |p| == 25
  {
    (p[9] + p[13] + p[17] + p[21]) + 0x400_0000 * (p[14] + p[18] + p[22])
    + 0x10_0000_0000_0000 * (p[19] + p[23]) + 0x4000_0000_0000_0000_0000 * p[24]
  }

  // Over the 25 partial products the claim is linear.
  lemma Fold(p: seq<int>, x0: int, x1: int, x2: int, x3: int, x4: int,
             c0: int, c1: int, c2: int, c3: int, c4: int)
    requires |p| == 25
    requires IsRow(x0, p, 0) && IsRow(x1, p, 5) && IsRow(x2, p, 10) && IsRow(x3, p, 15) && IsRow(x4, p, 20)
    requires AreColumns(p, c0, c1, c2, c3, c4)
    ensures x0 + 0x400_0000 * x1 + 0x10_0000_0000_0000 * x2
            + 0x4000_0000_0000_0000_0000 * x3 + 0x1_0000_0000_0000_0000_0000_0000_00 * x4 - P * Folded(p)
         == c0 + 0x400_0000 * c1 + 0x10_0000_0000_0000 * c2
            + 0x4000_0000_0000_0000_0000 * c3 + 0x1_0000_0000_0000_0000_0000_0000_00 * c4
  {
  }

  lemma Row(x: nat, r: Limbs)
    ensures x * r.Val() == x * r.l0 + 0x400_0000 * (x * r.l1) + 0x10_0000_0000_0000 * (x * r.l2)
         + 0x4000_0000_0000_0000_0000 * (x * r.l3) + 0x1_0000_0000_0000_0000_0000_0000_00 * (x * r.l4)
  {
  }

  lemma Rows(h: Limbs, v: nat)
    ensures h.Val() * v == h.l0 * v + 0x400_0000 * (h.l1 * v) + 0x10_0000_0000_0000 * (h.l2 * v)
         + 0x4000_0000_0000_0000_0000 * (h.l3 * v) + 0x1_0000_0000_0000_0000_0000_0000_00 * (h.l4 * v)
  {
  }

  lemma Fives(h: Limbs, r: Limbs)
    ensures h.l1 * (5 * r.l4) == 5 * (h.l1 * r.l4) && h.l2 * (5 * r.l3) == 5 * (h.l2 * r.l3)
    ensures h.l3 * (5 * r.l2) == 5 * (h.l3 * r.l2) && h.l4 * (5 * r.l1) == 5 * (h.l4 * r.l1)
    ensures h.l2 * (5 * r.l4) == 5 * (h.l2 * r.l4) && h.l3 * (5 * r.l3) == 5 * (h.l3 * r.l3)
    ensures h.l4 * (5 * r.l2) == 5 * (h.l4 * r.l2) && h.l3 * (5 * r.l4) == 5 * (h.l3 * r.l4)
    ensures h.l4 * (5 * r.l3) == 5 * (h.l4 * r.l3) && h.l4 * (5 * r.l4) == 5 * (h.l4 * r.l4)
  {
  }

  // ----- poly1305_final

  predicate Below26(h: Limbs) {
    h.l0 < L26 && h.l1 < L26 && h.l2 < L26 && h.l3 < L26 && h.l4 < L26
  }

  function FinalCarry(h: Limbs): Limbs {
    var t2 := Add32(h.l2, Shr(h.l1, 26));
    var t3 := Add32(h.l3, Shr(t2, 26));
    var t4 := Add32(h.l4, Shr(t3, 26));
    var t0 := Add32(h.l0, Mul32(Shr(t4, 26), 5));
    Limbs(Mask26(t0), Add32(Mask26(h.l1), Shr(t0, 26)), Mask26(t2), Mask26(t3), Mask26(t4))
  }

  /** h - P when that is not negative, else h, chosen by a mask and not by a branch. */
  function Canonical(h: Limbs): Limbs {
    var g0 := Add32(h.l0, 5);
    var g1 := Add32(h.l1, Shr(g0, 26));
    var g2 := Add32(h.l2, Shr(g1, 26));
    var g3 := Add32(h.l3, Shr(g2, 26));
    var g4 := Sub32(Add32(h.l4, Shr(g3, 26)), 0x400_0000);
    var mask := Sub32(Shr(g4, 31), 1);
    Limbs(Pick(mask, h.l0, Mask26(g0)), Pick(mask, h.l1, Mask26(g1)), Pick(mask, h.l2, Mask26(g2)),
          Pick(mask, h.l3, Mask26(g3)), Pick(mask, h.l4, g4))
  }

  function Pick(mask: u32, h: u32, g: u32): u32 {
    Or32(And32(h, Not32(mask)), And32(g, mask))
  }

  function Repack(h: Limbs): Words {
    Words(Or32(h.l0, Shl32(h.l1, 26)),
          Or32(Shr(h.l1, 6), Shl32(h.l2, 20)),
          Or32(Shr(h.l2, 12), Shl32(h.l3, 14)),
          Or32(Shr(h.l3, 18), Shl32(h.l4, 8)))
  }

  function AddPad(w: Words, pad: Words): Words {
    var f0 := Add64(w.w0, pad.w0);
    var f1 := Add64(Add64(w.w1, pad.w1), Shr(f0, 32));
    var f2 := Add64(Add64(w.w2, pad.w2), Shr(f1, 32));
    var f3 := Add64(Add64(w.w3, pad.w3), Shr(f2, 32));
    Words(Low32(f0), Low32(f1), Low32(f2), Low32(f3))
  }

  lemma ShrMask26(x: u32)
    ensures Shr(x, 26) == x / 0x400_0000
  {
    hide Pow2;
    Pow26();
    ShrIs(x, 26, 0x400_0000);
  }

  /** A carry out of the top limb forces a small h1, so nothing is left above 26 bits. */
  lemma FinalCarryExact(h: Limbs)
    requires LoopHead(h)
    ensures Below26(FinalCarry(h))
    ensures FinalCarry(h).Val() % P == h.Val() % P
  {
    var t2 := h.l2 + h.l1 / 0x400_0000;
    var t3 := h.l3 + t2 / 0x400_0000;
    var t4 := h.l4 + t3 / 0x400_0000;
    var k4 := t4 / 0x400_0000;
    var t0 := h.l0 + 5 * k4;
    hide FinalCarry, Limbs.Val;
    TopCarry(h, t0, t2, t3, t4);
    FinalCarryIs(h, t0, t2, t3, t4);
    FinalSum(h, t0, t2, t3, t4);
    CarriedResidue(FinalCarry(h).Val(), h.Val(), k4);
  }

  lemma CarriedResidue(a: nat, b: nat, k: nat)
    requires b == P * k + a
    ensures a % P == b % P
  {
    SameResidue(a, b, 0, k);
  }

  lemma FinalCarryIs(h: Limbs, t0: u32, t2: u32, t3: u32, t4: u32)
    requires LoopHead(h)
    requires t2 == h.l2 + h.l1 / 0x400_0000 && t3 == h.l3 + t2 / 0x400_0000
    requires t4 == h.l4 + t3 / 0x400_0000 && t0 == h.l0 + 5 * (t4 / 0x400_0000)
    ensures FinalCarry(h) == Limbs(t0 % 0x400_0000, h.l1 % 0x400_0000 + t0 / 0x400_0000,
                                   t2 % 0x400_0000, t3 % 0x400_0000, t4 % 0x400_0000)
  {
    hide Shr, Mask26, Mul32, Add32;
    ShrMask26(h.l1);
    AddSmall(h.l2, h.l1 / 0x400_0000);
    ShrMask26(t2);
    AddSmall(h.l3, t2 / 0x400_0000);
    ShrMask26(t3);
    AddSmall(h.l4, t3 / 0x400_0000);
    ShrMask26(t4);
    MulSmall(t4 / 0x400_0000);
    AddSmall(h.l0, 5 * (t4 / 0x400_0000));
    ShrMask26(t0);
    AddSmall(h.l1 % 0x400_0000, t0 / 0x400_0000);
  }

  lemma TopCarry(h: Limbs, t0: nat, t2: nat, t3: nat, t4: nat)
    requires LoopHead(h)
    requires t2 == h.l2 + h.l1 / 0x400_0000 && t3 == h.l3 + t2 / 0x400_0000
    requires t4 == h.l4 + t3 / 0x400_0000 && t0 == h.l0 + 5 * (t4 / 0x400_0000)
    ensures h.l1 % 0x400_0000 + t0 / 0x400_0000 < L26
    ensures t0 < 0x800_0000 && t2 < 0x800_0000 && t3 < 0x800_0000 && t4 < 0x800_0000
  {
    var k1 := h.l1 / 0x400_0000;
    assert k1 == 0 ==> t2 / 0x400_0000 == 0 && t3 / 0x400_0000 == 0 && t4 / 0x400_0000 == 0;
    assert k1 == 1 ==> h.l1 % 0x400_0000 < 64 && t4 / 0x400_0000 <= 1;
  }

  lemma FinalSum(h: Limbs, t0: u32, t2: u32, t3: u32, t4: u32)
    requires LoopHead(h)
    requires t2 == h.l2 + h.l1 / 0x400_0000 && t3 == h.l3 + t2 / 0x400_0000
    requires t4 == h.l4 + t3 / 0x400_0000 && t0 == h.l0 + 5 * (t4 / 0x400_0000)
    ensures h.Val() == P * (t4 / 0x400_0000)
          + Limbs(t0 % 0x400_0000, h.l1 % 0x400_0000 + t0 / 0x400_0000,
                  t2 % 0x400_0000, t3 % 0x400_0000, t4 % 0x400_0000).Val()
  {
  }

  lemma CanonicalExact(h: Limbs)
    requires Below26(h)
    ensures Below26(Canonical(h))
    ensures Canonical(h).Val() == h.Val() % P
  {
    var g0 := h.l0 + 5;
    var g1 := h.l1 + g0 / 0x400_0000;
    var g2 := h.l2 + g1 / 0x400_0000;
    var g3 := h.l3 + g2 / 0x400_0000;
    var t4 := h.l4 + g3 / 0x400_0000;
    CanonicalIs(h, g0, g1, g2, g3, t4);
    MinusP(h, g0, g1, g2, g3, t4);
  }

  lemma CanonicalIs(h: Limbs, g0: u32, g1: u32, g2: u32, g3: u32, t4: u32)
    requires Below26(h)
    requires g0 == h.l0 + 5 && g1 == h.l1 + g0 / 0x400_0000 && g2 == h.l2 + g1 / 0x400_0000
    requires g3 == h.l3 + g2 / 0x400_0000 && t4 == h.l4 + g3 / 0x400_0000
    ensures Canonical(h)
         == if t4 < 0x400_0000 then h
            else Limbs(g0 % 0x400_0000, g1 % 0x400_0000, g2 % 0x400_0000, g3 % 0x400_0000, t4 - 0x400_0000)
  {
    hide Shr, Mask26, Add32, Pick;
    AddSmall(h.l0, 5);
    ShrMask26(g0);
    AddSmall(h.l1, g0 / 0x400_0000);
    ShrMask26(g1);
    AddSmall(h.l2, g1 / 0x400_0000);
    ShrMask26(g2);
    AddSmall(h.l3, g2 / 0x400_0000);
    ShrMask26(g3);
    AddSmall(h.l4, g3 / 0x400_0000);
    var g4 := Sub32(t4, 0x400_0000);
    SignMask(t4);
    PickIs(h.l0, Mask26(g0));
    PickIs(h.l1, Mask26(g1));
    PickIs(h.l2, Mask26(g2));
    PickIs(h.l3, Mask26(g3));
    PickIs(h.l4, g4);
  }

  lemma SignMask(t4: u32)
    requires t4 < 0x800_0000
    ensures var g4 := Sub32(t4, 0x400_0000);
            Sub32(Shr(g4, 31), 1) == if t4 < 0x400_0000 then 0 else 0xffff_ffff
  {
    hide Pow2;
    var g4 := Sub32(t4, 0x400_0000);
    assert Pow2(31) == 0x8000_0000 by {
      Pow2Values();
      Pow2Add(31, 1);
      Pow2One();
    }
    ShrIs(g4, 31, 0x8000_0000);
  }

  lemma Pow2One()
    ensures Pow2(1) == 2
  {
  }

  lemma PickIs(h: u32, g: u32)
    ensures Pick(0, h, g) == h && Pick(0xffff_ffff, h, g) == g
  {
    hide BitAnd, BitOr, Pow2;
    Pow2Values();
    AndLowMask(h, 32);
    AndLowMask(g, 32);
    AndZero(h);
    AndZero(g);
    OrZero(h);
    OrZero(g);
  }

  lemma MinusP(h: Limbs, g0: u32, g1: u32, g2: u32, g3: u32, t4: u32)
    requires Below26(h)
    requires g0 == h.l0 + 5 && g1 == h.l1 + g0 / 0x400_0000 && g2 == h.l2 + g1 / 0x400_0000
    requires g3 == h.l3 + g2 / 0x400_0000 && t4 == h.l4 + g3 / 0x400_0000
    ensures t4 < 0x400_0000 ==> h.Val() % P == h.Val()
    ensures t4 >= 0x400_0000 ==>
      && t4 == 0x400_0000
      && h.Val() % P == g0 % 0x400_0000 + 0x400_0000 * (g1 % 0x400_0000) + 0x10_0000_0000_0000 * (g2 % 0x400_0000)
         + 0x4000_0000_0000_0000_0000 * (g3 % 0x400_0000)
  {
    var low := g0 % 0x400_0000 + 0x400_0000 * (g1 % 0x400_0000) + 0x10_0000_0000_0000 * (g2 % 0x400_0000)
               + 0x4000_0000_0000_0000_0000 * (g3 % 0x400_0000);
    assert h.Val() + 5 == low + 0x1_0000_0000_0000_0000_0000_0000_00 * t4;
    assert low < 0x1_0000_0000_0000_0000_0000_0000_00;
    if t4 < 0x400_0000 {
      DivModUnique(h.Val(), P, 0, h.Val());
    } else {
      DivModUnique(h.Val(), P, 1, low + 0x1_0000_0000_0000_0000_0000_0000_00 * (t4 - 0x400_0000));
    }
  }

  /** Repacking into 32-bit words keeps the low 128 bits: the OR-ed parts never overlap. */
  lemma RepackExact(h: Limbs)
    requires Below26(h)
    ensures Repack(h).Val() == h.Val() % TWO128
  {
    hide Shr, Shl32, Or32;
    var a1, a2, a3, a4 := h.l1 % 0x40, h.l2 % 0x1000, h.l3 % 0x4_0000, h.l4 % 0x100_0000;
    RepackWords(h);
    assert Repack(h) == Words(h.l0 + 0x400_0000 * a1, h.l1 / 0x40 + 0x10_0000 * a2,
                              h.l2 / 0x1000 + 0x4000 * a3, h.l3 / 0x4_0000 + 0x100 * a4);
    DivModUnique(h.Val(), TWO128, h.l4 / 0x100_0000, Repack(h).Val());
  }

  lemma RepackWords(h: Limbs)
    requires Below26(h)
    ensures Or32(h.l0, Shl32(h.l1, 26)) == h.l0 + 0x400_0000 * (h.l1 % 0x40)
    ensures Or32(Shr(h.l1, 6), Shl32(h.l2, 20)) == h.l1 / 0x40 + 0x10_0000 * (h.l2 % 0x1000)
    ensures Or32(Shr(h.l2, 12), Shl32(h.l3, 14)) == h.l2 / 0x1000 + 0x4000 * (h.l3 % 0x4_0000)
    ensures Or32(Shr(h.l3, 18), Shl32(h.l4, 8)) == h.l3 / 0x4_0000 + 0x100 * (h.l4 % 0x100_0000)
  {
    hide Pow2, BitOr;
    Pow2Values();
    OrShifted(h.l0, h.l1, 26, 0x400_0000, 0x40);
    ShrIs(h.l1, 6, 0x40);
    OrShifted(h.l1 / 0x40, h.l2, 20, 0x10_0000, 0x1000);
    ShrIs(h.l2, 12, 0x1000);
    OrShifted(h.l2 / 0x1000, h.l3, 14, 0x4000, 0x4_0000);
    ShrIs(h.l3, 18, 0x4_0000);
    OrShifted(h.l3 / 0x4_0000, h.l4, 8, 0x100, 0x100_0000);
  }

  lemma OrShifted(a: u32, b: u32, m: nat, q: nat, p: nat)
    requires q == Pow2(m) && p > 0 && p * q == 0x1_0000_0000 && a < q
    ensures Or32(a, Shl32(b, m)) == a + q * (b % p)
  {
    hide BitOr, Pow2;
    ShlWindow(b, p, q);
    OrIsAdd(a, m, b % p);
  }

  lemma AddPadExact(w: Words, pad: Words)
    ensures AddPad(w, pad).Val() == (w.Val() + pad.Val()) % TWO128
  {
    hide Shr, Add64;
    var f0 := w.w0 + pad.w0;
    var f1 := w.w1 + pad.w1 + f0 / 0x1_0000_0000;
    var f2 := w.w2 + pad.w2 + f1 / 0x1_0000_0000;
    var f3 := w.w3 + pad.w3 + f2 / 0x1_0000_0000;
    AddSmall64(w.w0, pad.w0);
    Shr32(f0);
    AddSmall64(w.w1, pad.w1);
    AddSmall64(w.w1 + pad.w1, f0 / 0x1_0000_0000);
    Shr32(f1);
    AddSmall64(w.w2, pad.w2);
    AddSmall64(w.w2 + pad.w2, f1 / 0x1_0000_0000);
    Shr32(f2);
    AddSmall64(w.w3, pad.w3);
    AddSmall64(w.w3 + pad.w3, f2 / 0x1_0000_0000);
    assert AddPad(w, pad) == Words(f0 % 0x1_0000_0000, f1 % 0x1_0000_0000, f2 % 0x1_0000_0000, f3 % 0x1_0000_0000);
    DivModUnique(w.Val() + pad.Val(), TWO128, f3 / 0x1_0000_0000, AddPad(w, pad).Val());
  }

  lemma Shr32(x: u64)
    ensures Shr(x, 32) == x / 0x1_0000_0000
  {
    hide Pow2;
    Pow2Values();
    ShrIs(x, 32, 0x1_0000_0000);
  }

  // ----- the accumulator as an object

  lemma TimesResidue(a: nat, b: nat, m: nat, r: nat)
    requires a % P == b % P
    ensures ((a + m) * r) % P == ((b + m) * r) % P
  {
    var q := a / P - b / P;
    assert a == b + P * q;
    assert (a + m) * r == (b + m) * r + P * (q * r) by {
      MulAssoc(P, q, r);
    }
    SameResidue((b + m) * r, (a + m) * r, 0, q * r);
  }

  /** What one block does to the accumulator, modulo P. */
  lemma BlockExact(h: Limbs, r: Limbs, b: seq<byte>, hibit: u32, acc: nat)
    requires |b| == 16 && LoopHead(h) && Clamped(r) && (hibit == 0 || hibit == 0x100_0000)
    requires h.Val() % P == acc % P
    ensures LoopHead(MulMod(AddBlock(h, b, hibit), r))
    ensures MulMod(AddBlock(h, b, hibit), r).Val() % P
         == ((acc + (LeNum(b) + 0x1_0000_0000_0000_0000_0000_0000_00 * hibit)) * r.Val()) % P
  {
    hide *;
    AddBlockExact(h, b, hibit);
    MulModExact(AddBlock(h, b, hibit), r);
    TimesResidue(h.Val(), acc, LeNum(b) + 0x1_0000_0000_0000_0000_0000_0000_00 * hibit, r.Val());
  }

  lemma BlocksStep(h: Limbs, r: Limbs, data: seq<byte>, n: nat, acc: nat, final: bool)
    requires 16 * n + 16 <= |data| && LoopHead(h) && Clamped(r)
    requires h.Val() % P == PolyFrom(acc, data, n, r.Val(), Top(final)) % P
    ensures var h' := MulMod(AddBlock(h, data[16 * n..16 * n + 16], Hibit(final)), r);
            && LoopHead(h')
            && h'.Val() % P == PolyFrom(acc, data, n + 1, r.Val(), Top(final)) % P
  {
    hide Limbs.Val, MulMod, AddBlock, LeNum, LoopHead, Clamped;
    BlockExact(h, r, data[16 * n..16 * n + 16], Hibit(final), PolyFrom(acc, data, n, r.Val(), Top(final)));
  }

  function Hibit(final: bool): u32 { if final then 0 else 0x100_0000 }

  function Top(final: bool): nat { if final then 0 else TWO128 }

  class Authenticator {
    var r: Limbs
    var h: Limbs
    var pad: Words

    ghost predicate Valid()
      reads this
    {
      Clamped(r) && LoopHead(h)
    }

    /** poly1305_init */
    constructor (key: seq<byte>)
      requires |key| == 32
      ensures Valid() && h == ZERO
      ensures r.Val() == ClampedR(key) && pad.Val() == LeNum(key[16..])
    {
      r := InitR(key);
      h := ZERO;
      pad := Words(Load32(key, 16), Load32(key, 20), Load32(key, 24), Load32(key, 28));
      InitRIsClampedR(key);
      LeNumSixteen(key[16..]);
    }

    /** poly1305_blocks: every whole block of data, with the 2^128 bit unless isFinal. */
    method Blocks(data: seq<byte>, isFinal: bool)
      requires Valid()
      modifies this`h
      ensures Valid()
      ensures h.Val() % P == PolyFrom(old(h.Val()), data, |data| / 16, r.Val(), Top(isFinal)) % P
    {
      hide Limbs.Val, MulMod, AddBlock, LeNum, LoopHead, Clamped, PolyFrom;
      PolyFromNone(h.Val(), data, r.Val(), Top(isFinal));
      var n := 0;
      while 16 * n + 16 <= |data|
        invariant 0 <= 16 * n <= |data|
        invariant Valid()
        invariant h.Val() % P == PolyFrom(old(h.Val()), data, n, r.Val(), Top(isFinal)) % P
      {
        BlocksStep(h, r, data, n, old(h.Val()), isFinal);
        h := MulMod(AddBlock(h, data[16 * n..16 * n + 16], Hibit(isFinal)), r);
        n := n + 1;
      }
    }

    /** poly1305_final: the tag, and a cleared state. */
    method Final() returns (tag: seq<byte>)
      requires Valid()
      modifies this
      ensures tag == LeBytes((old(h.Val()) % P + old(pad.Val())) % TWO128, 16)
      ensures r == ZERO && h == ZERO && pad == Words(0, 0, 0, 0)
    {
      var w := AddPad(Repack(Canonical(FinalCarry(h))), pad);
      FinalExact(h, pad);
      tag := LeBytes(w.w0, 4) + LeBytes(w.w1, 4) + LeBytes(w.w2, 4) + LeBytes(w.w3, 4);
      StoreWords(w);
      r, h, pad := ZERO, ZERO, Words(0, 0, 0, 0);
    }
  }

  lemma FinalExact(h: Limbs, pad: Words)
    requires LoopHead(h)
    ensures AddPad(Repack(Canonical(FinalCarry(h))), pad).Val() == (h.Val() % P + pad.Val()) % TWO128
  {
    hide Limbs.Val, Words.Val, AddPad, Repack, Canonical, FinalCarry, LoopHead, Below26;
    FinalCarryExact(h);
    var f := FinalCarry(h);
    CanonicalExact(f);
    RepackExact(Canonical(f));
    AddPadExact(Repack(Canonical(f)), pad);
    ModThenAdd(h.Val() % P, pad.Val());
  }

  lemma PolyFromNone(acc: nat, data: seq<byte>, r: nat, top: nat)
    ensures PolyFrom(acc, data, 0, r, top) == acc
  {
  }

  lemma ModThenAdd(a: nat, b: nat)
    ensures (a % TWO128 + b) % TWO128 == (a + b) % TWO128
  {
  }

  lemma StoreWords(w: Words)
    ensures LeBytes(w.w0, 4) + LeBytes(w.w1, 4) + LeBytes(w.w2, 4) + LeBytes(w.w3, 4) == LeBytes(w.Val(), 16)
  {
    hide LeBytes, LeNum;
    var b0, b1, b2, b3 := LeBytes(w.w0, 4), LeBytes(w.w1, 4), LeBytes(w.w2, 4), LeBytes(w.w3, 4);
    var b := b0 + (b1 + (b2 + b3));
    StoreWord(w.w0, b1 + (b2 + b3));
    StoreWord(w.w1, b2 + b3);
    StoreWord(w.w2, b3);
    StoreWord(w.w3, []);
    assert b3 + [] == b3;
    LeNumEmpty();
    assert LeNum(b) == w.Val();
    assert b0 + b1 + b2 + b3 == b;
    LeBytesOfNum(b);
  }

  lemma StoreWord(w: u32, rest: seq<byte>)
    ensures LeNum(LeBytes(w, 4) + rest) == w + 0x1_0000_0000 * LeNum(rest)
  {
    hide LeBytes, LeNum, Pow2;
    Pow2Values();
    LeNumOfBytes(w, 4);
    LeNumConcat(LeBytes(w, 4), rest);
  }
}
