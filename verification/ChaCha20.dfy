/** ChaCha20 (chacha20poly1305.c:19-145), sections 2.1 to 2.4 of RFC 8439. */
module ChaCha20 {
  import opened Bits

  type Key = k: seq<byte> | |k| == 32 witness seq(32, _ => 0)
  type Nonce = n: seq<byte> | |n| == 12 witness seq(12, _ => 0)
  type State = s: seq<u32> | |s| == 16 witness seq(16, _ => 0)

  function Rotl32(v: u32, n: nat): u32
    requires n <= 32
  {
    Or32(Shl32(v, n), Shr(v, 32 - n))
  }

  function Xor32(a: u32, b: u32): u32 {
    Word32(a, b);
    BitXor(a, b)
  }

  lemma Word32(a: u32, b: u32)
    ensures BitXor(a, b) < 0x1_0000_0000
    ensures BitXor(BitXor(a, b), b) == a
  {
    hide BitXor, Pow2;
    Pow2Values();
    XorRange(a, b, 32);
    XorTwice(a, b);
  }

  // ----- the round function on values

  datatype Quad = Quad(a: u32, b: u32, c: u32, d: u32)

  /** One of the four add-xor-rotate lines of a quarter round. */
  function Line(x: u32, y: u32, z: u32, n: nat): (u32, u32)
    requires n <= 32
  {
    var x' := Add32(x, y);
    (x', Rotl32(Xor32(z, x'), n))
  }

  function QuarterRound(q: Quad): Quad {
    var (a1, d1) := Line(q.a, q.b, q.d, 16);
    var (c1, b1) := Line(q.c, d1, q.b, 12);
    var (a2, d2) := Line(a1, b1, d1, 8);
    var (c2, b2) := Line(c1, d2, b1, 7);
    Quad(a2, b2, c2, d2)
  }

  predicate Distinct(a: nat, b: nat, c: nat, d: nat) {
    a < 16 && b < 16 && c < 16 && d < 16 && a != b && a != c && a != d && b != c && b != d && c != d
  }

  function At(s: State, a: nat, b: nat, c: nat, d: nat): State
    requires Distinct(a, b, c, d)
  {
    var q := QuarterRound(Quad(s[a], s[b], s[c], s[d]));
    s[a := q.a][b := q.b][c := q.c][d := q.d]
  }

  function Columns(s: State): State {
    At(At(At(At(s, 0, 4, 8, 12), 1, 5, 9, 13), 2, 6, 10, 14), 3, 7, 11, 15)
  }

  function Diagonals(s: State): State {
    At(At(At(At(s, 0, 5, 10, 15), 1, 6, 11, 12), 2, 7, 8, 13), 3, 4, 9, 14)
  }

  function DoubleRound(s: State): State { Diagonals(Columns(s)) }

  function Rounds(s: State, n: nat): State {
    if n == 0 then s else DoubleRound(Rounds(s, n - 1))
  }

  // ----- the rounds lose nothing: each has an inverse

  function Unline(x': u32, y: u32, w: u32, n: nat): (u32, u32)
    requires n <= 32
  {
    (Sub32(x', y), Xor32(Rotl32(w, 32 - n), x'))
  }

  function InverseQuarterRound(q: Quad): Quad {
    var (c1, b1) := Unline(q.c, q.d, q.b, 7);
    var (a1, d1) := Unline(q.a, b1, q.d, 8);
    var (c0, b0) := Unline(c1, d1, b1, 12);
    var (a0, d0) := Unline(a1, b0, d1, 16);
    Quad(a0, b0, c0, d0)
  }

  function UnAt(s: State, a: nat, b: nat, c: nat, d: nat): State
    requires Distinct(a, b, c, d)
  {
    var q := InverseQuarterRound(Quad(s[a], s[b], s[c], s[d]));
    s[a := q.a][b := q.b][c := q.c][d := q.d]
  }

  function InverseDoubleRound(s: State): State {
    var s := UnAt(UnAt(UnAt(UnAt(s, 3, 4, 9, 14), 2, 7, 8, 13), 1, 6, 11, 12), 0, 5, 10, 15);
    UnAt(UnAt(UnAt(UnAt(s, 3, 7, 11, 15), 2, 6, 10, 14), 1, 5, 9, 13), 0, 4, 8, 12)
  }

  function InverseRounds(s: State, n: nat): State
    decreases n
  {
    if n == 0 then s else InverseRounds(InverseDoubleRound(s), n - 1)
  }

  lemma RotateBack(v: u32, n: nat)
    requires n == 16 || n == 12 || n == 8 || n == 7
    ensures Rotl32(Rotl32(v, n), 32 - n) == v
  {
    hide Rotl32, Pow2;
    var p, q := Pow2(32 - n), Pow2(n);
    RotatePowers(n);
    RotateIs(v, n, p, q);
    var x := Rotl32(v, n);
    RotateIs(x, 32 - n, q, p);
    Swap(v, x, p, q);
  }

  lemma Swap(v: u32, x: nat, p: nat, q: nat)
    requires p > 0 && q > 0 && p * q == 0x1_0000_0000 && x == v / p + q * (v % p)
    ensures x / q + p * (x % q) == v
  {
    DivBelow(v, p, q);
    DivRange(v, p);
    DivModUnique(x, q, v % p, v / p);
  }

  lemma RotatePowers(n: nat)
    requires n == 16 || n == 12 || n == 8 || n == 7
    ensures Pow2(32 - n) * Pow2(n) == 0x1_0000_0000 && Pow2(n) * Pow2(32 - n) == 0x1_0000_0000
  {
    hide Pow2;
    Pow2Values();
    Pow2Add(32 - n, n);
    Pow2Add(n, 32 - n);
  }

  lemma RotateIs(v: u32, n: nat, p: nat, q: nat)
    requires n <= 32 && p == Pow2(32 - n) && q == Pow2(n) && p * q == 0x1_0000_0000
    ensures Rotl32(v, n) == v / p + q * (v % p)
  {
    hide BitOr, Pow2;
    ShrIs(v, 32 - n, p);
    DivBelow(v, p, q);
    ShlWindow(v, p, q);
    OrIsAdd(v / p, n, v % p);
  }

  lemma UnlineLine(x: u32, y: u32, z: u32, n: nat)
    requires n == 16 || n == 12 || n == 8 || n == 7
    ensures var (x', w) := Line(x, y, z, n); Unline(x', y, w, n) == (x, z)
  {
    hide Rotl32, BitXor;
    var x' := Add32(x, y);
    Word32(z, x');
    RotateBack(Xor32(z, x'), n);
  }

  lemma QuarterRoundInverts(q: Quad)
    ensures InverseQuarterRound(QuarterRound(q)) == q
  {
    hide Line, Unline;
    var (a1, d1) := Line(q.a, q.b, q.d, 16);
    var (c1, b1) := Line(q.c, d1, q.b, 12);
    var (a2, d2) := Line(a1, b1, d1, 8);
    UnlineLine(q.a, q.b, q.d, 16);
    UnlineLine(q.c, d1, q.b, 12);
    UnlineLine(a1, b1, d1, 8);
    UnlineLine(c1, d2, b1, 7);
  }

  lemma AtInverts(s: State, a: nat, b: nat, c: nat, d: nat)
    requires Distinct(a, b, c, d)
    ensures UnAt(At(s, a, b, c, d), a, b, c, d) == s
  {
    hide QuarterRound, InverseQuarterRound;
    QuarterRoundInverts(Quad(s[a], s[b], s[c], s[d]));
  }

  lemma DoubleRoundInverts(s: State)
    ensures InverseDoubleRound(DoubleRound(s)) == s
  {
    hide At, UnAt;
    var s1 := At(s, 0, 4, 8, 12);
    var s2 := At(s1, 1, 5, 9, 13);
    var s3 := At(s2, 2, 6, 10, 14);
    var s4 := At(s3, 3, 7, 11, 15);
    var s5 := At(s4, 0, 5, 10, 15);
    var s6 := At(s5, 1, 6, 11, 12);
    var s7 := At(s6, 2, 7, 8, 13);
    AtInverts(s, 0, 4, 8, 12);
    AtInverts(s1, 1, 5, 9, 13);
    AtInverts(s2, 2, 6, 10, 14);
    AtInverts(s3, 3, 7, 11, 15);
    AtInverts(s4, 0, 5, 10, 15);
    AtInverts(s5, 1, 6, 11, 12);
    AtInverts(s6, 2, 7, 8, 13);
    AtInverts(s7, 3, 4, 9, 14);
  }

  /** The rounds are a permutation of the 512-bit states. */
  lemma {:induction false} RoundsInvert(s: State, n: nat)
    ensures InverseRounds(Rounds(s, n), n) == s
    decreases n
  {
    hide DoubleRound, InverseDoubleRound;
    if n != 0 {
      DoubleRoundInverts(Rounds(s, n - 1));
      RoundsInvert(s, n - 1);
    }
  }

  // ----- key stream

  function Initial(key: Key, nonce: Nonce, counter: u32): State {
    [0x6170_7865, 0x3320_646e, 0x7962_2d32, 0x6b20_6574]
    + seq(8, i requires 0 <= i < 8 => Load32(key, 4 * i))
    + [counter, Load32(nonce, 0), Load32(nonce, 4), Load32(nonce, 8)]
  }

  function Block(key: Key, nonce: Nonce, counter: u32): (b: seq<byte>)
    ensures |b| == 64
  {
    var s := Initial(key, nonce, counter);
    Stored(Rounds(s, 10), s, 16)
  }

  /** The first n sums of working and initial state, little-endian. */
  function Stored(w: State, s: State, n: nat): (b: seq<byte>)
    requires n <= 16
    ensures |b| == 4 * n
  {
    if n == 0 then [] else Stored(w, s, n - 1) + LeBytes(Add32(w[n - 1], s[n - 1]), 4)
  }

  /** Byte i of the key stream that starts at block `counter`; the block counter wraps at 32 bits. */
  function StreamByte(key: Key, nonce: Nonce, counter: u32, i: nat): byte {
    Block(key, nonce, (counter + i / 64) % 0x1_0000_0000)[i % 64]
  }

  function XorStream(key: Key, nonce: Nonce, counter: u32, data: seq<byte>): (r: seq<byte>)
    ensures |r| == |data|
  {
    seq(|data|, i requires 0 <= i < |data| => Xor8(data[i], StreamByte(key, nonce, counter, i)))
  }

  lemma XorStreamTwice(key: Key, nonce: Nonce, counter: u32, data: seq<byte>)
    ensures XorStream(key, nonce, counter, XorStream(key, nonce, counter, data)) == data
  {
    hide StreamByte, Xor8;
    var x := XorStream(key, nonce, counter, data);
    forall i | 0 <= i < |data|
      ensures Xor8(x[i], StreamByte(key, nonce, counter, i)) == data[i]
    {
      Xor8Twice(data[i], StreamByte(key, nonce, counter, i));
    }
  }

  // ----- the code

  method QuarterRoundInPlace(w: array<u32>, a: nat, b: nat, c: nat, d: nat)
    requires w.Length == 16 && Distinct(a, b, c, d)
    modifies w
    ensures w[..] == At(old(w[..]), a, b, c, d)
  {
    hide Rotl32, Xor32, Add32;
    w[a] := Add32(w[a], w[b]);
    w[d] := Rotl32(Xor32(w[d], w[a]), 16);
    w[c] := Add32(w[c], w[d]);
    w[b] := Rotl32(Xor32(w[b], w[c]), 12);
    w[a] := Add32(w[a], w[b]);
    w[d] := Rotl32(Xor32(w[d], w[a]), 8);
    w[c] := Add32(w[c], w[d]);
    w[b] := Rotl32(Xor32(w[b], w[c]), 7);
  }

  method DoubleRoundInPlace(w: array<u32>)
    requires w.Length == 16
    modifies w
    ensures w[..] == DoubleRound(old(w[..]))
  {
    hide At;
    QuarterRoundInPlace(w, 0, 4, 8, 12);
    QuarterRoundInPlace(w, 1, 5, 9, 13);
    QuarterRoundInPlace(w, 2, 6, 10, 14);
    QuarterRoundInPlace(w, 3, 7, 11, 15);
    QuarterRoundInPlace(w, 0, 5, 10, 15);
    QuarterRoundInPlace(w, 1, 6, 11, 12);
    QuarterRoundInPlace(w, 2, 7, 8, 13);
    QuarterRoundInPlace(w, 3, 4, 9, 14);
  }

  /** chacha20_block */
  method BlockInto(key: Key, nonce: Nonce, counter: u32) returns (out: seq<byte>)
    ensures out == Block(key, nonce, counter)
  {
    hide Initial, DoubleRound, LeBytes, Add32;
    var state: State := Initial(key, nonce, counter);
    var working := new u32[16](i requires 0 <= i < 16 => state[i]);
    assert working[..] == state;
    var i := 0;
    while i < 10
      invariant 0 <= i <= 10
      invariant working[..] == Rounds(state, i)
    {
      DoubleRoundInPlace(working);
      i := i + 1;
    }
    out := [];
    i := 0;
    while i < 16
      invariant 0 <= i <= 16
      invariant out == Stored(working[..], state, i)
    {
      out := out + LeBytes(Add32(working[i], state[i]), 4);
      i := i + 1;
    }
  }

  function XorBytes(input: seq<byte>, block: seq<byte>): (r: seq<byte>)
    requires |input| <= |block|
    ensures |r| == |input|
  {
    seq(|input|, i requires 0 <= i < |input| => Xor8(input[i], block[i]))
  }

  /** One block of key stream applied to one chunk of input. */
  method XorChunk(block: seq<byte>, input: seq<byte>, out: array<byte>, at: nat)
    requires |input| <= |block| && at + |input| <= out.Length
    modifies out
    ensures Written(out, old(out[..]), at, XorBytes(input, block))
  {
    hide Xor8;
    var j := 0;
    while j < |input|
      invariant 0 <= j <= |input|
      invariant forall k :: 0 <= k < j ==> out[at + k] == XorBytes(input, block)[k]
      invariant forall k :: 0 <= k < at || at + j <= k < out.Length ==> out[k] == old(out[k])
    {
      out[at + j] := Xor8(input[j], block[j]);
      j := j + 1;
    }
  }

  /** A chunk behind what has been written so far. */
  method XorNext(block: seq<byte>, input: seq<byte>, out: array<byte>, at: nat,
                 ghost orig: seq<byte>, ghost base: nat, ghost data: seq<byte>)
    requires Written(out, orig, base, data) && at == base + |data|
    requires |input| <= |block| && at + |input| <= out.Length
    modifies out
    ensures Written(out, orig, base, data + XorBytes(input, block))
  {
    hide XorBytes;
    ghost var mid := out[..];
    XorChunk(block, input, out, at);
    WrittenMore(orig, base, data, XorBytes(input, block), mid, out[..]);
  }

  /** chacha20_xor: the key stream applied 64 bytes at a time into out[at..]. */
  method XorInto(key: Key, nonce: Nonce, initial: u32, input: seq<byte>, out: array<byte>, at: nat)
    requires at + |input| <= out.Length
    modifies out
    ensures Written(out, old(out[..]), at, XorStream(key, nonce, initial, input))
  {
    hide Block, XorStream, XorBytes, Add32, Written;
    ghost var want, orig := XorStream(key, nonce, initial, input), out[..];
    var counter := initial;
    var off := 0;
    WrittenNothing(out, at);
    while off < |input|
      invariant 0 <= off && off % 64 == 0
      invariant counter == (initial + off / 64) % 0x1_0000_0000
      invariant Written(out, orig, at, if off < |input| then want[..off] else want)
    {
      var chunk := if |input| - off > 64 then 64 else |input| - off;
      var block := BlockInto(key, nonce, counter);
      ChunkIs(key, nonce, initial, input, off, chunk);
      XorNext(block, input[off..off + chunk], out, at + off, orig, at, want[..off]);
      assert want[..off] + want[off..off + chunk] == want[..off + chunk];
      assert off + chunk == |input| ==> want[..off + chunk] == want;
      counter := Add32(counter, 1);
      NextBlock(initial, off);
      off := off + 64;
    }
  }

  lemma ChunkIs(key: Key, nonce: Nonce, initial: u32, input: seq<byte>, off: nat, chunk: nat)
    requires off % 64 == 0 && chunk <= 64 && off + chunk <= |input|
    ensures var block := Block(key, nonce, (initial + off / 64) % 0x1_0000_0000);
            XorStream(key, nonce, initial, input)[off..off + chunk] == XorBytes(input[off..off + chunk], block)
  {
    hide Block, Xor8;
    var block := Block(key, nonce, (initial + off / 64) % 0x1_0000_0000);
    forall k | 0 <= k < chunk
      ensures XorStream(key, nonce, initial, input)[off + k] == Xor8(input[off + k], block[k])
    {
      DivModUnique(off + k, 64, off / 64, k);
    }
  }

  lemma NextBlock(initial: u32, off: nat)
    ensures Add32((initial + off / 64) % 0x1_0000_0000, 1) == (initial + (off + 64) / 64) % 0x1_0000_0000
  {
    var x, m := initial + off / 64, 0x1_0000_0000;
    DivModUnique(off + 64, 64, off / 64 + 1, off % 64);
    var r := x % m;
    DivModUnique(x + 1, m, x / m + (r + 1) / m, (r + 1) % m);
  }
}
