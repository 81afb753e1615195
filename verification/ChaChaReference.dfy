/** The block function of ChaCha20 in other words (sections 2.1.1 and 2.3 of RFC 8439): twenty
    rounds given word by word, the layout of the state as text and bytes, and the test vector
    of the quarter round. */
module ChaChaReference {
  import opened Bits
  import opened ChaCha20

  // ----- one round, word by word

  /** Where word j of the k-th quarter round of round i lies: a column of the four by four
      words if i is even, else a diagonal, which moves one column to the right per row. */
  function Place(i: nat, k: nat, j: nat): (p: nat)
    requires k < 4 && j < 4
    ensures p < 16
  {
    4 * j + (if i % 2 == 0 then k else (k + j) % 4)
  }

  function Lane(i: nat, k: nat, s: State): Quad
    requires k < 4
  {
    Quad(s[Place(i, k, 0)], s[Place(i, k, 1)], s[Place(i, k, 2)], s[Place(i, k, 3)])
  }

  /** t is s after round i: a quarter round on each of the four lanes. */
  ghost predicate IsRound(i: nat, s: State, t: State) {
    forall k: nat :: k < 4 ==> Lane(i, k, t) == QuarterRound(Lane(i, k, s))
  }

  /** The states between the rounds of a run. */
  ghost predicate IsRun(states: seq<State>) {
    |states| > 0 && forall i: nat :: i + 1 < |states| ==> IsRound(i, states[i], states[i + 1])
  }

  lemma ColumnsRound(i: nat, s: State)
    requires i % 2 == 0
    ensures IsRound(i, s, Columns(s))
  {
    hide QuarterRound;
  }

  lemma DiagonalsRound(i: nat, s: State)
    requires i % 2 == 1
    ensures IsRound(i, s, Diagonals(s))
  {
    hide QuarterRound;
  }

  // The lanes of a round cover the state, so a round has one result.
  lemma RoundIsFunction(i: nat, s: State, t: State, u: State)
    requires IsRound(i, s, t) && IsRound(i, s, u)
    ensures t == u
  {
    hide QuarterRound;
    forall p: nat | p < 16
      ensures t[p] == u[p]
    {
      var j := p / 4;
      var k := if i % 2 == 0 then p % 4 else (p + 4 - j) % 4;
      assert Lane(i, k, t) == Lane(i, k, u);
      assert Place(i, k, j) == p;
    }
  }

  lemma {:induction false} RoundsRun(s: State, n: nat) returns (states: seq<State>)
    ensures |states| == 2 * n + 1 && states[0] == s && states[2 * n] == Rounds(s, n) && IsRun(states)
  {
    hide At, QuarterRound, IsRound;
    if n == 0 {
      states := [s];
    } else {
      var before := RoundsRun(s, n - 1);
      var t := before[2 * n - 2];
      states := before + [Columns(t), Diagonals(Columns(t))];
      ColumnsRound(2 * n - 2, t);
      DiagonalsRound(2 * n - 1, Columns(t));
      assert DoubleRound(t) == Diagonals(Columns(t));
      forall i: nat | i + 1 < |states|
        ensures IsRound(i, states[i], states[i + 1])
      {
        assert i + 1 < |before| ==> states[i] == before[i] && states[i + 1] == before[i + 1];
      }
    }
  }

  lemma {:induction false} RunIsFunction(a: seq<State>, b: seq<State>)
    requires IsRun(a) && IsRun(b) && |a| == |b| && a[0] == b[0]
    ensures a == b
    decreases |a|
  {
    hide IsRound;
    if |a| == 1 {
    } else {
      var n := |a| - 1;
      assert IsRun(a[..n]) && IsRun(b[..n]);
      RunIsFunction(a[..n], b[..n]);
      assert a[n - 1] == a[..n][n - 1] == b[..n][n - 1] == b[n - 1];
      RoundIsFunction(n - 1, a[n - 1], a[n], b[n]);
    }
  }

  /** A block is the initial state plus the state after twenty rounds, word by word. */
  lemma BlockIsTwentyRounds(key: Key, nonce: Nonce, counter: u32, states: seq<State>)
    requires |states| == 21 && states[0] == Initial(key, nonce, counter) && IsRun(states)
    ensures forall j: nat :: j < 16 ==> BlockWord(key, nonce, counter, j) == Add32(states[0][j], states[20][j])
  {
    hide Initial, Rounds, IsRun, BlockWord;
    var s := Initial(key, nonce, counter);
    var run := RoundsRun(s, 10);
    RunIsFunction(run, states);
    forall j: nat | j < 16
      ensures BlockWord(key, nonce, counter, j) == Add32(states[0][j], states[20][j])
    {
      BlockWordIs(key, nonce, counter, j);
    }
  }

  /** The number in bytes 4 * j to 4 * j + 3 of a block. */
  function BlockWord(key: Key, nonce: Nonce, counter: u32, j: nat): nat
    requires j < 16
  {
    LeNum(Block(key, nonce, counter)[4 * j..4 * j + 4])
  }

  lemma BlockWordIs(key: Key, nonce: Nonce, counter: u32, j: nat)
    requires j < 16
    ensures var s := Initial(key, nonce, counter);
            BlockWord(key, nonce, counter, j) == Add32(s[j], Rounds(s, 10)[j])
  {
    hide Initial, Rounds, LeNum, LeBytes, Stored;
    var s := Initial(key, nonce, counter);
    var w := Rounds(s, 10);
    StoredWord(w, s, 16, j);
    LeNumOfBytes(Add32(w[j], s[j]), 4);
    Pow2Values();
  }

  lemma {:induction false} StoredWord(w: State, s: State, n: nat, j: nat)
    requires j < n <= 16
    ensures Stored(w, s, n)[4 * j..4 * j + 4] == LeBytes(Add32(w[j], s[j]), 4)
    decreases n
  {
    hide Add32, LeBytes;
    if j < n - 1 {
      StoredWord(w, s, n - 1, j);
      assert Stored(w, s, n)[4 * j..4 * j + 4] == Stored(w, s, n - 1)[4 * j..4 * j + 4];
    }
  }

  // ----- the initial state

  const EXPAND := "expand 32-byte k"

  function Serial(s: State, n: nat): (b: seq<byte>)
    requires n <= 16
    ensures |b| == 4 * n
  {
    if n == 0 then [] else Serial(s, n - 1) + LeBytes(s[n - 1], 4)
  }

  /** The state is the constant text, the key, the counter and the nonce, in this order. */
  lemma InitialLayout(key: Key, nonce: Nonce, counter: u32)
    ensures Serial(Initial(key, nonce, counter), 16) == BytesOf(EXPAND) + key + LeBytes(counter, 4) + nonce
  {
    var s := Initial(key, nonce, counter);
    hide Serial, LeBytes, Load32, Four, BytesOf;
    SerialConstants(s);
    SerialKey(s, key, 8);
    SerialTail(s, key, nonce, counter);
    assert key[..32] == key;
  }

  lemma SerialConstants(s: State)
    requires s[0] == 0x6170_7865 && s[1] == 0x3320_646e && s[2] == 0x7962_2d32 && s[3] == 0x6b20_6574
    ensures Serial(s, 4) == BytesOf(EXPAND)
  {
    hide LeBytes, Serial;
    WordIs(0x65, 0x78, 0x70, 0x61);
    WordIs(0x6e, 0x64, 0x20, 0x33);
    WordIs(0x32, 0x2d, 0x62, 0x79);
    WordIs(0x74, 0x65, 0x20, 0x6b);
    SerialFour(s);
    ExpandBytes();
  }

  lemma ExpandBytes()
    ensures BytesOf(EXPAND) == [0x65, 0x78, 0x70, 0x61] + [0x6e, 0x64, 0x20, 0x33] + [0x32, 0x2d, 0x62, 0x79] + [0x74, 0x65, 0x20, 0x6b]
  {
  }

  lemma WordIs(a: byte, b: byte, c: byte, d: byte)
    ensures LeBytes(a as int + 0x100 * (b as int) + 0x1_0000 * (c as int) + 0x100_0000 * (d as int), 4) == [a, b, c, d]
  {
    hide LeBytes;
    LoadBytes([a, b, c, d], 0);
  }

  lemma SerialFour(s: State)
    ensures Serial(s, 4) == LeBytes(s[0], 4) + LeBytes(s[1], 4) + LeBytes(s[2], 4) + LeBytes(s[3], 4)
  {
    hide LeBytes;
    assert Serial(s, 0) == [];
    assert Serial(s, 1) == LeBytes(s[0], 4);
    assert Serial(s, 2) == LeBytes(s[0], 4) + LeBytes(s[1], 4);
    assert Serial(s, 3) == LeBytes(s[0], 4) + LeBytes(s[1], 4) + LeBytes(s[2], 4);
  }

  lemma {:induction false} SerialKey(s: State, key: Key, n: nat)
    requires n <= 8
    requires forall i: nat :: i < 8 ==> s[4 + i] == Load32(key, 4 * i)
    ensures Serial(s, 4 + n) == Serial(s, 4) + key[..4 * n]
    decreases n
  {
    hide LeBytes, Load32, Four;
    if n == 0 {
      assert key[..0] == [];
    } else {
      SerialKey(s, key, n - 1);
      assert s[4 + (n - 1)] == Load32(key, 4 * (n - 1));
      LoadBytes(key, 4 * (n - 1));
      assert key[..4 * n] == key[..4 * (n - 1)] + key[4 * (n - 1)..4 * n];
    }
  }

  lemma SerialTail(s: State, key: Key, nonce: Nonce, counter: u32)
    requires s == Initial(key, nonce, counter)
    ensures Serial(s, 16) == Serial(s, 12) + (LeBytes(counter, 4) + nonce)
  {
    hide LeBytes, Load32;
    LoadBytes(nonce, 0);
    LoadBytes(nonce, 4);
    LoadBytes(nonce, 8);
    assert nonce == nonce[0..4] + nonce[4..8] + nonce[8..12];
    assert s[12] == counter && s[13] == Load32(nonce, 0) && s[14] == Load32(nonce, 4) && s[15] == Load32(nonce, 8);
    assert Serial(s, 13) == Serial(s, 12) + LeBytes(s[12], 4);
    assert Serial(s, 14) == Serial(s, 13) + LeBytes(s[13], 4);
    assert Serial(s, 15) == Serial(s, 14) + LeBytes(s[14], 4);
  }

  lemma LoadBytes(b: seq<byte>, at: nat)
    requires at + 4 <= |b|
    ensures LeBytes(Load32(b, at), 4) == b[at..at + 4]
  {
    hide LeBytes;
    var w := b[at..at + 4];
    LeNumFour(w);
    LeNumEmpty();
    assert w[4..] == [];
    LeBytesOfNum(w);
  }

  // ----- the key stream

  /** The key stream begins with the block of its counter, */
  lemma StreamBegins(key: Key, nonce: Nonce, counter: u32, a: seq<byte>)
    requires |a| <= 64
    ensures XorStream(key, nonce, counter, a) == XorBytes(a, Block(key, nonce, counter))
  {
    hide Block, XorStream, XorBytes;
    ChunkIs(key, nonce, counter, a, 0, |a|);
    assert XorStream(key, nonce, counter, a)[0..|a|] == XorStream(key, nonce, counter, a) && a[0..|a|] == a;
  }

  /** and goes on, after whole blocks, as the key stream of a later counter, modulo 2^32. */
  lemma StreamGoesOn(key: Key, nonce: Nonce, counter: u32, a: seq<byte>, b: seq<byte>)
    requires |a| % 64 == 0
    ensures XorStream(key, nonce, counter, a + b)
         == XorStream(key, nonce, counter, a) + XorStream(key, nonce, (counter + |a| / 64) % 0x1_0000_0000, b)
  {
    hide Xor8, StreamByte;
    var all, tail := XorStream(key, nonce, counter, a + b), XorStream(key, nonce, (counter + |a| / 64) % 0x1_0000_0000, b);
    forall i | 0 <= i < |b|
      ensures all[|a| + i] == tail[i]
    {
      LaterStreamByte(key, nonce, counter, |a| / 64, i);
    }
  }

  lemma LaterStreamByte(key: Key, nonce: Nonce, counter: u32, n: nat, i: nat)
    ensures StreamByte(key, nonce, counter, 64 * n + i) == StreamByte(key, nonce, (counter + n) % 0x1_0000_0000, i)
  {
    hide Block;
    LaterByte(counter, n, i);
  }

  lemma LaterByte(counter: u32, n: nat, i: nat)
    ensures (64 * n + i) % 64 == i % 64
    ensures (counter + (64 * n + i) / 64) % 0x1_0000_0000 == ((counter + n) % 0x1_0000_0000 + i / 64) % 0x1_0000_0000
  {
    DivModUnique(64 * n + i, 64, n + i / 64, i % 64);
    var m := 0x1_0000_0000;
    var x := (counter + n) % m + i / 64;
    DivModUnique(counter + n + i / 64, m, (counter + n) / m + x / m, x % m);
  }

  // ----- the quarter round on the test vector of section 2.1.1

  lemma LineIs(x: u32, y: u32, z: u32, n: nat, p: nat, q: nat)
    requires n <= 32 && p == Pow2(32 - n) && q == Pow2(n) && p * q == 0x1_0000_0000
    ensures var x' := (x + y) % 0x1_0000_0000;
            var v := BitXor(z, x');
            Line(x, y, z, n) == (x', v / p + q * (v % p))
  {
    hide BitXor, Pow2, Rotl32;
    var x' := Add32(x, y);
    Word32(z, x');
    RotateIs(Xor32(z, x'), n, p, q);
  }

  type bit = b: int | 0 <= b < 2

  /** Four more bits at the low end of a and b. */
  lemma XorNibble(a: nat, a3: bit, a2: bit, a1: bit, a0: bit, b: nat, b3: bit, b2: bit, b1: bit, b0: bit)
    ensures BitXor(16 * a + 8 * a3 + 4 * a2 + 2 * a1 + a0, 16 * b + 8 * b3 + 4 * b2 + 2 * b1 + b0)
         == 16 * BitXor(a, b) + 8 * (if a3 == b3 then 0 else 1) + 4 * (if a2 == b2 then 0 else 1)
            + 2 * (if a1 == b1 then 0 else 1) + (if a0 == b0 then 0 else 1)
  {
    hide BitXor;
    XorBit(a, a3, b, b3);
    XorBit(2 * a + a3, a2, 2 * b + b3, b2);
    XorBit(4 * a + 2 * a3 + a2, a1, 4 * b + 2 * b3 + b2, b1);
    XorBit(8 * a + 4 * a3 + 2 * a2 + a1, a0, 8 * b + 4 * b3 + 2 * b2 + b1, b0);
  }

  lemma XorBit(a: nat, x: bit, b: nat, y: bit)
    ensures BitXor(2 * a + x, 2 * b + y) == 2 * BitXor(a, b) + (if x == y then 0 else 1)
  {
    hide BitXor;
    XorTwoStep(2 * a + x, 2 * b + y);
  }

  lemma VectorXor1()
    ensures BitXor(0x0123_4567, 0x1213_1415) == 0x1330_5172
  {
    hide BitXor;
    XorNothing();
    XorNibble(0, 0, 0, 0, 0, 0, 0, 0, 0, 1);
    XorNibble(0, 0, 0, 0, 1, 0x1, 0, 0, 1, 0);
    XorNibble(0x1, 0, 0, 1, 0, 0x12, 0, 0, 0, 1);
    XorNibble(0x12, 0, 0, 1, 1, 0x121, 0, 0, 1, 1);
    XorNibble(0x123, 0, 1, 0, 0, 0x1213, 0, 0, 0, 1);
    XorNibble(0x1234, 0, 1, 0, 1, 0x12131, 0, 1, 0, 0);
    XorNibble(0x12345, 0, 1, 1, 0, 0x121314, 0, 0, 0, 1);
    XorNibble(0x123456, 0, 1, 1, 1, 0x1213141, 0, 1, 0, 1);
  }

  lemma VectorLine1()
    ensures Line(0x1111_1111, 0x0102_0304, 0x0123_4567, 16) == (0x1213_1415, 0x5172_1330)
  {
    hide Line, Pow2, BitXor;
    RotateValues();
    LineIs(0x1111_1111, 0x0102_0304, 0x0123_4567, 16, 0x10000, 0x10000);
    VectorXor1();
  }

  lemma VectorXor2()
    ensures BitXor(0x0102_0304, 0xecff_8273) == 0xedfd_8177
  {
    hide BitXor;
    XorNothing();
    XorNibble(0, 0, 0, 0, 0, 0, 1, 1, 1, 0);
    XorNibble(0, 0, 0, 0, 1, 0xe, 1, 1, 0, 0);
    XorNibble(0x1, 0, 0, 0, 0, 0xec, 1, 1, 1, 1);
    XorNibble(0x10, 0, 0, 1, 0, 0xecf, 1, 1, 1, 1);
    XorNibble(0x102, 0, 0, 0, 0, 0xecff, 1, 0, 0, 0);
    XorNibble(0x1020, 0, 0, 1, 1, 0xecff8, 0, 0, 1, 0);
    XorNibble(0x10203, 0, 0, 0, 0, 0xecff82, 0, 1, 1, 1);
    XorNibble(0x102030, 0, 1, 0, 0, 0xecff827, 0, 0, 1, 1);
  }

  lemma VectorLine2()
    ensures Line(0x9b8d_6f43, 0x5172_1330, 0x0102_0304, 12) == (0xecff_8273, 0xd817_7edf)
  {
    hide Line, Pow2, BitXor;
    RotateValues();
    LineIs(0x9b8d_6f43, 0x5172_1330, 0x0102_0304, 12, 0x100000, 0x1000);
    VectorXor2();
  }

  lemma VectorXor3()
    ensures BitXor(0x5172_1330, 0xea2a_92f4) == 0xbb58_81c4
  {
    hide BitXor;
    XorNothing();
    XorNibble(0, 0, 1, 0, 1, 0, 1, 1, 1, 0);
    XorNibble(0x5, 0, 0, 0, 1, 0xe, 1, 0, 1, 0);
    XorNibble(0x51, 0, 1, 1, 1, 0xea, 0, 0, 1, 0);
    XorNibble(0x517, 0, 0, 1, 0, 0xea2, 1, 0, 1, 0);
    XorNibble(0x5172, 0, 0, 0, 1, 0xea2a, 1, 0, 0, 1);
    XorNibble(0x51721, 0, 0, 1, 1, 0xea2a9, 0, 0, 1, 0);
    XorNibble(0x517213, 0, 0, 1, 1, 0xea2a92, 1, 1, 1, 1);
    XorNibble(0x5172133, 0, 0, 0, 0, 0xea2a92f, 0, 1, 0, 0);
  }

  lemma VectorLine3()
    ensures Line(0x1213_1415, 0xd817_7edf, 0x5172_1330, 8) == (0xea2a_92f4, 0x5881_c4bb)
  {
    hide Line, Pow2, BitXor;
    RotateValues();
    LineIs(0x1213_1415, 0xd817_7edf, 0x5172_1330, 8, 0x1000000, 0x100);
    VectorXor3();
  }

  lemma VectorXor4()
    ensures BitXor(0xd817_7edf, 0x4581_472e) == 0x9d96_39f1
  {
    hide BitXor;
    XorNothing();
    XorNibble(0, 1, 1, 0, 1, 0, 0, 1, 0, 0);
    XorNibble(0xd, 1, 0, 0, 0, 0x4, 0, 1, 0, 1);
    XorNibble(0xd8, 0, 0, 0, 1, 0x45, 1, 0, 0, 0);
    XorNibble(0xd81, 0, 1, 1, 1, 0x458, 0, 0, 0, 1);
    XorNibble(0xd817, 0, 1, 1, 1, 0x4581, 0, 1, 0, 0);
    XorNibble(0xd8177, 1, 1, 1, 0, 0x45814, 0, 1, 1, 1);
    XorNibble(0xd8177e, 1, 1, 0, 1, 0x458147, 0, 0, 1, 0);
    XorNibble(0xd8177ed, 1, 1, 1, 1, 0x4581472, 1, 1, 1, 0);
  }

  lemma VectorLine4()
    ensures Line(0xecff_8273, 0x5881_c4bb, 0xd817_7edf, 7) == (0x4581_472e, 0xcb1c_f8ce)
  {
    hide Line, Pow2, BitXor;
    RotateValues();
    LineIs(0xecff_8273, 0x5881_c4bb, 0xd817_7edf, 7, 0x2000000, 0x80);
    VectorXor4();
  }

  lemma RotateValues()
    ensures Pow2(16) == 0x1_0000 && Pow2(12) == 0x1000 && Pow2(20) == 0x10_0000
    ensures Pow2(8) == 0x100 && Pow2(24) == 0x100_0000 && Pow2(7) == 0x80 && Pow2(25) == 0x200_0000
  {
    hide Pow2;
    Pow2Values();
    Pow2Small();
    Pow2Add(4, 3);
    Pow2Add(20, 5);
  }

  lemma QuarterRoundVector()
    ensures QuarterRound(Quad(0x1111_1111, 0x0102_0304, 0x9b8d_6f43, 0x0123_4567))
         == Quad(0xea2a_92f4, 0xcb1c_f8ce, 0x4581_472e, 0x5881_c4bb)
  {
    hide Line;
    VectorLine1();
    VectorLine2();
    VectorLine3();
    VectorLine4();
  }
}
