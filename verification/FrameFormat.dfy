/** The frames of the AEAD transport byte by byte, and what scanner and reader make of bytes
    that no peer sealed (hope.c:942-1131). */
module FrameFormat {
  import opened Bits
  import opened ChaCha20
  import opened Aead
  import opened Wrappers
  import opened WireFormat
  import opened HopeAead

  /** A direction byte, three zeros and the counter, big-endian. */
  lemma NonceLayout(direction: byte, counter: u64)
    ensures var n := FrameNonce(direction, counter);
            && n[0] == direction && n[1] == n[2] == n[3] == 0
            && 0x1_0000_0000 * FourBytes(n, 4) + FourBytes(n, 8) == counter
  {
    hide BeNum, BeBytes, Pow2;
    var n := FrameNonce(direction, counter);
    Pow64();
    BeNumOfBytes(counter, 8);
    assert n[4..] == BeBytes(counter, 8);
    BeNumEight(n[4..]);
    assert n[4..][..4] == n[4..8] && n[4..][4..] == n[8..12];
    BeNumFour(n, 4);
    BeNumFour(n, 8);
  }

  lemma BeNumEight(w: seq<byte>)
    requires |w| == 8
    ensures BeNum(w) == 0x1_0000_0000 * BeNum(w[..4]) + BeNum(w[4..])
  {
    hide BeNum;
    BeNumLast(w);
    BeNumLast(w[..7]);
    BeNumLast(w[..6]);
    BeNumLast(w[..5]);
    assert w[..7][..6] == w[..6] && w[..6][..5] == w[..5] && w[..5][..4] == w[..4];
    BeNumFour(w, 4);
    assert w[4..8] == w[4..];
  }

  /** The big-endian length of what follows, the ciphertext and its tag. */
  lemma FrameLayout(key: Key, direction: byte, counter: u64, plain: seq<byte>)
    requires |plain| + TAG < 0x1_0000_0000
    ensures var f, s := Frame(key, direction, counter, plain), Seal(key, FrameNonce(direction, counter), plain);
            && |f| == |plain| + 20 && FourBytes(f, 0) == |f| - 4
            && f[4..4 + |plain|] == s.ct && f[4 + |plain|..] == s.tag
  {
    hide BeNum, BeBytes, Seal, FrameNonce, Open;
    FrameIs(key, direction, counter, plain);
    OpenSeal(key, FrameNonce(direction, counter), plain);
    var f, s := Frame(key, direction, counter, plain), Seal(key, FrameNonce(direction, counter), plain);
    Parts(BeBytes(|plain| + TAG, 4), s.ct, s.tag);
    assert f[..4] == f[0..4];
    BeNumFour(f, 0);
  }

  lemma Parts(a: seq<byte>, b: seq<byte>, c: seq<byte>)
    ensures (a + b + c)[..|a|] == a && (a + b + c)[|a|..|a| + |b|] == b && (a + b + c)[|a| + |b|..] == c
  {
  }

  /** For any bytes: too small or too large a length is refused as soon as it is there, and a
      frame is complete exactly when all its bytes are. */
  lemma ScanFrameIff(buf: seq<byte>, max: nat)
    ensures ScanFrame(buf, max) == Invalid <==>
      |buf| >= 4 && (FourBytes(buf, 0) < 16 || 4 + FourBytes(buf, 0) > max)
    ensures forall n: nat :: ScanFrame(buf, max) == Complete(n) <==>
      |buf| >= 4 && 16 <= FourBytes(buf, 0) && n == 4 + FourBytes(buf, 0) && n <= max && n <= |buf|
  {
    hide BeNum;
    if |buf| >= 4 {
      assert buf[..4] == buf[0..4];
      BeNumFour(buf, 0);
    }
  }

  /** For any pending bytes: a refill buffers a plaintext exactly if the bytes begin with its
      frame, sealed by a client under the reader's counter; it takes that frame and counts it. */
  lemma RefillIff(key: Key, r: Reader, f: Reader)
    ensures Refill(key, r) == Some(f) <==>
      && |f.buffer| + 16 <= 16 * 1024 * 1024 && f.off == 0
      && r.pending == Frame(key, 1, r.counter, f.buffer) + f.pending
      && f.counter == (r.counter + 1) % 0x1_0000_0000_0000_0000
  {
    hide BeNum, Open, Seal, FrameNonce, Frame;
    var nonce := FrameNonce(1, r.counter);
    if |f.buffer| + 16 <= MAX_PAYLOAD && r.pending == Frame(key, 1, r.counter, f.buffer) + f.pending {
      FrameIs(key, 1, r.counter, f.buffer);
      var e := Frame(key, 1, r.counter, f.buffer);
      assert r.pending[..4] == e[..4] && r.pending[..|e|] == e && r.pending[|e|..] == f.pending;
    }
    if Refill(key, r) == Some(f) {
      var n := BeNum(r.pending[..4]);
      var e := r.pending[..4 + n];
      assert e[..4] == r.pending[..4];
      OpenIffSealed(key, nonce, Content(e), f.buffer);
      OpenLength(key, nonce, Content(e));
      SealedIsFrame(key, r.counter, e, f.buffer);
      assert r.pending == e + r.pending[4 + n..];
    }
  }

  lemma SealedIsFrame(key: Key, counter: u64, e: seq<byte>, plain: seq<byte>)
    requires 4 + TAG <= |e| < 0x1_0000_0000 && BeNum(e[..4]) == |e| - 4
    requires Content(e) == Seal(key, FrameNonce(1, counter), plain) && |plain| == |Content(e).ct|
    ensures e == Frame(key, 1, counter, plain)
  {
    hide BeNum, BeBytes, Seal, FrameNonce;
    BeBytesOfFour(e[..4]);
    assert e == e[..4] + Content(e).ct + Content(e).tag;
  }

  lemma BeBytesOfFour(w: seq<byte>)
    requires |w| == 4
    ensures BeBytes(BeNum(w), 4) == w
  {
    hide BeNum, BeBytes;
    BeNumLast(w);
    BeNumLast(w[..3]);
    assert w[..3][..2] == w[..2] == w[0..2];
    BeBytesOfTwo(w, 0);
    BeBytesMore(w[..3], 2);
    BeBytesMore(w, 3);
  }

  lemma BeBytesMore(w: seq<byte>, n: nat)
    requires |w| == n + 1 && BeBytes(BeNum(w[..n]), n) == w[..n]
    ensures BeBytes(BeNum(w), n + 1) == w
  {
    hide BeNum;
    BeNumLast(w);
    assert w == w[..n] + [w[n]];
    assert BeNum(w) / 0x100 == BeNum(w[..n]) && BeNum(w) % 0x100 == w[n];
  }
}
