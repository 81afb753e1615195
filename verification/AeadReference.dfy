/** Seal and tag in other words (sections 2.5 to 2.8 of RFC 8439): where the tag's input holds
    what, one key stream for the one-time key and the data, and three test vectors of Poly1305. */
module AeadReference {
  import opened Bits
  import opened Poly1305
  import opened ChaCha20
  import opened ChaChaReference
  import opened Aead

  function RoundedUp(n: nat): nat { (n + 15) / 16 * 16 }

  /** The tag's input, position by position. */
  lemma MacDataLayout(aad: seq<byte>, ct: seq<byte>)
    ensures var d, a, c := MacData(aad, ct), RoundedUp(|aad|), RoundedUp(|ct|);
            && |d| == a + c + 16
            && d[..|aad|] == aad && (forall i :: |aad| <= i < a ==> d[i] == 0)
            && d[a..a + |ct|] == ct && (forall i :: a + |ct| <= i < a + c ==> d[i] == 0)
            && LeNum(d[a + c..a + c + 8]) == |aad| % 0x1_0000_0000_0000_0000
            && LeNum(d[a + c + 8..]) == |ct| % 0x1_0000_0000_0000_0000
  {
    hide LeNum, LeBytes, Pow2;
    PaddedLayout(aad);
    PaddedLayout(ct);
    LeNumOfBytes(|aad|, 8);
    LeNumOfBytes(|ct|, 8);
    Pow2Long();
    var d, a, c := MacData(aad, ct), RoundedUp(|aad|), RoundedUp(|ct|);
    assert d[..a] == Pad16(aad) && d[a..a + c] == Pad16(ct);
    assert d[..|aad|] == Pad16(aad)[..|aad|] && d[a..a + |ct|] == Pad16(ct)[..|ct|];
    assert d[a + c..a + c + 8] == LeBytes(|aad|, 8) && d[a + c + 8..] == LeBytes(|ct|, 8);
    forall i | a + |ct| <= i < a + c
      ensures d[i] == 0
    {
      assert d[i] == Pad16(ct)[i - a];
    }
  }

  lemma PaddedLayout(b: seq<byte>)
    ensures |Pad16(b)| == RoundedUp(|b|) && |b| <= RoundedUp(|b|) && Pad16(b)[..|b|] == b
    ensures forall i :: |b| <= i < |Pad16(b)| ==> Pad16(b)[i] == 0
  {
  }

  lemma Pow2Long()
    ensures Pow2(8 * 8) == 0x1_0000_0000_0000_0000
  {
    hide Pow2;
    Pow2Values();
    Pow2Add(32, 32);
  }

  /** One key stream, from block 0 on, gives it all: its first 32 bytes are the one-time key,
      the next 32 are not used, and the rest encrypts the data. */
  lemma OneKeyStream(key: Key, nonce: Nonce, plain: seq<byte>)
    ensures var all := XorStream(key, nonce, 0, Zeros(64) + plain);
            Seal(key, nonce, plain) == Sealed(all[64..], MacOf(all[..32], [], all[64..]))
  {
    hide XorStream, MacOf, Block;
    var all := XorStream(key, nonce, 0, Zeros(64) + plain);
    var front := XorStream(key, nonce, 0, Zeros(64));
    StreamGoesOn(key, nonce, 0, Zeros(64), plain);
    StreamBegins(key, nonce, 0, Zeros(64));
    XorZeros(Block(key, nonce, 0));
    assert all == front + XorStream(key, nonce, 1, plain);
    assert all[64..] == XorStream(key, nonce, 1, plain) && all[..32] == front[..32];
  }

  lemma XorZeros(block: seq<byte>)
    requires |block| == 64
    ensures XorBytes(Zeros(64), block) == block
  {
    forall i | 0 <= i < 64
      ensures XorBytes(Zeros(64), block)[i] == block[i]
    {
      XorZero(block[i]);
    }
  }

  lemma {:induction false} XorZero(n: nat)
    ensures BitXor(0, n) == n
  {
    if n != 0 {
      XorZero(n / 2);
    }
  }

  // ----- test vectors 7, 8 and 11 of appendix A.3 of RFC 8439: r = 2 and one block

  function Same(b: byte, n: nat): (s: seq<byte>)
    ensures |s| == n
  {
    seq(n, _ => b)
  }

  /** A one-time key with r = 2 and the given s. */
  function KeyTwo(s: seq<byte>): (k: seq<byte>)
    requires |s| == 16
    ensures |k| == 32
  {
    [2] + Same(0, 15) + s
  }

  lemma TagWithTwo(s: seq<byte>, block: seq<byte>)
    requires |s| == 16 && |block| == 16
    ensures Tag(KeyTwo(s), block) == ((LeNum(block) + TWO128) * 2 % P + LeNum(s)) % TWO128
  {
    hide LeNum, KeyTwo, ClampBytes, PolyFrom;
    ClampTwo(s);
    NumIs(2, 0, 0);
    BlockPoly(0, block, 2);
  }

  lemma ClampTwo(s: seq<byte>)
    requires |s| == 16
    ensures ClampBytes(KeyTwo(s)) == [2] + Same(0, 15) && KeyTwo(s)[16..] == s
  {
    hide And8;
    var key := KeyTwo(s);
    ClampMasks(0);
    forall i | 0 <= i < 16
      ensures ClampBytes(key)[i] == ([2] + Same(0, 15))[i]
    {
    }
  }

  // The number of a first byte and fifteen equal ones.
  lemma NumIs(a: byte, b: byte, n: nat)
    requires n == b as int * 0x1_0101_0101_0101_0101_0101_0101_0101
    ensures LeNum([a] + Same(b, 15)) == a as int + 0x100 * n
  {
    hide LeNum;
    LeNumSixteen([a] + Same(b, 15));
  }

  lemma PolyVectors()
    ensures LeBytes(Tag(KeyTwo(Same(0, 16)), Same(0xff, 16)), 16) == [3] + Same(0, 15)
    ensures LeBytes(Tag(KeyTwo(Same(0xff, 16)), [2] + Same(0, 15)), 16) == [3] + Same(0, 15)
    ensures LeBytes(Tag(KeyTwo(Same(0, 16)), [0xfd] + Same(0xff, 15)), 16) == [0xfa] + Same(0xff, 15)
  {
    hide LeBytes, LeNum, Tag;
    assert Same(0, 16) == [0] + Same(0, 15) && Same(0xff, 16) == [0xff] + Same(0xff, 15);
    NumIs(0, 0, 0);
    NumIs(2, 0, 0);
    NumIs(3, 0, 0);
    NumIs(0xff, 0xff, 0xff_ffff_ffff_ffff_ffff_ffff_ffff_ffff);
    NumIs(0xfd, 0xff, 0xff_ffff_ffff_ffff_ffff_ffff_ffff_ffff);
    NumIs(0xfa, 0xff, 0xff_ffff_ffff_ffff_ffff_ffff_ffff_ffff);
    TagWithTwo(Same(0, 16), Same(0xff, 16));
    TagWithTwo(Same(0xff, 16), [2] + Same(0, 15));
    TagWithTwo(Same(0, 16), [0xfd] + Same(0xff, 15));
    LeBytesOfNum([3] + Same(0, 15));
    LeBytesOfNum([0xfa] + Same(0xff, 15));
  }
}
