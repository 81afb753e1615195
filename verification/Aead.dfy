/** The AEAD of section 2.8 of RFC 8439 (chacha20poly1305.c:299-427). */
module Aead {
  import opened Bits
  import opened Poly1305
  import opened ChaCha20
  import opened Wrappers

  // ----- the specification

  function Zeros(n: nat): (z: seq<byte>)
    ensures |z| == n
  {
    seq(n, _ => 0)
  }

  function Pad16(b: seq<byte>): (p: seq<byte>)
    ensures |p| % 16 == 0
  {
    if |b| % 16 == 0 then b else b + Zeros(16 - |b| % 16)
  }

  function MacData(aad: seq<byte>, ct: seq<byte>): (d: seq<byte>)
    ensures |d| % 16 == 0
  {
    Aligned(|Pad16(aad)|, |Pad16(ct)|);
    Pad16(aad) + Pad16(ct) + (LeBytes(|aad|, 8) + LeBytes(|ct|, 8))
  }

  lemma Aligned(m: nat, n: nat)
    requires m % 16 == 0 && n % 16 == 0
    ensures (m + n + 16) % 16 == 0
  {
    DivModUnique(m + n + 16, 16, m / 16 + n / 16 + 1, 0);
  }

  function MacOf(otk: seq<byte>, aad: seq<byte>, ct: seq<byte>): (t: seq<byte>)
    requires |otk| == 32
    ensures |t| == 16
  {
    LeBytes(Tag(otk, MacData(aad, ct)), 16)
  }

  function TagFor(key: Key, nonce: Nonce, ct: seq<byte>): (t: seq<byte>)
    ensures |t| == 16
  {
    MacOf(Block(key, nonce, 0)[..32], [], ct)
  }

  datatype Sealed = Sealed(ct: seq<byte>, tag: seq<byte>)

  function Seal(key: Key, nonce: Nonce, plain: seq<byte>): Sealed {
    var ct := XorStream(key, nonce, 1, plain);
    Sealed(ct, TagFor(key, nonce, ct))
  }

  function Open(key: Key, nonce: Nonce, s: Sealed): Option<seq<byte>> {
    if s.tag == TagFor(key, nonce, s.ct) then Some(XorStream(key, nonce, 1, s.ct)) else None
  }

  /** Opening yields a plaintext exactly when the input is the seal of that plaintext. */
  lemma OpenIffSealed(key: Key, nonce: Nonce, s: Sealed, plain: seq<byte>)
    ensures Open(key, nonce, s) == Some(plain) <==> s == Seal(key, nonce, plain)
  {
    hide XorStream, TagFor;
    XorStreamTwice(key, nonce, 1, plain);
    XorStreamTwice(key, nonce, 1, s.ct);
  }

  lemma OpenSeal(key: Key, nonce: Nonce, plain: seq<byte>)
    ensures Open(key, nonce, Seal(key, nonce, plain)) == Some(plain)
    ensures |Seal(key, nonce, plain).ct| == |plain| && |Seal(key, nonce, plain).tag| == 16
  {
    hide XorStream, TagFor;
    OpenIffSealed(key, nonce, Seal(key, nonce, plain), plain);
  }

  lemma OpenLength(key: Key, nonce: Nonce, s: Sealed)
    ensures Open(key, nonce, s).Some? ==> |Open(key, nonce, s).value| == |s.ct|
  {
    hide TagFor;
  }

  // ----- the tag (aead_poly1305_tag)

  /** The accumulator has absorbed the blocks of msg. */
  ghost predicate Absorbed(st: Authenticator, msg: seq<byte>)
    reads st
  {
    st.Valid() && |msg| % 16 == 0 && st.h.Val() % P == Poly(msg, st.r.Val()) % P
  }

  lemma {:induction false} PolyFromPrefix(a: seq<byte>, b: seq<byte>, n: nat, r: nat)
    requires 16 * n <= |a|
    ensures PolyFrom(0, a + b, n, r, TWO128) == PolyFrom(0, a, n, r, TWO128)
    decreases n
  {
    if n != 0 {
      PolyFromPrefix(a, b, n - 1, r);
      assert (a + b)[16 * (n - 1)..16 * (n - 1) + 16] == a[16 * (n - 1)..16 * (n - 1) + 16];
    }
  }

  lemma AbsorbBlock(msg: seq<byte>, b: seq<byte>, acc: nat, r: nat)
    requires |msg| % 16 == 0 && |b| == 16
    requires acc % P == Poly(msg, r) % P
    ensures PolyFrom(acc, b, 1, r, TWO128) % P == Poly(msg + b, r) % P
  {
    hide LeNum;
    var n := |msg| / 16;
    PolyFromPrefix(msg, b, n, r);
    assert (msg + b)[16 * n..16 * n + 16] == b == b[0..16];
    BlockPoly(acc, b, r);
    assert Poly(msg + b, r) == (PolyFrom(0, msg + b, n, r, TWO128) + BlockNum(msg + b, n, TWO128)) * r;
    TimesResidue(acc, Poly(msg, r), LeNum(b) + TWO128, r);
  }

  lemma BlockPoly(acc: nat, b: seq<byte>, r: nat)
    requires |b| == 16
    ensures PolyFrom(acc, b, 1, r, TWO128) == (acc + (LeNum(b) + TWO128)) * r
  {
    hide LeNum;
    assert b[0..16] == b;
    assert PolyFrom(acc, b, 0, r, TWO128) == acc;
  }

  method AbsorbOne(st: Authenticator, b: seq<byte>, ghost msg: seq<byte>)
    requires |b| == 16 && Absorbed(st, msg)
    modifies st`h
    ensures Absorbed(st, msg + b)
  {
    hide Limbs.Val, PolyFrom, LoopHead, Clamped;
    AbsorbBlock(msg, b, st.h.Val(), st.r.Val());
    st.Blocks(b, false);
  }

  /** Whole blocks first, then the tail padded with zeros. */
  method AbsorbPadded(st: Authenticator, data: seq<byte>, ghost msg: seq<byte>)
    requires Absorbed(st, msg)
    modifies st`h
    ensures Absorbed(st, msg + Pad16(data))
  {
    hide Absorbed;
    var off := 0;
    assert msg + data[..0] == msg;
    while off + 16 <= |data|
      invariant 0 <= off <= |data| && off % 16 == 0
      invariant Absorbed(st, msg + data[..off])
    {
      AbsorbOne(st, data[off..off + 16], msg + data[..off]);
      assert msg + data[..off] + data[off..off + 16] == msg + data[..off + 16];
      off := off + 16;
    }
    DivModUnique(|data|, 16, off / 16, |data| - off);
    if off < |data| {
      var tail := |data| - off;
      AbsorbOne(st, data[off..] + Zeros(16 - tail), msg + data[..off]);
      assert msg + data[..off] + (data[off..] + Zeros(16 - tail)) == msg + Pad16(data);
    } else {
      assert data[..off] == data;
    }
  }

  method ComputeTag(otk: seq<byte>, aad: seq<byte>, ct: seq<byte>) returns (tag: seq<byte>)
    requires |otk| == 32
    ensures tag == MacOf(otk, aad, ct)
  {
    hide Pad16, LeBytes, Limbs.Val, LeNum, Absorbed, Poly;
    var st := new Authenticator(otk);
    FreshAbsorbed(st);
    if |aad| > 0 {
      AbsorbPadded(st, aad, []);
    }
    PadNothing();
    assert [] + Pad16(aad) == Pad16(aad);
    if |ct| > 0 {
      AbsorbPadded(st, ct, Pad16(aad));
    }
    assert Pad16(aad) + [] == Pad16(aad);
    AbsorbOne(st, LeBytes(|aad|, 8) + LeBytes(|ct|, 8), Pad16(aad) + Pad16(ct));
    AbsorbedPoly(st, MacData(aad, ct));
    tag := st.Final();
  }

  lemma FreshAbsorbed(st: Authenticator)
    requires st.Valid() && st.h == ZERO
    ensures Absorbed(st, [])
  {
  }

  lemma AbsorbedPoly(st: Authenticator, msg: seq<byte>)
    requires Absorbed(st, msg)
    ensures st.Valid() && st.h.Val() % P == Poly(msg, st.r.Val()) % P
  {
  }

  lemma PadNothing()
    ensures Pad16([]) == []
  {
  }

  // ----- encrypt and decrypt

  /** hl_chacha20_poly1305_encrypt: ciphertext into out[at..]; the tag is the result. */
  method Encrypt(key: Key, nonce: Nonce, plain: seq<byte>, out: array<byte>, at: nat) returns (tag: seq<byte>)
    requires at + |plain| <= out.Length
    modifies out
    ensures Written(out, old(out[..]), at, Seal(key, nonce, plain).ct)
    ensures tag == Seal(key, nonce, plain).tag
  {
    hide XorStream, MacOf, Block;
    var otk := BlockInto(key, nonce, 0);
    assert plain == [] ==> XorStream(key, nonce, 1, plain) == [];
    if |plain| > 0 {
      XorInto(key, nonce, 1, plain, out, at);
    }
    assert Written(out, old(out[..]), at, XorStream(key, nonce, 1, plain));
    assert out[at..at + |plain|] == XorStream(key, nonce, 1, plain);
    tag := ComputeTag(otk[..32], [], out[at..at + |plain|]);
  }

  /** The constant-time comparison: every difference is collected, none ends the loop. */
  method SameTag(a: seq<byte>, b: seq<byte>) returns (same: bool)
    requires |a| == 16 && |b| == 16
    ensures same <==> a == b
  {
    var diff: byte := 0;
    var i := 0;
    while i < 16
      invariant 0 <= i <= 16
      invariant diff == 0 <==> a[..i] == b[..i]
    {
      DiffStep(diff, a[i], b[i]);
      diff := Or8(diff, Xor8(a[i], b[i]));
      assert a[..i + 1] == a[..i] + [a[i]] && b[..i + 1] == b[..i] + [b[i]];
      i := i + 1;
    }
    assert a[..16] == a && b[..16] == b;
    same := diff == 0;
  }

  lemma DiffStep(d: byte, x: byte, y: byte)
    ensures Or8(d, Xor8(x, y)) == 0 <==> d == 0 && x == y
  {
    hide BitOr, BitXor;
    XorIsZero(x, y);
    OrIsZero(d, Xor8(x, y));
  }

  /** hl_chacha20_poly1305_decrypt: nothing is written unless the tag matches. */
  method Decrypt(key: Key, nonce: Nonce, s: Sealed, out: array<byte>) returns (ok: bool)
    requires |s.tag| == 16 && |s.ct| <= out.Length
    modifies out
    ensures ok <==> Open(key, nonce, s).Some?
    ensures ok ==> out[..] == Open(key, nonce, s).value + old(out[|s.ct|..])
    ensures !ok ==> out[..] == old(out[..])
  {
    hide XorStream, MacOf, Block;
    var otk := BlockInto(key, nonce, 0);
    var computed := ComputeTag(otk[..32], [], s.ct);
    ok := SameTag(computed, s.tag);
    assert s.ct == [] ==> XorStream(key, nonce, 1, s.ct) == [];
    if ok && |s.ct| > 0 {
      XorInto(key, nonce, 1, s.ct, out, 0);
    }
  }
}
