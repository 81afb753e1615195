/** HOPE transport over RC4 (hope.c:896-940 and 1169-1264): in-stream key rotation and
    incremental decryption of partial reads. The negotiated MAC with its session key is a
    parameter, an arbitrary function from keys to keys. */
module HopeTransport {
  import opened Bits
  import opened Rc4

  type Mac = CipherKey -> CipherKey
  datatype Keystream = Keystream(rc4: Rc4State, key: CipherKey)
  datatype Phase = Header | BodyPrefix | BodyRest

  /** What the decryptor remembers between calls. `rest` is 0 outside BodyRest, where the
      counter of the program is stale. */
  datatype Core = Core(ks: Keystream, phase: Phase, bodyLen: nat, rest: nat, rotation: byte) {
    predicate Valid() {
      (phase.BodyPrefix? ==> bodyLen > 0) && (phase.BodyRest? <==> rest > 0)
    }
  }

  const HEADER: nat := 20

  // ----- key rotation

  function Rotate(mac: Mac, ks: Keystream): Keystream {
    Keystream(Keyed(mac(ks.key)), mac(ks.key))
  }

  function RotateTimes(mac: Mac, ks: Keystream, n: nat): Keystream {
    if n == 0 then ks else Rotate(mac, RotateTimes(mac, ks, n - 1))
  }

  /** The key after n rotations. */
  function KeyAfter(mac: Mac, key: CipherKey, n: nat): CipherKey
    decreases n
  {
    if n == 0 then key else KeyAfter(mac, mac(key), n - 1)
  }

  /** After any rotation the cipher starts afresh, keyed with the new key. */
  lemma {:induction false} RotatedIsKeyed(mac: Mac, ks: Keystream, n: nat)
    ensures RotateTimes(mac, ks, n)
         == if n == 0 then ks else Keystream(Keyed(KeyAfter(mac, ks.key, n)), KeyAfter(mac, ks.key, n))
    decreases n
  {
    hide Keyed;
    if n != 0 {
      RotatedIsKeyed(mac, ks, n - 1);
      KeyAfterStep(mac, ks.key, n - 1);
    }
  }

  lemma {:induction false} KeyAfterStep(mac: Mac, key: CipherKey, n: nat)
    ensures KeyAfter(mac, key, n + 1) == mac(KeyAfter(mac, key, n))
    decreases n
  {
    if n != 0 {
      KeyAfterStep(mac, mac(key), n - 1);
    }
  }

  function Skip(ks: Keystream, n: nat): Keystream { ks.(rc4 := After(ks.rc4, n)) }

  function Min(a: nat, b: nat): nat { if a < b then a else b }

  // ----- one turn of the decryption loop, on the bytes not yet decrypted

  predicate CanStep(c: Core, avail: nat) {
    avail > 0 &&
    match c.phase
    case Header => avail >= HEADER
    case BodyPrefix => avail >= Min(2, c.bodyLen)
    case BodyRest => true
  }

  function StepLen(c: Core, avail: nat): nat {
    match c.phase
    case Header => HEADER
    case BodyPrefix => Min(2, c.bodyLen)
    case BodyRest => Min(c.rest, avail)
  }

  function StepPlain(c: Core, enc: seq<byte>): (p: seq<byte>)
    requires CanStep(c, |enc|)
    ensures |p| == StepLen(c, |enc|)
  {
    var p := Crypt(c.ks.rc4, enc[..StepLen(c, |enc|)]);
    if c.phase.Header? then p[0 := 0] else p
  }

  function StepCore(mac: Mac, c: Core, enc: seq<byte>): Core
    requires CanStep(c, |enc|)
  {
    var n := StepLen(c, |enc|);
    var ks := Skip(c.ks, n);
    match c.phase
    case Header =>
      var p := Crypt(c.ks.rc4, enc[..n]);
      var body := BeNum(p[16..20]);
      if body == 0 then Core(RotateTimes(mac, ks, p[0]), Header, body, 0, p[0])
      else Core(ks, BodyPrefix, body, 0, p[0])
    case BodyPrefix =>
      var ks := RotateTimes(mac, ks, c.rotation);
      if c.bodyLen <= 2 then c.(ks := ks, phase := Header, rest := 0)
      else c.(ks := ks, phase := BodyRest, rest := c.bodyLen - 2)
    case BodyRest =>
      if c.rest <= |enc| then c.(ks := ks, phase := Header, rest := 0)
      else c.(ks := ks, rest := c.rest - |enc|)
  }

  lemma RestIs(mac: Mac, c: Core, enc: seq<byte>)
    requires c.phase.BodyRest? && c.rest > 0 && |enc| > 0
    ensures CanStep(c, |enc|)
    ensures |enc| < c.rest ==>
      && StepLen(c, |enc|) == |enc| && StepPlain(c, enc) == Crypt(c.ks.rc4, enc)
      && StepCore(mac, c, enc) == c.(ks := Skip(c.ks, |enc|), rest := c.rest - |enc|)
    ensures |enc| >= c.rest ==>
      && StepLen(c, |enc|) == c.rest && StepPlain(c, enc) == Crypt(c.ks.rc4, enc[..c.rest])
      && StepCore(mac, c, enc) == c.(ks := Skip(c.ks, c.rest), phase := Header, rest := 0)
  {
    hide Crypt, After;
    assert enc[..|enc|] == enc;
  }

  datatype Pumped = Pumped(core: Core, plain: seq<byte>)

  /** The whole loop: everything that can be decrypted of enc, from its start. */
  function Pump(mac: Mac, c: Core, enc: seq<byte>): (r: Pumped)
    requires c.Valid()
    ensures r.core.Valid() && |r.plain| <= |enc|
    ensures !CanStep(r.core, |enc| - |r.plain|)
    decreases |enc|
  {
    if !CanStep(c, |enc|) then Pumped(c, [])
    else
      var r := Pump(mac, StepCore(mac, c, enc), enc[StepLen(c, |enc|)..]);
      Pumped(r.core, StepPlain(c, enc) + r.plain)
  }

  lemma PumpStep(mac: Mac, c: Core, enc: seq<byte>, c': Core, plain: seq<byte>, more: seq<byte>)
    requires c.Valid() && CanStep(c, |enc|)
    requires StepCore(mac, c, enc) == c' && StepPlain(c, enc) == plain && enc[StepLen(c, |enc|)..] == more
    ensures c'.Valid()
    ensures Pump(mac, c, enc) == Pumped(Pump(mac, c', more).core, plain + Pump(mac, c', more).plain)
  {
  }

  // ----- chunk independence

  /** Decrypting what has arrived, and later the rest, is decrypting all of it at once. */
  lemma {:induction false} PumpInChunks(mac: Mac, c: Core, a: seq<byte>, b: seq<byte>)
    requires c.Valid()
    ensures var r := Pump(mac, c, a);
            var s := Pump(mac, r.core, a[|r.plain|..] + b);
            Pump(mac, c, a + b) == Pumped(s.core, r.plain + s.plain)
    decreases |a|
  {
    hide Crypt, After, RotateTimes, Pump, StepCore, StepPlain;
    PumpStuck(mac, c, a);
    if !CanStep(c, |a|) {
      assert a[0..] + b == a + b;
    } else if c.phase.BodyRest? && c.rest > |a| {
      SplitRest(mac, c, a, b);
    } else {
      var n := StepLen(c, |a|);
      assert (a + b)[..n] == a[..n] && (a + b)[n..] == a[n..] + b;
      SameStep(mac, c, a, b);
      var next := StepCore(mac, c, a);
      PumpStep(mac, c, a, next, StepPlain(c, a), a[n..]);
      PumpStep(mac, c, a + b, next, StepPlain(c, a), a[n..] + b);
      PumpInChunks(mac, next, a[n..], b);
      var r := Pump(mac, next, a[n..]);
      assert a[n..][|r.plain|..] == a[n + |r.plain|..];
    }
  }

  lemma PumpStuck(mac: Mac, c: Core, a: seq<byte>)
    requires c.Valid()
    ensures !CanStep(c, |a|) ==> Pump(mac, c, a) == Pumped(c, [])
  {
  }

  // A turn that does not exhaust the input is not affected by what follows.
  lemma SameStep(mac: Mac, c: Core, a: seq<byte>, b: seq<byte>)
    requires c.Valid() && CanStep(c, |a|) && (c.phase.BodyRest? ==> c.rest <= |a|)
    ensures CanStep(c, |a + b|) && StepLen(c, |a + b|) == StepLen(c, |a|)
    ensures StepPlain(c, a + b) == StepPlain(c, a) && StepCore(mac, c, a + b) == StepCore(mac, c, a)
  {
    hide Crypt, After, RotateTimes;
    var n := StepLen(c, |a|);
    assert (a + b)[..n] == a[..n];
  }

  // A body that arrives in two parts is decrypted in two parts.
  lemma SplitRest(mac: Mac, c: Core, a: seq<byte>, b: seq<byte>)
    requires c.Valid() && c.phase.BodyRest? && 0 < |a| < c.rest
    ensures var r := Pump(mac, c, a);
            var s := Pump(mac, r.core, a[|r.plain|..] + b);
            Pump(mac, c, a + b) == Pumped(s.core, r.plain + s.plain)
  {
    hide Crypt, After, Pump;
    var mid := StepCore(mac, c, a);
    assert a[..|a|] == a && a[|a|..] == [] && [] + b == b;
    PumpStep(mac, c, a, mid, StepPlain(c, a), []);
    PumpStuck(mac, mid, []);
    if b == [] {
      assert a + b == a;
    } else {
      var k := Min(mid.rest, |b|);
      assert (a + b)[..|a| + k] == a + b[..k];
      assert (a + b)[|a| + k..] == b[k..];
      CryptConcat(c.ks.rc4, a, b[..k]);
      PumpStep(mac, mid, b, StepCore(mac, mid, b), StepPlain(mid, b), b[k..]);
      PumpStep(mac, c, a + b, StepCore(mac, mid, b), StepPlain(c, a) + StepPlain(mid, b), b[k..]);
    }
  }

  // ----- the sender

  datatype Sent = Sent(ks: Keystream, wire: seq<byte>)

  /** A peer encrypts the header, two bytes of body, rotates as often as the first header
      byte says, and encrypts the rest. */
  function Send(mac: Mac, ks: Keystream, msg: seq<byte>): (s: Sent)
    requires |msg| >= HEADER
    ensures |s.wire| == |msg|
  {
    var body := msg[HEADER..];
    var n := Min(2, |body|);
    var ks1 := Skip(ks, HEADER);
    var ks2 := RotateTimes(mac, Skip(ks1, n), msg[0]);
    Sent(Skip(ks2, |body| - n),
         Crypt(ks.rc4, msg[..HEADER]) + Crypt(ks1.rc4, body[..n]) + Crypt(ks2.rc4, body[n..]))
  }

  function SendAll(mac: Mac, ks: Keystream, msgs: seq<seq<byte>>): (s: Sent)
    requires forall i :: 0 <= i < |msgs| ==> |msgs[i]| >= HEADER
    decreases |msgs|
  {
    if msgs == [] then Sent(ks, [])
    else
      var first := Send(mac, ks, msgs[0]);
      var more := SendAll(mac, first.ks, msgs[1..]);
      Sent(more.ks, first.wire + more.wire)
  }

  /** A message that does not ask for rotation is encrypted as one run of the cipher. */
  lemma SendWithoutRotation(mac: Mac, ks: Keystream, msg: seq<byte>)
    requires |msg| >= HEADER && msg[0] == 0
    ensures Send(mac, ks, msg) == Sent(Skip(ks, |msg|), Crypt(ks.rc4, msg))
  {
    hide Crypt, After;
    var body := msg[HEADER..];
    var n := Min(2, |body|);
    assert RotateTimes(mac, Skip(Skip(ks, HEADER), n), 0) == Skip(Skip(ks, HEADER), n);
    CryptConcat(ks.rc4, msg[..HEADER], body);
    CryptConcat(After(ks.rc4, HEADER), body[..n], body[n..]);
    assert msg[..HEADER] + body == msg && body[..n] + body[n..] == body;
    assert Crypt(ks.rc4, msg[..HEADER]) + Crypt(After(ks.rc4, HEADER), body[..n] + body[n..])
        == Crypt(ks.rc4, msg[..HEADER]) + Crypt(After(ks.rc4, HEADER), body[..n])
           + Crypt(After(After(ks.rc4, HEADER), n), body[n..]);
  }

  /** Which key byte encrypts which byte: the running cipher up to two bytes behind the
      header, then, if the message rotates, a cipher keyed with the rotated key, from its start. */
  lemma SentByte(mac: Mac, ks: Keystream, msg: seq<byte>, i: nat)
    requires HEADER <= |msg| && i < |msg|
    ensures var n := msg[0];
            Send(mac, ks, msg).wire[i]
            == Xor8(msg[i], if n == 0 || i < 22 then KeyByte(ks.rc4, i)
                            else KeyByte(Keyed(KeyAfter(mac, ks.key, n)), i - 22))
  {
    hide Xor8, KeyByte, RotateTimes, Keyed;
    var body := msg[HEADER..];
    var n := Min(2, |body|);
    var ks1 := Skip(ks, HEADER);
    RotatedIsKeyed(mac, Skip(ks1, n), msg[0]);
    LaterKeyByte(ks.rc4, HEADER, if i < HEADER then 0 else i - HEADER);
    LaterKeyByte(After(ks.rc4, HEADER), 2, if i < 22 then 0 else i - 22);
    LaterKeyByte(ks.rc4, HEADER, if i < 22 then 0 else i - 22 + 2);
  }

  /** The running cipher after a message of this length, or, if it rotates, the cipher of the
      rotated key after the bytes behind the first two of the body. */
  function AfterMessage(mac: Mac, ks: Keystream, len: nat, times: byte): Keystream {
    if times == 0 then Keystream(After(ks.rc4, len), ks.key)
    else
      var key := KeyAfter(mac, ks.key, times);
      Keystream(After(Keyed(key), if len < 22 then 0 else len - 22), key)
  }

  /** What the sender goes on with. */
  lemma SentState(mac: Mac, ks: Keystream, msg: seq<byte>)
    requires HEADER <= |msg|
    ensures Send(mac, ks, msg).ks == AfterMessage(mac, ks, |msg|, msg[0])
  {
    hide RotateTimes, Skip, Crypt, AfterMessage;
    AfterMessageIs(mac, ks, |msg|, Min(2, |msg| - HEADER), msg[0]);
  }

  lemma AfterMessageIs(mac: Mac, ks: Keystream, len: nat, n: nat, times: byte)
    requires HEADER <= len && n == Min(2, len - HEADER)
    ensures Skip(RotateTimes(mac, Skip(Skip(ks, HEADER), n), times), len - HEADER - n) == AfterMessage(mac, ks, len, times)
  {
    hide RotateTimes, Keyed, After, KeyAfter;
    RotatedIsKeyed(mac, Skip(Skip(ks, HEADER), n), times);
    AfterAdd(ks.rc4, HEADER, n);
    AfterAdd(ks.rc4, HEADER + n, len - HEADER - n);
  }

  lemma LaterKeyByte(st: Rc4State, n: nat, i: nat)
    ensures KeyByte(After(st, n), i) == KeyByte(st, n + i)
  {
    hide After, Output;
    AfterAdd(st, n, i + 1);
  }

  // ----- a receiver in step with the sender recovers the messages

  /** A framed message: the length at bytes 16..20 counts what follows the header. */
  predicate Framed(msg: seq<byte>) {
    |msg| >= HEADER && BeNum(msg[16..20]) == |msg| - HEADER
  }

  predicate AllFramed(msgs: seq<seq<byte>>) {
    forall i :: 0 <= i < |msgs| ==> |msgs[i]| >= HEADER && Framed(msgs[i])
  }

  function Cleared(msg: seq<byte>): (c: seq<byte>)
    requires |msg| > 0
    ensures |c| == |msg|
  {
    msg[0 := 0]
  }

  predicate InStep(c: Core, ks: Keystream) {
    c.Valid() && c.phase.Header? && c.ks == ks
  }

  lemma PumpMessage(mac: Mac, c: Core, msg: seq<byte>, more: seq<byte>)
    requires Framed(msg) && c.Valid() && c.phase.Header?
    ensures var s := Send(mac, c.ks, msg);
            var c' := Core(s.ks, Header, |msg| - HEADER, 0, msg[0]);
            var r := Pump(mac, c', more);
            Pump(mac, c, s.wire + more) == Pumped(r.core, Cleared(msg) + r.plain)
  {
    hide Crypt, After, RotateTimes, BeNum, Pump;
    var body := msg[HEADER..];
    var n := Min(2, |body|);
    var ks1 := Skip(c.ks, HEADER);
    var ks2 := RotateTimes(mac, Skip(ks1, n), msg[0]);
    var w0, w1, w2 := Crypt(c.ks.rc4, msg[..HEADER]), Crypt(ks1.rc4, body[..n]), Crypt(ks2.rc4, body[n..]);
    var s := Send(mac, c.ks, msg);
    assert s.wire + more == w0 + (w1 + w2 + more);
    var c1 := Core(if |body| == 0 then ks2 else ks1, if |body| == 0 then Header else BodyPrefix, |body|, 0, msg[0]);
    PumpHeader(mac, c, msg, w1 + w2 + more);
    if |body| == 0 {
      assert w1 + w2 + more == more;
      assert Skip(ks2, 0) == ks2 by { AfterNone(ks2.rc4); }
      assert Skip(ks1, 0) == ks1 by { AfterNone(ks1.rc4); }
      assert Cleared(msg) == msg[..HEADER][0 := 0];
    } else {
      PumpPrefix(mac, c1, body[..n], w2 + more);
      assert w1 + w2 + more == w1 + (w2 + more);
      if |body| <= 2 {
        assert w2 + more == more;
        assert Skip(ks2, 0) == ks2 by { AfterNone(ks2.rc4); }
        assert Cleared(msg) == msg[..HEADER][0 := 0] + body[..n];
      } else {
        var c2 := Core(ks2, BodyRest, |body|, |body| - 2, msg[0]);
        PumpRest(mac, c2, body[n..], more);
        assert Cleared(msg) == msg[..HEADER][0 := 0] + (body[..n] + body[n..]);
      }
      assert forall r: seq<byte> :: msg[..HEADER][0 := 0] + (body[..n] + r) == msg[..HEADER][0 := 0] + body[..n] + r;
    }
  }

  lemma AfterNone(st: Rc4State)
    ensures After(st, 0) == st
  {
  }

  lemma PumpHeader(mac: Mac, c: Core, msg: seq<byte>, more: seq<byte>)
    requires Framed(msg) && c.Valid() && c.phase.Header?
    ensures var body := |msg| - HEADER;
            var ks1 := Skip(c.ks, HEADER);
            var c1 := if body == 0 then Core(RotateTimes(mac, ks1, msg[0]), Header, body, 0, msg[0])
                      else Core(ks1, BodyPrefix, body, 0, msg[0]);
            var r := Pump(mac, c1, more);
            Pump(mac, c, Crypt(c.ks.rc4, msg[..HEADER]) + more) == Pumped(r.core, msg[..HEADER][0 := 0] + r.plain)
  {
    hide Crypt, After, RotateTimes, BeNum, Pump;
    var w := Crypt(c.ks.rc4, msg[..HEADER]);
    var enc := w + more;
    assert enc[..HEADER] == w && enc[HEADER..] == more;
    CryptTwice(c.ks.rc4, msg[..HEADER]);
    assert msg[..HEADER][16..20] == msg[16..20];
    PumpStep(mac, c, enc, StepCore(mac, c, enc), msg[..HEADER][0 := 0], more);
  }

  lemma PumpPrefix(mac: Mac, c: Core, pre: seq<byte>, more: seq<byte>)
    requires c.Valid() && c.phase.BodyPrefix? && |pre| == Min(2, c.bodyLen)
    ensures var ks2 := RotateTimes(mac, Skip(c.ks, |pre|), c.rotation);
            var c2 := if c.bodyLen <= 2 then Core(ks2, Header, c.bodyLen, 0, c.rotation)
                      else Core(ks2, BodyRest, c.bodyLen, c.bodyLen - 2, c.rotation);
            var r := Pump(mac, c2, more);
            Pump(mac, c, Crypt(c.ks.rc4, pre) + more) == Pumped(r.core, pre + r.plain)
  {
    hide Crypt, After, RotateTimes, Pump;
    var w := Crypt(c.ks.rc4, pre);
    var enc := w + more;
    assert enc[..|pre|] == w && enc[|pre|..] == more;
    CryptTwice(c.ks.rc4, pre);
    PumpStep(mac, c, enc, StepCore(mac, c, enc), pre, more);
  }

  lemma PumpRest(mac: Mac, c: Core, rest: seq<byte>, more: seq<byte>)
    requires c.Valid() && c.phase.BodyRest? && |rest| == c.rest
    ensures var c3 := Core(Skip(c.ks, |rest|), Header, c.bodyLen, 0, c.rotation);
            var r := Pump(mac, c3, more);
            Pump(mac, c, Crypt(c.ks.rc4, rest) + more) == Pumped(r.core, rest + r.plain)
  {
    hide Crypt, After, Pump;
    var w := Crypt(c.ks.rc4, rest);
    var enc := w + more;
    assert enc[..|rest|] == w && enc[|rest|..] == more;
    CryptTwice(c.ks.rc4, rest);
    PumpStep(mac, c, enc, StepCore(mac, c, enc), rest, more);
  }

  function ClearAll(ms: seq<seq<byte>>): (r: seq<seq<byte>>)
    requires forall i :: 0 <= i < |ms| ==> |ms[i]| > 0
    ensures |r| == |ms|
    ensures forall i :: 0 <= i < |ms| ==> r[i] == Cleared(ms[i])
  {
    seq(|ms|, i requires 0 <= i < |ms| => Cleared(ms[i]))
  }

  /** A receiver in step decrypts a whole run of messages, whatever rotations they ask for,
      and is in step again at the end. */
  lemma {:induction false} PumpAll(mac: Mac, c: Core, msgs: seq<seq<byte>>)
    requires c.Valid() && c.phase.Header?
    requires AllFramed(msgs)
    ensures var s := SendAll(mac, c.ks, msgs);
            var r := Pump(mac, c, s.wire);
            r.plain == Concat(ClearAll(msgs)) && InStep(r.core, s.ks)
    decreases |msgs|
  {
    hide Crypt, After, RotateTimes, BeNum;
    if msgs != [] {
      var msg := msgs[0];
      var first := Send(mac, c.ks, msg);
      var c' := Core(first.ks, Header, |msg| - HEADER, 0, msg[0]);
      PumpMessage(mac, c, msg, SendAll(mac, first.ks, msgs[1..]).wire);
      PumpAll(mac, c', msgs[1..]);
      assert ClearAll(msgs)[1..] == ClearAll(msgs[1..]);
    }
  }

  // ----- the code

  /** The receiving half of hl_hope_state_t. */
  class Decryptor {
    const mac: Mac
    const rc4: Cipher
    var key: CipherKey
    var phase: Phase
    var offset: nat         // bytes of the read buffer already decrypted
    var bodyLen: nat
    var restRemaining: nat
    var rotation: byte

    ghost predicate Valid()
      reads this
    {
      && rc4.Valid()
      && (phase.BodyPrefix? ==> bodyLen > 0)
      && (phase.BodyRest? ==> restRemaining > 0)
    }

    ghost function Keys(): Keystream
      requires Valid()
      reads this, rc4, rc4.s
    {
      Keystream(rc4.State(), key)
    }

    ghost function View(): (c: Core)
      requires Valid()
      reads this, rc4, rc4.s
      ensures c.Valid()
    {
      Core(Keys(), phase, bodyLen, if phase.BodyRest? then restRemaining else 0, rotation)
    }

    constructor (mac: Mac, key: CipherKey)
      ensures Valid() && fresh(rc4) && fresh(rc4.s) && offset == 0
      ensures this.mac == mac && InStep(View(), Keystream(Keyed(key), key))
    {
      this.mac, this.key := mac, key;
      rc4 := new Cipher(key);
      phase, offset, bodyLen, restRemaining, rotation := Header, 0, 0, 0, 0;
    }

    /** rotate_cipher_key, as often as the header asked for. */
    method RotateKey(times: byte)
      requires Valid()
      modifies this`key, rc4, rc4.s
      ensures Valid() && Keys() == RotateTimes(mac, old(Keys()), times)
      ensures key == KeyAfter(mac, old(key), times)
      ensures rc4.State() == if times == 0 then old(rc4.State()) else Keyed(key)
    {
      hide Keyed;
      RotatedIsKeyed(mac, Keys(), times);
      var r := 0;
      while r < times
        invariant 0 <= r <= times
        invariant Valid() && Keys() == RotateTimes(mac, old(Keys()), r)
      {
        key := mac(key);
        rc4.Init(key);
        r := r + 1;
      }
    }

    /** The next n bytes are decrypted in place and the boundary moves behind them. */
    method DecryptNext(buf: array<byte>, n: nat)
      requires Valid() && buf != rc4.s && offset + n <= buf.Length
      modifies this`offset, rc4, rc4.s, buf
      ensures Valid() && Keys() == Skip(old(Keys()), n) && offset == old(offset) + n
      ensures buf[..] == old(buf[..offset]) + Crypt(old(rc4.State()), old(buf[offset..offset + n])) + old(buf[..])[offset..]
    {
      hide Crypt, After;
      rc4.Process(buf, offset, n);
      offset := offset + n;
    }

    /** The turn of each phase: it decrypts its bytes in place, moves the boundary behind
        them and leaves the rest of the buffer alone. */
    method HeaderStep(buf: array<byte>, bufLen: nat)
      requires Valid() && buf != rc4.s && offset < bufLen <= buf.Length
      requires phase.Header? && CanStep(View(), bufLen - offset)
      modifies this, rc4, rc4.s, buf
      ensures Valid() && View() == StepCore(mac, old(View()), old(buf[offset..bufLen]))
      ensures offset == old(offset + StepLen(View(), bufLen - offset)) <= bufLen
      ensures buf[..] == old(buf[..offset]) + StepPlain(old(View()), old(buf[offset..bufLen])) + old(buf[..])[offset..]
    {
      hide Crypt, After, BeNum, RotateTimes, Keyed, KeyAfter;
      ghost var enc := buf[offset..bufLen];
      ghost var before := buf[..];
      assert buf[offset..offset + HEADER] == enc[..HEADER];
      rc4.Process(buf, offset, HEADER);
      ghost var p := Crypt(old(rc4.State()), enc[..HEADER]);
      assert buf[offset..offset + HEADER] == p;
      rotation := buf[offset];
      assert rotation == p[0];
      buf[offset] := 0;
      assert buf[offset + 16..offset + 20] == p[16..20];
      bodyLen := BeNum(buf[offset + 16..offset + 20]);
      offset := offset + HEADER;
      assert buf[..] == before[..old(offset)] + p[0 := 0] + before[offset..];
      AfterHeader();
    }

    /** Without a body the rotation comes at once, else after the first two bytes of it. */
    method AfterHeader()
      requires Valid() && phase.Header?
      modifies this`key, this`phase, rc4, rc4.s
      ensures Valid()
      ensures View() == if bodyLen == 0 then Core(RotateTimes(mac, old(Keys()), rotation), Header, bodyLen, 0, rotation)
                        else Core(old(Keys()), BodyPrefix, bodyLen, 0, rotation)
    {
      hide RotateTimes, Keyed, KeyAfter;
      if bodyLen == 0 {
        RotateKey(rotation);
        phase := Header;
      } else {
        phase := BodyPrefix;
      }
    }

    method PrefixStep(buf: array<byte>, bufLen: nat)
      requires Valid() && buf != rc4.s && offset < bufLen <= buf.Length
      requires phase.BodyPrefix? && CanStep(View(), bufLen - offset)
      modifies this, rc4, rc4.s, buf
      ensures Valid() && View() == StepCore(mac, old(View()), old(buf[offset..bufLen]))
      ensures offset == old(offset + StepLen(View(), bufLen - offset)) <= bufLen
      ensures buf[..] == old(buf[..offset]) + StepPlain(old(View()), old(buf[offset..bufLen])) + old(buf[..])[offset..]
    {
      hide Crypt, After, RotateTimes, Keyed, KeyAfter;
      var n := if bodyLen < 2 then bodyLen else 2;
      assert buf[offset..offset + n] == buf[offset..bufLen][..n];
      DecryptNext(buf, n);
      RotateKey(rotation);
      if bodyLen <= 2 {
        phase := Header;
      } else {
        restRemaining := bodyLen - 2;
        phase := BodyRest;
      }
    }

    method RestStep(buf: array<byte>, bufLen: nat)
      requires Valid() && buf != rc4.s && offset < bufLen <= buf.Length
      requires phase.BodyRest? && CanStep(View(), bufLen - offset)
      modifies this, rc4, rc4.s, buf
      ensures Valid() && View() == StepCore(mac, old(View()), old(buf[offset..bufLen]))
      ensures offset == old(offset + StepLen(View(), bufLen - offset)) <= bufLen
      ensures buf[..] == old(buf[..offset]) + StepPlain(old(View()), old(buf[offset..bufLen])) + old(buf[..])[offset..]
    {
      hide Crypt, After, StepCore, StepPlain, StepLen, CanStep;
      var avail := bufLen - offset;
      RestIs(mac, View(), buf[offset..bufLen]);
      if avail < restRemaining {
        assert buf[offset..offset + avail] == buf[offset..bufLen];
        DecryptNext(buf, avail);
        restRemaining := restRemaining - avail;
      } else {
        var n := restRemaining;
        assert buf[offset..offset + n] == buf[offset..bufLen][..n];
        DecryptNext(buf, n);
        phase := Header;
      }
    }

    /** hl_hope_decrypt_incremental: buf[..bufLen] holds plaintext up to `offset` before and
        after; the bytes in between are decrypted as far as the phase allows. */
    method DecryptIncremental(buf: array<byte>, bufLen: nat)
      requires Valid() && buf != rc4.s && offset <= bufLen <= buf.Length
      modifies this, rc4, rc4.s, buf
      ensures Valid()
      ensures var r := Pump(mac, old(View()), old(buf[offset..bufLen]));
              && View() == r.core && offset == old(offset) + |r.plain| <= bufLen
              && buf[..] == old(buf[..offset]) + r.plain + old(buf[..])[offset..]
    {
      hide StepCore, StepPlain, CanStep, Pump;
      ghost var c0, off0, before := View(), offset, buf[..];
      ghost var all := Pump(mac, c0, before[off0..bufLen]);
      ghost var done: seq<byte> := [];
      PumpStuck(mac, c0, before[off0..bufLen]);
      while offset < bufLen && Ready(bufLen - offset)
        invariant Valid() && off0 <= offset <= bufLen
        invariant buf[..] == before[..off0] + done + before[offset..] && |done| == offset - off0
        invariant all == Prepend(done, Pump(mac, View(), before[offset..bufLen]))
        decreases bufLen - offset
      {
        ghost var c, off := View(), offset;
        ghost var enc := before[offset..bufLen];
        assert buf[offset..bufLen] == enc;
        StepForward(c, |enc|);
        ghost var plain := StepPlain(c, enc);
        TakeStep(buf, bufLen);
        Splice(before, off0, done, off, plain, offset, buf[..]);
        assert enc[offset - off..] == before[offset..bufLen];
        PumpStep(mac, c, enc, View(), plain, before[offset..bufLen]);
        PrependTwice(done, plain, Pump(mac, View(), before[offset..bufLen]));
        done := done + plain;
      }
      NoBytes(View());
      PumpStuck(mac, View(), before[offset..bufLen]);
      assert done + [] == done;
    }

    method TakeStep(buf: array<byte>, bufLen: nat)
      requires Valid() && buf != rc4.s && offset < bufLen <= buf.Length
      requires CanStep(View(), bufLen - offset)
      modifies this, rc4, rc4.s, buf
      ensures Valid() && View() == StepCore(mac, old(View()), old(buf[offset..bufLen]))
      ensures offset == old(offset + StepLen(View(), bufLen - offset)) <= bufLen
      ensures buf[..] == old(buf[..offset]) + StepPlain(old(View()), old(buf[offset..bufLen])) + old(buf[..])[offset..]
    {
      match phase {
        case Header => HeaderStep(buf, bufLen);
        case BodyPrefix => PrefixStep(buf, bufLen);
        case BodyRest => RestStep(buf, bufLen);
      }
    }

    /** Whether the current phase has the bytes it waits for. */
    predicate Ready(avail: nat)
      requires Valid()
      reads this, rc4, rc4.s
      ensures avail > 0 ==> (Ready(avail) <==> CanStep(View(), avail))
    {
      match phase
      case Header => avail >= HEADER
      case BodyPrefix => avail >= (if bodyLen < 2 then bodyLen else 2)
      case BodyRest => true
    }
  }

  /** The first n bytes of orig have been encrypted, starting from st. */
  ghost predicate Encrypted(rc4: Cipher, buf: array<byte>, st: Rc4State, orig: seq<byte>, n: nat)
    reads rc4, rc4.s, buf
  {
    && rc4.Valid() && n <= |orig|
    && buf[..] == Crypt(st, orig[..n]) + orig[n..]
    && rc4.State() == After(st, n)
  }

  method EncryptNext(rc4: Cipher, buf: array<byte>, at: nat, n: nat, ghost st: Rc4State, ghost orig: seq<byte>)
    requires Encrypted(rc4, buf, st, orig, at) && buf != rc4.s && at + n <= buf.Length
    modifies rc4, rc4.s, buf
    ensures Encrypted(rc4, buf, st, orig, at + n)
  {
    hide Crypt, After;
    ghost var before := buf[..];
    EncryptSplice(st, orig, at, n);
    assert buf[at..at + n] == before[at..at + n] && buf[..at] == before[..at] && buf[at + n..] == before[at + n..];
    rc4.Process(buf, at, n);
  }

  lemma EncryptSplice(st: Rc4State, orig: seq<byte>, at: nat, n: nat)
    requires at + n <= |orig|
    ensures var before := Crypt(st, orig[..at]) + orig[at..];
            && |before| == |orig| && before[at..at + n] == orig[at..at + n]
            && before[..at] + Crypt(After(st, at), before[at..at + n]) + before[at + n..] == Crypt(st, orig[..at + n]) + orig[at + n..]
            && After(After(st, at), n) == After(st, at + n)
  {
    hide Crypt, After;
    var before := Crypt(st, orig[..at]) + orig[at..];
    assert before[at..at + n] == orig[at..at + n] && before[at + n..] == orig[at + n..];
    CryptConcat(st, orig[..at], orig[at..at + n]);
    assert orig[..at] + orig[at..at + n] == orig[..at + n];
    AfterAdd(st, at, n);
  }

  /** hl_hope_encrypt_transaction: header, two body bytes and the rest, never rotating. */
  method EncryptTransaction(rc4: Cipher, buf: array<byte>, len: nat)
    requires rc4.Valid() && buf != rc4.s && len <= buf.Length
    modifies rc4, rc4.s, buf
    ensures len < HEADER ==> buf[..] == old(buf[..]) && rc4.State() == old(rc4.State())
    ensures len >= HEADER ==>
      && buf[..] == Crypt(old(rc4.State()), old(buf[..len])) + old(buf[len..])
      && rc4.State() == After(old(rc4.State()), len)
  {
    if len < HEADER {
      return;
    }
    ghost var st, orig := rc4.State(), buf[..];
    assert Encrypted(rc4, buf, st, orig, 0);
    hide Encrypted;
    EncryptNext(rc4, buf, 0, HEADER, st, orig);
    if len > HEADER {
      var bodyLen := len - HEADER;
      var first := if bodyLen < 2 then bodyLen else 2;
      EncryptNext(rc4, buf, HEADER, first, st, orig);
      if bodyLen > 2 {
        EncryptNext(rc4, buf, HEADER + 2, bodyLen - 2, st, orig);
      }
    }
    EncryptedMeans(rc4, buf, st, orig, len);
  }

  lemma EncryptedMeans(rc4: Cipher, buf: array<byte>, st: Rc4State, orig: seq<byte>, n: nat)
    requires Encrypted(rc4, buf, st, orig, n)
    ensures rc4.Valid() && n <= |orig|
    ensures buf[..] == Crypt(st, orig[..n]) + orig[n..] && rc4.State() == After(st, n)
  {
  }

  function Prepend(p: seq<byte>, r: Pumped): Pumped { Pumped(r.core, p + r.plain) }

  lemma PrependTwice(p: seq<byte>, q: seq<byte>, r: Pumped)
    ensures Prepend(p, Prepend(q, r)) == Prepend(p + q, r)
  {
    assert p + (q + r.plain) == (p + q) + r.plain;
  }

  lemma Splice(before: seq<byte>, off0: nat, done: seq<byte>, off: nat, plain: seq<byte>, next: nat, after: seq<byte>)
    requires off0 <= off <= next <= |before| && |done| == off - off0 && |plain| == next - off
    requires var buf := before[..off0] + done + before[off..];
             after == buf[..off] + plain + buf[next..]
    ensures after == before[..off0] + (done + plain) + before[next..]
  {
    var buf := before[..off0] + done + before[off..];
    assert buf[..off] == before[..off0] + done;
    assert buf[next..] == before[next..];
  }

  lemma NoBytes(c: Core)
    ensures !CanStep(c, 0)
  {
  }

  lemma StepForward(c: Core, avail: nat)
    requires c.Valid() && CanStep(c, avail)
    ensures 0 < StepLen(c, avail) <= avail
  {
  }
}
