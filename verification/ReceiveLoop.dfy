/** The receive loop for RC4 clients (server.c:545-570 and 678-789): append what was read,
    decrypt, scan, parse, shift. */
module ReceiveLoop {
  import opened Bits
  import opened Wrappers
  import opened HopeTransport
  import opened Transactions
  import opened Rc4

  // ----- the loop on values

  /** The read buffer: `plain` up to the decrypt offset, `enc` behind it. */
  datatype Buffer = Buffer(core: Core, plain: seq<byte>, enc: seq<byte>)

  datatype Drained = Drained(ts: seq<Transaction>, rest: seq<byte>, ok: bool)

  /** Scan and parse transactions off the front until one is incomplete or malformed. */
  function Drain(plain: seq<byte>): Drained
    decreases |plain|
  {
    var n := Scan(plain);
    if n == 0 then Drained([], plain, true)
    else
      var t := Decode(plain[..n]);
      if t.None? then Drained([], plain, false)
      else
        var d := Drain(plain[n..]);
        Drained([t.value] + d.ts, d.rest, d.ok)
  }

  datatype Received = Received(buffer: Buffer, ts: seq<Transaction>, ok: bool)

  function Receive(mac: Mac, b: Buffer, chunk: seq<byte>): Received
    requires b.core.Valid()
  {
    var p := Pump(mac, b.core, b.enc + chunk);
    var d := Drain(b.plain + p.plain);
    Received(Buffer(p.core, d.rest, (b.enc + chunk)[|p.plain|..]), d.ts, d.ok)
  }

  function ReceiveAll(mac: Mac, b: Buffer, chunks: seq<seq<byte>>): Received
    requires b.core.Valid()
    decreases |chunks|
  {
    if chunks == [] then Received(b, [], true)
    else
      var first := Receive(mac, b, chunks[0]);
      if !first.ok then first
      else
        var more := ReceiveAll(mac, first.buffer, chunks[1..]);
        Received(more.buffer, first.ts + more.ts, more.ok)
  }

  // ----- the traffic

  /** A transaction the receiver can take: it parses back and fits the read buffer. */
  predicate Acceptable(t: Transaction) {
    Sized(t) && |t.fields| <= MAX_FIELDS && |Encode(t)| <= BUF
  }

  predicate AllAcceptable(ts: seq<Transaction>) {
    forall i :: 0 <= i < |ts| ==> Acceptable(ts[i])
  }

  function Messages(ts: seq<Transaction>): (ms: seq<seq<byte>>)
    requires AllAcceptable(ts)
    ensures |ms| == |ts|
  {
    seq(|ts|, i requires 0 <= i < |ts| => Encode(ts[i]))
  }

  /** What is delivered: the transaction as the wire has it, its rotation count cleared. */
  function Delivered(t: Transaction): Transaction { Canonical(t).(flags := 0) }

  function DeliveredAll(ts: seq<Transaction>): (r: seq<Transaction>)
    ensures |r| == |ts|
  {
    seq(|ts|, i requires 0 <= i < |ts| => Delivered(ts[i]))
  }

  /** The plaintext stream the receiver sees. */
  function PlainStream(ts: seq<Transaction>): seq<byte>
    requires AllAcceptable(ts)
  {
    if ts == [] then [] else Encode(ts[0].(flags := 0)) + PlainStream(ts[1..])
  }

  lemma {:induction false} PlainStreamIs(ts: seq<Transaction>)
    requires AllAcceptable(ts)
    ensures AllFramed(Messages(ts))
    ensures Concat(ClearAll(Messages(ts))) == PlainStream(ts)
  {
    hide Encode;
    MessagesFramed(ts);
    if ts != [] {
      PlainStreamIs(ts[1..]);
      EncodeFlags(ts[0], 0);
      assert Messages(ts)[1..] == Messages(ts[1..]);
      assert ClearAll(Messages(ts))[1..] == ClearAll(Messages(ts)[1..]);
    }
  }

  lemma MessagesFramed(ts: seq<Transaction>)
    requires AllAcceptable(ts)
    ensures AllFramed(Messages(ts))
  {
    hide Encode, BeNum;
    forall i | 0 <= i < |ts|
      ensures |Messages(ts)[i]| >= HEADER && Framed(Messages(ts)[i])
    {
      HeaderIs(ts[i]);
    }
  }

  // ----- draining a prefix of the plaintext stream

  /** rest is a proper beginning of the first transaction of ts, or nothing when there is none. */
  predicate Waiting(rest: seq<byte>, ts: seq<Transaction>)
    requires AllAcceptable(ts)
  {
    if ts == [] then rest == []
    else rest <= Encode(ts[0].(flags := 0)) && rest != Encode(ts[0].(flags := 0))
  }

  lemma DrainOne(t: Transaction, q: seq<byte>)
    requires Acceptable(t) && Encode(t.(flags := 0)) <= q
    ensures var d := Drain(q[|Encode(t)|..]);
            Drain(q) == Drained([Delivered(t)] + d.ts, d.rest, d.ok)
  {
    hide Encode, Decode, Scan;
    var u := t.(flags := 0);
    EncodeFlags(t, 0);
    ScanEncoded(u, q);
    RoundTrip(u);
    assert q[..|Encode(u)|] == Encode(u);
  }

  lemma DrainNotYet(t: Transaction, q: seq<byte>)
    requires Acceptable(t) && q <= Encode(t.(flags := 0)) && q != Encode(t.(flags := 0))
    ensures Drain(q) == Drained([], q, true)
  {
    hide Encode, Decode, Scan;
    ScanEncoded(t.(flags := 0), q);
  }

  lemma StreamHead(ts: seq<Transaction>, k: nat)
    requires AllAcceptable(ts) && 0 < k <= |ts|
    ensures AllAcceptable(ts[1..]) && AllAcceptable(ts[..k]) && AllAcceptable(ts[1..][..k - 1])
    ensures ts[k..] == ts[1..][k - 1..]
    ensures PlainStream(ts[..k]) == Encode(ts[0].(flags := 0)) + PlainStream(ts[1..][..k - 1])
    ensures DeliveredAll(ts[..k]) == [Delivered(ts[0])] + DeliveredAll(ts[1..][..k - 1])
  {
    hide Encode, Canonical, Acceptable;
    assert ts[..k][1..] == ts[1..][..k - 1];
    assert ts[..k][0] == ts[0];
  }

  /** Draining any prefix of the stream yields exactly the transactions it completes. */
  lemma {:induction false} DrainPrefix(ts: seq<Transaction>, q: seq<byte>) returns (k: nat)
    requires AllAcceptable(ts) && q <= PlainStream(ts)
    ensures k <= |ts|
    ensures Drain(q).ok && Drain(q).ts == DeliveredAll(ts[..k])
    ensures Waiting(Drain(q).rest, ts[k..])
    ensures q == PlainStream(ts[..k]) + Drain(q).rest
    decreases |ts|
  {
    hide Encode, Drain, DeliveredAll, PlainStream;
    k := 0;
    assert ts[..0] == [] && ts[0..] == ts;
    DeliveredNone();
    StreamEnds(ts);
    if ts == [] {
      DrainNone();
    } else {
      var e := Encode(ts[0].(flags := 0));
      EncodeFlags(ts[0], 0);
      PrefixOfConcat(q, e, PlainStream(ts[1..]));
      if |e| <= |q| {
        DrainOne(ts[0], q);
        assert PlainStream(ts)[|e|..] == PlainStream(ts[1..]);
        var j := DrainPrefix(ts[1..], q[|e|..]);
        k := j + 1;
        StreamHead(ts, k);
        assert q == e + q[|e|..];
      } else {
        DrainNotYet(ts[0], q);
        assert [] + q == q;
      }
    }
  }

  lemma StreamEnds(ts: seq<Transaction>)
    requires AllAcceptable(ts)
    ensures PlainStream([]) == []
    ensures ts != [] ==> PlainStream(ts) == Encode(ts[0].(flags := 0)) + PlainStream(ts[1..])
  {
    hide Encode;
  }

  lemma DeliveredNone()
    ensures DeliveredAll([]) == []
  {
  }

  lemma DrainNone()
    ensures Drain([]) == Drained([], [], true)
  {
  }

  lemma PrefixOfConcat(q: seq<byte>, a: seq<byte>, b: seq<byte>)
    requires q <= a + b
    ensures |q| >= |a| ==> a <= q
    ensures |q| < |a| ==> q <= a
  {
    assert q == (a + b)[..|q|];
  }

  // ----- runs

  function Wire(mac: Mac, ks: Keystream, ts: seq<Transaction>): seq<byte>
    requires AllAcceptable(ts)
  {
    MessagesFramed(ts);
    SendAll(mac, ks, Messages(ts)).wire
  }

  /** After `received`, the first k transactions have been delivered and the buffer holds the rest. */
  ghost predicate Holds(mac: Mac, c: Core, ts: seq<Transaction>, received: seq<byte>, b: Buffer, k: nat) {
    && AllAcceptable(ts) && k <= |ts| && c.Valid() && b.core.Valid()
    && var p := Pump(mac, c, received);
       && p.core == b.core && b.enc == received[|p.plain|..]
       && p.plain == PlainStream(ts[..k]) + b.plain
       && Waiting(b.plain, ts[k..])
  }

  lemma {:induction false} StreamSplit(ts: seq<Transaction>, k: nat)
    requires AllAcceptable(ts) && k <= |ts|
    ensures PlainStream(ts) == PlainStream(ts[..k]) + PlainStream(ts[k..])
    decreases k
  {
    hide Encode, DeliveredAll;
    if k == 0 {
      assert ts[..0] == [] && ts[0..] == ts;
    } else {
      StreamSplit(ts[1..], k - 1);
      StreamHead(ts, k);
    }
  }

  lemma {:induction false} WireLength(mac: Mac, ks: Keystream, msgs: seq<seq<byte>>)
    requires AllFramed(msgs)
    ensures |SendAll(mac, ks, msgs).wire| == |Concat(ClearAll(msgs))|
    decreases |msgs|
  {
    hide Send, Framed;
    if msgs != [] {
      WireLength(mac, Send(mac, ks, msgs[0]).ks, msgs[1..]);
      assert ClearAll(msgs)[1..] == ClearAll(msgs[1..]);
    }
  }

  /** Decrypting the whole wire yields the whole plaintext stream and uses every byte. */
  lemma PumpWire(mac: Mac, c: Core, ts: seq<Transaction>)
    requires AllAcceptable(ts) && c.Valid() && c.phase.Header?
    ensures Pump(mac, c, Wire(mac, c.ks, ts)).plain == PlainStream(ts)
    ensures |Wire(mac, c.ks, ts)| == |PlainStream(ts)|
  {
    hide Pump, SendAll, PlainStream, Messages, Concat;
    PlainStreamIs(ts);
    PumpAll(mac, c, Messages(ts));
    WireLength(mac, c.ks, Messages(ts));
  }

  /** What has been decrypted of a prefix of the wire is a prefix of the stream. */
  lemma PumpPrefix(mac: Mac, c: Core, ts: seq<Transaction>, received: seq<byte>)
    requires AllAcceptable(ts) && c.Valid() && c.phase.Header?
    requires received <= Wire(mac, c.ks, ts)
    ensures Pump(mac, c, received).plain <= PlainStream(ts)
  {
    hide Pump, PlainStream, Wire;
    var w := Wire(mac, c.ks, ts);
    PumpWire(mac, c, ts);
    PumpInChunks(mac, c, received, w[|received|..]);
    assert received + w[|received|..] == w;
  }

  lemma ReceiveStep(mac: Mac, c: Core, ts: seq<Transaction>, received: seq<byte>, b: Buffer, k: nat, chunk: seq<byte>)
    returns (k': nat)
    requires Holds(mac, c, ts, received, b, k) && c.phase.Header?
    requires received + chunk <= Wire(mac, c.ks, ts)
    ensures k <= k' <= |ts|
    ensures var r := Receive(mac, b, chunk);
            r.ok && r.ts == DeliveredAll(ts[k..k']) && Holds(mac, c, ts, received + chunk, r.buffer, k')
  {
    hide Pump, PlainStream, Wire, Drain, DeliveredAll, Waiting;
    PumpPrefix(mac, c, ts, received + chunk);
    PumpInChunks(mac, c, received, chunk);
    var p := Pump(mac, c, received);
    var s := Pump(mac, b.core, b.enc + chunk);
    var q := b.plain + s.plain;
    assert p.plain + s.plain == PlainStream(ts[..k]) + q;
    StreamSplit(ts, k);
    DropPrefix(PlainStream(ts[..k]), q, PlainStream(ts[k..]));
    var j := DrainPrefix(ts[k..], q);
    k' := k + j;
    assert ts[k..][..j] == ts[k..k'] && ts[k..][j..] == ts[k'..];
    StreamSplit(ts[..k'], k);
    assert ts[..k'][..k] == ts[..k] && ts[..k'][k..] == ts[k..k'];
    var d := Drain(q);
    assert PlainStream(ts[..k]) + (PlainStream(ts[k..k']) + d.rest) == PlainStream(ts[..k']) + d.rest;
    assert (received + chunk)[|p.plain + s.plain|..] == (b.enc + chunk)[|s.plain|..];
  }

  lemma DropPrefix(a: seq<byte>, q: seq<byte>, b: seq<byte>)
    requires a + q <= a + b
    ensures q <= b
  {
    assert (a + q)[|a|..] == q && (a + b)[|a|..] == b;
    assert |q| <= |b|;
    assert q == (a + b)[|a|..|a| + |q|] == b[..|q|];
  }

  lemma {:induction false} ReceiveRun(mac: Mac, c: Core, ts: seq<Transaction>, received: seq<byte>, b: Buffer, k: nat,
                                      chunks: seq<seq<byte>>) returns (k': nat)
    requires Holds(mac, c, ts, received, b, k) && c.phase.Header?
    requires received + Concat(chunks) <= Wire(mac, c.ks, ts)
    ensures k <= k' <= |ts|
    ensures var r := ReceiveAll(mac, b, chunks);
            && r.ok && r.ts == DeliveredAll(ts[k..k'])
            && Holds(mac, c, ts, received + Concat(chunks), r.buffer, k')
    decreases |chunks|
  {
    hide Wire, DeliveredAll, Receive, Holds;
    HoldsValid(mac, c, ts, received, b, k);
    if chunks == [] {
      k' := k;
      assert received + [] == received && ts[k..k] == [];
      DeliveredNone();
    } else {
      var w := Wire(mac, c.ks, ts);
      assert received + Concat(chunks) == received + chunks[0] + Concat(chunks[1..]);
      assert received + chunks[0] == w[..|received + chunks[0]|];
      var k1 := ReceiveStep(mac, c, ts, received, b, k, chunks[0]);
      var first := Receive(mac, b, chunks[0]);
      HoldsValid(mac, c, ts, received + chunks[0], first.buffer, k1);
      k' := ReceiveRun(mac, c, ts, received + chunks[0], first.buffer, k1, chunks[1..]);
      assert ts[k..k'] == ts[k..k1] + ts[k1..k'];
      DeliveredConcat(ts[k..k1], ts[k1..k']);
    }
  }

  lemma HoldsValid(mac: Mac, c: Core, ts: seq<Transaction>, received: seq<byte>, b: Buffer, k: nat)
    requires Holds(mac, c, ts, received, b, k)
    ensures b.core.Valid() && AllAcceptable(ts) && k <= |ts|
  {
  }

  lemma DeliveredConcat(a: seq<Transaction>, b: seq<Transaction>)
    ensures DeliveredAll(a + b) == DeliveredAll(a) + DeliveredAll(b)
  {
  }

  // ----- the buffer never fills up

  lemma {:induction false} SendAllConcat(mac: Mac, ks: Keystream, a: seq<seq<byte>>, b: seq<seq<byte>>)
    requires AllFramed(a) && AllFramed(b)
    ensures AllFramed(a + b)
    ensures var s := SendAll(mac, ks, a); SendAll(mac, ks, a + b).wire == s.wire + SendAll(mac, s.ks, b).wire
    decreases |a|
  {
    hide Send, Framed;
    if a == [] {
      assert a + b == b;
    } else {
      SendAllConcat(mac, Send(mac, ks, a[0]).ks, a[1..], b);
      assert (a + b)[1..] == a[1..] + b;
    }
  }

  /** Every transaction whose last byte has arrived has been decrypted. */
  lemma PumpCovers(mac: Mac, c: Core, ts: seq<Transaction>, received: seq<byte>, m: nat)
    requires AllAcceptable(ts) && c.Valid() && c.phase.Header? && m <= |ts|
    requires received <= Wire(mac, c.ks, ts) && |PlainStream(ts[..m])| <= |received|
    ensures |Pump(mac, c, received).plain| >= |PlainStream(ts[..m])|
  {
    hide Pump, SendAll, PlainStream, Messages;
    MessagesFramed(ts[..m]);
    MessagesFramed(ts[m..]);
    SendAllConcat(mac, c.ks, Messages(ts[..m]), Messages(ts[m..]));
    MessagesSplit(ts, m);
    var w := Wire(mac, c.ks, ts[..m]);
    PumpWire(mac, c, ts[..m]);
    var x := received[|w|..];
    assert w <= Wire(mac, c.ks, ts);
    assert received == w + x;
    PumpInChunks(mac, c, w, x);
  }

  lemma MessagesSplit(ts: seq<Transaction>, m: nat)
    requires AllAcceptable(ts) && m <= |ts|
    ensures Messages(ts) == Messages(ts[..m]) + Messages(ts[m..])
  {
    hide Encode, Acceptable;
  }

  /** Between reads there is always room for more, so a conforming peer is never disconnected. */
  lemma RoomLeft(mac: Mac, c: Core, ts: seq<Transaction>, received: seq<byte>, b: Buffer, k: nat)
    requires Holds(mac, c, ts, received, b, k) && c.phase.Header?
    requires received <= Wire(mac, c.ks, ts)
    ensures |b.plain| + |b.enc| < BUF
  {
    hide Pump, PlainStream, Wire;
    PumpWire(mac, c, ts);
    var consumed := |PlainStream(ts[..k])|;
    assert |received| == consumed + |b.plain| + |b.enc|;
    if k == |ts| {
      assert ts[..k] == ts;
    } else {
      var m := k + 1;
      EncodeFlags(ts[k], 0);
      StreamSplit(ts[..m], k);
      assert ts[..m][..k] == ts[..k] && ts[..m][k..] == [ts[k]];
      OneStream(ts[k]);
      if |received| >= |PlainStream(ts[..m])| {
        PumpCovers(mac, c, ts, received, m);
        assert false;
      }
    }
  }

  lemma OneStream(t: Transaction)
    requires Acceptable(t)
    ensures |PlainStream([t])| == |Encode(t)|
  {
    EncodeFlags(t, 0);
    assert PlainStream([t][1..]) == [];
  }

  // ----- the theorems

  lemma HoldsInitially(mac: Mac, c: Core, ts: seq<Transaction>)
    requires AllAcceptable(ts) && c.Valid() && c.phase.Header?
    ensures Holds(mac, c, ts, [], Buffer(c, [], []), 0)
  {
    hide Encode;
    assert ts[..0] == [] && ts[0..] == ts;
    PumpStuck(mac, c, []);
    if ts != [] {
      EncodeFlags(ts[0], 0);
    }
  }

  /** At any moment of any delivery: no error, a prefix of the transactions delivered in
      order, and room in the buffer for the next read. */
  lemma TransportSafe(mac: Mac, c: Core, ts: seq<Transaction>, chunks: seq<seq<byte>>) returns (k: nat)
    requires AllAcceptable(ts) && c.Valid() && c.phase.Header?
    requires Concat(chunks) <= Wire(mac, c.ks, ts)
    ensures k <= |ts|
    ensures var r := ReceiveAll(mac, Buffer(c, [], []), chunks);
            && r.ok && r.ts == DeliveredAll(ts[..k])
            && |r.buffer.plain| + |r.buffer.enc| < BUF
  {
    hide Wire, DeliveredAll, Holds, ReceiveAll;
    HoldsInitially(mac, c, ts);
    assert [] + Concat(chunks) == Concat(chunks);
    k := ReceiveRun(mac, c, ts, [], Buffer(c, [], []), 0, chunks);
    RoomLeft(mac, c, ts, Concat(chunks), ReceiveAll(mac, Buffer(c, [], []), chunks).buffer, k);
    assert ts[0..k] == ts[..k];
  }

  /** However the wire is cut, exactly the transactions sent are delivered, in order, nothing
      is left over, and receiver and sender end with the same cipher state. */
  lemma TransportExact(mac: Mac, c: Core, ts: seq<Transaction>, chunks: seq<seq<byte>>)
    requires AllAcceptable(ts) && c.Valid() && c.phase.Header?
    requires Concat(chunks) == Wire(mac, c.ks, ts)
    ensures var r := ReceiveAll(mac, Buffer(c, [], []), chunks);
            && r.ok && r.ts == DeliveredAll(ts)
            && r.buffer.plain == [] && r.buffer.enc == []
            && (MessagesFramed(ts); InStep(r.buffer.core, SendAll(mac, c.ks, Messages(ts)).ks))
  {
    hide DeliveredAll, ReceiveAll, PlainStream, Pump, SendAll, Messages, Concat;
    HoldsInitially(mac, c, ts);
    assert [] + Concat(chunks) == Concat(chunks);
    var k := ReceiveRun(mac, c, ts, [], Buffer(c, [], []), 0, chunks);
    var b := ReceiveAll(mac, Buffer(c, [], []), chunks).buffer;
    PumpWire(mac, c, ts);
    StreamSplit(ts, k);
    WaitingAll(ts, k, b.plain);
    assert ts[0..k] == ts[..k];
    MessagesFramed(ts);
    PumpAll(mac, c, Messages(ts));
  }

  lemma WaitingAll(ts: seq<Transaction>, k: nat, rest: seq<byte>)
    requires AllAcceptable(ts) && k <= |ts| && Waiting(rest, ts[k..])
    requires PlainStream(ts[..k]) + rest == PlainStream(ts)
    ensures ts[..k] == ts && rest == []
  {
    hide PlainStream, Waiting;
    StreamSplit(ts, k);
    assert (PlainStream(ts[..k]) + rest)[|PlainStream(ts[..k])|..] == rest;
    assert (PlainStream(ts[..k]) + PlainStream(ts[k..]))[|PlainStream(ts[..k])|..] == PlainStream(ts[k..]);
    NeverWaitingForAll(ts[k..]);
    assert ts[..k] + ts[k..] == ts;
    assert ts[..k] + [] == ts[..k];
  }

  lemma NeverWaitingForAll(us: seq<Transaction>)
    requires AllAcceptable(us)
    ensures Waiting(PlainStream(us), us) ==> us == [] && PlainStream(us) == []
  {
    hide Encode;
    if us != [] {
      EncodeFlags(us[0], 0);
      FlagsFirst(us[0].(flags := 0));
      var e := Encode(us[0].(flags := 0));
      PrefixLonger(e, PlainStream(us[1..]));
    }
  }

  /** Without rotation the wire is the stream under one run of the cipher, transaction after
      transaction, as hl_hope_encrypt_transaction produces it. */
  lemma {:induction false} WireWithoutRotation(mac: Mac, ks: Keystream, ts: seq<Transaction>)
    requires AllAcceptable(ts) && forall i :: 0 <= i < |ts| ==> ts[i].flags == 0
    ensures Wire(mac, ks, ts) == Crypt(ks.rc4, PlainStream(ts))
    decreases |ts|
  {
    hide Encode, Crypt, Send, After;
    MessagesFramed(ts);
    if ts != [] {
      var e := Encode(ts[0]);
      EncodeFlags(ts[0], 0);
      assert ts[0].(flags := 0) == ts[0];
      FlagsFirst(ts[0]);
      SendWithoutRotation(mac, ks, e);
      WireWithoutRotation(mac, Skip(ks, |e|), ts[1..]);
      CryptConcat(ks.rc4, e, PlainStream(ts[1..]));
      assert Messages(ts)[1..] == Messages(ts[1..]);
    } else {
      CryptNothing(ks.rc4);
    }
  }

  lemma FlagsFirst(t: Transaction)
    requires t.Valid()
    ensures Encode(t)[0] == t.flags && |Encode(t)| >= HEADER
  {
  }

  lemma CryptNothing(st: Rc4State)
    ensures Crypt(st, []) == []
  {
  }

  /** With all flags 0 the list arrives exactly as sent, size fields filled in. */
  lemma TransportUnrotated(mac: Mac, c: Core, ts: seq<Transaction>, chunks: seq<seq<byte>>)
    requires AllAcceptable(ts) && c.Valid() && c.phase.Header?
    requires forall i :: 0 <= i < |ts| ==> ts[i].flags == 0
    requires Concat(chunks) == Crypt(c.ks.rc4, PlainStream(ts))
    ensures var r := ReceiveAll(mac, Buffer(c, [], []), chunks);
            r.ok && r.ts == seq(|ts|, i requires 0 <= i < |ts| => Canonical(ts[i]))
  {
    hide Crypt, ReceiveAll, PlainStream, Wire, Concat;
    WireWithoutRotation(mac, c.ks, ts);
    TransportExact(mac, c, ts, chunks);
    forall i | 0 <= i < |ts|
      ensures Delivered(ts[i]) == Canonical(ts[i])
    {
      assert Canonical(ts[i]).flags == 0;
    }
  }

  function Before(ts: seq<Transaction>, d: Drained): Drained { Drained(ts + d.ts, d.rest, d.ok) }

  lemma BeforeTwice(ts: seq<Transaction>, t: Transaction, d: Drained)
    ensures Before(ts, Before([t], d)) == Before(ts + [t], d)
  {
    assert ts + ([t] + d.ts) == ts + [t] + d.ts;
  }

  // One turn of the dispatch loop.
  lemma DrainFirst(plain: seq<byte>)
    ensures Scan(plain) == 0 ==> Drain(plain) == Drained([], plain, true)
    ensures Scan(plain) > 0 ==>
      var t := Decode(plain[..Scan(plain)]);
      Drain(plain) == if t.None? then Drained([], plain, false) else Before([t.value], Drain(plain[Scan(plain)..]))
  {
    hide Scan, Decode;
  }

  // ----- what dispatching makes of any bytes

  /** A frame that is complete by itself and parses to t. */
  predicate FrameParses(f: seq<byte>, t: Transaction) {
    Scan(f) == |f| > 0 && Decode(f) == Some(t)
  }

  /** Nothing more can be taken off the front: the next transaction is incomplete or does not parse. */
  predicate Stuck(rest: seq<byte>) {
    Scan(rest) == 0 || Decode(rest[..Scan(rest)]).None?
  }

  /** Whatever peer wrote them, bytes are dispatched frame by frame up to the first that is not
      complete or does not parse; only the latter is an error. */
  lemma {:induction false} DrainFrames(frames: seq<seq<byte>>, ts: seq<Transaction>, rest: seq<byte>)
    requires |frames| == |ts| && forall i :: 0 <= i < |ts| ==> FrameParses(frames[i], ts[i])
    requires Stuck(rest)
    ensures Drain(Concat(frames) + rest) == Drained(ts, rest, Scan(rest) == 0)
    decreases |frames|
  {
    hide Scan, Decode, Drain;
    if frames == [] {
      assert [] + rest == rest && ts == [];
      DrainStuck(rest);
    } else {
      var f, more := frames[0], Concat(frames[1..]) + rest;
      assert Concat(frames) + rest == f + more;
      assert FrameParses(f, ts[0]);
      ScanFirst(f, more);
      DrainFirst(f + more);
      assert (f + more)[..|f|] == f && (f + more)[|f|..] == more;
      DrainFrames(frames[1..], ts[1..], rest);
      assert [ts[0]] + ts[1..] == ts;
    }
  }

  lemma DrainStuck(rest: seq<byte>)
    requires Stuck(rest)
    ensures Drain(rest) == Drained([], rest, Scan(rest) == 0)
  {
    hide Scan, Decode;
  }

  lemma ScanFirst(f: seq<byte>, more: seq<byte>)
    requires Scan(f) == |f| > 0
    ensures Scan(f + more) == |f|
  {
    hide BeNum;
    assert (f + more)[12..16] == f[12..16];
  }

  // ----- the code

  datatype Status = Handled | BufferFull | ParseError

  /** The read side of hl_client_conn_t. */
  class Connection {
    const readBuf: array<byte>
    var readBufLen: nat
    const hope: Decryptor

    ghost predicate Valid()
      reads this, hope
    {
      && readBuf.Length == BUF && hope.Valid()
      && hope.offset <= readBufLen <= BUF && readBuf != hope.rc4.s
    }

    /** The buffer, divided at the decrypt offset. */
    ghost function View(): (b: Buffer)
      requires Valid()
      reads this, readBuf, hope, hope.rc4, hope.rc4.s
      ensures b.core.Valid() && |b.plain| + |b.enc| == readBufLen
    {
      Buffer(hope.View(), readBuf[..hope.offset], readBuf[hope.offset..readBufLen])
    }

    constructor (mac: Mac, key: CipherKey)
      ensures Valid() && View().plain == [] && View().enc == []
      ensures hope.mac == mac && InStep(View().core, Keystream(Keyed(key), key))
    {
      readBuf := new byte[BUF];
      readBufLen := 0;
      hope := new Decryptor(mac, key);
    }

    /** process_client_data for an RC4 client; `chunk` is what the read returned. */
    method Process(chunk: seq<byte>) returns (status: Status, ts: seq<Transaction>)
      requires Valid()
      requires 0 < |chunk| && (readBufLen < BUF ==> |chunk| <= BUF - readBufLen)
      modifies this, readBuf, hope, hope.rc4, hope.rc4.s
      ensures status == BufferFull <==> old(readBufLen) == BUF
      ensures status == BufferFull ==> ts == [] && Valid() && View() == old(View())
      ensures status != BufferFull ==>
        var r := Receive(hope.mac, old(View()), chunk);
        && ts == r.ts
        && (status == Handled <==> r.ok)
        && (status == Handled ==> Valid() && View() == r.buffer)
    {
      hide Drain, Pump, Scan, Decode;
      if readBufLen >= BUF {
        return BufferFull, [];
      }
      ghost var b, before := View(), readBuf[..];
      ghost var off, len := hope.offset, readBufLen;
      Store(readBuf, readBufLen, chunk);
      readBufLen := readBufLen + |chunk|;
      ghost var stored := readBuf[..];
      Appended(before, off, len, chunk, stored);
      hope.DecryptIncremental(readBuf, readBufLen);
      ghost var p := Pump(hope.mac, b.core, b.enc + chunk);
      Advanced(stored, off, p.plain, readBufLen, readBuf[..]);
      status, ts := DispatchAll();
    }

    /** Scan and dispatch up to the decrypt offset. */
    method DispatchAll() returns (status: Status, ts: seq<Transaction>)
      requires Valid()
      modifies this, readBuf, hope`offset
      ensures status != BufferFull
      ensures var b, d := old(View()), Drain(old(View()).plain);
              && ts == d.ts
              && (status == Handled <==> d.ok)
              && (status == Handled ==> Valid() && View() == Buffer(b.core, d.rest, b.enc))
    {
      hide Scan, Decode, Drain;
      ts := [];
      ghost var b := View();
      ghost var all := Drain(b.plain);
      DrainNone();
      while hope.offset > 0
        invariant Valid()
        invariant View() == b.(plain := View().plain)
        invariant all == Before(ts, Drain(View().plain))
        decreases hope.offset
      {
        ghost var plain := View().plain;
        var n := Scan(readBuf[..hope.offset]);
        DrainFirst(plain);
        if n == 0 {
          break;
        }
        ScannedInside(readBuf[..hope.offset]);
        assert readBuf[..hope.offset][..n] == readBuf[..n];
        var t := Deserialize(readBuf[..n]);
        assert readBuf[..n] == plain[..n];
        if t.None? {
          readBufLen := 0;
          return ParseError, ts;
        }
        BeforeTwice(ts, t.value, Drain(plain[n..]));
        ts := ts + [t.value];
        Consume(n);
      }
      assert hope.offset == 0 ==> View().plain == [];
      status := Handled;
    }

    /** memmove the rest to the front and adjust the decrypt offset (hl_hope_adjust_offset). */
    method Consume(n: nat)
      requires Valid() && 0 < n <= hope.offset
      modifies this`readBufLen, readBuf, hope`offset
      ensures Valid() && hope.offset == old(hope.offset) - n
      ensures View() == old(View()).(plain := old(View()).plain[n..])
    {
      ghost var b := View();
      MoveFront(readBuf, n, hope.offset, readBufLen);
      readBufLen := readBufLen - n;
      hope.offset := if n >= hope.offset then 0 else hope.offset - n;
      assert hope.View() == b.core;
    }
  }

  lemma Appended(before: seq<byte>, off: nat, len: nat, chunk: seq<byte>, now: seq<byte>)
    requires off <= len && len + |chunk| <= |before|
    requires now == before[..len] + chunk + before[len + |chunk|..]
    ensures now[..off] == before[..off] && now[off..len + |chunk|] == before[off..len] + chunk
  {
  }

  lemma Advanced(before: seq<byte>, off: nat, plain: seq<byte>, len: nat, now: seq<byte>)
    requires off + |plain| <= len <= |before|
    requires now == before[..off] + plain + before[off + |plain|..]
    ensures now[..off + |plain|] == before[..off] + plain
    ensures now[off + |plain|..len] == before[off..len][|plain|..]
  {
    var head, mid := before[..off] + plain, off + |plain|;
    assert now == head + before[mid..] && |head| == mid;
    assert now[mid..] == before[mid..];
    assert now[mid..len] == now[mid..][..len - mid];
    assert before[off..len][|plain|..] == before[mid..len] == before[mid..][..len - mid];
  }

  /** memmove(buf, buf + n, len - n), seen on either side of a boundary. */
  method MoveFront(buf: array<byte>, n: nat, mid: nat, len: nat)
    requires n <= mid <= len <= buf.Length
    modifies buf
    ensures buf[..mid - n] == old(buf[..mid])[n..]
    ensures buf[mid - n..len - n] == old(buf[mid..len])
  {
    ghost var before := buf[..];
    Store(buf, 0, buf[n..len]);
    assert buf[..len - n] == before[n..len];
    assert buf[..mid - n] == buf[..len - n][..mid - n];
    assert buf[mid - n..len - n] == buf[..len - n][mid - n..];
  }
}
