/** The receive loop for AEAD clients (server.c:545-570 and 572-676): whole frames are opened
    and parsed, a partial frame waits in the buffer. */
module AeadReceive {
  import opened Bits
  import opened ChaCha20
  import opened Aead
  import opened Wrappers
  import opened HopeAead
  import opened Transactions

  datatype Drained = Drained(ts: seq<Transaction>, rest: seq<byte>, counter: u64, ok: bool)

  /** Scan, open and parse frames off the front. A frame that opens but does not parse is skipped. */
  function Drain(key: Key, counter: u64, buf: seq<byte>): Drained
    decreases |buf|
  {
    match ScanFrame(buf, BUF)
    case NeedMore => Drained([], buf, counter, true)
    case Invalid => Drained([], buf, counter, false)
    case Complete(n) =>
      var p := Open(key, FrameNonce(TO_SERVER, counter), Content(buf[..n]));
      if p.None? then Drained([], buf, counter, false)
      else
        var t := Decode(p.value);
        var d := Drain(key, Next(counter), buf[n..]);
        d.(ts := (if t.None? then [] else [t.value]) + d.ts)
  }

  /** Every transaction that is opened on the way is parsed inside its plaintext. */
  predicate DrainInside(key: Key, counter: u64, buf: seq<byte>)
    decreases |buf|
  {
    match ScanFrame(buf, BUF)
    case Complete(n) =>
      var p := Open(key, FrameNonce(TO_SERVER, counter), Content(buf[..n]));
      p.Some? ==> ReadsInside(p.value) && DrainInside(key, Next(counter), buf[n..])
    case _ => true
  }

  function ReceiveAll(key: Key, counter: u64, buf: seq<byte>, chunks: seq<seq<byte>>): Drained
    decreases |chunks|
  {
    if chunks == [] then Drained([], buf, counter, true)
    else
      var d := Drain(key, counter, buf + chunks[0]);
      if !d.ok then d
      else
        var more := ReceiveAll(key, d.counter, d.rest, chunks[1..]);
        more.(ts := d.ts + more.ts)
  }

  // ----- the traffic

  predicate Acceptable(t: Transaction) {
    Sized(t) && |t.fields| <= MAX_FIELDS && 4 + |Encode(t)| + TAG <= BUF
  }

  predicate AllAcceptable(ts: seq<Transaction>) {
    forall i :: 0 <= i < |ts| ==> Acceptable(ts[i])
  }

  function FrameOf(key: Key, counter: u64, t: Transaction): seq<byte>
    requires Acceptable(t)
  {
    Frame(key, TO_SERVER, counter, Encode(t))
  }

  function Wire(key: Key, counter: u64, ts: seq<Transaction>): seq<byte>
    requires AllAcceptable(ts)
    decreases |ts|
  {
    if ts == [] then [] else FrameOf(key, counter, ts[0]) + Wire(key, Next(counter), ts[1..])
  }

  function CanonicalAll(ts: seq<Transaction>): (r: seq<Transaction>)
    ensures |r| == |ts|
  {
    seq(|ts|, i requires 0 <= i < |ts| => Canonical(ts[i]))
  }

  /** rest is a proper beginning of the first frame of ts, or nothing when there is none. */
  predicate Waiting(key: Key, counter: u64, rest: seq<byte>, ts: seq<Transaction>)
    requires AllAcceptable(ts)
  {
    if ts == [] then rest == []
    else rest <= FrameOf(key, counter, ts[0]) && rest != FrameOf(key, counter, ts[0])
  }

  lemma DrainOne(key: Key, counter: u64, t: Transaction, q: seq<byte>)
    requires Acceptable(t) && FrameOf(key, counter, t) <= q
    ensures DrainInside(key, counter, q) <==> DrainInside(key, Next(counter), q[|FrameOf(key, counter, t)|..])
    ensures var d := Drain(key, Next(counter), q[|FrameOf(key, counter, t)|..]);
            Drain(key, counter, q) == d.(ts := [Canonical(t)] + d.ts)
  {
    hide Encode, Decode, Frame, ScanFrame, Open, FrameNonce, Content, ReadsInside;
    EncodedInside(t);
    var f := FrameOf(key, counter, t);
    FrameIs(key, TO_SERVER, counter, Encode(t));
    ScanFrameExact(key, TO_SERVER, counter, Encode(t), q, BUF);
    assert q[..|f|] == f;
    RoundTrip(t);
  }

  lemma DrainNotYet(key: Key, counter: u64, t: Transaction, q: seq<byte>)
    requires Acceptable(t) && q <= FrameOf(key, counter, t) && q != FrameOf(key, counter, t)
    ensures Drain(key, counter, q) == Drained([], q, counter, true) && DrainInside(key, counter, q)
  {
    hide Encode, Frame, ScanFrame;
    ScanFrameExact(key, TO_SERVER, counter, Encode(t), q, BUF);
  }

  lemma DrainNone(key: Key, counter: u64)
    ensures Drain(key, counter, []) == Drained([], [], counter, true) && DrainInside(key, counter, [])
  {
  }

  lemma CanonicalPrefix(ts: seq<Transaction>, k: nat)
    requires 0 < k <= |ts|
    ensures CanonicalAll(ts[..k]) == [Canonical(ts[0])] + CanonicalAll(ts[1..][..k - 1])
  {
    hide Canonical;
  }

  lemma CanonicalConcat(a: seq<Transaction>, b: seq<Transaction>)
    ensures CanonicalAll(a + b) == CanonicalAll(a) + CanonicalAll(b)
  {
    hide Canonical;
  }

  lemma CanonicalNone()
    ensures CanonicalAll([]) == []
  {
  }

  lemma PrefixCases(q: seq<byte>, a: seq<byte>, b: seq<byte>)
    requires q <= a + b
    ensures |q| >= |a| ==> a <= q && q[|a|..] <= b && q == a + q[|a|..]
    ensures |q| < |a| ==> q <= a
  {
    assert q == (a + b)[..|q|];
    if |q| >= |a| {
      assert (a + b)[|a|..] == b;
    }
  }

  /** Draining any prefix of the wire yields exactly the transactions whose frames it completes. */
  lemma {:induction false} DrainPrefix(key: Key, counter: u64, ts: seq<Transaction>, q: seq<byte>) returns (k: nat)
    requires AllAcceptable(ts) && q <= Wire(key, counter, ts)
    ensures k <= |ts|
    ensures var d := Drain(key, counter, q);
            && d.ok && d.ts == CanonicalAll(ts[..k]) && d.counter == Advance(counter, k)
            && DrainInside(key, counter, q) && Waiting(key, d.counter, d.rest, ts[k..])
            && q == Wire(key, counter, ts[..k]) + d.rest
    decreases |ts|
  {
    hide Drain, DrainInside, FrameOf, CanonicalAll, Acceptable, Next;
    k := 0;
    assert ts[..0] == [] && ts[0..] == ts;
    CanonicalNone();
    AdvanceNext(counter, 0);
    if ts == [] {
      DrainNone(key, counter);
    } else {
      var f, w := FrameOf(key, counter, ts[0]), Wire(key, Next(counter), ts[1..]);
      PrefixCases(q, f, w);
      if |f| <= |q| {
        DrainOne(key, counter, ts[0], q);
        var j := DrainPrefix(key, Next(counter), ts[1..], q[|f|..]);
        k := j + 1;
        CanonicalPrefix(ts, k);
        AdvanceNext(counter, j);
        assert ts[1..][j..] == ts[k..];
        assert ts[1..][..j] == ts[..k][1..] && ts[..k][0] == ts[0];
        assert q == f + (Wire(key, Next(counter), ts[1..][..j]) + Drain(key, Next(counter), q[|f|..]).rest);
      } else {
        DrainNotYet(key, counter, ts[0], q);
        assert [] + q == q;
      }
    }
  }

  // ----- runs

  /** From a waiting buffer, any cutting of the rest of the wire, or of a beginning of it,
      delivers a prefix of the transactions and leaves a buffer that waits for the next. */
  lemma {:induction false} ReceiveRun(key: Key, counter: u64, buf: seq<byte>, ts: seq<Transaction>, chunks: seq<seq<byte>>)
    returns (k: nat)
    requires AllAcceptable(ts) && Waiting(key, counter, buf, ts)
    requires buf + Concat(chunks) <= Wire(key, counter, ts)
    ensures k <= |ts|
    ensures var r := ReceiveAll(key, counter, buf, chunks);
            && r.ok && r.ts == CanonicalAll(ts[..k]) && r.counter == Advance(counter, k)
            && Waiting(key, r.counter, r.rest, ts[k..])
            && (buf + Concat(chunks) == Wire(key, counter, ts) ==> r.rest == Wire(key, r.counter, ts[k..]))
    decreases |chunks|
  {
    hide Drain, Wire, CanonicalAll, Waiting;
    k := 0;
    assert ts[..0] == [] && ts[0..] == ts;
    CanonicalNone();
    AdvanceNext(counter, 0);
    assert buf + [] == buf;
    if chunks != [] {
      var more := Concat(chunks[1..]);
      assert buf + Concat(chunks) == buf + chunks[0] + more;
      assert buf + chunks[0] <= Wire(key, counter, ts);
      var j := DrainPrefix(key, counter, ts, buf + chunks[0]);
      var d := Drain(key, counter, buf + chunks[0]);
      WireRest(key, counter, ts, buf + chunks[0], j, d.rest, more);
      var i := ReceiveRun(key, d.counter, d.rest, ts[j..], chunks[1..]);
      k := j + i;
      assert ts[j..][i..] == ts[k..] && ts[j..][..i] == ts[j..k] && ts[..k] == ts[..j] + ts[j..k];
      CanonicalConcat(ts[..j], ts[j..k]);
      AdvanceTwice(counter, j, i);
    }
  }

  lemma {:induction false} WireSplit(key: Key, counter: u64, ts: seq<Transaction>, j: nat)
    requires AllAcceptable(ts) && j <= |ts|
    ensures Wire(key, counter, ts) == Wire(key, counter, ts[..j]) + Wire(key, Advance(counter, j), ts[j..])
    decreases j
  {
    hide FrameOf, Acceptable, Next;
    AdvanceNext(counter, 0);
    if j == 0 {
      assert ts[..0] == [] && ts[0..] == ts;
      assert [] + Wire(key, counter, ts) == Wire(key, counter, ts);
    } else {
      WireSplit(key, Next(counter), ts[1..], j - 1);
      AdvanceNext(counter, j - 1);
      assert ts[1..][..j - 1] == ts[..j][1..] && ts[1..][j - 1..] == ts[j..] && ts[..j][0] == ts[0];
    }
  }

  // What is left after draining, completed, is the wire of what is left.
  lemma WireRest(key: Key, counter: u64, ts: seq<Transaction>, q: seq<byte>, j: nat, rest: seq<byte>, more: seq<byte>)
    requires AllAcceptable(ts) && j <= |ts| && q <= Wire(key, counter, ts)
    requires q == Wire(key, counter, ts[..j]) + rest
    ensures q + more == Wire(key, counter, ts) ==> rest + more == Wire(key, Advance(counter, j), ts[j..])
    ensures q + more <= Wire(key, counter, ts) ==> rest + more <= Wire(key, Advance(counter, j), ts[j..])
  {
    hide Wire, Acceptable;
    WireSplit(key, counter, ts, j);
    var w := Wire(key, counter, ts[..j]);
    assert (q + more)[|w|..] == rest + more;
    if q + more <= Wire(key, counter, ts) {
      PrefixCases(q + more, w, Wire(key, Advance(counter, j), ts[j..]));
    }
    assert (w + Wire(key, Advance(counter, j), ts[j..]))[|w|..] == Wire(key, Advance(counter, j), ts[j..]);
  }

  /** However the frames are cut, exactly the transactions sent are delivered, in order, the
      counter has counted them, and nothing is left over. */
  lemma TransportExact(key: Key, counter: u64, ts: seq<Transaction>, chunks: seq<seq<byte>>)
    requires AllAcceptable(ts) && Concat(chunks) == Wire(key, counter, ts)
    ensures ReceiveAll(key, counter, [], chunks) == Drained(CanonicalAll(ts), [], Advance(counter, |ts|), true)
  {
    hide CanonicalAll, ReceiveAll, Wire, Waiting, Concat;
    assert [] + Concat(chunks) == Concat(chunks);
    WaitingInitially(key, counter, ts);
    var k := ReceiveRun(key, counter, [], ts, chunks);
    var r := ReceiveAll(key, counter, [], chunks);
    NeverWaitingForAll(key, r.counter, ts[k..]);
    assert ts[..k] + ts[k..] == ts;
    assert ts[..k] + [] == ts[..k];
  }

  lemma WaitingInitially(key: Key, counter: u64, ts: seq<Transaction>)
    requires AllAcceptable(ts)
    ensures Waiting(key, counter, [], ts)
  {
    hide Encode, Frame;
    if ts != [] {
      FrameIs(key, TO_SERVER, counter, Encode(ts[0]));
    }
  }

  lemma NeverWaitingForAll(key: Key, counter: u64, us: seq<Transaction>)
    requires AllAcceptable(us)
    ensures Waiting(key, counter, Wire(key, counter, us), us) ==> us == [] && Wire(key, counter, us) == []
  {
    hide FrameOf;
    if us != [] {
      PrefixLonger(FrameOf(key, counter, us[0]), Wire(key, Next(counter), us[1..]));
    }
  }

  /** A waiting buffer always has room for the next read. */
  lemma RoomLeft(key: Key, counter: u64, buf: seq<byte>, ts: seq<Transaction>)
    requires AllAcceptable(ts) && Waiting(key, counter, buf, ts)
    ensures |buf| < BUF
  {
    hide Encode, Frame;
    if ts != [] {
      FrameIs(key, TO_SERVER, counter, Encode(ts[0]));
    }
  }

  // ----- what the loop makes of any bytes

  /** The transactions among these plaintexts; what does not parse is passed over. */
  function Parsed(plains: seq<seq<byte>>): seq<Transaction> {
    if plains == [] then []
    else
      var t := Decode(plains[0]);
      (if t.None? then [] else [t.value]) + Parsed(plains[1..])
  }

  predicate AllFit(plains: seq<seq<byte>>) {
    forall i :: 0 <= i < |plains| ==> 4 + |plains[i]| + TAG <= BUF
  }

  /** No frame that opens under this counter is complete at the front. */
  predicate Stuck(key: Key, counter: u64, rest: seq<byte>) {
    match ScanFrame(rest, BUF)
    case Complete(n) => Open(key, FrameNonce(TO_SERVER, counter), Content(rest[..n])).None?
    case _ => true
  }

  /** Whatever a client sealed, its frames are opened one by one, each under the next counter, up to
      the first that is incomplete, has a wrong length or does not open; only the last two are errors. */
  lemma {:induction false} DrainFrames(key: Key, counter: u64, plains: seq<seq<byte>>, rest: seq<byte>)
    requires AllFit(plains) && Stuck(key, Advance(counter, |plains|), rest)
    ensures Sendable(plains)
    ensures Drain(key, counter, Frames(key, counter, plains) + rest)
         == Drained(Parsed(plains), rest, Advance(counter, |plains|), ScanFrame(rest, BUF) == NeedMore)
    decreases |plains|
  {
    hide ScanFrame, Frame, Open, FrameNonce, Content, Decode, Drain;
    AdvanceNext(counter, 0);
    if plains == [] {
      assert [] + rest == rest;
      DrainStuck(key, counter, rest);
    } else {
      AdvanceNext(counter, |plains| - 1);
      DrainFrames(key, Next(counter), plains[1..], rest);
      var f, more := Frame(key, TO_SERVER, counter, plains[0]), Frames(key, Next(counter), plains[1..]) + rest;
      assert Frames(key, counter, plains) + rest == f + more;
      DrainSealed(key, counter, plains[0], more);
    }
  }

  lemma DrainSealed(key: Key, counter: u64, plain: seq<byte>, more: seq<byte>)
    requires 4 + |plain| + TAG <= BUF
    ensures var d, t := Drain(key, Next(counter), more), Decode(plain);
            Drain(key, counter, Frame(key, TO_SERVER, counter, plain) + more)
            == d.(ts := (if t.None? then [] else [t.value]) + d.ts)
  {
    hide ScanFrame, Frame, Open, FrameNonce, Content, Decode;
    var f := Frame(key, TO_SERVER, counter, plain);
    FrameIs(key, TO_SERVER, counter, plain);
    ScanFrameExact(key, TO_SERVER, counter, plain, f + more, BUF);
    assert (f + more)[..|f|] == f && (f + more)[|f|..] == more;
  }

  lemma DrainStuck(key: Key, counter: u64, rest: seq<byte>)
    requires Stuck(key, counter, rest)
    ensures Drain(key, counter, rest) == Drained([], rest, counter, ScanFrame(rest, BUF) == NeedMore)
  {
    hide ScanFrame, Open, FrameNonce, Content;
  }

  // ----- the code

  function After(ts: seq<Transaction>, d: Drained): Drained { d.(ts := ts + d.ts) }

  lemma AfterTwice(ts: seq<Transaction>, us: seq<Transaction>, d: Drained)
    ensures After(ts, After(us, d)) == After(ts + us, d)
  {
    assert ts + (us + d.ts) == ts + us + d.ts;
  }

  lemma AfterNone(d: Drained)
    ensures After([], d) == d
  {
    assert [] + d.ts == d.ts;
  }

  // One turn of the loop.
  lemma DrainFirst(key: Key, counter: u64, buf: seq<byte>)
    ensures ScanFrame(buf, BUF).NeedMore? ==> Drain(key, counter, buf) == Drained([], buf, counter, true)
    ensures ScanFrame(buf, BUF).Invalid? ==> Drain(key, counter, buf) == Drained([], buf, counter, false)
    ensures ScanFrame(buf, BUF).Complete? ==>
      var n := ScanFrame(buf, BUF).len;
      var p := Open(key, FrameNonce(TO_SERVER, counter), Content(buf[..n]));
      Drain(key, counter, buf) ==
        if p.None? then Drained([], buf, counter, false)
        else After(match Decode(p.value) case None => [] case Some(t) => [t], Drain(key, Next(counter), buf[n..]))
    ensures ScanFrame(buf, BUF).Complete? && DrainInside(key, counter, buf) ==>
      var n := ScanFrame(buf, BUF).len;
      var p := Open(key, FrameNonce(TO_SERVER, counter), Content(buf[..n]));
      p.Some? ==> ReadsInside(p.value) && DrainInside(key, Next(counter), buf[n..])
  {
    hide ReadsInside, ScanFrame, Decode, Open, Content, FrameNonce;
  }

  datatype Status = Handled | Disconnected

  /** The read side of an AEAD client. */
  class Connection {
    const readBuf: array<byte>
    var readBufLen: nat
    const key: Key
    var recvCounter: u64

    ghost predicate Valid()
      reads this
    {
      readBuf.Length == BUF && readBufLen <= BUF
    }

    constructor (key: Key)
      ensures Valid() && readBufLen == 0 && recvCounter == 0 && this.key == key
    {
      readBuf := new byte[BUF];
      readBufLen, recvCounter := 0, 0;
      this.key := key;
    }

    /** process_client_data for an AEAD client; a full buffer, an impossible length or a bad
        tag disconnects. The transactions must be parsed inside their plaintexts. */
    method Process(chunk: seq<byte>) returns (status: Status, ts: seq<Transaction>)
      requires Valid()
      requires 0 < |chunk| && (readBufLen < BUF ==> |chunk| <= BUF - readBufLen)
      requires DrainInside(key, recvCounter, readBuf[..readBufLen] + chunk)
      modifies this, readBuf
      ensures Valid()
      ensures old(readBufLen) == BUF ==> status == Disconnected && ts == []
      ensures old(readBufLen) < BUF ==>
        var d := Drain(key, old(recvCounter), old(readBuf[..readBufLen]) + chunk);
        && ts == d.ts && recvCounter == d.counter && readBuf[..readBufLen] == d.rest
        && (status == Handled <==> d.ok)
    {
      hide Drain, DrainInside, ReadsInside, ScanFrame, Decode, Open, Content, FrameNonce;
      ts := [];
      if readBufLen >= BUF {
        return Disconnected, [];
      }
      ghost var input := readBuf[..readBufLen] + chunk;
      Store(readBuf, readBufLen, chunk);
      readBufLen := readBufLen + |chunk|;
      assert readBuf[..readBufLen] == input;
      ghost var all := Drain(key, recvCounter, input);
      AfterNone(all);
      while readBufLen > 0
        invariant Valid()
        invariant all == After(ts, Drain(key, recvCounter, readBuf[..readBufLen]))
        invariant DrainInside(key, recvCounter, readBuf[..readBufLen])
        decreases readBufLen
      {
        var buf := readBuf[..readBufLen];
        var scan := ScanFrame(buf, BUF);
        DrainFirst(key, recvCounter, buf);
        assert ts + [] == ts;
        if scan.NeedMore? {
          break;
        }
        if scan.Invalid? {
          return Disconnected, ts;
        }
        var n := scan.len;
        var sealed := Content(buf[..n]);
        ContentSize(buf[..n]);
        var plain := new byte[BUF];
        var nonce := FrameNonce(TO_SERVER, recvCounter);
        var ok := Decrypt(key, nonce, sealed, plain);
        if !ok {
          return Disconnected, ts;
        }
        OpenLength(key, nonce, sealed);
        assert plain[..n - 4 - TAG] == Open(key, nonce, sealed).value;
        Shift(n);
        var t := Deserialize(plain[..n - 4 - TAG]);
        recvCounter := Next(recvCounter);
        AfterTwice(ts, match t case None => [] case Some(x) => [x], Drain(key, recvCounter, readBuf[..readBufLen]));
        ts := ts + (match t case None => [] case Some(x) => [x]);
      }
      assert readBufLen == 0 ==> readBuf[..readBufLen] == [];
      DrainNone(key, recvCounter);
      assert ts + [] == ts;
      status := Handled;
    }

    /** memmove the rest to the front. */
    method Shift(n: nat)
      requires Valid() && n <= readBufLen
      modifies this`readBufLen, readBuf
      ensures Valid() && readBufLen == old(readBufLen) - n
      ensures readBuf[..readBufLen] == old(readBuf[..readBufLen])[n..]
    {
      ghost var before := readBuf[..readBufLen];
      Store(readBuf, 0, readBuf[n..readBufLen]);
      readBufLen := readBufLen - n;
      assert readBuf[..readBufLen] == before[n..];
    }
  }

  lemma ContentSize(frame: seq<byte>)
    requires 4 + TAG <= |frame| <= BUF
    ensures |Content(frame).tag| == TAG && |Content(frame).ct| == |frame| - 4 - TAG
  {
  }
}
