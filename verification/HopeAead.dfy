/** HOPE transport over ChaCha20-Poly1305 (hope.c:942-1167): sealed, length-prefixed frames
    under counted nonces, and the buffered reader of file transfers. */
module HopeAead {
  import opened Bits
  import opened ChaCha20
  import opened Aead
  import opened Wrappers

  const TAG: nat := 16
  const MAX_PAYLOAD: nat := 16 * 1024 * 1024
  const TO_CLIENT: byte := 0
  const TO_SERVER: byte := 1

  // ----- nonces

  function FrameNonce(direction: byte, counter: u64): Nonce {
    [direction, 0, 0, 0] + BeBytes(counter, 8)
  }

  /** No two (direction, counter) pairs share a nonce. */
  lemma FrameNonceInjective(d1: byte, c1: u64, d2: byte, c2: u64)
    ensures FrameNonce(d1, c1) == FrameNonce(d2, c2) <==> d1 == d2 && c1 == c2
  {
    hide BeBytes, BeNum, Pow2;
    Pow64();
    BeNumOfBytes(c1, 8);
    BeNumOfBytes(c2, 8);
    var n1, n2 := FrameNonce(d1, c1), FrameNonce(d2, c2);
    assert n1[0] == d1 && n2[0] == d2;
    assert n1[4..] == BeBytes(c1, 8) && n2[4..] == BeBytes(c2, 8);
  }

  lemma Pow64()
    ensures Pow2(64) == 0x1_0000_0000_0000_0000
  {
    hide Pow2;
    Pow2Values();
    Pow2Add(32, 32);
  }

  function Next(counter: u64): u64 { Add64(counter, 1) }

  // ----- frames

  function Frame(key: Key, direction: byte, counter: u64, plain: seq<byte>): seq<byte>
    requires |plain| + TAG < 0x1_0000_0000
  {
    var s := Seal(key, FrameNonce(direction, counter), plain);
    BeBytes(|plain| + TAG, 4) + s.ct + s.tag
  }

  datatype Scanned = NeedMore | Invalid | Complete(len: nat)

  /** hl_hope_aead_scan_frame */
  function ScanFrame(buf: seq<byte>, max: nat): (r: Scanned)
    ensures r.Complete? ==> 4 + TAG <= r.len <= |buf|
  {
    if |buf| < 4 then NeedMore
    else
      var n := BeNum(buf[..4]);
      if n < TAG || 4 + n > max then Invalid
      else if |buf| < 4 + n then NeedMore
      else Complete(4 + n)
  }

  /** The sealed content of a whole frame. */
  function Content(frame: seq<byte>): Sealed
    requires |frame| >= 4 + TAG
  {
    Sealed(frame[4..|frame| - TAG], frame[|frame| - TAG..])
  }

  lemma FrameIs(key: Key, direction: byte, counter: u64, plain: seq<byte>)
    requires |plain| + TAG < 0x1_0000_0000
    ensures var f := Frame(key, direction, counter, plain);
            && |f| == 4 + |plain| + TAG
            && BeNum(f[..4]) == |plain| + TAG
            && Open(key, FrameNonce(direction, counter), Content(f)) == Some(plain)
  {
    hide BeBytes, BeNum, Seal, Open, FrameNonce, Pow2;
    Pow2Values();
    BeNumOfBytes(|plain| + TAG, 4);
    var n := FrameNonce(direction, counter);
    OpenSeal(key, n, plain);
    var s := Seal(key, n, plain);
    var f := Frame(key, direction, counter, plain);
    assert f[..4] == BeBytes(|plain| + TAG, 4);
    assert f[4..|f| - TAG] == s.ct && f[|f| - TAG..] == s.tag;
  }

  /** The scanner waits for the whole frame and no longer. */
  lemma ScanFrameExact(key: Key, direction: byte, counter: u64, plain: seq<byte>, buf: seq<byte>, max: nat)
    requires |plain| + TAG < 0x1_0000_0000 && 4 + |plain| + TAG <= max
    ensures var f := Frame(key, direction, counter, plain);
            && (f <= buf ==> ScanFrame(buf, max) == Complete(|f|))
            && (buf <= f && buf != f ==> ScanFrame(buf, max) == NeedMore)
  {
    hide Frame, BeNum, Open, Content, FrameNonce;
    FrameIs(key, direction, counter, plain);
    var f := Frame(key, direction, counter, plain);
    if |buf| >= 4 && (f <= buf || buf <= f) {
      assert buf[..4] == f[..4];
    }
  }

  // ----- the transfer reader on values

  datatype Reader = Reader(pending: seq<byte>, counter: u64, buffer: seq<byte>, off: nat) {
    predicate Valid() { off <= |buffer| }
  }

  /** aead_reader_fill: take one frame off the connection. */
  function Refill(key: Key, r: Reader): (f: Option<Reader>)
    ensures f.Some? ==> f.value.Valid() && |f.value.pending| < |r.pending|
  {
    if |r.pending| < 4 then None
    else
      var n := BeNum(r.pending[..4]);
      if n < TAG || n > MAX_PAYLOAD || |r.pending| < 4 + n then None
      else
        var p := Open(key, FrameNonce(TO_SERVER, r.counter), Content(r.pending[..4 + n]));
        if p.None? then None else Some(Reader(r.pending[4 + n..], Next(r.counter), p.value, 0))
  }

  datatype Taken = Taken(reader: Reader, data: seq<byte>)

  /** hl_aead_reader_read_full */
  function TakeFull(key: Key, r: Reader, len: nat): (t: Option<Taken>)
    requires r.Valid()
    ensures t.Some? ==> t.value.reader.Valid()
    decreases |r.pending|, len
  {
    if len == 0 then Some(Taken(r, []))
    else
      var avail := |r.buffer| - r.off;
      if avail > 0 then
        var k := if len > avail then avail else len;
        var t := TakeFull(key, r.(off := r.off + k), len - k);
        if t.None? then None
        else Some(Taken(t.value.reader, r.buffer[r.off..r.off + k] + t.value.data))
      else
        var f := Refill(key, r);
        if f.None? then None else TakeFull(key, f.value, len)
  }

  /** hl_aead_reader_read */
  function TakePart(key: Key, r: Reader, len: nat): (t: Option<Taken>)
    requires r.Valid()
    ensures t.Some? ==> t.value.reader.Valid()
  {
    var f := if r.off == |r.buffer| then Refill(key, r) else Some(r);
    if f.None? then None
    else
      var avail := |f.value.buffer| - f.value.off;
      var k := if len < avail then len else avail;
      Some(Taken(f.value.(off := f.value.off + k), f.value.buffer[f.value.off..f.value.off + k]))
  }

  // ----- a conforming peer

  predicate Sendable(plains: seq<seq<byte>>) {
    forall i :: 0 <= i < |plains| ==> |plains[i]| + TAG <= MAX_PAYLOAD
  }

  function Frames(key: Key, counter: u64, plains: seq<seq<byte>>): seq<byte>
    requires Sendable(plains)
    decreases |plains|
  {
    if plains == [] then []
    else Frame(key, TO_SERVER, counter, plains[0]) + Frames(key, Next(counter), plains[1..])
  }

  /** The reader stands before the frames of exactly these plaintexts. */
  ghost predicate Before(key: Key, r: Reader, plains: seq<seq<byte>>) {
    r.Valid() && Sendable(plains) && r.pending == Frames(key, r.counter, plains)
  }

  /** What the caller has not read yet. */
  function Remaining(r: Reader, plains: seq<seq<byte>>): seq<byte>
    requires r.Valid()
  {
    r.buffer[r.off..] + Concat(plains)
  }

  lemma FillExact(key: Key, r: Reader, plains: seq<seq<byte>>)
    requires Before(key, r, plains)
    ensures plains == [] ==> Refill(key, r).None?
    ensures plains != [] ==>
      && Refill(key, r) == Some(Reader(Frames(key, Next(r.counter), plains[1..]), Next(r.counter), plains[0], 0))
      && Before(key, Refill(key, r).value, plains[1..])
  {
    hide Frame, BeNum, Open, FrameNonce;
    if plains != [] {
      FrameIs(key, TO_SERVER, r.counter, plains[0]);
      var f := Frame(key, TO_SERVER, r.counter, plains[0]);
      assert r.pending[..4] == f[..4] && r.pending[..|f|] == f;
      assert r.pending[|f|..] == Frames(key, Next(r.counter), plains[1..]);
    }
  }

  /** After i more frames the counter has moved by i. */
  function Advance(counter: u64, i: nat): u64 { (counter + i) % 0x1_0000_0000_0000_0000 }

  lemma AdvanceNext(counter: u64, i: nat)
    ensures Advance(Next(counter), i) == Advance(counter, i + 1) && Advance(counter, 0) == counter
  {
    var m := 0x1_0000_0000_0000_0000;
    var q, w := (counter + 1) / m, (counter + 1) % m;
    DivModUnique(counter + 1 + i, m, q + (w + i) / m, (w + i) % m);
  }

  /** The data taken is the beginning of what remained, the rest still remains, and the
      counter has moved by the i frames opened. */
  ghost predicate Progress(key: Key, r: Reader, plains: seq<seq<byte>>, t: Taken, i: nat) {
    && r.Valid() && i <= |plains| && Before(key, t.reader, plains[i..])
    && t.data + Remaining(t.reader, plains[i..]) == Remaining(r, plains)
    && t.reader.counter == Advance(r.counter, i)
  }

  lemma NoProgress(key: Key, r: Reader, plains: seq<seq<byte>>)
    requires Before(key, r, plains)
    ensures Progress(key, r, plains, Taken(r, []), 0)
  {
    hide Frames;
    AdvanceNext(r.counter, 0);
    assert plains[0..] == plains;
    assert [] + Remaining(r, plains) == Remaining(r, plains);
  }

  lemma FromBuffer(key: Key, r: Reader, plains: seq<seq<byte>>, k: nat)
    requires Before(key, r, plains) && k <= |r.buffer| - r.off
    ensures Progress(key, r, plains, Taken(r.(off := r.off + k), r.buffer[r.off..r.off + k]), 0)
  {
    hide Frames;
    AdvanceNext(r.counter, 0);
    assert plains[0..] == plains;
    assert r.buffer[r.off..] == r.buffer[r.off..r.off + k] + r.buffer[r.off + k..];
  }

  lemma FromFill(key: Key, r: Reader, plains: seq<seq<byte>>)
    requires Before(key, r, plains) && plains != [] && r.off == |r.buffer|
    ensures Refill(key, r).Some? && Progress(key, r, plains, Taken(Refill(key, r).value, []), 1)
    ensures Refill(key, r).value.off < |Refill(key, r).value.buffer| <==> plains[0] != []
  {
    hide Frames, Refill, Frame;
    FillExact(key, r, plains);
    AdvanceNext(r.counter, 0);
    assert [] + plains[0] + Concat(plains[1..]) == [] + (plains[0] + Concat(plains[1..]));
  }

  lemma ProgressTwice(key: Key, r: Reader, plains: seq<seq<byte>>, t: Taken, i: nat, u: Taken, j: nat)
    requires Progress(key, r, plains, t, i) && Progress(key, t.reader, plains[i..], u, j)
    ensures Progress(key, r, plains, Taken(u.reader, t.data + u.data), i + j)
  {
    hide Frames, Remaining;
    assert plains[i..][j..] == plains[i + j..];
    AdvanceTwice(r.counter, i, j);
    var rest := Remaining(u.reader, plains[i + j..]);
    assert t.data + u.data + rest == t.data + (u.data + rest);
  }

  lemma AdvanceTwice(counter: u64, j: nat, k: nat)
    ensures Advance(Advance(counter, j), k) == Advance(counter, j + k)
  {
    var m := 0x1_0000_0000_0000_0000;
    var q, w := (counter + j) / m, (counter + j) % m;
    DivModUnique(counter + j + k, m, q + (w + k) / m, (w + k) % m);
  }

  /** A full read succeeds exactly when that much is left, and returns the next len bytes. */
  lemma {:induction false} ReadFullExact(key: Key, r: Reader, plains: seq<seq<byte>>, len: nat) returns (i: nat)
    requires Before(key, r, plains)
    ensures var t := TakeFull(key, r, len);
            && (t.Some? <==> len <= |Remaining(r, plains)|)
            && (t.Some? ==> |t.value.data| == len && Progress(key, r, plains, t.value, i))
    decreases |r.pending|, len
  {
    hide Refill, Frames, Progress, Before;
    BeforeValid(key, r, plains);
    i := 0;
    if len == 0 {
      NoProgress(key, r, plains);
    } else if r.off < |r.buffer| {
      var avail := |r.buffer| - r.off;
      var k := if len > avail then avail else len;
      var t := Taken(r.(off := r.off + k), r.buffer[r.off..r.off + k]);
      FromBuffer(key, r, plains, k);
      ProgressMeans(key, r, plains, t, 0);
      i := ReadFullExact(key, t.reader, plains[0..], len - k);
      if len <= |Remaining(r, plains)| {
        ProgressTwice(key, r, plains, t, 0, TakeFull(key, t.reader, len - k).value, i);
      }
    } else if plains == [] {
      FillExact(key, r, plains);
    } else {
      FromFill(key, r, plains);
      var t := Taken(Refill(key, r).value, []);
      ProgressMeans(key, r, plains, t, 1);
      var j := ReadFullExact(key, t.reader, plains[1..], len);
      if len <= |Remaining(r, plains)| {
        var u := TakeFull(key, t.reader, len).value;
        ProgressTwice(key, r, plains, t, 1, u, j);
        assert [] + u.data == u.data;
      }
      i := 1 + j;
    }
  }

  lemma BeforeValid(key: Key, r: Reader, plains: seq<seq<byte>>)
    requires Before(key, r, plains)
    ensures r.Valid()
  {
  }

  lemma ProgressMeans(key: Key, r: Reader, plains: seq<seq<byte>>, t: Taken, i: nat)
    requires Progress(key, r, plains, t, i)
    ensures r.Valid() && i <= |plains| && t.reader.Valid() && Before(key, t.reader, plains[i..])
    ensures |t.data| + |Remaining(t.reader, plains[i..])| == |Remaining(r, plains)|
  {
  }

  /** A partial read fails only at the end of the stream; it returns the next bytes, len of
      them or all that the buffer holds, which is the next plaintext if it was empty. */
  lemma ReadExact(key: Key, r: Reader, plains: seq<seq<byte>>, len: nat) returns (i: nat)
    requires Before(key, r, plains)
    ensures var t := TakePart(key, r, len);
            && (t.None? <==> r.off == |r.buffer| && plains == [])
            && (t.Some? ==> Progress(key, r, plains, t.value, i))
            && (t.Some? ==>
                var there := if r.off == |r.buffer| then |plains[0]| else |r.buffer| - r.off;
                |t.value.data| == if len < there then len else there)
  {
    hide Refill, Frames, Progress, Before;
    BeforeValid(key, r, plains);
    if r.off == |r.buffer| {
      if plains == [] {
        FillExact(key, r, plains);
        i := 0;
      } else {
        FromFill(key, r, plains);
        var f := Refill(key, r).value;
        ProgressMeans(key, r, plains, Taken(f, []), 1);
        var t := TakePart(key, r, len).value;
        FromBuffer(key, f, plains[1..], |t.data|);
        ProgressTwice(key, r, plains, Taken(f, []), 1, t, 0);
        assert [] + t.data == t.data;
        i := 1;
      }
    } else {
      FromBuffer(key, r, plains, |TakePart(key, r, len).value.data|);
      i := 0;
    }
  }

  // ----- any mixture of calls

  datatype Request = Full(n: nat) | Partial(n: nat)

  /** The data of a run of calls, until one fails. */
  function ReadRun(key: Key, r: Reader, reqs: seq<Request>): (t: Taken)
    requires r.Valid()
    ensures t.reader.Valid()
    decreases |reqs|
  {
    if reqs == [] then Taken(r, [])
    else
      var t := match reqs[0] case Full(n) => TakeFull(key, r, n) case Partial(n) => TakePart(key, r, n);
      if t.None? then Taken(r, [])
      else
        var more := ReadRun(key, t.value.reader, reqs[1..]);
        Taken(more.reader, t.value.data + more.data)
  }

  /** Whatever sizes are asked for, the data read is the beginning of the plaintext, the rest
      is still to be read, and the counter equals the number of frames opened. */
  lemma {:induction false} ReadRunExact(key: Key, r: Reader, plains: seq<seq<byte>>, reqs: seq<Request>)
    returns (i: nat)
    requires Before(key, r, plains)
    ensures Progress(key, r, plains, ReadRun(key, r, reqs), i)
    decreases |reqs|
  {
    hide TakeFull, TakePart, Progress, Before;
    BeforeValid(key, r, plains);
    NoProgress(key, r, plains);
    i := 0;
    if reqs != [] {
      var j := 0;
      var t := None;
      match reqs[0] {
        case Full(n) => j := ReadFullExact(key, r, plains, n); t := TakeFull(key, r, n);
        case Partial(n) => j := ReadExact(key, r, plains, n); t := TakePart(key, r, n);
      }
      if t.Some? {
        ProgressMeans(key, r, plains, t.value, j);
        var k := ReadRunExact(key, t.value.reader, plains[j..], reqs[1..]);
        ProgressTwice(key, r, plains, t.value, j, ReadRun(key, t.value.reader, reqs[1..]), k);
        i := j + k;
      }
    }
  }

  // ----- the code

  /** The connection below the reader: the bytes still to arrive before it closes. */
  class Socket {
    var pending: seq<byte>

    constructor (bytes: seq<byte>)
      ensures pending == bytes
    {
      pending := bytes;
    }

    /** hl_conn_read_full: all n bytes, or failure at the end of the stream. */
    method ReadExactly(n: nat) returns (data: Option<seq<byte>>)
      modifies this
      ensures old(|pending|) >= n ==> data == Some(old(pending[..n])) && pending == old(pending[n..])
      ensures old(|pending|) < n ==> data == None && pending == []
    {
      if |pending| < n {
        pending := [];
        return None;
      }
      data := Some(pending[..n]);
      pending := pending[n..];
    }
  }

  /** hl_aead_stream_reader_t */
  class StreamReader {
    const conn: Socket
    const key: Key
    var recvCounter: u64
    var buffer: seq<byte>
    var bufferOff: nat

    ghost predicate Valid()
      reads this
    {
      bufferOff <= |buffer|
    }

    function View(): Reader
      reads this, conn
    {
      Reader(conn.pending, recvCounter, buffer, bufferOff)
    }

    constructor (conn: Socket, key: Key)
      ensures Valid() && this.conn == conn && this.key == key
      ensures View() == Reader(conn.pending, 0, [], 0)
    {
      this.conn, this.key := conn, key;
      recvCounter, buffer, bufferOff := 0, [], 0;
    }

    /** aead_reader_fill */
    method Fill() returns (ok: bool)
      requires Valid()
      modifies this, conn
      ensures Valid()
      ensures ok <==> Refill(key, old(View())).Some?
      ensures ok ==> View() == Refill(key, old(View())).value
      ensures !ok ==> View().(pending := old(View()).pending) == old(View())
    {
      hide BeNum, Open, FrameNonce;
      ghost var all := conn.pending;
      var prefix := conn.ReadExactly(4);
      if prefix.None? {
        return false;
      }
      var n := BeNum(prefix.value);
      if n < TAG || n > MAX_PAYLOAD {
        return false;
      }
      var frame := conn.ReadExactly(n);
      if frame.None? {
        return false;
      }
      var sealed := Sealed(frame.value[..n - TAG], frame.value[n - TAG..]);
      var plain := new byte[n - TAG];
      assert all[..4 + n] == prefix.value + frame.value;
      assert Content(all[..4 + n]) == sealed;
      OpenLength(key, FrameNonce(TO_SERVER, recvCounter), sealed);
      ok := Decrypt(key, FrameNonce(TO_SERVER, recvCounter), sealed, plain);
      if !ok {
        return;
      }
      recvCounter := Next(recvCounter);
      buffer, bufferOff := plain[..], 0;
    }

    /** hl_aead_reader_read_full */
    method ReadFull(out: array<byte>, len: nat) returns (ok: bool)
      requires Valid() && len <= out.Length
      modifies this, conn, out
      ensures Valid()
      ensures ok <==> TakeFull(key, old(View()), len).Some?
      ensures ok ==>
        var t := TakeFull(key, old(View()), len).value;
        View() == t.reader && out[..len] == t.data
    {
      hide Refill, TakeFull;
      ghost var all := TakeFull(key, View(), len);
      var filled := 0;
      PrefixedNone(all);
      while filled < len
        invariant Valid() && 0 <= filled <= len
        invariant all == Prefixed(out[..filled], TakeFull(key, View(), len - filled))
        decreases |conn.pending|, len - filled
      {
        ghost var r := View();
        ReadFullTurn(key, r, len - filled);
        var avail := |buffer| - bufferOff;
        if avail > 0 {
          var k := if len - filled > avail then avail else len - filled;
          PrefixedTwice(out[..filled], buffer[bufferOff..bufferOff + k], TakeFull(key, r.(off := r.off + k), len - filled - k));
          ghost var head := out[..filled];
          Store(out, filled, buffer[bufferOff..bufferOff + k]);
          assert out[..filled + k] == head + buffer[bufferOff..bufferOff + k];
          bufferOff := bufferOff + k;
          filled := filled + k;
        } else {
          var filledOk := Fill();
          if !filledOk {
            return false;
          }
        }
      }
      ReadFullTurn(key, View(), 0);
      ok := true;
    }

    /** hl_aead_reader_read: the bytes copied, or failure. */
    method Read(out: array<byte>, len: nat) returns (n: int)
      requires Valid() && len <= out.Length
      modifies this, conn, out
      ensures Valid()
      ensures n == -1 <==> TakePart(key, old(View()), len).None?
      ensures n != -1 ==>
        var t := TakePart(key, old(View()), len).value;
        View() == t.reader && n == |t.data| && out[..n] == t.data
    {
      hide Refill;
      var avail := |buffer| - bufferOff;
      if avail == 0 {
        var ok := Fill();
        if !ok {
          return -1;
        }
        avail := |buffer| - bufferOff;
      }
      var k := if len < avail then len else avail;
      Store(out, 0, buffer[bufferOff..bufferOff + k]);
      assert out[..k] == buffer[bufferOff..bufferOff + k];
      bufferOff := bufferOff + k;
      n := k;
    }
  }

  function Prefixed(p: seq<byte>, t: Option<Taken>): Option<Taken> {
    if t.None? then None else Some(Taken(t.value.reader, p + t.value.data))
  }

  lemma PrefixedNone(t: Option<Taken>)
    ensures Prefixed([], t) == t
  {
    if t.Some? {
      assert [] + t.value.data == t.value.data;
    }
  }

  lemma PrefixedTwice(p: seq<byte>, q: seq<byte>, t: Option<Taken>)
    ensures Prefixed(p, Prefixed(q, t)) == Prefixed(p + q, t)
  {
    if t.Some? {
      assert p + (q + t.value.data) == p + q + t.value.data;
    }
  }

  // One turn of the loop of hl_aead_reader_read_full.
  lemma ReadFullTurn(key: Key, r: Reader, len: nat)
    requires r.Valid()
    ensures len == 0 ==> TakeFull(key, r, len) == Some(Taken(r, []))
    ensures len > 0 && r.off < |r.buffer| ==>
      var avail := |r.buffer| - r.off;
      var k := if len > avail then avail else len;
      TakeFull(key, r, len) == Prefixed(r.buffer[r.off..r.off + k], TakeFull(key, r.(off := r.off + k), len - k))
    ensures len > 0 && r.off == |r.buffer| ==>
      var f := Refill(key, r);
      TakeFull(key, r, len) == if f.None? then None else TakeFull(key, f.value, len)
  {
    hide Refill;
  }

  /** hl_hope_aead_encrypt_transaction and aead_write_frame: seal into out and count. */
  method WriteFrame(key: Key, counter: u64, plain: seq<byte>, out: array<byte>) returns (n: int, counter': u64)
    requires |plain| + TAG < 0x8000_0000 - 4
    modifies out
    ensures n == if out.Length < 4 + |plain| + TAG then -1 else 4 + |plain| + TAG
    ensures n >= 0 ==> Written(out, old(out[..]), 0, Frame(key, 0, counter, plain)) && counter' == Next(counter)
    ensures n < 0 ==> counter' == counter && out[..] == old(out[..])
  {
    hide BeBytes, Seal, FrameNonce, Written, Frame, Next;
    var needed := 4 + |plain| + TAG;
    if out.Length < needed {
      return -1, counter;
    }
    ghost var orig := out[..];
    var nonce := FrameNonce(TO_CLIENT, counter);
    ghost var s := Seal(key, nonce, plain);
    OpenSeal(key, nonce, plain);
    var tag := Encrypt(key, nonce, plain, out, 4);
    StoreNext(out, 4 + |plain|, tag, orig, 4, s.ct);
    StoreLength(out, BeBytes(|plain| + TAG, 4), orig, s.ct + s.tag);
    FrameParts(key, TO_CLIENT, counter, plain);
    return needed, Next(counter);
  }

  lemma FrameParts(key: Key, direction: byte, counter: u64, plain: seq<byte>)
    requires |plain| + TAG < 0x1_0000_0000
    ensures var s := Seal(key, FrameNonce(direction, counter), plain);
            BeBytes(|plain| + TAG, 4) + (s.ct + s.tag) == Frame(key, direction, counter, plain)
  {
    hide BeBytes, Seal, FrameNonce;
  }

  /** The length prefix goes in last, in front of the sealed bytes. */
  method StoreLength(out: array<byte>, head: seq<byte>, ghost orig: seq<byte>, ghost body: seq<byte>)
    requires Written(out, orig, 4, body) && |head| == 4
    modifies out
    ensures Written(out, orig, 0, head + body)
  {
    ghost var mid := out[..];
    Store(out, 0, head);
    LengthInFront(orig, body, head, mid, out[..]);
  }

  lemma LengthInFront(orig: seq<byte>, body: seq<byte>, head: seq<byte>, mid: seq<byte>, now: seq<byte>)
    requires |head| == 4 && 4 + |body| <= |orig|
    requires mid == orig[..4] + body + orig[4 + |body|..] && now == mid[..0] + head + mid[4..]
    ensures now == orig[..0] + (head + body) + orig[0 + |head + body|..]
  {
    assert mid[4..] == body + orig[4 + |body|..];
  }
}
