/** Hotline transactions on the wire (field.c, transaction.c). */
module Transactions {
  import opened Bits
  import opened Wrappers

  const MAX_FIELDS: nat := 128
  const HEADER_LEN: nat := 22
  const MIN_FIELD: nat := 4
  const BUF: nat := 65536  // the read buffer of a client

  // ----- fields

  /** `size` is the pair of bytes kept beside the data; NewField makes it the length. */
  datatype Field = Field(typ: seq<byte>, size: seq<byte>, data: seq<byte>) {
    predicate Valid() {
      |typ| == 2 && |data| < 0x1_0000 && size == BeBytes(|data|, 2)
    }
  }

  function NewField(typ: seq<byte>, data: seq<byte>): (f: Field)
    requires |typ| == 2 && |data| < 0x1_0000
    ensures f.Valid() && f.typ == typ && f.data == data
  {
    Field(typ, BeBytes(|data|, 2), data)
  }

  function EncodeField(f: Field): seq<byte> { f.typ + f.size + f.data }

  /** hl_field_deserialize */
  function DecodeField(b: seq<byte>): (f: Option<Field>)
    ensures f.Some? ==> MIN_FIELD + |f.value.data| <= |b|
  {
    if |b| < MIN_FIELD then None
    else
      var n := BeNum(b[2..4]);
      if |b| < MIN_FIELD + n then None else Some(Field(b[..2], b[2..4], b[4..4 + n]))
  }

  lemma FieldRoundTrip(f: Field, more: seq<byte>)
    requires f.Valid()
    ensures DecodeField(EncodeField(f) + more) == Some(f)
    ensures |EncodeField(f)| == MIN_FIELD + |f.data|
  {
    hide BeBytes, BeNum, Pow2;
    var b := EncodeField(f) + more;
    Pow2Values();
    BeNumOfBytes(|f.data|, 2);
    assert b[..2] == f.typ && b[2..4] == f.size && b[4..4 + |f.data|] == f.data;
  }

  // ----- transactions

  /** hl_transaction_t without its routing id. The three size fields are what the wire said;
      serializing ignores them. */
  datatype Transaction = Transaction(
    flags: byte, isReply: byte, typ: seq<byte>, id: seq<byte>, errorCode: seq<byte>,
    totalSize: seq<byte>, dataSize: seq<byte>, paramCount: seq<byte>, fields: seq<Field>)
  {
    predicate Valid() {
      && |typ| == 2 && |id| == 4 && |errorCode| == 4 && |fields| < 0x1_0000
      && forall i :: 0 <= i < |fields| ==> fields[i].Valid()
    }
  }

  function EncodeFields(fs: seq<Field>): seq<byte> {
    if fs == [] then [] else EncodeField(fs[0]) + EncodeFields(fs[1..])
  }

  /** hl_transaction_payload_size, before its 32-bit wrap: the parameter count and the fields. */
  function Payload(t: Transaction): nat { 2 + |EncodeFields(t.fields)| }

  /** Transactions whose payload size fits its 32-bit field. */
  predicate Sized(t: Transaction) {
    t.Valid() && Payload(t) < 0x1_0000_0000
  }

  function EncodeHeader(t: Transaction, payload: nat): seq<byte> {
    [t.flags, t.isReply] + t.typ + t.id + t.errorCode + BeBytes(payload, 4) + BeBytes(payload, 4)
    + BeBytes(|t.fields|, 2)
  }

  function Encode(t: Transaction): (b: seq<byte>)
    requires t.Valid()
    ensures |b| == 20 + Payload(t)
  {
    EncodeHeader(t, Payload(t)) + EncodeFields(t.fields)
  }

  /** hl_transaction_scan: the length of the transaction at the start of b, 0 if it is not all there. */
  function Scan(b: seq<byte>): (n: nat)
    ensures n <= |b|
  {
    if |b| < 16 then 0
    else
      var n := 20 + BeNum(b[12..16]);
      if n > |b| then 0 else n
  }

  function DecodeFields(b: seq<byte>, n: nat): Option<seq<Field>>
    decreases n
  {
    if n == 0 then Some([])
    else
      var f := DecodeField(b);
      if f.None? then None
      else
        var more := DecodeFields(b[MIN_FIELD + |f.value.data|..], n - 1);
        if more.None? then None else Some([f.value] + more.value)
  }

  /** A size below 2 with a positive field count: the length that is left for the fields wraps. */
  predicate LengthWraps(b: seq<byte>) {
    |b| >= HEADER_LEN && BeNum(b[12..16]) < 2 && 0 < BeNum(b[20..22]) <= MAX_FIELDS
  }

  /** Then the fields are read behind the transaction, without a limit; they must be there. */
  predicate ReadsInside(b: seq<byte>) {
    LengthWraps(b) ==> DecodeFields(b[HEADER_LEN..], BeNum(b[20..22])).Some?
  }

  /** hl_transaction_deserialize. */
  function Decode(b: seq<byte>): Option<Transaction> {
    if |b| < HEADER_LEN then None
    else
      var len := 20 + BeNum(b[12..16]);
      var count := BeNum(b[20..22]);
      if |b| < len || count > MAX_FIELDS then None
      else
        var fields := if count == 0 then Some([])
                      else DecodeFields(b[HEADER_LEN..if len < HEADER_LEN then |b| else len], count);
        if fields.None? then None
        else Some(Transaction(b[0], b[1], b[2..4], b[4..8], b[8..12], b[12..16], b[16..20], b[20..22], fields.value))
  }

  /** What the scanner finds is never read beyond. */
  lemma ScannedInside(b: seq<byte>)
    ensures Scan(b) > 0 ==> ReadsInside(b[..Scan(b)])
  {
    hide BeNum;
    if Scan(b) >= HEADER_LEN {
      assert b[..Scan(b)][12..16] == b[12..16];
    }
  }

  /** Nor is what a sender encodes. */
  lemma EncodedInside(t: Transaction)
    requires Sized(t)
    ensures ReadsInside(Encode(t))
  {
    hide BeNum, BeBytes, Encode, EncodeFields, DecodeFields;
    HeaderIs(t);
  }

  /** What the wire makes of a transaction: the size fields are filled in. */
  function Canonical(t: Transaction): Transaction {
    t.(totalSize := BeBytes(Payload(t), 4), dataSize := BeBytes(Payload(t), 4), paramCount := BeBytes(|t.fields|, 2))
  }

  lemma {:induction false} FieldsRoundTrip(fs: seq<Field>)
    requires forall i :: 0 <= i < |fs| ==> fs[i].Valid()
    ensures DecodeFields(EncodeFields(fs), |fs|) == Some(fs)
  {
    hide DecodeField, EncodeField;
    if fs != [] {
      FieldRoundTrip(fs[0], EncodeFields(fs[1..]));
      FieldsRoundTrip(fs[1..]);
      var b := EncodeFields(fs);
      assert b[MIN_FIELD + |fs[0].data|..] == EncodeFields(fs[1..]);
      assert fs == [fs[0]] + fs[1..];
    }
  }

  lemma HeaderIs(t: Transaction)
    requires Sized(t)
    ensures var b := Encode(t);
            && b[0] == t.flags && b[1] == t.isReply && b[2..4] == t.typ && b[4..8] == t.id
            && b[8..12] == t.errorCode && b[12..16] == b[16..20] == BeBytes(Payload(t), 4)
            && b[20..22] == BeBytes(|t.fields|, 2) && b[22..] == EncodeFields(t.fields)
            && BeNum(b[12..16]) == Payload(t) && BeNum(b[20..22]) == |t.fields|
  {
    hide BeBytes, BeNum, EncodeFields, Pow2;
    Pow2Values();
    BeNumOfBytes(Payload(t), 4);
    BeNumOfBytes(|t.fields|, 2);
    var b := Encode(t);
    assert b[2..4] == t.typ;
    assert b[4..8] == t.id;
    assert b[8..12] == t.errorCode;
    assert b[12..16] == BeBytes(Payload(t), 4);
    assert b[16..20] == BeBytes(Payload(t), 4);
    assert b[20..22] == BeBytes(|t.fields|, 2);
    assert b[22..] == EncodeFields(t.fields);
  }

  /** A serialized transaction parses back, and only then, when it has at most 128 fields. */
  lemma RoundTrip(t: Transaction)
    requires t.Valid()
    ensures Decode(Encode(t)) == if |t.fields| <= MAX_FIELDS then Some(Canonical(t)) else None
  {
    hide BeBytes, BeNum, Encode, EncodeFields, DecodeFields, Pow2;
    var b := Encode(t);
    if |t.fields| <= MAX_FIELDS {
      FewSized(t);
      HeaderIs(t);
      FieldsRoundTrip(t.fields);
      assert b[HEADER_LEN..20 + Payload(t)] == b[22..];
    } else {
      CountIs(t);
    }
  }

  lemma CountIs(t: Transaction)
    requires t.Valid()
    ensures |Encode(t)| >= HEADER_LEN && BeNum(Encode(t)[20..22]) == |t.fields|
  {
    hide BeBytes, BeNum, EncodeFields, Pow2;
    Pow2Values();
    BeNumOfBytes(|t.fields|, 2);
    assert Encode(t)[20..22] == BeBytes(|t.fields|, 2);
  }

  lemma {:induction false} FieldsLength(fs: seq<Field>)
    requires forall i :: 0 <= i < |fs| ==> fs[i].Valid()
    ensures |EncodeFields(fs)| <= |fs| * 0x1_0003
  {
    hide BeBytes;
    if fs != [] {
      FieldsLength(fs[1..]);
    }
  }

  /** Up to 128 fields never reach the 32-bit wrap. */
  lemma FewSized(t: Transaction)
    requires t.Valid() && |t.fields| <= MAX_FIELDS
    ensures Sized(t)
  {
    hide EncodeFields;
    FieldsLength(t.fields);
  }

  /** The scanner waits for the whole transaction and no longer. */
  lemma ScanEncoded(t: Transaction, b: seq<byte>)
    requires Sized(t)
    ensures b <= Encode(t) ==> Scan(b) == if b == Encode(t) then |b| else 0
    ensures Encode(t) <= b ==> Scan(b) == |Encode(t)|
  {
    hide BeBytes, BeNum, Encode;
    HeaderIs(t);
    var e := Encode(t);
    if b <= e && |b| >= 16 {
      assert b[12..16] == e[12..16];
    } else if e <= b {
      assert b[12..16] == e[12..16];
    }
  }

  /** Only the first byte of the encoding depends on the flags. */
  lemma EncodeFlags(t: Transaction, flags: byte)
    requires t.Valid()
    ensures Encode(t)[0 := flags] == Encode(t.(flags := flags))
    ensures Canonical(t.(flags := flags)) == Canonical(t).(flags := flags)
  {
  }

  // ----- the code

  lemma {:induction false} EncodeFieldsSnoc(fs: seq<Field>, f: Field)
    ensures EncodeFields(fs + [f]) == EncodeFields(fs) + EncodeField(f)
  {
    hide EncodeField;
    if fs == [] {
      assert [f][1..] == [] && EncodeFields([]) == [];
      assert fs + [f] == [f];
    } else {
      EncodeFieldsSnoc(fs[1..], f);
      assert (fs + [f])[1..] == fs[1..] + [f];
    }
  }

  lemma {:induction false} EncodeFieldsPrefix(fs: seq<Field>, i: nat)
    requires i <= |fs|
    ensures |EncodeFields(fs[..i])| <= |EncodeFields(fs)|
    decreases |fs| - i
  {
    hide EncodeField, EncodeFields;
    if i == |fs| {
      assert fs[..i] == fs;
    } else {
      EncodeFieldsPrefix(fs, i + 1);
      assert fs[..i + 1] == fs[..i] + [fs[i]];
      EncodeFieldsSnoc(fs[..i], fs[i]);
    }
  }

  /** hl_transaction_payload_size: a 32-bit sum over the fields. */
  method PayloadSize(t: Transaction) returns (size: u32)
    requires t.Valid()
    ensures size == Payload(t) % 0x1_0000_0000
  {
    hide EncodeFields, EncodeField;
    size := 2;
    NoFields();
    assert t.fields[..0] == [];
    var i := 0;
    while i < |t.fields|
      invariant 0 <= i <= |t.fields|
      invariant size == (2 + |EncodeFields(t.fields[..i])|) % 0x1_0000_0000
    {
      assert t.fields[..i + 1] == t.fields[..i] + [t.fields[i]];
      EncodeFieldsSnoc(t.fields[..i], t.fields[i]);
      FieldRoundTrip(t.fields[i], []);
      AddWraps(2 + |EncodeFields(t.fields[..i])|, MIN_FIELD + |t.fields[i].data|);
      size := Add32(size, MIN_FIELD + |t.fields[i].data|);
      i := i + 1;
    }
    assert t.fields[..|t.fields|] == t.fields;
  }

  lemma NoFields()
    ensures EncodeFields([]) == []
  {
  }

  lemma AddWraps(a: nat, b: u32)
    ensures Add32(a % 0x1_0000_0000, b) == (a + b) % 0x1_0000_0000
  {
    var m := 0x1_0000_0000;
    var r := a % m + b;
    DivModUnique(a + b, m, a / m + r / m, r % m);
  }

  /** hl_field_serialize at buf[at..]. */
  method SerializeField(f: Field, buf: array<byte>, at: nat) returns (n: int)
    requires f.Valid() && at <= buf.Length
    modifies buf
    ensures n == if buf.Length - at < |EncodeField(f)| then -1 else |EncodeField(f)|
    ensures n >= 0 ==> Written(buf, old(buf[..]), at, EncodeField(f))
  {
    hide BeBytes, BeNum;
    FieldRoundTrip(f, []);
    var needed := MIN_FIELD + |f.data|;
    if buf.Length - at < needed {
      return -1;
    }
    ghost var orig := buf[..];
    Store(buf, at, f.typ);
    StoreNext(buf, at + 2, f.size, orig, at, f.typ);
    if |f.data| > 0 {
      StoreNext(buf, at + 4, f.data, orig, at, f.typ + f.size);
    }
    assert |f.data| == 0 ==> EncodeField(f) == f.typ + f.size;
    n := needed;
  }

  /** The number of bytes hl_transaction_serialize asks for and returns: a 32-bit payload size. */
  function WireSize(t: Transaction): nat { 20 + Payload(t) % 0x1_0000_0000 }

  /** hl_transaction_serialize. The size wraps for payloads of 2^32 bytes and more; then a field
      can find no room although the first check has passed. The header is written unchecked. */
  method Serialize(t: Transaction, buf: array<byte>) returns (n: int)
    requires t.Valid()
    requires buf.Length >= WireSize(t) ==> buf.Length >= HEADER_LEN
    modifies buf
    ensures n == if buf.Length < WireSize(t) || buf.Length < |Encode(t)| then -1 else WireSize(t)
    ensures n >= 0 ==> Written(buf, old(buf[..]), 0, Encode(t))
    ensures buf.Length < WireSize(t) ==> buf[..] == old(buf[..])
  {
    hide EncodeFields, EncodeField, EncodeHeader, BeBytes, Written;
    ghost var before := buf[..];
    var payload := PayloadSize(t);
    var needed := 20 + payload as int;
    if buf.Length < needed {
      return -1;
    }
    HeaderWraps(t);
    HeaderLength(t, payload);
    Store(buf, 0, EncodeHeader(t, payload));
    NoFields();
    assert t.fields[..0] == [];
    assert EncodeHeader(t, payload) + [] == EncodeHeader(t, payload);
    var offset := HEADER_LEN;
    var i := 0;
    while i < |t.fields|
      invariant 0 <= i <= |t.fields|
      invariant offset == HEADER_LEN + |EncodeFields(t.fields[..i])| <= buf.Length
      invariant Written(buf, before, 0, EncodeHeader(t, payload) + EncodeFields(t.fields[..i]))
    {
      EncodeFieldsPrefix(t.fields, i + 1);
      assert t.fields[..i + 1] == t.fields[..i] + [t.fields[i]];
      EncodeFieldsSnoc(t.fields[..i], t.fields[i]);
      ghost var mid := buf[..];
      WrittenMeans(buf, before, EncodeHeader(t, payload) + EncodeFields(t.fields[..i]));
      var written := SerializeField(t.fields[i], buf, offset);
      if written < 0 {
        return -1;
      }
      NextWritten(buf, before, mid, EncodeHeader(t, payload) + EncodeFields(t.fields[..i]), EncodeField(t.fields[i]));
      assert EncodeHeader(t, payload) + EncodeFields(t.fields[..i]) + EncodeField(t.fields[i])
          == EncodeHeader(t, payload) + EncodeFields(t.fields[..i + 1]);
      offset := offset + written;
      i := i + 1;
    }
    assert t.fields[..|t.fields|] == t.fields;
    n := needed;
  }

  lemma WrittenMeans(buf: array<byte>, orig: seq<byte>, data: seq<byte>)
    requires Written(buf, orig, 0, data)
    ensures buf.Length == |orig| && |data| <= |orig| && buf[..] == orig[..0] + data + orig[0 + |data|..]
  {
  }

  // The buffer after one more field behind the data.
  lemma NextWritten(buf: array<byte>, orig: seq<byte>, mid: seq<byte>, data: seq<byte>, src: seq<byte>)
    requires |mid| == |orig| && |data| <= |orig| && mid == orig[..0] + data + orig[0 + |data|..]
    requires Written(buf, mid, |data|, src)
    ensures Written(buf, orig, 0, data + src)
  {
    WrittenMore(orig, 0, data, src, mid, buf[..]);
  }

  // The header holds the payload size modulo 2^32 anyway.
  lemma HeaderWraps(t: Transaction)
    requires t.Valid()
    ensures EncodeHeader(t, Payload(t) % 0x1_0000_0000) == EncodeHeader(t, Payload(t))
  {
    hide BeBytes, EncodeFields, Pow2;
    Pow2Values();
    BeBytesWrap(Payload(t), 4);
  }

  lemma HeaderLength(t: Transaction, payload: nat)
    requires t.Valid()
    ensures |EncodeHeader(t, payload)| == HEADER_LEN
  {
  }

  function Joined(fs: seq<Field>, more: Option<seq<Field>>): Option<seq<Field>> {
    if more.None? then None else Some(fs + more.value)
  }

  /** hl_transaction_deserialize, where its reads are defined. */
  method Deserialize(b: seq<byte>) returns (r: Option<Transaction>)
    requires ReadsInside(b)
    ensures r == Decode(b)
  {
    hide DecodeField, BeNum;
    if |b| < HEADER_LEN {
      return None;
    }
    var len := 20 + BeNum(b[12..16]);
    if |b| < len {
      return None;
    }
    var count := BeNum(b[20..22]);
    if count > MAX_FIELDS {
      return None;
    }
    var fields: seq<Field> := [];
    if count > 0 {
      var end := if len < HEADER_LEN then |b| else len;
      ghost var all := DecodeFields(b[HEADER_LEN..end], count);
      var offset := HEADER_LEN;
      var i := 0;
      JoinNothing(all);
      while i < count
        invariant 0 <= i <= count && HEADER_LEN <= offset <= end
        invariant all == Joined(fields, DecodeFields(b[offset..end], count - i))
      {
        var f := DecodeField(b[offset..end]);
        if f.None? {
          return None;
        }
        var next := offset + (MIN_FIELD + |f.value.data|);
        assert b[offset..end][MIN_FIELD + |f.value.data|..] == b[next..end];
        JoinNext(fields, f.value, DecodeFields(b[next..end], count - i - 1));
        fields := fields + [f.value];
        offset := next;
        i := i + 1;
      }
      assert fields + [] == fields;
    }
    r := Some(Transaction(b[0], b[1], b[2..4], b[4..8], b[8..12], b[12..16], b[16..20], b[20..22], fields));
  }

  lemma JoinNothing(more: Option<seq<Field>>)
    ensures Joined([], more) == more
  {
    if more.Some? {
      assert [] + more.value == more.value;
    }
  }

  lemma JoinNext(fs: seq<Field>, f: Field, more: Option<seq<Field>>)
    ensures Joined(fs, if more.None? then None else Some([f] + more.value)) == Joined(fs + [f], more)
  {
    if more.Some? {
      assert fs + ([f] + more.value) == fs + [f] + more.value;
    }
  }
}
