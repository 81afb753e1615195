/** The wire format of transactions, byte by byte, and what the scanner and the parser make of
    bytes that no encoder wrote (transaction.c:60-176, field.c:29-63). */
module WireFormat {
  import opened Bits
  import opened Wrappers
  import opened Transactions

  function Two(b: seq<byte>, at: nat): nat
    requires at + 2 <= |b|
  {
    0x100 * (b[at] as int) + b[at + 1] as int
  }

  function FourBytes(b: seq<byte>, at: nat): nat
    requires at + 4 <= |b|
  {
    0x100_0000 * (b[at] as int) + 0x1_0000 * (b[at + 1] as int) + Two(b, at + 2)
  }

  lemma BeNumTwo(b: seq<byte>, at: nat)
    requires at + 2 <= |b|
    ensures BeNum(b[at..at + 2]) == Two(b, at)
  {
    var w := b[at..at + 2];
    assert w[..1][..0] == [] && BeNum([]) == 0;
    assert BeNum(w[..1]) == w[0];
  }

  lemma BeNumFour(b: seq<byte>, at: nat)
    requires at + 4 <= |b|
    ensures BeNum(b[at..at + 4]) == FourBytes(b, at)
  {
    hide BeNum;
    BeNumTwo(b, at);
    BeNumLast(b[at..at + 3]);
    BeNumLast(b[at..at + 4]);
    assert b[at..at + 4][..3] == b[at..at + 3] && b[at..at + 3][..2] == b[at..at + 2];
  }

  lemma BeNumLast(w: seq<byte>)
    requires w != []
    ensures BeNum(w) == BeNum(w[..|w| - 1]) * 0x100 + w[|w| - 1]
  {
  }

  // ----- what the sender writes

  /** The header, byte by byte: numbers are big-endian, both sizes count what follows byte 20. */
  lemma HeaderLayout(t: Transaction)
    requires Sized(t)
    ensures var b := Encode(t);
            && |b| == 20 + Payload(t) && b[0] == t.flags && b[1] == t.isReply
            && b[2..4] == t.typ && b[4..8] == t.id && b[8..12] == t.errorCode
            && FourBytes(b, 12) == FourBytes(b, 16) == |b| - 20
            && Two(b, 20) == |t.fields|
  {
    hide Encode, BeNum, BeBytes, EncodeFields;
    HeaderIs(t);
    BeNumFour(Encode(t), 12);
    BeNumFour(Encode(t), 16);
    BeNumTwo(Encode(t), 20);
  }

  /** Where field i begins. */
  function FieldAt(fs: seq<Field>, i: nat): nat
    requires i <= |fs|
  {
    if i == 0 then 22 else FieldAt(fs, i - 1) + 4 + |fs[i - 1].data|
  }

  /** The fields follow from byte 22 on: type, big-endian length, data. */
  lemma FieldLayout(t: Transaction, i: nat)
    requires Sized(t) && i < |t.fields|
    ensures var b, at, f := Encode(t), FieldAt(t.fields, i), t.fields[i];
            && at + 4 + |f.data| <= |b|
            && b[at..at + 2] == f.typ && Two(b, at + 2) == |f.data| && b[at + 4..at + 4 + |f.data|] == f.data
  {
    hide Encode, BeNum, BeBytes, EncodeFields, EncodeField;
    var b, at, f := Encode(t), FieldAt(t.fields, i), t.fields[i];
    HeaderIs(t);
    FieldAtIs(t.fields, i);
    FieldsSplit(t.fields, i);
    FirstField(t.fields[i..]);
    var e, tail := EncodeFields(t.fields), EncodeField(f) + EncodeFields(t.fields[i..][1..]);
    InField(f, EncodeFields(t.fields[i..][1..]));
    assert e[at - 22..] == tail;
    assert b[at..] == b[22..][at - 22..];
    Shifted(b, at, tail, |f.data|);
  }

  lemma Shifted(b: seq<byte>, at: nat, tail: seq<byte>, n: nat)
    requires at <= |b| && b[at..] == tail && 4 + n <= |tail|
    ensures at + 4 + n <= |b|
    ensures b[at..at + 2] == tail[..2] && Two(b, at + 2) == Two(tail, 2) && b[at + 4..at + 4 + n] == tail[4..4 + n]
  {
    assert b[at..at + 2] == b[at..][..2];
    var x, y := b[at + 4..at + 4 + n], tail[4..4 + n];
    assert |x| == |y| && forall k :: 0 <= k < n ==> x[k] == y[k];
    assert b[at + 2] == b[at..][2] && b[at + 3] == b[at..][3];
  }

  lemma FirstField(fs: seq<Field>)
    requires fs != []
    ensures EncodeFields(fs) == EncodeField(fs[0]) + EncodeFields(fs[1..])
  {
  }

  lemma InField(f: Field, more: seq<byte>)
    requires f.Valid()
    ensures var b := EncodeField(f) + more;
            && |b| >= 4 + |f.data|
            && b[..2] == f.typ && Two(b, 2) == |f.data| && b[4..4 + |f.data|] == f.data
  {
    hide BeNum, BeBytes, Pow2;
    var b := EncodeField(f) + more;
    assert b[2..4] == f.size;
    Pow2Values();
    BeNumOfBytes(|f.data|, 2);
    BeNumTwo(b, 2);
  }

  lemma {:induction false} FieldAtIs(fs: seq<Field>, i: nat)
    requires i <= |fs| && forall k :: 0 <= k < |fs| ==> fs[k].Valid()
    ensures FieldAt(fs, i) == 22 + |EncodeFields(fs[..i])|
  {
    hide EncodeField, EncodeFields;
    if i == 0 {
      NoFields();
      assert fs[..0] == [];
    } else {
      FieldAtIs(fs, i - 1);
      EncodeFieldsSnoc(fs[..i - 1], fs[i - 1]);
      assert fs[..i] == fs[..i - 1] + [fs[i - 1]];
      FieldRoundTrip(fs[i - 1], []);
    }
  }

  lemma {:induction false} FieldsSplit(fs: seq<Field>, i: nat)
    requires i <= |fs|
    ensures |EncodeFields(fs[..i])| <= |EncodeFields(fs)|
    ensures EncodeFields(fs)[|EncodeFields(fs[..i])|..] == EncodeFields(fs[i..])
  {
    hide EncodeField;
    if i == 0 {
      assert fs[..0] == [] && fs[0..] == fs;
    } else {
      FieldsSplit(fs[1..], i - 1);
      assert fs[1..][..i - 1] == fs[..i][1..] && fs[1..][i - 1..] == fs[i..];
    }
  }

  // ----- what scanner and parser make of any bytes

  /** The scanner takes n bytes exactly if bytes 12 to 15 say so and they are all there. */
  lemma ScanIff(b: seq<byte>, n: nat)
    requires n > 0
    ensures Scan(b) == n <==> |b| >= 16 && n == 20 + FourBytes(b, 12) && n <= |b|
  {
    hide BeNum;
    if |b| >= 16 {
      BeNumFour(b, 12);
    }
  }

  /** A list of fields is parsed exactly from the bytes that begin with its encoding. */
  lemma {:induction false} DecodeFieldsIff(b: seq<byte>, n: nat, fs: seq<Field>)
    ensures DecodeFields(b, n) == Some(fs) <==>
      |fs| == n && (forall i :: 0 <= i < n ==> fs[i].Valid()) && EncodeFields(fs) <= b
    decreases n
  {
    hide DecodeField, EncodeField, Field.Valid;
    if n == 0 {
      NoFields();
    } else {
      if fs != [] {
        DecodeFieldIff(b, fs[0]);
        if DecodeField(b) == Some(fs[0]) {
          var rest := b[MIN_FIELD + |fs[0].data|..];
          DecodeFieldsIff(rest, n - 1, fs[1..]);
          EncodedLength(fs[0]);
          assert EncodeField(fs[0]) + rest == b;
          assert EncodeFields(fs) <= b <==> EncodeFields(fs[1..]) <= rest;
          assert fs == [fs[0]] + fs[1..];
          assert forall i :: 0 < i < |fs| ==> fs[i] == fs[1..][i - 1];
        }
      }
    }
  }

  lemma EncodedLength(f: Field)
    requires f.Valid()
    ensures |EncodeField(f)| == MIN_FIELD + |f.data|
  {
  }

  lemma DecodeFieldIff(b: seq<byte>, f: Field)
    ensures DecodeField(b) == Some(f) <==> f.Valid() && EncodeField(f) <= b
  {
    hide BeNum, BeBytes;
    if f.Valid() && EncodeField(f) <= b {
      FieldRoundTrip(f, b[|EncodeField(f)|..]);
      assert EncodeField(f) + b[|EncodeField(f)|..] == b;
    }
    if DecodeField(b) == Some(f) {
      BeBytesOfTwo(b, 2);
      assert EncodeField(f) == b[..MIN_FIELD + |f.data|];
    }
  }

  lemma BeBytesOfTwo(b: seq<byte>, at: nat)
    requires at + 2 <= |b|
    ensures BeNum(b[at..at + 2]) < 0x1_0000 && BeBytes(BeNum(b[at..at + 2]), 2) == b[at..at + 2]
  {
    hide BeNum;
    BeNumTwo(b, at);
    var x, y := b[at] as int, b[at + 1] as int;
    assert (0x100 * x + y) / 0x100 == x && (0x100 * x + y) % 0x100 == y;
    assert BeBytes(x, 1) == BeBytes(0, 0) + [x];
    assert BeBytes(0x100 * x + y, 2) == BeBytes(x, 1) + [y];
  }

  /** Any bytes are parsed exactly if the header is there, the total size fits, at most 128
      fields are announced and that many fit; what comes out is where it was on the wire. */
  lemma DecodeIff(b: seq<byte>, t: Transaction)
    requires !LengthWraps(b)
    ensures Decode(b) == Some(t) <==>
      && |b| >= 22 && 20 + FourBytes(b, 12) <= |b| && |t.fields| == Two(b, 20) <= 128
      && b[..22] == [t.flags, t.isReply] + t.typ + t.id + t.errorCode + t.totalSize + t.dataSize + t.paramCount
      && |t.typ| == 2 && |t.id| == |t.errorCode| == |t.totalSize| == |t.dataSize| == 4 && |t.paramCount| == 2
      && (forall i :: 0 <= i < |t.fields| ==> t.fields[i].Valid())
      && EncodeFields(t.fields) <= b[22..]
      && (t.fields != [] ==> 22 + |EncodeFields(t.fields)| <= 20 + FourBytes(b, 12))
  {
    hide BeNum, DecodeFields, EncodeFields, Field.Valid;
    if |b| >= 22 {
      BeNumFour(b, 12);
      BeNumTwo(b, 20);
      HeaderParts(b, t);
      NoFields();
      var len, count := 20 + FourBytes(b, 12), Two(b, 20);
      if count > 0 && 22 <= len <= |b| {
        DecodeFieldsIff(b[22..len], count, t.fields);
        var e := EncodeFields(t.fields);
        assert e <= b[22..len] <==> e <= b[22..] && 22 + |e| <= len;
      }
    }
  }

  lemma HeaderParts(b: seq<byte>, t: Transaction)
    requires |b| >= 22
    ensures
      (&& b[..22] == [t.flags, t.isReply] + t.typ + t.id + t.errorCode + t.totalSize + t.dataSize + t.paramCount
       && |t.typ| == 2 && |t.id| == |t.errorCode| == |t.totalSize| == |t.dataSize| == 4 && |t.paramCount| == 2)
      <==> (&& b[0] == t.flags && b[1] == t.isReply && b[2..4] == t.typ && b[4..8] == t.id && b[8..12] == t.errorCode
            && b[12..16] == t.totalSize && b[16..20] == t.dataSize && b[20..22] == t.paramCount)
  {
    var h := b[..22];
    assert h[2..4] == b[2..4] && h[4..8] == b[4..8] && h[8..12] == b[8..12];
    assert h[12..16] == b[12..16] && h[16..20] == b[16..20] && h[20..22] == b[20..22];
    assert h == [h[0], h[1]] + h[2..4] + h[4..8] + h[8..12] + h[12..16] + h[16..20] + h[20..22];
    var r := [t.flags, t.isReply] + t.typ + t.id + t.errorCode + t.totalSize + t.dataSize + t.paramCount;
    if |t.typ| == 2 && |t.id| == |t.errorCode| == |t.totalSize| == |t.dataSize| == 4 && |t.paramCount| == 2 {
      assert r[2..4] == t.typ && r[4..8] == t.id && r[8..12] == t.errorCode;
      assert r[12..16] == t.totalSize && r[16..20] == t.dataSize && r[20..22] == t.paramCount;
    }
  }
}
