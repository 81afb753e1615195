/** The text formats of the chat history by their characters (chat_history.c:146-301, 466-525,
    573-614, 647-684 and 768-784), and what is made of texts that append did not write. */
module HistoryFormat {
  import opened Bits
  import opened Wrappers
  import opened Aead
  import C = ChaCha20
  import opened Text
  import opened Json
  import opened HistoryRecord
  import opened HistoryScan
  import opened HistoryTombs
  import B = Base64

  // ----- base64

  const ALPHABET := "ABCDEFGHIJKLMNOPQRSTUVWXYZ" + "abcdefghijklmnopqrstuvwxyz" + "0123456789" + "+/"

  /** Table 1 of RFC 4648. */
  lemma AlphabetIs(v: B.sextet)
    ensures B.Char(v) == ALPHABET[v] as int
  {
    if v < 26 {
      assert ALPHABET[v] == "ABCDEFGHIJKLMNOPQRSTUVWXYZ"[v];
      LetterAt(v);
    } else if v < 52 {
      assert ALPHABET[v] == "abcdefghijklmnopqrstuvwxyz"[v - 26];
      LetterAt(v - 26);
    } else if v < 62 {
      assert ALPHABET[v] == "0123456789"[v - 52];
    } else {
      assert ALPHABET[v] == "+/"[v - 62];
    }
  }

  lemma LetterAt(v: nat)
    requires v < 26
    ensures "ABCDEFGHIJKLMNOPQRSTUVWXYZ"[v] as int == 65 + v && "abcdefghijklmnopqrstuvwxyz"[v] as int == 97 + v
  {
    if v == 0 || v == 10 || v == 20 {
    }
  }

  /** The decoding table: the place in the alphabet, 0 for the padding, and -1 for anything else. */
  lemma ValueIff(c: byte, v: int)
    ensures B.Value(c) == v <==>
      || (0 <= v < 64 && ALPHABET[v] as int == c)
      || (v == 0 && c == '=' as int)
      || (v == -1 && c != '=' as int && forall u: B.sextet :: B.Char(u) != c)
  {
    if 0 <= B.Value(c) && c != B.PAD {
      AlphabetIs(B.Value(c));
      assert B.Char(B.Value(c)) == c;
    }
    if 0 <= v < 64 {
      AlphabetIs(v);
      B.ValueOfChar(v);
    }
    forall u: B.sextet
      ensures B.Value(B.Char(u)) == u
    {
      B.ValueOfChar(u);
    }
  }

  predicate Known(s: Str) { forall i :: 0 <= i < |s| ==> B.Value(s[i]) >= 0 }

  /** A text is decoded exactly if its length is a multiple of four and every byte is in the table. */
  lemma {:induction false} DecodeIff(s: Str)
    ensures B.Decode(s).Some? <==> |s| % 4 == 0 && Known(s)
    decreases |s|
  {
    hide B.Value;
    if |s| >= 4 {
      DecodeIff(s[4..]);
      assert s == s[..4] + s[4..];
      if Known(s) {
        assert forall i :: 0 <= i < |s[4..]| ==> s[4..][i] == s[i + 4];
      }
      if B.Decode(s).Some? {
        forall i | 0 <= i < |s|
          ensures B.Value(s[i]) >= 0
        {
          assert i >= 4 ==> s[i] == s[4..][i - 4];
        }
      }
    }
  }

  /** The vectors of section 10 of RFC 4648. */
  lemma Base64Vectors()
    ensures B.Encode(BytesOf("f")) == BytesOf("Zg==") && B.Encode(BytesOf("fo")) == BytesOf("Zm8=")
    ensures B.Encode(BytesOf("foo")) == BytesOf("Zm9v") && B.Encode(BytesOf("foob")) == BytesOf("Zm9vYg==")
    ensures B.Encode(BytesOf("fooba")) == BytesOf("Zm9vYmE=") && B.Encode(BytesOf("foobar")) == BytesOf("Zm9vYmFy")
  {
    hide BytesOf;
    PlainTexts();
    CodedTexts();
    var foo, b, ba, bar := [102, 111, 111], [98], [98, 97], [98, 97, 114];
    assert B.Encode([]) == [] && B.Encode([102]) == [90, 103, 61, 61] && B.Encode([102, 111]) == [90, 109, 56, 61];
    assert B.Encode(b) == [89, 103, 61, 61] && B.Encode(ba) == [89, 109, 69, 61];
    assert bar[3..] == [] && B.Encode(bar) == [89, 109, 70, 121];
    FirstThree(foo, []);
    FirstThree(foo, b);
    FirstThree(foo, ba);
    FirstThree(foo, bar);
  }

  lemma PlainTexts()
    ensures BytesOf("f") == [102] && BytesOf("fo") == [102, 111] && BytesOf("foo") == [102, 111, 111] + []
    ensures BytesOf("foob") == [102, 111, 111] + [98] && BytesOf("fooba") == [102, 111, 111] + [98, 97]
    ensures BytesOf("foobar") == [102, 111, 111] + [98, 97, 114]
  {
  }

  lemma CodedTexts()
    ensures BytesOf("Zg==") == [90, 103, 61, 61] && BytesOf("Zm8=") == [90, 109, 56, 61]
    ensures BytesOf("Zm9v") == [90, 109, 57, 118] + [] && BytesOf("Zm9vYg==") == [90, 109, 57, 118] + [89, 103, 61, 61]
    ensures BytesOf("Zm9vYmE=") == [90, 109, 57, 118] + [89, 109, 69, 61]
    ensures BytesOf("Zm9vYmFy") == [90, 109, 57, 118] + [89, 109, 70, 121]
  {
  }

  lemma FirstThree(foo: seq<byte>, rest: seq<byte>)
    requires foo == [102, 111, 111]
    ensures B.Encode(foo + rest) == [90, 109, 57, 118] + B.Encode(rest)
  {
    assert (foo + rest)[3..] == rest;
  }

  // ----- numbers

  /** Digit i from the right is that of the number, and there is no leading zero. */
  lemma {:induction false} DecDigit(n: nat, i: nat)
    requires i < |Dec(n)|
    ensures Dec(n)[|Dec(n)| - 1 - i] == '0' as int + n / Pow10(i) % 10
    ensures n > 0 ==> Dec(n)[0] != '0' as int
    ensures n == 0 ==> Dec(n) == BytesOf("0")
    decreases n
  {
    if n < 10 {
      assert Pow10(0) == 1;
    } else if i == 0 {
      assert Pow10(0) == 1;
      DecDigit(n / 10, 0);
    } else {
      DecDigit(n / 10, i - 1);
      TenTimes(n, Pow10(i - 1));
    }
  }

  lemma TenTimes(n: nat, p: nat)
    requires p > 0
    ensures n / 10 / p == n / (10 * p)
  {
    var y := n / 10;
    assert y == p * (y / p) + y % p;
    MulAssoc(10, p, y / p);
    DivModUnique(n, 10 * p, y / p, 10 * (y % p) + n % 10);
  }

  /** A negative number is a minus and its absolute value. */
  lemma DecIntIs(n: int)
    ensures DecInt(n) == if n < 0 then BytesOf("-") + Dec(-n) else Dec(n)
  {
    hide Dec;
  }

  // ----- lines

  /** The text of a record. */
  lemma LineText(h: Header, nickQ: Str, bodyQ: Str)
    ensures Line(h, nickQ, bodyQ)
         == BytesOf("{\"id\":") + Dec(h.id) + BytesOf(",\"ch\":") + Dec(h.ch) + BytesOf(",\"ts\":") + DecInt(h.ts)
            + BytesOf(",\"flags\":") + Dec(h.flags) + BytesOf(",\"icon\":") + Dec(h.icon)
            + BytesOf(",\"nick\":") + nickQ + BytesOf(",\"body\":") + bodyQ + BytesOf("}\n")
  {
    hide Dec, DecInt, KeyOf, BytesOf, Item, LastItem;
    KeyTexts();
    var a, b, c, d, e := Dec(h.id), Dec(h.ch), DecInt(h.ts), Dec(h.flags), Dec(h.icon);
    var last := LastItem(bodyQ);
    var nick := Item(NICK, nickQ, last);
    var icon := Item(ICON, e, nick);
    var flags := Item(FLAGS, d, icon);
    var ts := Item(TS, c, flags);
    var ch := Item(CH, b, ts);
    var t := BytesOf("{\"id\":") + a;
    FirstItem(a, ch);
    NextItem(t, CH, b, ts);
    t := t + BytesOf(",\"ch\":") + b;
    NextItem(t, TS, c, flags);
    t := t + BytesOf(",\"ts\":") + c;
    NextItem(t, FLAGS, d, icon);
    t := t + BytesOf(",\"flags\":") + d;
    NextItem(t, ICON, e, nick);
    t := t + BytesOf(",\"icon\":") + e;
    NextItem(t, NICK, nickQ, last);
    t := t + BytesOf(",\"nick\":") + nickQ;
    LastPart(t, bodyQ);
  }

  lemma FirstItem(value: Str, rest: Str)
    ensures [OPEN_BRACE] + Item(ID, value, rest) == [OPEN_BRACE] + KeyOf(ID) + value + ([COMMA] + rest)
  {
    hide KeyOf;
  }

  lemma LastPart(t: Str, value: Str)
    ensures t + ([COMMA] + LastItem(value)) == t + ([COMMA] + KeyOf(BODY)) + value + END
  {
    hide KeyOf;
  }

  lemma NextItem(t: Str, name: Str, value: Str, rest: Str)
    ensures t + ([COMMA] + Item(name, value, rest)) == t + ([COMMA] + KeyOf(name)) + value + ([COMMA] + rest)
  {
    hide KeyOf;
  }

  lemma KeyTexts()
    ensures [OPEN_BRACE] + KeyOf(ID) == BytesOf("{\"id\":") && [COMMA] + KeyOf(CH) == BytesOf(",\"ch\":")
    ensures [COMMA] + KeyOf(TS) == BytesOf(",\"ts\":") && [COMMA] + KeyOf(FLAGS) == BytesOf(",\"flags\":")
    ensures [COMMA] + KeyOf(ICON) == BytesOf(",\"icon\":") && [COMMA] + KeyOf(NICK) == BytesOf(",\"nick\":")
    ensures [COMMA] + KeyOf(BODY) == BytesOf(",\"body\":") && END == BytesOf("}\n")
  {
  }

  /** When append finds room for a record, and which text it writes. */
  lemma RecordIff(key: Option<C.Key>, nonce: C.Nonce, h: Header, nick: Str, body: Str)
    ensures var text := if key.Some? then EncText(key.value, nonce, body) else body;
            var line := Line(h, Quote(nick), Quote(text));
            Record(key, nonce, h, nick, body)
            == if |Quote(nick)| < 132 && (key.Some? ==> |text| < 4224) && |Quote(text)| < 4352 && |line| < 2624
               then Some(line) else None
  {
    hide Line, Quote, EncText;
    if key.Some? {
      EncTextLength(key.value, nonce, body);
    }
  }

  /** The text of a tombstone. */
  lemma TombText(id: u64)
    ensures TombLine(id) == BytesOf("{\"id\":") + Dec(id) + BytesOf(",\"deleted\":true}\n")
  {
    hide Dec;
    KeyTexts();
    assert DELETED + [NEWLINE] == BytesOf(",\"deleted\":true}\n");
  }

  // ----- strings

  /** How a byte is written inside quotes. */
  lemma EscText(c: byte)
    ensures Esc(c) == if c == '"' as int then BytesOf("\\\"")
                      else if c == '\\' as int then BytesOf("\\\\")
                      else if c == '\n' as int then BytesOf("\\n")
                      else if c == '\r' as int then BytesOf("\\r")
                      else if c == '\t' as int then BytesOf("\\t")
                      else if c == 8 then BytesOf("\\b")
                      else if c == 12 then BytesOf("\\f")
                      else if c < 16 then BytesOf("\\u000") + [HexText()[c]]
                      else if c < 32 then BytesOf("\\u001") + [HexText()[c - 16]]
                      else [c]
  {
  }

  function HexText(): (t: Str)
    ensures |t| == 16
  {
    BytesOf("0123456789abcdef")
  }

  /** How the text behind a backslash is read, also where quoting never writes it. */
  lemma ReadEscaped(c: byte, rest: Str)
    ensures ReadBody(BytesOf("\\") + ([c] + rest))
         == [if c == 'n' as int then '\n' as int else if c == 'r' as int then '\r' as int else if c == 't' as int then '\t' as int
             else if c == 'b' as int then 8 else if c == 'f' as int then 12 else c] + ReadBody(rest)
  {
    var s := BytesOf("\\") + ([c] + rest);
    assert s[0] == BACKSLASH && s[1] == c && s[2..] == rest;
  }

  // ----- bodies

  /** A text is decrypted exactly if behind ENC: it is base64 of a nonce, the seal of some
      plaintext under it, and its tag, and the plaintext leaves room for a NUL. */
  lemma DecryptedIff(key: C.Key, text: Str, cap: nat, plain: seq<byte>)
    ensures Decrypted(key, text, cap) == Some(plain) <==>
      && ENC <= text && |plain| < cap
      && exists nonce: C.Nonce ::
           B.Decode(text[4..]) == Some(nonce + Seal(key, nonce, plain).ct + Seal(key, nonce, plain).tag)
  {
    hide B.Decode, Seal, Open;
    if ENC <= text && B.Decode(text[4..]).Some? {
      var raw := B.Decode(text[4..]).value;
      if Decrypted(key, text, cap) == Some(plain) {
        var nonce: C.Nonce, s := raw[..12], Sealed(raw[12..|raw| - 16], raw[|raw| - 16..]);
        OpenIffSealed(key, nonce, s, plain);
        OpenLength(key, nonce, s);
        assert raw == nonce + s.ct + s.tag;
      }
      if nonce: C.Nonce :| raw == nonce + Seal(key, nonce, plain).ct + Seal(key, nonce, plain).tag {
        var s := Seal(key, nonce, plain);
        OpenSeal(key, nonce, plain);
        RawParts(nonce, s.ct, s.tag);
      }
    }
  }

  lemma RawParts(nonce: seq<byte>, ct: seq<byte>, tag: seq<byte>)
    requires |nonce| == 12 && |tag| == 16
    ensures var raw := nonce + ct + tag;
            |raw| >= 28 && raw[..12] == nonce && raw[12..|raw| - 16] == ct && raw[|raw| - 16..] == tag
  {
  }

  lemma NoticeTexts()
    ensures ENC == BytesOf("ENC:") && FAILED == BytesOf("[decryption failed]")
  {
  }

  /** What a query shows for a body: without a key, or without ENC: in front, the text itself; else
      the plaintext up to its first NUL, or a notice if the text cannot be decrypted. */
  lemma ShownIs(key: Option<C.Key>, text: Str, shown: Str, plain: Option<seq<byte>>)
    requires shown == Shown(key, text)
    requires plain == if key.Some? then Decrypted(key.value, text, 2049) else None
    ensures key.None? || !(ENC <= text) ==> shown == text
    ensures key.Some? && ENC <= text && plain.None? ==> shown == FAILED
    ensures key.Some? && ENC <= text && plain.Some? ==>
      0 !in shown && (shown == plain.value || shown + [0] <= plain.value)
  {
    hide Decrypted;
    if plain.Some? {
      DecryptedShort(key.value, text, ENTRY_BODY);
      UpToNul(plain.value);
    }
  }

  lemma DecryptedShort(key: C.Key, text: Str, cap: nat)
    ensures Decrypted(key, text, cap).Some? ==> |Decrypted(key, text, cap).value| < cap
  {
    hide B.Decode, Open;
    if Decrypted(key, text, cap).Some? {
      var raw := B.Decode(text[4..]).value;
      OpenLength(key, raw[..12], Sealed(raw[12..|raw| - 16], raw[|raw| - 16..]));
    }
  }

  lemma {:induction false} UpToNul(b: seq<byte>)
    ensures CString(b) <= b && 0 !in CString(b) && (CString(b) == b || CString(b) + [0] <= b)
  {
    if b != [] && b[0] != 0 {
      UpToNul(b[1..]);
      assert b == [b[0]] + b[1..];
    }
  }

  /** The deleted flag is the bit of value 4. */
  lemma DeletedIs(flags: u16)
    ensures Deleted(flags) == if flags as int / 4 % 2 == 1 then flags else flags as int + 4
  {
    hide BitOr;
    OrTwoStep(flags, 4);
    OrTwoStep(flags / 2, 2);
    OrTwoStep(flags / 2 / 2, 1);
    OrZero(flags / 2 / 2 / 2);
  }

  lemma OrTwoStep(a: nat, b: nat)
    ensures BitOr(a, b) == 2 * BitOr(a / 2, b / 2) + (if a % 2 == 1 || b % 2 == 1 then 1 else 0)
  {
  }

  // ----- chunks

  /** fgets: a beginning of the file, at most size - 1 bytes, that ends with the first newline, or
      is full, or is all there is. */
  lemma {:induction false} FgetsIff(f: Str, size: nat, r: Str)
    requires size > 1 && f != []
    ensures r == Fgets(f, size) <==>
      && 0 < |r| < size && r <= f && NoNewline(r[..|r| - 1])
      && (r[|r| - 1] == NEWLINE || |r| == size - 1 || r == f)
    decreases |f|
  {
    if f[0] != NEWLINE && size > 2 && |f| > 1 && |r| > 1 && r[0] == f[0] {
      FgetsIff(f[1..], size - 1, r[1..]);
      FirstApart(f, r);
    }
  }

  lemma FirstApart(f: Str, r: Str)
    requires |f| > 1 && |r| > 1 && r[0] == f[0]
    ensures r <= f <==> r[1..] <= f[1..]
    ensures r == f <==> r[1..] == f[1..]
    ensures r[0] != NEWLINE ==> (NoNewline(r[..|r| - 1]) <==> NoNewline(r[1..][..|r[1..]| - 1]))
  {
    assert r == [r[0]] + r[1..] && f == [f[0]] + f[1..];
    var a, b := r[..|r| - 1], r[1..][..|r| - 2];
    assert forall i :: 0 <= i < |b| ==> b[i] == a[i + 1];
    assert forall i :: 0 < i < |a| ==> a[i] == b[i - 1];
  }
}
