/** One line of the chat history: what append writes and what a query reads back
    (chat_history.c:466-525, 573-614 and 647-684). */
module HistoryRecord {
  import opened Bits
  import opened Aead
  import opened Wrappers
  import opened ChaCha20
  import opened Text
  import opened Json
  import B = Base64

  type i64 = w: int | -0x8000_0000_0000_0000 <= w < 0x8000_0000_0000_0000

  const LINE_MAX: nat := 2624     // LM_CHAT_LINE_MAX
  const NICK_CAP: nat := 132      // nick_q
  const BODY_CAP: nat := 4352     // body_q
  const ENC_CAP: nat := 4224      // enc
  const ENTRY_NICK: nat := 65     // lm_chat_entry_t.nick
  const ENTRY_BODY: nat := 2049   // lm_chat_entry_t.body
  const IS_DELETED: nat := 4

  // The keys of a record.
  const ID: Str := [105, 100]
  const CH: Str := [99, 104]
  const TS: Str := [116, 115]
  const FLAGS: Str := [102, 108, 97, 103, 115]
  const ICON: Str := [105, 99, 111, 110]
  const NICK: Str := [110, 105, 99, 107]
  const BODY: Str := [98, 111, 100, 121]

  const ENC: Str := [69, 78, 67, 58]  // ENC:
  const OPEN_BRACE: byte := 123
  const END: Str := [125, NEWLINE]

  // ----- the text of a line

  /** "name":value,rest */
  function Item(name: Str, value: Str, rest: Str): Str {
    KeyOf(name) + (value + ([COMMA] + rest))
  }

  function LastItem(value: Str): Str { KeyOf(BODY) + (value + END) }

  datatype Header = Header(id: u64, ch: u16, ts: i64, flags: u16, icon: u16)

  function Line(h: Header, nickQ: Str, bodyQ: Str): Str {
    [OPEN_BRACE]
    + Item(ID, Dec(h.id), Item(CH, Dec(h.ch), Item(TS, DecInt(h.ts), Item(FLAGS, Dec(h.flags), Item(ICON, Dec(h.icon),
        Item(NICK, nickQ, LastItem(bodyQ)))))))
  }

  // ----- encrypted bodies

  /** "ENC:" and the base64 of nonce, ciphertext and tag. */
  function EncText(key: Key, nonce: Nonce, plain: Str): Str {
    var s := Seal(key, nonce, plain);
    ENC + B.Encode(nonce + s.ct + s.tag)
  }

  /** The length bound lm_body_encrypt checks. */
  function EncLength(n: nat): nat { 4 + (n + 28 + 2) / 3 * 4 }

  method BodyEncrypt(key: Key, nonce: Nonce, plain: Str, cap: nat) returns (r: Option<Str>)
    ensures r == if EncLength(|plain|) + 1 <= cap then Some(EncText(key, nonce, plain)) else None
  {
    hide Seal, B.Encode;
    var n := 12 + |plain| + 16;
    var raw := new byte[n](_ => 0);
    OpenSeal(key, nonce, plain);
    Store(raw, 0, nonce);
    assert raw[..12] == nonce;
    var tag := Encrypt(key, nonce, plain, raw, 12);
    assert raw[..12 + |plain|] == nonce + Seal(key, nonce, plain).ct;
    Store(raw, 12 + |plain|, tag);
    assert raw[..] == nonce + Seal(key, nonce, plain).ct + tag;
    if cap < 4 + (n + 2) / 3 * 4 + 1 {
      return None;
    }
    var text := B.B64Encode(raw[..]);
    r := Some(ENC + text);
  }

  /** What lm_body_decrypt yields; the bytes of the buffer, before they are read as a string. */
  function Decrypted(key: Key, text: Str, cap: nat): Option<seq<byte>> {
    if !(ENC <= text) then None
    else
      var raw := B.Decode(text[4..]);
      if raw.None? || |raw.value| < 28 || |raw.value| - 28 + 1 > cap then None
      else OpenRaw(key, raw.value)
  }

  function OpenRaw(key: Key, raw: seq<byte>): Option<seq<byte>>
    requires |raw| >= 28
  {
    Open(key, raw[..12], Sealed(raw[12..|raw| - 16], raw[|raw| - 16..]))
  }

  lemma {:induction false} DecodedLength(s: Str)
    ensures B.Decode(s).Some? ==> |B.Decode(s).value| <= |s| / 4 * 3
    decreases |s|
  {
    hide B.Ungroup;
    if |s| >= 4 {
      DecodedLength(s[4..]);
    }
  }

  function RawCap(b64: Str): nat { |b64| / 4 * 3 + 1 }

  /** Decrypting the text reads inside the base64 table. */
  predicate TextInTable(text: Str) {
    ENC <= text ==> B.InTable(text[4..], RawCap(text[4..]))
  }

  method BodyDecrypt(key: Key, text: Str, cap: nat) returns (r: Option<seq<byte>>)
    requires TextInTable(text)
    ensures r == Decrypted(key, text, cap)
  {
    hide Open, B.Decode;
    if !(ENC <= text) {
      return None;
    }
    var b64 := text[4..];
    DecodedLength(b64);
    var raw := B.B64Decode(b64, RawCap(b64));
    if raw.None? || |raw.value| < 12 + 16 {
      return None;
    }
    var b := raw.value;
    var n := |b| - 12 - 16;
    if cap < n + 1 {
      return None;
    }
    var out := new byte[cap](_ => 0);
    var ok := Decrypt(key, b[..12], Sealed(b[12..|b| - 16], b[|b| - 16..]), out);
    if ok {
      OpenLength(key, b[..12], Sealed(b[12..|b| - 16], b[|b| - 16..]));
      r := Some(out[..n]);
    } else {
      r := None;
    }
  }

  lemma EncTextLength(key: Key, nonce: Nonce, plain: Str)
    ensures |EncText(key, nonce, plain)| == EncLength(|plain|)
  {
    hide Seal, B.Encode;
    OpenSeal(key, nonce, plain);
  }

  /** Decryption inverts encryption, for every key, nonce and body that fits the buffer. */
  lemma DecryptedEncText(key: Key, nonce: Nonce, plain: Str, cap: nat)
    requires |plain| + 1 <= cap
    ensures Decrypted(key, EncText(key, nonce, plain), cap) == Some(plain)
  {
    hide Seal, Open, B.Encode, B.Decode;
    var s := Seal(key, nonce, plain);
    OpenSeal(key, nonce, plain);
    var raw := nonce + s.ct + s.tag;
    B.DecodeEncode(raw);
    assert EncText(key, nonce, plain)[4..] == B.Encode(raw);
    assert raw[..12] == nonce && raw[12..|raw| - 16] == s.ct && raw[|raw| - 16..] == s.tag;
  }

  // ----- the record

  /** The body field as append writes it: encrypted when there is a key. */
  function Stored(key: Option<Key>, nonce: Nonce, body: Str): Str {
    if key.Some? then EncText(key.value, nonce, body) else body
  }

  function StoredFits(key: Option<Key>, body: Str): bool {
    key.None? || EncLength(|body|) + 1 <= ENC_CAP
  }

  /** The line append writes, if nothing overflows one of its buffers. */
  function Record(key: Option<Key>, nonce: Nonce, h: Header, nick: Str, body: Str): (r: Option<Str>)
    ensures r.Some? ==> 0 < |r.value| < LINE_MAX
  {
    var nickQ := Quote(nick);
    var bodyQ := Quote(Stored(key, nonce, body));
    var line := Line(h, nickQ, bodyQ);
    if |nickQ| < NICK_CAP && StoredFits(key, body) && |bodyQ| < BODY_CAP && |line| < LINE_MAX then Some(line) else None
  }

  method FormatRecord(key: Option<Key>, nonce: Nonce, h: Header, nick: Str, body: Str) returns (r: Option<Str>)
    ensures r == Record(key, nonce, h, nick, body)
  {
    hide Quote, QuoteBody, Line, EncText, EncLength;
    var nickQ := JsonQuote(NICK_CAP, nick);
    if nickQ.None? {
      return None;
    }
    var text := body;
    if key.Some? {
      var enc := BodyEncrypt(key.value, nonce, body, ENC_CAP);
      if enc.None? {
        return None;
      }
      text := enc.value;
    }
    var bodyQ := JsonQuote(BODY_CAP, text);
    if bodyQ.None? {
      return None;
    }
    var line := Line(h, nickQ.value, bodyQ.value);
    if |line| == 0 || |line| >= LINE_MAX {
      return None;
    }
    r := Some(line);
  }

  datatype Entry = Entry(id: u64, ch: u16, ts: i64, flags: u16, icon: u16, nick: Str, body: Str)

  /** The value of a number field, 0 if it is missing. */
  function Num(line: Str, name: Str): u64 {
    var v := GetU64(line, name);
    if v.None? then 0 else v.value
  }

  function TextOf(line: Str, name: Str, cap: nat): Str {
    var v := GetString(line, name, cap);
    if v.None? then [] else v.value
  }

  function Cast16(v: u64): u16 { v % 0x1_0000 }
  function CastI64(v: u64): i64 { if v < 0x8000_0000_0000_0000 then v else v - 0x1_0000_0000_0000_0000 }

  function CString(b: seq<byte>): Str {
    if b == [] || b[0] == 0 then [] else [b[0]] + CString(b[1..])
  }

  /** [decryption failed] */
  const FAILED: Str := [91, 100, 101, 99, 114, 121, 112, 116, 105, 111, 110, 32, 102, 97, 105, 108, 101, 100, 93]

  /** The body as shown: decrypted if there is a key and the text begins with ENC: */
  function Shown(key: Option<Key>, text: Str): Str {
    if key.Some? && ENC <= text then
      var plain := Decrypted(key.value, text, ENTRY_BODY);
      if plain.None? then FAILED else Truncate(CString(plain.value), ENTRY_BODY)
    else text
  }

  /** flags |= HL_CHAT_FLAG_IS_DELETED */
  function Deleted(flags: u16): u16 {
    assert Pow2(16) == 0x1_0000 by { Pow2Values(); }
    OrRange(flags, IS_DELETED, 16);
    BitOr(flags, IS_DELETED)
  }

  /** lm_parse_entry. */
  function Parse(key: Option<Key>, tombs: seq<u64>, line: Str): Option<Entry> {
    var id := GetU64(line, ID);
    if id.None? then None
    else
      var e := Entry(id.value, Cast16(Num(line, CH)), CastI64(Num(line, TS)), Cast16(Num(line, FLAGS)), Cast16(Num(line, ICON)),
                     TextOf(line, NICK, ENTRY_NICK), Shown(key, TextOf(line, BODY, ENTRY_BODY)));
      Some(Masked(tombs, e))
  }

  function Masked(tombs: seq<u64>, e: Entry): Entry {
    if e.id in tombs then e.(flags := Deleted(e.flags), nick := [], body := []) else e
  }

  /** lm_tomb_has. */
  method TombHas(tombs: seq<u64>, id: u64) returns (has: bool)
    ensures has <==> id in tombs
  {
    var i := 0;
    while i < |tombs|
      invariant 0 <= i <= |tombs|
      invariant id !in tombs[..i]
    {
      if tombs[i] == id {
        return true;
      }
      i := i + 1;
    }
    has := false;
  }

  method GetText(line: Str, name: Str, cap: nat) returns (r: Str)
    requires cap > 0
    ensures r == TextOf(line, name, cap)
  {
    hide GetString;
    var v := JsonGetString(line, name, cap);
    r := if v.None? then [] else v.value;
  }

  /** Parsing the line under this key reads inside the base64 table. */
  predicate LineInTable(key: Option<Key>, line: Str) {
    key.Some? ==> TextInTable(TextOf(line, BODY, ENTRY_BODY))
  }

  method ParseEntry(key: Option<Key>, tombs: seq<u64>, line: Str) returns (r: Option<Entry>)
    requires LineInTable(key, line)
    ensures r == Parse(key, tombs, line)
  {
    hide GetU64, Num, TextOf, Decrypted, CString, Truncate, Deleted, Cast16, CastI64;
    var id := GetU64(line, ID);
    if id.None? {
      return None;
    }
    var nick := GetText(line, NICK, ENTRY_NICK);
    var body := GetText(line, BODY, ENTRY_BODY);
    if key.Some? && ENC <= body {
      var plain := BodyDecrypt(key.value, body, ENTRY_BODY);
      body := if plain.None? then FAILED else Truncate(CString(plain.value), ENTRY_BODY);
    }
    var e := Entry(id.value, Cast16(Num(line, CH)), CastI64(Num(line, TS)), Cast16(Num(line, FLAGS)), Cast16(Num(line, ICON)),
                   nick, body);
    var dead := TombHas(tombs, e.id);
    if dead {
      e := e.(flags := Deleted(e.flags), nick := [], body := []);
    }
    r := Some(e);
  }

  // ----- finding the fields

  predicate Letters(name: Str) { NoQuote(name) && |name| >= 2 && name[0] != COLON }

  predicate Differ(a: Str, b: Str) {
    Letters(a) && Letters(b) && (a[0] != b[0] || a[1] != b[1])
  }

  // A needle that looks for another key passes over an item whose value has no quote.
  lemma SkipItem(name: Str, value: Str, rest: Str, other: Str, needle: Str)
    requires Differ(name, other) && NoQuote(value)
    requires KeyOf(other) <= needle
    ensures After(Item(name, value, rest), needle) == After(rest, needle)
  {
    hide After;
    assert needle[0] == QUOTE && needle[1] == other[0] && needle[2] == other[1];
    var b := value + ([COMMA] + rest);
    AfterOtherKey(name, b, needle);
    assert b == (value + [COMMA]) + rest;
    AfterPlain(value + [COMMA], rest, needle);
  }

  lemma FindItem(name: Str, value: Str, rest: Str)
    ensures After(Item(name, value, rest), KeyOf(name)) == Some(value + ([COMMA] + rest))
  {
    hide After;
    AfterHere(KeyOf(name), value + ([COMMA] + rest));
  }

  /** The numbers before the texts: the items every lookup passes over. */
  function Icon(h: Header, rest: Str): Str { Item(ICON, Dec(h.icon), rest) }
  function Flags(h: Header, rest: Str): Str { Item(FLAGS, Dec(h.flags), Icon(h, rest)) }
  function Ts(h: Header, rest: Str): Str { Item(TS, DecInt(h.ts), Flags(h, rest)) }
  function Ch(h: Header, rest: Str): Str { Item(CH, Dec(h.ch), Ts(h, rest)) }
  function Id(h: Header, rest: Str): Str { [OPEN_BRACE] + Item(ID, Dec(h.id), Ch(h, rest)) }

  lemma SkipId(h: Header, rest: Str, other: Str, needle: Str)
    requires Differ(ID, other) && KeyOf(other) <= needle
    ensures After(Id(h, rest), needle) == After(Ch(h, rest), needle)
  {
    hide After, Ch, Item, Dec;
    AfterPlain([OPEN_BRACE], Item(ID, Dec(h.id), Ch(h, rest)), needle);
    SkipItem(ID, Dec(h.id), Ch(h, rest), other, needle);
  }

  lemma SkipCh(h: Header, rest: Str, other: Str, needle: Str)
    requires Differ(CH, other) && KeyOf(other) <= needle
    ensures After(Ch(h, rest), needle) == After(Ts(h, rest), needle)
  {
    hide After, Ts, Item, Dec;
    SkipItem(CH, Dec(h.ch), Ts(h, rest), other, needle);
  }

  lemma SkipTs(h: Header, rest: Str, other: Str, needle: Str)
    requires Differ(TS, other) && KeyOf(other) <= needle
    ensures After(Ts(h, rest), needle) == After(Flags(h, rest), needle)
  {
    hide After, Flags, Item, DecInt;
    SkipItem(TS, DecInt(h.ts), Flags(h, rest), other, needle);
  }

  lemma SkipFlags(h: Header, rest: Str, other: Str, needle: Str)
    requires Differ(FLAGS, other) && KeyOf(other) <= needle
    ensures After(Flags(h, rest), needle) == After(Icon(h, rest), needle)
  {
    hide After, Icon, Item, Dec;
    SkipItem(FLAGS, Dec(h.flags), Icon(h, rest), other, needle);
  }

  lemma SkipNumbers(h: Header, rest: Str, other: Str, needle: Str)
    requires Differ(ID, other) && Differ(CH, other) && Differ(TS, other) && Differ(FLAGS, other) && Differ(ICON, other)
    requires KeyOf(other) <= needle
    ensures After(Id(h, rest), needle) == After(rest, needle)
  {
    hide After, Id, Ch, Ts, Flags, Item, Dec;
    SkipId(h, rest, other, needle);
    SkipCh(h, rest, other, needle);
    SkipTs(h, rest, other, needle);
    SkipFlags(h, rest, other, needle);
    SkipItem(ICON, Dec(h.icon), rest, other, needle);
  }

  lemma ReadNumber(n: u64, rest: Str)
    ensures Strtoull(SkipBlanks(Dec(n) + ([COMMA] + rest))) == Some(n)
  {
    StrtoullDec(n, [COMMA] + rest);
  }

  lemma IdReadBack(h: Header, rest: Str)
    ensures GetU64(Id(h, rest), ID) == Some(h.id)
  {
    hide After, Ch, Dec, Item, Strtoull, SkipBlanks;
    AfterPlain([OPEN_BRACE], Item(ID, Dec(h.id), Ch(h, rest)), KeyOf(ID));
    FindItem(ID, Dec(h.id), Ch(h, rest));
    ReadNumber(h.id, Ch(h, rest));
  }

  lemma ChReadBack(h: Header, rest: Str)
    ensures GetU64(Id(h, rest), CH) == Some(h.ch)
  {
    hide After, Id, Ts, Dec, Item, Strtoull, SkipBlanks;
    SkipId(h, rest, CH, KeyOf(CH));
    FindItem(CH, Dec(h.ch), Ts(h, rest));
    ReadNumber(h.ch, Ts(h, rest));
  }

  lemma TsReadBack(h: Header, rest: Str)
    ensures GetU64(Id(h, rest), TS) == Some(h.ts % 0x1_0000_0000_0000_0000)
  {
    hide After, Id, Ch, Flags, DecInt, Item, Strtoull, SkipBlanks;
    SkipId(h, rest, TS, KeyOf(TS));
    SkipCh(h, rest, TS, KeyOf(TS));
    FindItem(TS, DecInt(h.ts), Flags(h, rest));
    StrtoullDecInt(h.ts, [COMMA] + Flags(h, rest));
  }

  lemma FlagsReadBack(h: Header, rest: Str)
    ensures GetU64(Id(h, rest), FLAGS) == Some(h.flags)
  {
    hide After, Id, Ch, Ts, Icon, Dec, Item, Strtoull, SkipBlanks;
    SkipId(h, rest, FLAGS, KeyOf(FLAGS));
    SkipCh(h, rest, FLAGS, KeyOf(FLAGS));
    SkipTs(h, rest, FLAGS, KeyOf(FLAGS));
    FindItem(FLAGS, Dec(h.flags), Icon(h, rest));
    ReadNumber(h.flags, Icon(h, rest));
  }

  lemma IconReadBack(h: Header, rest: Str)
    ensures GetU64(Id(h, rest), ICON) == Some(h.icon)
  {
    hide After, Id, Ch, Ts, Flags, Dec, Item, Strtoull, SkipBlanks;
    SkipId(h, rest, ICON, KeyOf(ICON));
    SkipCh(h, rest, ICON, KeyOf(ICON));
    SkipTs(h, rest, ICON, KeyOf(ICON));
    SkipFlags(h, rest, ICON, KeyOf(ICON));
    FindItem(ICON, Dec(h.icon), rest);
    ReadNumber(h.icon, rest);
  }

  lemma CastBack(ts: i64)
    ensures CastI64(ts % 0x1_0000_0000_0000_0000) == ts
  {
    if ts < 0 {
      NegativeModulo(ts);
    }
  }

  function TextItems(nickQ: Str, bodyQ: Str): Str { Item(NICK, nickQ, LastItem(bodyQ)) }

  lemma LineIs(h: Header, nickQ: Str, bodyQ: Str)
    ensures Line(h, nickQ, bodyQ) == Id(h, TextItems(nickQ, bodyQ))
  {
  }

  /** The nick is found and unquoted, whatever both texts contain. */
  lemma NickReadBack(h: Header, nick: Str, bodyQ: Str, cap: nat)
    ensures GetString(Line(h, Quote(nick), bodyQ), NICK, cap) == Some(Truncate(BackAll(nick), cap))
  {
    hide After, Id, QuoteBody, ReadBody, BackAll, Line, TextItems, Item, Truncate;
    var needle := StringKey(NICK);
    var rest := [COMMA] + LastItem(bodyQ);
    LineIs(h, Quote(nick), bodyQ);
    SkipNumbers(h, TextItems(Quote(nick), bodyQ), NICK, needle);
    var t := QuoteBody(nick) + [QUOTE] + rest;
    TextItemsIs(nick, bodyQ);
    AfterHere(needle, t);
    ReadQuoted(nick, rest);
  }

  lemma TextItemsIs(nick: Str, bodyQ: Str)
    ensures TextItems(Quote(nick), bodyQ) == StringKey(NICK) + (QuoteBody(nick) + [QUOTE] + ([COMMA] + LastItem(bodyQ)))
  {
    hide QuoteBody;
    KeySplit(NICK, QuoteBody(nick) + [QUOTE], [COMMA] + LastItem(bodyQ));
  }

  lemma KeySplit(name: Str, q: Str, rest: Str)
    ensures KeyOf(name) + ([QUOTE] + q + rest) == StringKey(name) + (q + rest)
  {
  }

  // Up to the closing quote, a quote follows a backslash.
  lemma QuotePlace(q: Str, rest: Str, i: nat)
    requires Tame(q)
    ensures var s := [QUOTE] + q + [QUOTE] + ([COMMA] + rest);
            && s[|q| + 1] == QUOTE && s[|q| + 2] == COMMA
            && (0 < i <= |q| && s[i] == QUOTE ==> s[i - 1] == BACKSLASH)
  {
    if 0 < i <= |q| {
      assert TameAt(q, i - 1);
    }
  }

  lemma MatchLetters(s: Str, j: nat)
    ensures MatchAt(s, StringKey(BODY), j) ==>
      && j + 8 <= |s| && s[j] == QUOTE && s[j + 1] == 98 && s[j + 2] == 111 && s[j + 3] == 100
      && s[j + 4] == 121 && s[j + 5] == QUOTE && s[j + 6] == COLON
  {
    var n := StringKey(BODY);
    assert n == [QUOTE, 98, 111, 100, 121, QUOTE, COLON, QUOTE];
    if MatchAt(s, n, j) {
      var t := s[j..];
      assert t[..8] == n;
      assert forall k :: 0 <= k < 8 ==> t[..8][k] == s[j + k];
    }
  }

  // No key begins inside a quoted text that is followed by a comma: its second quote would
  // have to be the closing one, and that has no colon behind it.
  lemma NoKeyInside(q: Str, rest: Str)
    requires Tame(q)
    ensures var a := [QUOTE] + q + [QUOTE]; forall j :: 0 <= j < |a| ==> !MatchAt(a + ([COMMA] + rest), StringKey(BODY), j)
  {
    hide MatchAt, Tame;
    var a := [QUOTE] + q + [QUOTE];
    var s := a + ([COMMA] + rest);
    forall j | 0 <= j < |a|
      ensures !MatchAt(s, StringKey(BODY), j)
    {
      QuotePlace(q, rest, j + 5);
      MatchLetters(s, j);
    }
  }

  lemma SkipNick(q: Str, rest: Str)
    requires Tame(q)
    ensures After(Item(NICK, [QUOTE] + q + [QUOTE], rest), StringKey(BODY)) == After(rest, StringKey(BODY))
  {
    hide After, Tame, MatchAt;
    var needle := StringKey(BODY);
    var nickQ := [QUOTE] + q + [QUOTE];
    AfterOtherKey(NICK, nickQ + ([COMMA] + rest), needle);
    NoKeyInside(q, rest);
    FindSkip(nickQ, [COMMA] + rest, needle);
    AfterShift(nickQ, [COMMA] + rest, needle);
    AfterPlain([COMMA], rest, needle);
  }

  /** The body is found and unquoted, whatever both texts contain. */
  lemma BodyReadBack(h: Header, nick: Str, body: Str, cap: nat)
    requires 0 !in nick
    ensures GetString(Line(h, Quote(nick), Quote(body)), BODY, cap) == Some(Truncate(BackAll(body), cap))
  {
    hide After, Id, QuoteBody, ReadBody, BackAll, Item, Tame;
    var needle := StringKey(BODY);
    var nickQ, bodyQ := Quote(nick), Quote(body);
    LineIs(h, nickQ, bodyQ);
    SkipNumbers(h, TextItems(nickQ, bodyQ), BODY, needle);
    QuoteBodyTame(nick);
    SkipNick(QuoteBody(nick), LastItem(bodyQ));
    var t := QuoteBody(body) + [QUOTE] + END;
    assert LastItem(bodyQ) == needle + t;
    AfterHere(needle, t);
    ReadQuoted(body, END);
  }

  // ----- what a query shows of an appended message

  /** The texts a nick buffer of 65 bytes gives back unchanged. */
  predicate NickReturns(nick: Str) { Clean(nick) && |nick| <= 64 }

  /** The bodies that come back unchanged: up to 2048 bytes plain, up to 1505 encrypted. */
  predicate BodyReturns(key: Option<Key>, body: Str) {
    if key.Some? then |body| <= 1505 else Clean(body) && |body| <= 2048
  }

  lemma {:induction false} BadByteShows(s: Str, i: nat)
    requires i < |s| && !Survives(s[i]) && forall k :: 0 <= k < i ==> Survives(s[k])
    ensures i < |BackAll(s)| && BackAll(s)[i] != s[i]
    decreases |s|
  {
    if i > 0 {
      assert Survives(s[0]);
      assert forall k :: 0 <= k < i - 1 ==> s[1..][k] == s[k + 1];
      BadByteShows(s[1..], i - 1);
    }
  }

  lemma {:induction false} FirstBad(s: Str, n: nat) returns (i: nat)
    requires n <= |s| && !Clean(s) && forall k :: 0 <= k < n ==> Survives(s[k])
    ensures i < |s| && !Survives(s[i]) && forall k :: 0 <= k < i ==> Survives(s[k])
    decreases |s| - n
  {
    if !Survives(s[n]) {
      i := n;
    } else {
      i := FirstBad(s, n + 1);
    }
  }

  /** A text comes back from a buffer of cap bytes exactly if it is clean and fits. */
  lemma ReturnsIff(s: Str, cap: nat)
    requires cap > 0
    ensures Truncate(BackAll(s), cap) == s <==> Clean(s) && |s| < cap
  {
    hide BackAll;
    UnquoteIff(s);
    if !Clean(s) {
      var i := FirstBad(s, 0);
      BadByteShows(s, i);
    }
  }

  lemma {:induction false} CStringWhole(s: Str)
    requires 0 !in s
    ensures CString(s) == s
  {
    if s != [] {
      CStringWhole(s[1..]);
      assert s == [s[0]] + s[1..];
    }
  }

  lemma {:induction false} CStringShorter(s: Str)
    ensures |CString(s)| <= |s|
  {
    if s != [] {
      CStringShorter(s[1..]);
    }
  }

  /** An encrypted body needs no escape. */
  lemma EncTextPlain(key: Key, nonce: Nonce, plain: Str)
    ensures NoEscape(EncText(key, nonce, plain)) && Clean(EncText(key, nonce, plain))
  {
    hide Seal, B.Encode;
    var s := Seal(key, nonce, plain);
    B.EncodePlain(nonce + s.ct + s.tag);
  }

  lemma EncTextBegins(key: Key, nonce: Nonce, body: Str, n: nat)
    requires 4 <= n <= |EncText(key, nonce, body)|
    ensures ENC <= EncText(key, nonce, body)[..n]
  {
    hide Seal, B.Encode;
    assert EncText(key, nonce, body)[..n][..4] == ENC;
  }

  lemma BoundIs(n: nat)
    ensures EncLength(n) <= 2048 <==> n <= 1505
    ensures (2048 - 4) / 4 * 3 == 1533 && EncLength(n) >= 4
  {
  }

  lemma ShownShort(key: Key, nonce: Nonce, body: Str)
    requires 0 !in body && |body| <= 1505
    ensures Shown(Some(key), Truncate(EncText(key, nonce, body), ENTRY_BODY)) == body
  {
    hide EncText, Decrypted, CString, EncLength;
    EncTextLength(key, nonce, body);
    BoundIs(|body|);
    var e := EncText(key, nonce, body);
    EncTextBegins(key, nonce, body, |e|);
    assert e[..|e|] == e;
    DecryptedEncText(key, nonce, body, ENTRY_BODY);
    CStringWhole(body);
  }

  // A longer one was cut, and what decrypts from the rest is shorter than the body.
  lemma ShownLong(key: Key, nonce: Nonce, body: Str)
    requires |body| > 1505
    ensures Shown(Some(key), Truncate(EncText(key, nonce, body), ENTRY_BODY)) != body
  {
    hide EncText, Decrypted, CString, EncLength;
    EncTextLength(key, nonce, body);
    BoundIs(|body|);
    var text := EncText(key, nonce, body)[..2048];
    EncTextBegins(key, nonce, body, 2048);
    DecryptedLength(key, text, ENTRY_BODY);
    var d := Decrypted(key, text, ENTRY_BODY);
    if d.Some? {
      CStringShorter(d.value);
    }
  }

  lemma DecryptedLength(key: Key, text: Str, cap: nat)
    ensures Decrypted(key, text, cap).Some? ==> |Decrypted(key, text, cap).value| + 28 <= (|text| - 4) / 4 * 3
  {
    hide B.Decode, Open;
    if ENC <= text {
      var raw := B.Decode(text[4..]);
      DecodedLength(text[4..]);
      if raw.Some? && |raw.value| >= 28 {
        var b := raw.value;
        OpenLength(key, b[..12], Sealed(b[12..|b| - 16], b[|b| - 16..]));
      }
    }
  }

  lemma BodyShown(key: Option<Key>, nonce: Nonce, body: Str)
    requires 0 !in body
    ensures Shown(key, Truncate(BackAll(Stored(key, nonce, body)), ENTRY_BODY)) == body <==> BodyReturns(key, body)
  {
    hide BackAll, EncText, Decrypted, CString;
    var text := Stored(key, nonce, body);
    if key.Some? {
      EncTextPlain(key.value, nonce, body);
      UnquoteIff(text);
      if |body| <= 1505 {
        ShownShort(key.value, nonce, body);
      } else {
        ShownLong(key.value, nonce, body);
      }
    } else {
      ReturnsIff(body, ENTRY_BODY);
    }
  }

  /** Append, then query: the header comes back, and nick and body come back exactly under the
      conditions above; a tombstoned message shows neither. */
  lemma AppendThenParse(key: Option<Key>, nonce: Nonce, h: Header, nick: Str, body: Str, tombs: seq<u64>)
    requires 0 !in nick && 0 !in body
    requires Record(key, nonce, h, nick, body).Some?
    ensures var p := Parse(key, tombs, Record(key, nonce, h, nick, body).value);
            && p.Some?
            && p.value.id == h.id && p.value.ch == h.ch && p.value.ts == h.ts && p.value.icon == h.icon
            && (h.id in tombs ==> p.value.flags == Deleted(h.flags) && p.value.nick == [] && p.value.body == [])
            && (h.id !in tombs ==> p.value.flags == h.flags)
            && (h.id !in tombs ==> (p.value.nick == nick <==> NickReturns(nick)))
            && (h.id !in tombs ==> (p.value.body == body <==> BodyReturns(key, body)))
  {
    hide Line, GetU64, GetString, BackAll, QuoteBody, Shown, Stored, Truncate, Id, TextItems, BodyReturns, Clean;
    var text := Stored(key, nonce, body);
    var line := Line(h, Quote(nick), Quote(text));
    var rest := TextItems(Quote(nick), Quote(text));
    LineIs(h, Quote(nick), Quote(text));
    IdReadBack(h, rest);
    ChReadBack(h, rest);
    TsReadBack(h, rest);
    FlagsReadBack(h, rest);
    IconReadBack(h, rest);
    CastBack(h.ts);
    NickReadBack(h, nick, Quote(text), ENTRY_NICK);
    BodyReadBack(h, nick, text, ENTRY_BODY);
    ReturnsIff(nick, ENTRY_NICK);
    BodyShown(key, nonce, body);
  }

  // ----- the shape of a line

  lemma DigitsUnbroken(s: Str)
    requires forall i :: 0 <= i < |s| ==> IsDigit(s[i]) || s[i] == MINUS
    ensures Unbroken(s)
  {
  }

  lemma QuoteUnbroken(s: Str)
    requires 0 !in s
    ensures Unbroken(Quote(s))
  {
    hide QuoteBody;
    QuoteBodyTame(s);
    var q := QuoteBody(s);
    forall i | 0 <= i < |q|
      ensures q[i] != NEWLINE && q[i] != 0
    {
      assert TameAt(q, i);
    }
  }

  lemma ItemUnbroken(name: Str, value: Str, rest: Str)
    requires Unbroken(name) && Unbroken(value) && Unbroken(rest)
    ensures Unbroken(Item(name, value, rest))
  {
    hide Unbroken;
    UnbrokenConcat([COMMA], rest);
    UnbrokenConcat(value, [COMMA] + rest);
    UnbrokenConcat(KeyOf(name), value + ([COMMA] + rest));
    KeyUnbroken(name);
  }

  lemma KeyUnbroken(name: Str)
    requires Unbroken(name)
    ensures Unbroken(KeyOf(name)) && Unbroken([COMMA]) && Unbroken([OPEN_BRACE])
  {
  }

  lemma NamesUnbroken()
    ensures Unbroken(ID) && Unbroken(CH) && Unbroken(TS) && Unbroken(FLAGS) && Unbroken(ICON) && Unbroken(NICK) && Unbroken(BODY)
  {
  }

  lemma NumbersUnbroken(h: Header, rest: Str)
    requires Unbroken(rest)
    ensures Unbroken(Id(h, rest))
  {
    hide Unbroken, Item;
    NamesUnbroken();
    KeyUnbroken(ID);
    DigitsUnbroken(Dec(h.icon));
    DigitsUnbroken(Dec(h.flags));
    DigitsUnbroken(DecInt(h.ts));
    DigitsUnbroken(Dec(h.ch));
    DigitsUnbroken(Dec(h.id));
    ItemUnbroken(ICON, Dec(h.icon), rest);
    ItemUnbroken(FLAGS, Dec(h.flags), Icon(h, rest));
    ItemUnbroken(TS, DecInt(h.ts), Flags(h, rest));
    ItemUnbroken(CH, Dec(h.ch), Ts(h, rest));
    ItemUnbroken(ID, Dec(h.id), Ch(h, rest));
    UnbrokenConcat([OPEN_BRACE], Item(ID, Dec(h.id), Ch(h, rest)));
  }

  lemma {:induction false} ItemEnds(name: Str, value: Str, front: Str)
    ensures Item(name, value, front + [NEWLINE]) == Item(name, value, front) + [NEWLINE]
  {
    assert [COMMA] + (front + [NEWLINE]) == [COMMA] + front + [NEWLINE];
    assert value + ([COMMA] + front + [NEWLINE]) == value + ([COMMA] + front) + [NEWLINE];
  }

  lemma LineEnds(h: Header, front: Str)
    ensures Id(h, front + [NEWLINE]) == Id(h, front) + [NEWLINE]
  {
    hide Item;
    ItemEnds(ICON, Dec(h.icon), front);
    ItemEnds(FLAGS, Dec(h.flags), Icon(h, front));
    ItemEnds(TS, DecInt(h.ts), Flags(h, front));
    ItemEnds(CH, Dec(h.ch), Ts(h, front));
    ItemEnds(ID, Dec(h.id), Ch(h, front));
  }

  /** A record is one line that fits the scan buffer and carries its id. */
  lemma RecordIsLine(key: Option<Key>, nonce: Nonce, h: Header, nick: Str, body: Str)
    requires 0 !in nick && 0 !in body
    requires Record(key, nonce, h, nick, body).Some?
    ensures var line := Record(key, nonce, h, nick, body).value;
            IsLine(line) && |line| < LINE_MAX && GetU64(line, ID) == Some(h.id) && GetU64(line, TS) == Some(h.ts % 0x1_0000_0000_0000_0000)
  {
    hide Line, GetU64, QuoteBody, Id, TextItems, Stored, Unbroken;
    var text := Stored(key, nonce, body);
    var rest := TextItems(Quote(nick), Quote(text));
    LineIs(h, Quote(nick), Quote(text));
    IdReadBack(h, rest);
    TsReadBack(h, rest);
    StoredNoNul(key, nonce, body);
    var front := TextItemsUnbroken(nick, text);
    NumbersUnbroken(h, front);
    LineEnds(h, front);
    assert Id(h, rest)[..|Id(h, rest)| - 1] == Id(h, front);
  }

  lemma StoredNoNul(key: Option<Key>, nonce: Nonce, body: Str)
    requires 0 !in body
    ensures 0 !in Stored(key, nonce, body)
  {
    hide EncText;
    if key.Some? {
      EncTextPlain(key.value, nonce, body);
    }
  }

  lemma BraceUnbroken()
    ensures Unbroken([125])
  {
  }

  lemma TextItemsUnbroken(nick: Str, text: Str) returns (front: Str)
    requires 0 !in nick && 0 !in text
    ensures Unbroken(front) && TextItems(Quote(nick), Quote(text)) == front + [NEWLINE]
  {
    hide Unbroken, Quote, Item;
    BraceUnbroken();
    var last := KeyOf(BODY) + (Quote(text) + [125]);
    QuoteUnbroken(nick);
    QuoteUnbroken(text);
    NamesUnbroken();
    KeyUnbroken(BODY);
    UnbrokenConcat(Quote(text), [125]);
    UnbrokenConcat(KeyOf(BODY), Quote(text) + [125]);
    ItemUnbroken(NICK, Quote(nick), last);
    ItemEnds(NICK, Quote(nick), last);
    assert LastItem(Quote(text)) == last + [NEWLINE];
    front := Item(NICK, Quote(nick), last);
  }

  lemma NumberLengths(h: Header)
    ensures |Dec(h.id)| <= 20 && |Dec(h.ch)| <= 5 && |Dec(h.flags)| <= 5 && |Dec(h.icon)| <= 5 && |DecInt(h.ts)| <= 21
  {
    hide Dec, Pow10;
    Pow10Values();
    DecLength(h.id, 20);
    DecLength(h.ch, 5);
    DecLength(h.flags, 5);
    DecLength(h.icon, 5);
    var ts: int := h.ts;
    DecLength(if ts < 0 then -ts else ts, 20);
  }

  /** Append never fails on a nick whose quoted form fits and a body whose quoted form stays
      below 2385 bytes; and with a key, never on a clean nick up to 64 and a body up to 1505 bytes. */
  lemma RecordFits(key: Option<Key>, nonce: Nonce, h: Header, nick: Str, body: Str)
    requires Clean(nick) && |nick| < ENTRY_NICK
    requires if key.Some? then |body| <= 1505 else |Quote(body)| < 2385
    ensures Record(key, nonce, h, nick, body).Some?
  {
    hide QuoteBody, EncText, Dec, DecInt, EncLength, Clean;
    QuoteBodyLength(nick);
    NumberLengths(h);
    if key.Some? {
      EncodedQuote(key.value, nonce, body);
    }
  }

  lemma EncodedQuote(key: Key, nonce: Nonce, body: Str)
    requires |body| <= 1505
    ensures EncLength(|body|) + 1 <= ENC_CAP && |Quote(EncText(key, nonce, body))| <= 2050
  {
    hide EncText, QuoteBody, EncLength;
    BoundIs(|body|);
    EncTextLength(key, nonce, body);
    EncTextPlain(key, nonce, body);
    QuotePlain(EncText(key, nonce, body));
  }

  // ----- which records are read inside the table

  /** A body stored in the clear that a later key takes for base64, outside the table. */
  predicate Exposed(key: Option<Key>, body: Str) {
    key.None? && ENC <= body && !TextInTable(Truncate(BackAll(body), ENTRY_BODY))
  }

  // Quoting and unquoting changes only what comes behind a control byte.
  lemma {:induction false} BackPrefix(p: Str, s: Str)
    requires forall i :: 0 <= i < |p| ==> Survives(p[i]) && p[i] != 117
    ensures p <= BackAll(s) <==> p <= s
    decreases |s|
  {
    hide HexDigit;
    if p != [] && s != [] && Survives(s[0]) {
      BackPrefix(p[1..], s[1..]);
      HeadPrefix(p, s[0], s[1..]);
      HeadPrefix(p, s[0], BackAll(s[1..]));
      assert s == [s[0]] + s[1..];
    }
  }

  lemma HeadPrefix(p: Str, c: byte, t: Str)
    requires p != []
    ensures p <= [c] + t <==> p[0] == c && p[1..] <= t
  {
    if p <= [c] + t {
      assert p[0] == ([c] + t)[0];
      assert p[1..] == ([c] + t)[..|p|][1..] == t[..|p| - 1];
    }
  }

  lemma TruncatedPrefix(p: Str, s: Str, cap: nat)
    requires |p| < cap
    ensures p <= Truncate(s, cap) <==> p <= s
  {
    if |s| >= cap {
      if p <= s {
        assert s[..cap - 1][..|p|] == p;
      }
    }
  }

  lemma EncTextInTable(key: Key, nonce: Nonce, plain: Str)
    ensures TextInTable(Truncate(EncText(key, nonce, plain), ENTRY_BODY))
  {
    hide Seal, B.Encode, B.InTable;
    var s := Seal(key, nonce, plain);
    B.EncodePlain(nonce + s.ct + s.tag);
    var e := EncText(key, nonce, plain);
    forall i | 0 <= i < |e|
      ensures e[i] < 0x80
    {
      if i >= 4 {
        assert e[i] == B.Encode(nonce + s.ct + s.tag)[i - 4];
      }
    }
    var t := Truncate(e, ENTRY_BODY);
    if ENC <= t {
      B.AsciiInTable(t[4..], RawCap(t[4..]));
    }
  }

  /** A record is parsed inside the table, under whatever key it is read, exactly unless it was
      stored in the clear and its text is taken for base64 outside the table. */
  lemma RecordInTableIff(read: Option<Key>, key: Option<Key>, nonce: Nonce, h: Header, nick: Str, body: Str)
    requires 0 !in nick && 0 !in body && Record(key, nonce, h, nick, body).Some?
    ensures LineInTable(read, Record(key, nonce, h, nick, body).value) <==> read.None? || !Exposed(key, body)
  {
    hide Line, GetString, BackAll, QuoteBody, EncText, Truncate, B.InTable;
    var text := Stored(key, nonce, body);
    BodyReadBack(h, nick, text, ENTRY_BODY);
    if key.Some? {
      EncTextPlain(key.value, nonce, body);
      UnquoteIff(text);
      EncTextInTable(key.value, nonce, body);
    } else {
      BackPrefix(ENC, body);
      TruncatedPrefix(ENC, BackAll(body), ENTRY_BODY);
    }
  }

  /** Such a body: ENC: and a group that begins with a byte above 127. */
  lemma ExposedBody()
    ensures Exposed(None, ENC + [0x80, 65, 65, 65]) && Clean(ENC + [0x80, 65, 65, 65])
  {
    hide BackAll;
    var b := ENC + [0x80, 65, 65, 65];
    assert Clean(b);
    UnquoteIff(b);
    var t := b[4..];
    assert t == [0x80, 65, 65, 65];
    assert !B.GroupInTable(t[0], t[1], t[2], t[3]);
  }
}
