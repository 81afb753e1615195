/** JSON string quoting as the chat history writes and reads it (chat_history.c:146-221). */
module Json {
  import opened Bits
  import opened Wrappers
  import opened Text

  // ----- quoting

  function HexDigit(n: nat): byte
    requires n < 16
  {
    if n < 10 then 48 + n else 87 + n
  }

  /** How one byte is written. */
  function Esc(c: byte): (e: Str)
    ensures 1 <= |e| <= 6
  {
    match c
    case 34 => [BACKSLASH, QUOTE]
    case 92 => [BACKSLASH, BACKSLASH]
    case 10 => [BACKSLASH, 110]
    case 13 => [BACKSLASH, 114]
    case 9 => [BACKSLASH, 116]
    case 8 => [BACKSLASH, 98]
    case 12 => [BACKSLASH, 102]
    case _ => if c < 0x20 then [BACKSLASH, 117, 48, 48, HexDigit(c / 16), HexDigit(c % 16)] else [c]
  }

  function QuoteBody(s: Str): Str {
    if s == [] then [] else Esc(s[0]) + QuoteBody(s[1..])
  }

  function Quote(s: Str): Str { [QUOTE] + QuoteBody(s) + [QUOTE] }

  lemma {:induction false} QuoteBodySnoc(s: Str, c: byte)
    ensures QuoteBody(s + [c]) == QuoteBody(s) + Esc(c)
  {
    hide Esc;
    if s == [] {
      assert QuoteBody([c][1..]) == [];
    } else {
      QuoteBodySnoc(s[1..], c);
      assert (s + [c])[1..] == s[1..] + [c];
    }
  }

  lemma {:induction false} QuoteBodyPrefix(s: Str, n: nat)
    requires n <= |s|
    ensures |QuoteBody(s[..n])| <= |QuoteBody(s)|
    decreases |s| - n
  {
    hide Esc, QuoteBody;
    if n == |s| {
      assert s[..n] == s;
    } else {
      QuoteBodyPrefix(s, n + 1);
      assert s[..n + 1] == s[..n] + [s[n]];
      QuoteBodySnoc(s[..n], s[n]);
    }
  }

  /** lm_json_quote into a buffer of cap bytes: the quoted text and its NUL must fit. */
  method JsonQuote(cap: nat, input: Str) returns (r: Option<Str>)
    ensures r == if |Quote(input)| < cap then Some(Quote(input)) else None
  {
    hide Esc, QuoteBody;
    if 1 >= cap {
      return None;
    }
    var out: Str := [QUOTE];
    var i := 0;
    NothingQuoted();
    assert input[..0] == [];
    while i < |input|
      invariant 0 <= i <= |input|
      invariant out == [QUOTE] + QuoteBody(input[..i]) && |out| < cap
    {
      assert input[..i + 1] == input[..i] + [input[i]];
      QuoteBodySnoc(input[..i], input[i]);
      QuoteBodyPrefix(input, i + 1);
      var esc := Esc(input[i]);
      if |out| + |esc| >= cap {
        return None;
      }
      out := out + esc;
      i := i + 1;
    }
    assert input[..i] == input;
    if |out| + 1 >= cap {
      return None;
    }
    r := Some(out + [QUOTE]);
  }

  lemma NothingQuoted()
    ensures QuoteBody([]) == []
  {
  }

  // ----- reading back

  function Unesc(c: byte): byte {
    match c
    case 110 => 10
    case 114 => 13
    case 116 => 9
    case 98 => 8
    case 102 => 12
    case _ => c
  }

  /** The text up to the next unescaped quote, unescaped. */
  function ReadBody(s: Str): Str {
    if s == [] || s[0] == QUOTE then []
    else if s[0] == BACKSLASH && |s| >= 2 then [Unesc(s[1])] + ReadBody(s[2..])
    else [s[0]] + ReadBody(s[1..])
  }

  function Truncate(s: Str, cap: nat): Str { if |s| < cap then s else s[..if cap == 0 then 0 else cap - 1] }

  /** `"name":"` */
  function StringKey(name: Str): Str { KeyOf(name) + [QUOTE] }

  /** lm_json_get_string into a buffer of cap bytes. */
  function GetString(line: Str, name: Str, cap: nat): Option<Str> {
    var t := After(line, StringKey(name));
    if t.None? then None else Some(Truncate(ReadBody(t.value), cap))
  }

  method JsonGetString(line: Str, name: Str, cap: nat) returns (r: Option<Str>)
    requires cap > 0
    ensures r == GetString(line, name, cap)
  {
    hide After, Unesc, ReadBody, Truncate;
    var t := After(line, StringKey(name));
    if t.None? {
      return None;
    }
    var p := t.value;
    ghost var all := ReadBody(p);
    var out: Str := [];
    ghost var whole: Str := [];
    TruncateNone(cap);
    assert whole + all == all;
    while p != [] && p[0] != QUOTE
      invariant all == whole + ReadBody(p)
      invariant out == Truncate(whole, cap)
      decreases |p|
    {
      ReadTurn(p);
      var c := p[0];
      if p[0] == BACKSLASH && |p| >= 2 {
        c := Unesc(p[1]);
        p := p[2..];
      } else {
        p := p[1..];
      }
      TruncateMore(whole, c, cap);
      assert whole + ([c] + ReadBody(p)) == whole + [c] + ReadBody(p);
      whole := whole + [c];
      if |out| + 1 < cap {
        out := out + [c];
      }
    }
    ReadTurn(p);
    assert whole + [] == whole;
    r := Some(out);
  }

  lemma TruncateNone(cap: nat)
    requires cap > 0
    ensures Truncate([], cap) == []
  {
  }

  // One turn of the reading loop.
  lemma ReadTurn(s: Str)
    ensures s == [] || s[0] == QUOTE ==> ReadBody(s) == []
    ensures s != [] && s[0] != QUOTE ==>
      ReadBody(s) == if s[0] == BACKSLASH && |s| >= 2 then [Unesc(s[1])] + ReadBody(s[2..]) else [s[0]] + ReadBody(s[1..])
  {
    hide Unesc;
  }

  lemma TruncateMore(s: Str, c: byte, cap: nat)
    requires cap > 0
    ensures Truncate(s + [c], cap) == if |Truncate(s, cap)| + 1 < cap then Truncate(s, cap) + [c] else Truncate(s, cap)
  {
  }

  // ----- the round trip

  /** The bytes that come back as they were: all but the control bytes without a short escape. */
  predicate Survives(c: byte) { c >= 0x20 || c == 10 || c == 13 || c == 9 || c == 8 || c == 12 }

  /** What comes back of one byte; an escape \u00xy is read as the five characters u00xy. */
  function Back(c: byte): Str {
    if Survives(c) then [c] else [117, 48, 48, HexDigit(c / 16), HexDigit(c % 16)]
  }

  function BackAll(s: Str): Str {
    if s == [] then [] else Back(s[0]) + BackAll(s[1..])
  }

  lemma ReadEsc(c: byte, t: Str)
    ensures ReadBody(Esc(c) + t) == Back(c) + ReadBody(t)
  {
    if Survives(c) && |Esc(c)| == 1 {
      assert (Esc(c) + t)[1..] == t;
    } else {
      var s := Esc(c) + t;
      assert s[0] == BACKSLASH && |s| >= 2;
      if Survives(c) {
        assert s[2..] == t;
      } else {
        ReadHex(c, t);
      }
    }
  }

  lemma ReadHex(c: byte, t: Str)
    requires c < 0x20
    ensures ReadBody([BACKSLASH, 117, 48, 48, HexDigit(c / 16), HexDigit(c % 16)] + t)
         == [117, 48, 48, HexDigit(c / 16), HexDigit(c % 16)] + ReadBody(t)
  {
    hide HexDigit;
    var a, b := HexDigit(c / 16), HexDigit(c % 16);
    HexPlain(c / 16);
    HexPlain(c % 16);
    var s := [BACKSLASH, 117, 48, 48, a, b] + t;
    assert s[2..] == [48, 48, a, b] + t;
    assert ([48, 48, a, b] + t)[1..] == [48, a, b] + t;
    assert ([48, a, b] + t)[1..] == [a, b] + t;
    assert ([a, b] + t)[1..] == [b] + t;
    assert ([b] + t)[1..] == t;
    assert ReadBody([b] + t) == [b] + ReadBody(t);
    assert ReadBody([a, b] + t) == [a] + ReadBody([b] + t);
    assert ReadBody([48, a, b] + t) == [48] + ReadBody([a, b] + t);
    assert ReadBody([48, 48, a, b] + t) == [48] + ReadBody([48, a, b] + t);
    assert ReadBody(s) == [117] + ReadBody([48, 48, a, b] + t);
  }

  lemma HexPlain(n: nat)
    requires n < 16
    ensures HexDigit(n) != QUOTE && HexDigit(n) != BACKSLASH
  {
  }

  /** Reading a quoted text, whatever follows its closing quote. */
  lemma {:induction false} ReadQuoted(s: Str, rest: Str)
    ensures ReadBody(QuoteBody(s) + [QUOTE] + rest) == BackAll(s)
    decreases |s|
  {
    hide Esc, Back;
    if s == [] {
      assert ([] + [QUOTE] + rest)[0] == QUOTE;
    } else {
      assert QuoteBody(s) + [QUOTE] + rest == Esc(s[0]) + (QuoteBody(s[1..]) + [QUOTE] + rest);
      ReadEsc(s[0], QuoteBody(s[1..]) + [QUOTE] + rest);
      ReadQuoted(s[1..], rest);
    }
  }

  predicate Clean(s: Str) { forall i :: 0 <= i < |s| ==> Survives(s[i]) }

  /** Unquoting inverts quoting exactly for texts without the other control bytes. */
  lemma {:induction false} UnquoteIff(s: Str)
    ensures BackAll(s) == s <==> Clean(s)
    ensures |BackAll(s)| >= |s| && (!Clean(s) ==> |BackAll(s)| > |s|)
    decreases |s|
  {
    if s != [] {
      UnquoteIff(s[1..]);
      assert s == [s[0]] + s[1..];
      if Clean(s) {
        assert forall i :: 0 <= i < |s[1..]| ==> s[1..][i] == s[i + 1];
      } else if Survives(s[0]) {
        assert !Clean(s[1..]);
      }
    }
  }

  // ----- the shape of quoted text

  predicate TameAt(b: Str, i: nat)
    requires i < |b|
  {
    b[i] != NEWLINE && b[i] != 0 && (b[i] == QUOTE ==> i > 0 && b[i - 1] == BACKSLASH)
  }

  /** Inside the outer quotes every quote follows a backslash; no newline, no NUL. */
  predicate Tame(b: Str) { forall i :: 0 <= i < |b| ==> TameAt(b, i) }

  lemma {:induction false} QuoteBodyTame(s: Str)
    requires 0 !in s
    ensures Tame(QuoteBody(s))
  {
    if s != [] {
      QuoteBodyTame(s[1..]);
      EscTame(s[0]);
      TameConcat(Esc(s[0]), QuoteBody(s[1..]));
    }
  }

  lemma EscTame(c: byte)
    requires c != 0
    ensures Tame(Esc(c))
  {
  }

  lemma TameConcat(a: Str, b: Str)
    requires Tame(a) && Tame(b)
    ensures Tame(a + b)
  {
    var s := a + b;
    forall i | 0 <= i < |s|
      ensures TameAt(s, i)
    {
      if i < |a| {
        assert TameAt(a, i);
      } else {
        assert TameAt(b, i - |a|);
      }
    }
  }

  lemma {:induction false} QuoteBodyLength(s: Str)
    requires Clean(s)
    ensures |s| <= |QuoteBody(s)| <= 2 * |s|
  {
    if s != [] {
      assert forall i :: 0 <= i < |s[1..]| ==> s[1..][i] == s[i + 1];
      QuoteBodyLength(s[1..]);
    }
  }

  predicate NoEscape(s: Str) {
    forall i :: 0 <= i < |s| ==> s[i] >= 0x20 && s[i] != QUOTE && s[i] != BACKSLASH
  }

  lemma {:induction false} QuotePlain(s: Str)
    requires NoEscape(s)
    ensures QuoteBody(s) == s
  {
    if s != [] {
      assert s == [s[0]] + s[1..];
      QuotePlain(s[1..]);
    }
  }
}
