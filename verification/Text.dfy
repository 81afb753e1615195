/** C strings as byte sequences without the final NUL: strstr, "%llu" and strtoull, as the
    chat history uses them (chat_history.c:132-144 and 223-236). */
module Text {
  import opened Bits
  import opened Wrappers

  const QUOTE: byte := 34
  const COLON: byte := 58
  const COMMA: byte := 44
  const BACKSLASH: byte := 92
  const NEWLINE: byte := 10
  const SPACE: byte := 32
  const MINUS: byte := 45
  const PLUS: byte := 43

  type Str = seq<byte>

  // ----- substring search

  /** strstr: the first place where needle begins. */
  function Find(hay: Str, needle: Str): (r: Option<nat>)
    ensures r.Some? ==> r.value + |needle| <= |hay|
  {
    if needle <= hay then Some(0)
    else if hay == [] then None
    else
      var r := Find(hay[1..], needle);
      if r.None? then None else Some(r.value + 1)
  }

  predicate MatchAt(hay: Str, needle: Str, i: nat) {
    i <= |hay| && needle <= hay[i..]
  }

  /** Find is the least match. */
  lemma {:induction false} FindIsFirst(hay: Str, needle: Str)
    ensures var r := Find(hay, needle);
            && (r.Some? ==> MatchAt(hay, needle, r.value) && forall j :: 0 <= j < r.value ==> !MatchAt(hay, needle, j))
            && (r.None? ==> forall j :: 0 <= j <= |hay| ==> !MatchAt(hay, needle, j))
    decreases |hay|
  {
    assert hay[0..] == hay;
    if !(needle <= hay) && hay != [] {
      FindIsFirst(hay[1..], needle);
      forall j | 0 < j <= |hay|
        ensures MatchAt(hay, needle, j) <==> MatchAt(hay[1..], needle, j - 1)
      {
        assert hay[j..] == hay[1..][j - 1..];
      }
    }
  }

  function Shift(r: Option<nat>, n: nat): Option<nat> {
    if r.None? then None else Some(r.value + n)
  }

  // If needle begins nowhere in a (as part of a + b), the search goes on in b.
  lemma {:induction false} FindSkip(a: Str, b: Str, needle: Str)
    requires forall j :: 0 <= j < |a| ==> !MatchAt(a + b, needle, j)
    ensures Find(a + b, needle) == Shift(Find(b, needle), |a|)
    decreases |a|
  {
    if a == [] {
      assert a + b == b;
    } else {
      assert MatchAt(a + b, needle, 0) <==> needle <= a + b by {
        assert (a + b)[0..] == a + b;
      }
      assert (a + b)[1..] == a[1..] + b;
      forall j | 0 <= j < |a[1..]|
        ensures !MatchAt(a[1..] + b, needle, j)
      {
        assert (a + b)[j + 1..] == (a[1..] + b)[j..];
        assert !MatchAt(a + b, needle, j + 1);
      }
      FindSkip(a[1..], b, needle);
    }
  }

  predicate NoQuote(a: Str) { forall i :: 0 <= i < |a| ==> a[i] != QUOTE }

  /** The text behind the first place where needle begins. */
  function After(hay: Str, needle: Str): Option<Str> {
    var at := Find(hay, needle);
    if at.None? then None else Some(hay[at.value + |needle|..])
  }

  lemma AfterShift(a: Str, b: Str, needle: Str)
    requires Find(a + b, needle) == Shift(Find(b, needle), |a|)
    ensures After(a + b, needle) == After(b, needle)
  {
    hide Find;
    var at := Find(b, needle);
    if at.Some? {
      assert (a + b)[at.value + |a| + |needle|..] == b[at.value + |needle|..];
    }
  }

  /** Text without quotes cannot hold the beginning of a quoted key. */
  lemma AfterPlain(a: Str, b: Str, needle: Str)
    requires NoQuote(a) && |needle| > 0 && needle[0] == QUOTE
    ensures After(a + b, needle) == After(b, needle)
  {
    hide Find, After;
    forall j | 0 <= j < |a|
      ensures !MatchAt(a + b, needle, j)
    {
      assert (a + b)[j..][0] == a[j];
    }
    FindSkip(a, b, needle);
    AfterShift(a, b, needle);
  }

  /** `"name":` */
  function KeyOf(name: Str): Str { [QUOTE] + name + [QUOTE, COLON] }

  /** Another key is passed over: it differs in its first or second letter. */
  lemma AfterOtherKey(name: Str, b: Str, needle: Str)
    requires NoQuote(name) && |name| >= 2 && |needle| >= 3 && needle[0] == QUOTE && needle[1] != COLON
    requires name[0] != needle[1] || name[1] != needle[2]
    ensures After(KeyOf(name) + b, needle) == After(b, needle)
  {
    hide Find, After;
    var a := KeyOf(name);
    forall j | 0 <= j < |a|
      ensures !MatchAt(a + b, needle, j)
    {
      var t := (a + b)[j..];
      assert t[0] == a[j];
      if j == 0 {
        assert t[1] == name[0] && t[2] == name[1];
      } else if j == |name| + 1 {
        assert t[1] == COLON;
      }
    }
    FindSkip(a, b, needle);
    AfterShift(a, b, needle);
  }

  lemma AfterHere(needle: Str, b: Str)
    ensures After(needle + b, needle) == Some(b)
  {
    assert Find(needle + b, needle) == Some(0);
  }

  // ----- decimal numbers

  predicate IsDigit(b: byte) { 48 <= b <= 57 }

  /** "%llu" */
  function Dec(n: nat): (d: Str)
    ensures |d| > 0 && forall i :: 0 <= i < |d| ==> IsDigit(d[i])
  {
    if n < 10 then [48 + n] else Dec(n / 10) + [48 + n % 10]
  }

  /** "%lld" */
  function DecInt(n: int): (d: Str)
    ensures |d| > 0 && forall i :: 0 <= i < |d| ==> IsDigit(d[i]) || d[i] == MINUS
  {
    if n < 0 then [MINUS] + Dec(-n) else Dec(n)
  }

  const ULL_MAX: nat := 0xffff_ffff_ffff_ffff

  predicate IsSpace(b: byte) { b == 32 || 9 <= b <= 13 }

  /** How many leading bytes are digits. */
  function DigitCount(s: Str): (n: nat)
    ensures n <= |s|
  {
    if s == [] || !IsDigit(s[0]) then 0 else 1 + DigitCount(s[1..])
  }

  function DigitsValue(s: Str): nat
    requires forall i :: 0 <= i < |s| ==> IsDigit(s[i])
  {
    if s == [] then 0
    else
      assert IsDigit(s[|s| - 1]);
      10 * DigitsValue(s[..|s| - 1]) + (s[|s| - 1] as int - 48)
  }

  lemma {:induction false} DigitCountDigits(s: Str)
    ensures forall i :: 0 <= i < DigitCount(s) ==> IsDigit(s[i])
    ensures DigitCount(s) < |s| ==> !IsDigit(s[DigitCount(s)])
  {
    if s != [] && IsDigit(s[0]) {
      DigitCountDigits(s[1..]);
    }
  }

  function SkipSpace(s: Str): Str {
    if s != [] && IsSpace(s[0]) then SkipSpace(s[1..]) else s
  }

  /** The digits of strtoull: too large saturates, a minus negates modulo 2^64. */
  function Digits(neg: bool, u: Str): Option<u64> {
    var n := DigitCount(u);
    DigitCountDigits(u);
    if n == 0 then None
    else
      var v := DigitsValue(u[..n]);
      Some(if v > ULL_MAX then ULL_MAX else if neg && v > 0 then 0x1_0000_0000_0000_0000 - v else v)
  }

  /** strtoull in base 10: white space, a sign, digits. None when there is no digit (end == p). */
  function Strtoull(s: Str): Option<u64> {
    var t := SkipSpace(s);
    if t != [] && (t[0] == MINUS || t[0] == PLUS) then Digits(t[0] == MINUS, t[1..]) else Digits(false, t)
  }

  function SkipBlanks(s: Str): Str {
    if s != [] && s[0] == SPACE then SkipBlanks(s[1..]) else s
  }

  /** lm_json_get_u64, and lm_parse_id with the name "id". */
  function GetU64(line: Str, name: Str): Option<u64> {
    var t := After(line, KeyOf(name));
    if t.None? then None else Strtoull(SkipBlanks(t.value))
  }

  lemma {:induction false} DecValue(n: nat)
    ensures DigitsValue(Dec(n)) == n
  {
    if n >= 10 {
      DecValue(n / 10);
      var d := Dec(n);
      assert d[..|d| - 1] == Dec(n / 10);
    } else {
      assert Dec(n)[..0] == [];
    }
  }

  function Pow10(k: nat): (p: nat)
    ensures p >= 1
  {
    if k == 0 then 1 else 10 * Pow10(k - 1)
  }

  lemma {:induction false} DecLength(n: nat, k: nat)
    requires k >= 1 && n < Pow10(k)
    ensures |Dec(n)| <= k
    decreases k
  {
    assert Pow10(1) == 10;
    if n >= 10 && k >= 2 {
      DecLength(n / 10, k - 1);
    }
  }

  lemma Pow10Values()
    ensures Pow10(5) == 100000 && Pow10(20) == 1_0000_0000_0000_0000_0000
  {
    assert Pow10(5) == 100000;
    assert Pow10(10) == 100000 * 100000;
    assert Pow10(15) == 100000 * 100000 * 100000;
  }

  lemma {:induction false} DigitCountOf(d: Str, rest: Str)
    requires forall i :: 0 <= i < |d| ==> IsDigit(d[i])
    requires rest == [] || !IsDigit(rest[0])
    ensures DigitCount(d + rest) == |d|
    decreases |d|
  {
    if d == [] {
      assert d + rest == rest;
    } else {
      assert (d + rest)[1..] == d[1..] + rest;
      DigitCountOf(d[1..], rest);
    }
  }

  lemma DigitsOf(neg: bool, d: Str, rest: Str)
    requires |d| > 0 && forall i :: 0 <= i < |d| ==> IsDigit(d[i])
    requires rest == [] || !IsDigit(rest[0])
    ensures var v := DigitsValue(d);
            v <= ULL_MAX ==> Digits(neg, d + rest) == Some(if neg && v > 0 then 0x1_0000_0000_0000_0000 - v else v)
  {
    hide DigitsValue, DigitCount;
    DigitCountOf(d, rest);
    assert (d + rest)[..|d|] == d;
  }

  lemma NoBlanks(s: Str)
    requires s != [] && !IsSpace(s[0])
    ensures SkipBlanks(s) == s && SkipSpace(s) == s
  {
  }

  lemma StrtoullDigits(d: Str, rest: Str)
    requires |d| > 0 && forall i :: 0 <= i < |d| ==> IsDigit(d[i])
    requires DigitsValue(d) <= ULL_MAX
    requires rest == [] || !IsDigit(rest[0])
    ensures Strtoull(SkipBlanks(d + rest)) == Some(DigitsValue(d))
  {
    hide DigitsValue, Digits, SkipBlanks, SkipSpace;
    var s := d + rest;
    assert s[0] == d[0];
    NoBlanks(s);
    DigitsOf(false, d, rest);
  }

  /** What was printed is read back, up to the first byte that is not a digit. */
  lemma StrtoullDec(n: u64, rest: Str)
    requires rest == [] || !IsDigit(rest[0])
    ensures Strtoull(SkipBlanks(Dec(n) + rest)) == Some(n)
  {
    hide Dec, DigitsValue, Strtoull, SkipBlanks;
    DecValue(n);
    StrtoullDigits(Dec(n), rest);
  }

  lemma {:induction false} PrefixValue(d: Str, j: nat)
    requires j <= |d| && forall i :: 0 <= i < |d| ==> IsDigit(d[i])
    ensures DigitsValue(d[..j]) <= DigitsValue(d)
    decreases |d|
  {
    if j < |d| {
      var e := d[..|d| - 1];
      assert forall i :: 0 <= i < |e| ==> e[i] == d[i];
      PrefixValue(e, j);
      assert e[..j] == d[..j];
      assert IsDigit(d[|d| - 1]);
    } else {
      assert d[..j] == d;
    }
  }

  /** Signed numbers come back modulo 2^64. */
  lemma StrtoullDecInt(n: int, rest: Str)
    requires -0x8000_0000_0000_0000 <= n < 0x8000_0000_0000_0000
    requires rest == [] || !IsDigit(rest[0])
    ensures Strtoull(SkipBlanks(DecInt(n) + rest)) == Some(n % 0x1_0000_0000_0000_0000)
  {
    hide Dec, DigitsValue, SkipBlanks, Strtoull;
    if n < 0 {
      NegativeModulo(n);
      StrtoullMinus(-n, rest);
      assert DecInt(n) + rest == [MINUS] + (Dec(-n) + rest);
    } else {
      StrtoullDec(n, rest);
    }
  }

  lemma NegativeModulo(n: int)
    requires -0x8000_0000_0000_0000 <= n < 0
    ensures n % 0x1_0000_0000_0000_0000 == 0x1_0000_0000_0000_0000 + n
  {
    DivModUnique(n, 0x1_0000_0000_0000_0000, -1, 0x1_0000_0000_0000_0000 + n);
  }

  lemma StrtoullMinus(n: u64, rest: Str)
    requires n > 0 && (rest == [] || !IsDigit(rest[0]))
    ensures Strtoull(SkipBlanks([MINUS] + (Dec(n) + rest))) == Some(0x1_0000_0000_0000_0000 - n)
  {
    hide Dec, DigitsValue, Digits, SkipBlanks, SkipSpace;
    var s := [MINUS] + (Dec(n) + rest);
    assert s[1..] == Dec(n) + rest && s[0] == MINUS;
    NoBlanks(s);
    DigitsOf(true, Dec(n), rest);
    DecValue(n);
  }

  // ----- lines

  /** Without newline and NUL. */
  predicate Unbroken(s: Str) {
    forall i :: 0 <= i < |s| ==> s[i] != NEWLINE && s[i] != 0
  }

  lemma UnbrokenConcat(a: Str, b: Str)
    ensures Unbroken(a + b) <==> Unbroken(a) && Unbroken(b)
  {
    if Unbroken(a + b) {
      assert forall i :: 0 <= i < |a| ==> (a + b)[i] == a[i];
      assert forall i :: 0 <= i < |b| ==> (a + b)[|a| + i] == b[i];
    }
  }

  /** A text line: one newline, at its end. */
  predicate IsLine(s: Str) {
    |s| > 0 && s[|s| - 1] == NEWLINE && Unbroken(s[..|s| - 1])
  }
}
