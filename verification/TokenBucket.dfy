/** The rate limiter of chat history requests: a token bucket in tenths of a token
    (chat_history.c:907-942). */
module TokenBucket {
  import opened Bits

  datatype Bucket = Bucket(tokens: u16, last: u64)

  function Capacity(cap: u32): (c: u16) {
    var c := Mul32(if cap == 0 then 20 else cap, 10);
    if c > 0xFFFF then 0xFFFF else c
  }

  function Rate(rate: u32): (r: u32)
    ensures r > 0
  {
    if rate == 0 then 10 else rate
  }

  /** The tenths of a token earned since the last refill. */
  function Refill(last: u64, now: u64, rate: u32): u64 {
    var delta: u64 := if now >= last then now - last else 0;
    Earned(delta, Rate(rate))
  }

  function Earned(delta: u64, rate: u32): u64 {
    var p := Mul64(delta, rate);
    assert p / 100 <= p;
    p / 100
  }

  /** The bucket after seeding or refilling. */
  function Filled(b: Bucket, now: u64, cap: u32, rate: u32): Bucket {
    if b.last == 0 then Bucket(Capacity(cap), now)
    else
      var refill := Refill(b.last, now, rate);
      if refill > 0 then
        var total := Add32(b.tokens, Low32(refill));
        Bucket(if total > Capacity(cap) then Capacity(cap) else total, now)
      else b
  }

  datatype Outcome = Outcome(b: Bucket, allowed: bool)

  /** One request. */
  function Request(b: Bucket, now: u64, cap: u32, rate: u32): Outcome {
    var f := Filled(b, now, cap, rate);
    if f.tokens >= 10 then Outcome(f.(tokens := f.tokens - 10), true) else Outcome(f, false)
  }

  /** lm_chat_rl_consume updates the two cells in place. */
  class Limiter {
    var tokens: u16
    var last: u64

    function State(): Bucket
      reads this
    {
      Bucket(tokens, last)
    }

    constructor ()
      ensures State() == Bucket(0, 0)
    {
      tokens, last := 0, 0;
    }

    method Consume(now: u64, capacity: u32, refillPerSec: u32) returns (allowed: bool)
      modifies this
      ensures Outcome(State(), allowed) == Request(old(State()), now, capacity, refillPerSec)
    {
      hide Mul64, Mul32, Add32;
      var capTokens, rate := capacity, refillPerSec;
      if capTokens == 0 {
        capTokens := 20;
      }
      if rate == 0 {
        rate := 10;
      }
      var capX10: u32 := Mul32(capTokens, 10);
      if capX10 > 0xFFFF {
        capX10 := 0xFFFF;
      }
      if last == 0 {
        tokens := capX10;
        last := now;
      } else {
        var delta: u64 := if now >= last then now - last else 0;
        var refill := Mul64(delta, rate) / 100;
        if refill > 0 {
          var total := Add32(tokens, Low32(refill));
          if total > capX10 {
            total := capX10;
          }
          tokens := total;
          last := now;
        }
      }
      if tokens >= 10 {
        tokens := tokens - 10;
        return true;
      }
      allowed := false;
    }
  }

  // ----- the bound

  datatype Sum = Sum(b: Bucket, allowed: nat)

  /** Requests at the given times, which may go backwards. */
  function Requests(s: Sum, times: seq<u64>, cap: u32, rate: u32): Sum
    decreases |times|
  {
    if times == [] then s
    else
      var o := Request(s.b, times[0], cap, rate);
      Requests(Sum(o.b, s.allowed + if o.allowed then 1 else 0), times[1..], cap, rate)
  }

  function Latest(times: seq<u64>, t: u64): (r: u64)
    ensures r >= t && forall i :: 0 <= i < |times| ==> times[i] <= r
    ensures r == t || r in times
    decreases |times|
  {
    if times == [] then t
    else
      var r := Latest(times[1..], if times[0] > t then times[0] else t);
      assert forall i :: 0 < i < |times| ==> times[i] == times[1..][i - 1];
      r
  }

  /** What has been allowed and what is left never exceeds what was there and what was earned. */
  predicate Paid(s: Sum, first: u64, cap: u32, rate: u32) {
    && 0 < first <= s.b.last && s.b.tokens <= Capacity(cap)
    && 100 * (10 * s.allowed + s.b.tokens) <= 100 * (Capacity(cap) as int) + (s.b.last - first) * Rate(rate)
  }

  // The refill never exceeds the time passed, whatever wraps on the way.
  lemma EarnedBound(delta: u64, rate: u32)
    ensures 100 * (Earned(delta, rate) as int) <= delta * rate
  {
    var p := delta as int * rate as int;
    MulSign(delta, rate);
    ModBelow(p, 0x1_0000_0000_0000_0000);
    assert Mul64(delta, rate) <= p;
  }

  lemma ModBelow(p: nat, m: nat)
    requires m > 0
    ensures p % m <= p
  {
    if p < m {
      assert p % m == p;
    }
  }

  lemma AddBelow(a: u32, b: u64)
    ensures Add32(a, Low32(b)) <= a + b
  {
    ModBelow(b, 0x1_0000_0000);
    ModBelow(a + Low32(b), 0x1_0000_0000);
  }

  lemma RequestPaid(s: Sum, now: u64, first: u64, cap: u32, rate: u32)
    requires Paid(s, first, cap, rate)
    ensures var o := Request(s.b, now, cap, rate);
            Paid(Sum(o.b, s.allowed + if o.allowed then 1 else 0), first, cap, rate) && (o.b.last == s.b.last || o.b.last == now)
  {
    hide Earned, Capacity, Rate, Add32, Low32;
    var refill := Refill(s.b.last, now, rate);
    if refill > 0 {
      var delta: u64 := if now >= s.b.last then now - s.b.last else 0;
      EarnedBound(delta, Rate(rate));
      assert delta == 0 ==> delta as int * Rate(rate) as int == 0;
      AddBelow(s.b.tokens, refill);
      Times(s.b.last - first, delta, Rate(rate));
    }
  }

  lemma Times(a: int, b: int, r: int)
    ensures (a + b) * r == a * r + b * r
  {
  }

  lemma {:induction false} RequestsPaid(s: Sum, times: seq<u64>, first: u64, cap: u32, rate: u32)
    requires Paid(s, first, cap, rate)
    ensures var r := Requests(s, times, cap, rate);
            Paid(r, first, cap, rate) && r.b.last <= Latest(times, s.b.last)
    decreases |times|
  {
    assert Latest([], s.b.last) == s.b.last;
    hide Paid, Request, Latest;
    if times != [] {
      var o := Request(s.b, times[0], cap, rate);
      RequestPaid(s, times[0], first, cap, rate);
      RequestsPaid(Sum(o.b, s.allowed + if o.allowed then 1 else 0), times[1..], first, cap, rate);
      LatestFirst(times, s.b.last, o.b.last);
    }
  }

  lemma LatestFirst(times: seq<u64>, t: u64, u: u64)
    requires times != [] && (u == t || u == times[0])
    ensures Latest(times[1..], u) <= Latest(times, t)
  {
    var r := Latest(times, t);
    assert u <= r;
    assert forall i :: 0 <= i < |times[1..]| ==> times[1..][i] == times[i + 1];
  }

  const FRESH: Sum := Sum(Bucket(0, 0), 0)

  /** From a first request at a positive clock on: ten times the requests allowed is at most the
      capacity and what was earned between the first and the latest time; the bucket never
      holds more than its capacity. */
  lemma RateBound(times: seq<u64>, cap: u32, rate: u32)
    requires times != [] && times[0] > 0
    ensures var r := Requests(FRESH, times, cap, rate);
            && r.b.tokens <= Capacity(cap)
            && 10 * r.allowed <= Capacity(cap) as int + (Latest(times, times[0]) - times[0]) * Rate(rate) / 100
  {
    hide Capacity, Rate, Latest, Paid, Request;
    var first := times[0];
    var o := Request(FRESH.b, first, cap, rate);
    var s := Sum(o.b, if o.allowed then 1 else 0);
    assert Requests(FRESH, times, cap, rate) == Requests(s, times[1..], cap, rate);
    hide Requests;
    FirstPaid(first, cap, rate);
    RequestsPaid(s, times[1..], first, cap, rate);
    LatestFirst(times, first, first);
    PaidMeans(Requests(s, times[1..], cap, rate), first, Latest(times, first), cap, rate);
  }

  lemma FirstPaid(first: u64, cap: u32, rate: u32)
    requires first > 0
    ensures var o := Request(FRESH.b, first, cap, rate);
            o.b.last == first && Paid(Sum(o.b, if o.allowed then 1 else 0), first, cap, rate)
  {
    hide Capacity, Rate;
    assert (first - first) * Rate(rate) == 0;
  }

  lemma PaidMeans(s: Sum, first: u64, latest: u64, cap: u32, rate: u32)
    requires Paid(s, first, cap, rate) && s.b.last <= latest
    ensures s.b.tokens <= Capacity(cap)
    ensures 10 * s.allowed <= Capacity(cap) as int + (latest - first) * Rate(rate) / 100
  {
    hide Capacity, Rate;
    Later(s.b.last - first, latest - first, Rate(rate));
    Hundredths(10 * s.allowed, Capacity(cap), (latest - first) * Rate(rate));
  }

  lemma Later(a: int, b: int, r: int)
    requires a <= b && r > 0
    ensures a * r <= b * r
  {
  }

  lemma Hundredths(a: int, c: int, e: int)
    requires 100 * a <= 100 * c + e
    ensures a <= c + e / 100
  {
  }

  // ----- the clock at zero

  /** n requests at the same time. */
  function Same(t: u64, n: nat): (z: seq<u64>)
    ensures |z| == n
  {
    if n == 0 then [] else [t] + Same(t, n - 1)
  }

  lemma {:induction false} ZeroClockRun(s: Sum, n: nat, cap: u32, rate: u32)
    requires s.b.last == 0 && Capacity(cap) >= 10
    ensures Requests(s, Same(0, n), cap, rate).allowed == s.allowed + n
    decreases n
  {
    hide Capacity;
    if n > 0 {
      var o := Request(s.b, 0, cap, rate);
      assert Same(0, n)[1..] == Same(0, n - 1);
      ZeroClockRun(Sum(o.b, s.allowed + 1), n - 1, cap, rate);
    }
  }

  /** A positive first clock is needed: while the clock is 0 every request is allowed, since 0
      also means that the bucket was never seeded. */
  lemma ZeroClock(n: nat, cap: u32, rate: u32)
    requires Capacity(cap) >= 10
    ensures Requests(FRESH, Same(0, n), cap, rate).allowed == n
    ensures 10 * n > Capacity(cap) ==>
      10 * Requests(FRESH, Same(0, n), cap, rate).allowed > Capacity(cap) as int + (Latest(Same(0, n), 0) - 0) * Rate(rate) / 100
  {
    hide Capacity, Requests, Rate;
    ZeroClockRun(FRESH, n, cap, rate);
    LatestZero(n);
  }

  lemma {:induction false} LatestZero(n: nat)
    ensures Latest(Same(0, n), 0) == 0
  {
    if n > 0 {
      LatestZero(n - 1);
      assert Same(0, n)[1..] == Same(0, n - 1);
    }
  }

  // ----- a burst

  lemma {:induction false} BurstRun(s: Sum, t: u64, n: nat, cap: u32, rate: u32)
    requires s.b.last == t > 0
    ensures Requests(s, Same(t, n), cap, rate).allowed == s.allowed + if n <= s.b.tokens / 10 then n else s.b.tokens / 10
    decreases n
  {
    hide Capacity, Rate;
    if n > 0 {
      assert Refill(t, t, rate) == 0 by {
        assert 0 * Rate(rate) == 0;
      }
      var o := Request(s.b, t, cap, rate);
      assert Same(t, n)[1..] == Same(t, n - 1);
      BurstRun(Sum(o.b, s.allowed + if o.allowed then 1 else 0), t, n - 1, cap, rate);
    }
  }

  /** A fresh bucket allows exactly its capacity at once. */
  lemma Burst(t: u64, n: nat, cap: u32, rate: u32)
    requires t > 0
    ensures Requests(FRESH, Same(t, n), cap, rate).allowed == if n <= Capacity(cap) / 10 then n else Capacity(cap) / 10
  {
    hide Capacity;
    if n > 0 {
      var o := Request(FRESH.b, t, cap, rate);
      assert Same(t, n)[1..] == Same(t, n - 1);
      BurstRun(Sum(o.b, if o.allowed then 1 else 0), t, n - 1, cap, rate);
    }
  }

  // ----- what is earned

  function Least(a: int, b: int): int { if a < b then a else b }

  /** The capacity in tenths: ten times the tokens, 20 if none are given, up to 16 bits; exactly
      unless the product wraps below that. */
  lemma CapacityIff(cap: u32)
    ensures var tenths := if cap == 0 then 200 else 10 * cap as int;
            Capacity(cap) == Least(tenths, 0xFFFF) <==> tenths < 0x1_0000_0000 || tenths % 0x1_0000_0000 >= 0xFFFF
    ensures Capacity(429496730) == 4
  {
  }

  /** Milliseconds since the last refill times tokens per second: thousandths of a token. */
  function Thousandths(b: Bucket, now: u64, rate: u32): nat
    requires now >= b.last
  {
    (now - b.last) * (if rate == 0 then 10 else rate as int)
  }

  /** A refill adds all that was earned, up to the capacity, exactly if the sum fits 32 bits or
      what is left of it after wrapping fills the bucket. */
  lemma RefillExactIff(b: Bucket, now: u64, cap: u32, rate: u32)
    requires 0 < b.last <= now && b.tokens <= Capacity(cap)
    ensures var e := Thousandths(b, now, rate);
            Filled(b, now, cap, rate).tokens == Least(Capacity(cap), b.tokens as int + e / 100)
            <==> || b.tokens as int + e / 100 < 0x1_0000_0000
                 || (b.tokens as int + e % 0x1_0000_0000_0000_0000 / 100) % 0x1_0000_0000 >= Capacity(cap)
  {
    hide *;
    var e := Thousandths(b, now, rate);
    FilledIs(b, now, cap, rate, e);
    WrappedEarnings(b.tokens, e);
    LeastIs(Capacity(cap), b.tokens as int + e / 100);
  }

  lemma LeastIs(a: int, b: int)
    ensures Least(a, b) == if a < b then a else b
  {
  }

  lemma FilledIs(b: Bucket, now: u64, cap: u32, rate: u32, e: nat)
    requires 0 < b.last <= now && e == Thousandths(b, now, rate)
    ensures var x := e % 0x1_0000_0000_0000_0000 / 100;
            var sum := (b.tokens as int + x) % 0x1_0000_0000;
            Filled(b, now, cap, rate)
            == if x > 0 then Bucket(if sum > Capacity(cap) then Capacity(cap) else sum, now) else b
  {
    hide Capacity, Refill, Thousandths, Add32, Low32;
    RefillIs(b, now, rate);
    AddsLow(b.tokens, Refill(b.last, now, rate));
  }

  lemma AddsLow(tokens: u16, x: u64)
    ensures Add32(tokens, Low32(x)) == (tokens as int + x as int) % 0x1_0000_0000
  {
  }

  lemma RefillIs(b: Bucket, now: u64, rate: u32)
    requires now >= b.last
    ensures Refill(b.last, now, rate) == Thousandths(b, now, rate) % 0x1_0000_0000_0000_0000 / 100
  {
  }

  lemma WrappedEarnings(tokens: u16, e: nat)
    ensures e < 0x1_0000_0000_0000_0000 ==> e % 0x1_0000_0000_0000_0000 == e
    ensures tokens as int + e / 100 < 0x1_0000_0000 ==> e < 0x1_0000_0000_0000_0000
  {
  }

  /** The effect of a request while nothing wraps: what was earned is added up to the capacity,
      and a token is taken if one is there; time counts from the last refill that added anything. */
  lemma RequestExact(b: Bucket, now: u64, cap: u32, rate: u32)
    requires 0 < b.last <= now && b.tokens <= Capacity(cap)
    requires b.tokens as int + Thousandths(b, now, rate) / 100 < 0x1_0000_0000
    ensures var o, e := Request(b, now, cap, rate), Thousandths(b, now, rate) / 100;
            var there := Least(Capacity(cap), b.tokens as int + e);
            && (o.allowed <==> there >= 10)
            && o.b.tokens as int == (if o.allowed then there - 10 else there)
            && o.b.last == if e > 0 then now else b.last
  {
    hide Capacity, Filled, Thousandths;
    var e := Thousandths(b, now, rate);
    FilledIs(b, now, cap, rate, e);
    WrappedEarnings(b.tokens, e);
  }

  /** After a wait that earns 2^32 tenths the wrapped sum adds nothing: all of them are lost. */
  lemma LongWait(b: Bucket, now: u64, cap: u32, rate: u32)
    requires 0 < b.last <= now && b.tokens < 10 <= Capacity(cap)
    requires Thousandths(b, now, rate) == 0x1_0000_0000 * 100
    ensures Request(b, now, cap, rate) == Outcome(Bucket(b.tokens, now), false)
  {
    hide Capacity, Filled, Thousandths;
    FilledIs(b, now, cap, rate, 0x1_0000_0000 * 100);
  }

  // ----- requests that keep to the rate

  /** Each request comes when the one before has earned a token again, and not so late that the
      sum wraps. */
  predicate Paced(times: seq<u64>, rate: u32) {
    forall i: nat :: i + 1 < |times| ==>
      times[i] <= times[i + 1] && 1000 <= Thousandths(Bucket(0, times[i]), times[i + 1], rate) <= 100 * (0x1_0000_0000 - 0x1_0000)
  }

  /** From a positive clock on they are all allowed. */
  lemma PacedAllowed(times: seq<u64>, cap: u32, rate: u32)
    requires times != [] && times[0] > 0 && Capacity(cap) >= 10 && Paced(times, rate)
    ensures Requests(FRESH, times, cap, rate).allowed == |times|
  {
    hide Capacity, Paced;
    var o := Request(FRESH.b, times[0], cap, rate);
    PacedRun(Sum(o.b, 1), times, cap, rate);
  }

  lemma {:induction false} PacedRun(s: Sum, times: seq<u64>, cap: u32, rate: u32)
    requires times != [] && 0 < times[0] == s.b.last && s.b.tokens <= Capacity(cap) && Capacity(cap) >= 10 && Paced(times, rate)
    ensures Requests(s, times[1..], cap, rate).allowed == s.allowed + |times| - 1
    decreases |times|
  {
    hide Capacity, Request;
    if |times| > 1 {
      var rest := times[1..];
      assert times[1] == times[0 + 1] && Paced(rest, rate) by { PacedRest(times, rate); }
      RequestExact(s.b, times[1], cap, rate);
      var o := Request(s.b, times[1], cap, rate);
      PacedRun(Sum(o.b, s.allowed + 1), rest, cap, rate);
    }
  }

  lemma PacedRest(times: seq<u64>, rate: u32)
    requires times != [] && Paced(times, rate)
    ensures Paced(times[1..], rate)
  {
    hide Thousandths;
    var rest := times[1..];
    forall i: nat | i + 1 < |rest|
      ensures rest[i] <= rest[i + 1] && 1000 <= Thousandths(Bucket(0, rest[i]), rest[i + 1], rate) <= 100 * (0x1_0000_0000 - 0x1_0000)
    {
      assert times[i + 1] <= times[i + 1 + 1];
    }
  }
}
