/** The RC4 stream cipher (hope.c:53-91). */
module Rc4 {
  import opened Bits

  type Table = s: seq<byte> | |s| == 256 witness seq(256, i requires 0 <= i < 256 => i)
  datatype Rc4State = Rc4State(s: Table, i: byte, j: byte)
  /** Keys are never empty: the schedule indexes them modulo their length. */
  type CipherKey = k: seq<byte> | 0 < |k| <= 64 witness [0]

  function Identity(): Table { seq(256, i requires 0 <= i < 256 => i) }

  function Swap(s: Table, i: byte, j: byte): Table { s[i := s[j]][j := s[i]] }

  // ----- key schedule

  /** The table and j after n steps of the schedule. */
  function Schedule(key: CipherKey, n: nat): (Table, byte)
    requires n <= 256
  {
    if n == 0 then (Identity(), 0)
    else
      var (s, j) := Schedule(key, n - 1);
      var j' := Add8(Add8(j, s[n - 1]), key[(n - 1) % |key|]);
      (Swap(s, n - 1, j'), j')
  }

  function Add8(a: byte, b: byte): byte { (a as int + b as int) % 0x100 }

  function Keyed(key: CipherKey): Rc4State { Rc4State(Schedule(key, 256).0, 0, 0) }

  // ----- key stream

  function Step(st: Rc4State): Rc4State {
    var i := Add8(st.i, 1);
    var j := Add8(st.j, st.s[i]);
    Rc4State(Swap(st.s, i, j), i, j)
  }

  /** The key byte a state has just produced. */
  function Output(st: Rc4State): byte { st.s[Add8(st.s[st.i], st.s[st.j])] }

  function After(st: Rc4State, n: nat): Rc4State {
    if n == 0 then st else Step(After(st, n - 1))
  }

  function KeyByte(st: Rc4State, n: nat): byte { Output(After(st, n + 1)) }

  function Crypt(st: Rc4State, data: seq<byte>): (r: seq<byte>)
    ensures |r| == |data|
  {
    seq(|data|, i requires 0 <= i < |data| => Xor8(data[i], KeyByte(st, i)))
  }

  // ----- laws

  lemma {:induction false} AfterAdd(st: Rc4State, m: nat, n: nat)
    ensures After(st, m + n) == After(After(st, m), n)
    decreases n
  {
    hide Step;
    if n != 0 {
      AfterAdd(st, m, n - 1);
    }
  }

  /** Processing a then b is processing a + b. */
  lemma CryptConcat(st: Rc4State, a: seq<byte>, b: seq<byte>)
    ensures Crypt(st, a + b) == Crypt(st, a) + Crypt(After(st, |a|), b)
    ensures After(st, |a + b|) == After(After(st, |a|), |b|)
  {
    hide Xor8, Output, Step;
    AfterAdd(st, |a|, |b|);
    forall i | 0 <= i < |b|
      ensures Crypt(st, a + b)[|a| + i] == Crypt(After(st, |a|), b)[i]
    {
      AfterAdd(st, |a|, i + 1);
    }
  }

  /** Processing twice from equal states restores the data. */
  lemma CryptTwice(st: Rc4State, data: seq<byte>)
    ensures Crypt(st, Crypt(st, data)) == data
  {
    hide Xor8, Output, Step;
    forall i | 0 <= i < |data|
      ensures Crypt(st, Crypt(st, data))[i] == data[i]
    {
      Xor8Twice(data[i], KeyByte(st, i));
    }
  }

  /** The table stays a permutation of 0..255. */
  ghost predicate IsPermutation(s: Table) {
    multiset(s) == multiset(Identity())
  }

  lemma SwapPermutes(s: Table, i: byte, j: byte)
    ensures multiset(Swap(s, i, j)) == multiset(s)
  {
  }

  lemma {:induction false} ScheduledIsPermutation(key: CipherKey, n: nat)
    requires n <= 256
    ensures IsPermutation(Schedule(key, n).0)
  {
    if n != 0 {
      ScheduledIsPermutation(key, n - 1);
      var (s, j) := Schedule(key, n - 1);
      SwapPermutes(s, n - 1, Schedule(key, n).1);
    }
  }

  lemma StepPermutes(st: Rc4State)
    requires IsPermutation(st.s)
    ensures IsPermutation(Step(st).s)
  {
    SwapPermutes(st.s, Step(st).i, Step(st).j);
  }

  lemma {:induction false} AfterIsPermutation(st: Rc4State, n: nat)
    requires IsPermutation(st.s)
    ensures IsPermutation(After(st, n).s)
  {
    hide Step, IsPermutation;
    if n != 0 {
      AfterIsPermutation(st, n - 1);
      StepPermutes(After(st, n - 1));
    }
  }

  /** From any key, after any amount of data, every byte value is in the table exactly once. */
  lemma KeyedIsPermutation(key: CipherKey, n: nat, v: byte)
    ensures multiset(After(Keyed(key), n).s)[v] == 1
  {
    hide After, Schedule;
    ScheduledIsPermutation(key, 256);
    AfterIsPermutation(Keyed(key), n);
    IdentityOnce(v, 256);
    assert Identity()[..256] == Identity();
  }

  lemma {:induction false} IdentityOnce(v: byte, n: nat)
    requires n <= 256
    ensures multiset(Identity()[..n])[v] == if v < n then 1 else 0
    decreases n
  {
    if n != 0 {
      IdentityOnce(v, n - 1);
      assert Identity()[..n] == Identity()[..n - 1] + [n - 1];
    }
  }

  // ----- the code

  class Cipher {
    const s: array<byte>
    var i: byte
    var j: byte

    ghost predicate Valid() {
      s.Length == 256
    }

    function State(): Rc4State
      requires Valid()
      reads this, s
    {
      Rc4State(s[..], i, j)
    }

    /** hl_rc4_init */
    constructor (key: CipherKey)
      ensures Valid() && fresh(s) && State() == Keyed(key)
    {
      s := new byte[256];
      i, j := 0, 0;
      new;
      Init(key);
    }

    method Init(key: CipherKey)
      requires Valid()
      modifies this, s
      ensures State() == Keyed(key)
    {
      hide Add8;
      var n := 0;
      while n < 256
        invariant 0 <= n <= 256
        invariant s[..n] == Identity()[..n]
      {
        s[n] := n;
        n := n + 1;
      }
      assert s[..] == Identity();
      var k: byte := 0;
      n := 0;
      while n < 256
        invariant 0 <= n <= 256
        invariant Schedule(key, n) == (s[..], k)
      {
        k := Add8(Add8(k, s[n]), key[n % |key|]);
        s[n], s[k] := s[k], s[n];
        n := n + 1;
      }
      i, j := 0, 0;
    }

    /** One turn of the generator. */
    method NextByte() returns (k: byte)
      requires Valid()
      modifies this, s
      ensures State() == Step(old(State())) && k == Output(State())
    {
      hide Add8;
      i := Add8(i, 1);
      j := Add8(j, s[i]);
      s[i], s[j] := s[j], s[i];
      k := s[Add8(s[i], s[j])];
    }

    /** hl_rc4_process on data[at..at + len], in place. */
    method Process(data: array<byte>, at: nat, len: nat)
      requires Valid() && data != s && at + len <= data.Length
      modifies this, s, data
      ensures State() == After(old(State()), len)
      ensures data[..] == old(data[..at]) + Crypt(old(State()), old(data[at..at + len])) + old(data[at + len..])
    {
      hide Xor8, Output, Step;
      ghost var st := State();
      ghost var want := Crypt(st, data[at..at + len]);
      var n := 0;
      while n < len
        invariant 0 <= n <= len
        invariant State() == After(st, n)
        invariant forall k :: 0 <= k < n ==> data[at + k] == want[k]
        invariant forall k :: 0 <= k < at || at + n <= k < data.Length ==> data[k] == old(data[k])
      {
        var k := NextByte();
        data[at + n] := Xor8(data[at + n], k);
        n := n + 1;
      }
    }
  }
}
