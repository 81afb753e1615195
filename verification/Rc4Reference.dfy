/** RC4 in other words: its turns as a relation between states, the whole of keying and key
    stream as one run of such turns, the states it never enters, and first turns by value. */
module Rc4Reference {
  import opened Bits
  import opened Rc4

  // ----- turns

  /** From s to t by one turn that adds k to j: i moves on by one, j by the entry at i and k,
      the entries at i and j change places and no other entry changes. */
  ghost predicate IsTurn(k: byte, s: Rc4State, t: Rc4State) {
    && t.i as int == (s.i as int + 1) % 256
    && t.j as int == (s.j as int + s.s[t.i] as int + k as int) % 256
    && t.s[t.i] == s.s[t.j] && t.s[t.j] == s.s[t.i]
    && forall x: byte :: x != t.i && x != t.j ==> t.s[x] == s.s[x]
  }

  /** One turn per key byte. */
  ghost predicate AreTurns(ks: seq<byte>, states: seq<Rc4State>) {
    |states| == |ks| + 1 && forall n: nat :: n < |ks| ==> IsTurn(ks[n], states[n], states[n + 1])
  }

  // A turn has one result.
  lemma TurnIsFunction(k: byte, s: Rc4State, t: Rc4State, u: Rc4State)
    requires IsTurn(k, s, t) && IsTurn(k, s, u)
    ensures t == u
  {
    forall x: byte
      ensures t.s[x] == u.s[x]
    {
    }
    assert t.s == u.s;
  }

  // ----- the key schedule

  /** The key over and over, 256 bytes of it. */
  function Stretched(key: CipherKey): (k: seq<byte>)
    ensures |k| == 256
  {
    seq(256, n requires 0 <= n < 256 => key[n % |key|])
  }

  /** The state of the schedule after n steps: i is the last position it has visited. */
  function Scheduling(key: CipherKey, n: nat): Rc4State
    requires n <= 256
  {
    Rc4State(Schedule(key, n).0, (255 + n) % 256, Schedule(key, n).1)
  }

  lemma ScheduleTurn(key: CipherKey, n: nat, k: byte)
    requires n < 256 && k == key[n % |key|]
    ensures IsTurn(k, Scheduling(key, n), Scheduling(key, n + 1))
  {
    hide Schedule, IsTurn, Add8;
    var s := Scheduling(key, n);
    var j := Add8(Add8(s.j, s.s[n]), k);
    ScheduleStep(key, n, k, s.s, s.j);
    AddTwice(s.j, s.s[n], k);
    SwapIsTurn(s, k, n, j);
  }

  lemma ScheduleStep(key: CipherKey, n: nat, k: byte, s: Table, j: byte)
    requires n < 256 && k == key[n % |key|] && Schedule(key, n) == (s, j)
    ensures var j' := Add8(Add8(j, s[n]), k);
            Schedule(key, n + 1) == (Swap(s, n, j'), j')
  {
    hide Swap, Add8;
  }

  lemma AddTwice(a: byte, b: byte, c: byte)
    ensures Add8(Add8(a, b), c) as int == (a as int + b as int + c as int) % 256
  {
  }

  lemma SwapIsTurn(s: Rc4State, k: byte, i: byte, j: byte)
    requires i as int == (s.i as int + 1) % 256 && j as int == (s.j as int + s.s[i] as int + k as int) % 256
    ensures IsTurn(k, s, Rc4State(Swap(s.s, i, j), i, j))
  {
  }

  /** Keying is 256 turns from the identity table with i at its last position, one for every
      position of the table, with the key added over and over; then i and j are cleared. */
  lemma KeyedIsTurns(key: CipherKey, states: seq<Rc4State>)
    requires AreTurns(Stretched(key), states) && states[0] == Rc4State(Identity(), 255, 0)
    ensures Keyed(key) == Rc4State(states[256].s, 0, 0) && states[256].i == 255
  {
    hide Schedule, IsTurn;
    SchedulingStarts(key);
    KeyingIs(key, states, 256);
  }

  lemma SchedulingStarts(key: CipherKey)
    ensures Scheduling(key, 0) == Rc4State(Identity(), 255, 0)
  {
  }

  lemma {:induction false} KeyingIs(key: CipherKey, states: seq<Rc4State>, n: nat)
    requires AreTurns(Stretched(key), states) && states[0] == Scheduling(key, 0) && n <= 256
    ensures states[n] == Scheduling(key, n)
  {
    hide Scheduling, IsTurn;
    if n != 0 {
      KeyingIs(key, states, n - 1);
      ScheduleTurn(key, n - 1, Stretched(key)[n - 1]);
      assert IsTurn(Stretched(key)[n - 1], states[n - 1], states[n - 1 + 1]);
      TurnIsFunction(Stretched(key)[n - 1], states[n - 1], states[n], Scheduling(key, n));
    }
  }

  // ----- the key stream

  lemma StepTurn(st: Rc4State)
    ensures IsTurn(0, st, Step(st))
  {
  }

  /** Byte n of the key stream is the entry at the sum of the entries at i and j, n + 1 turns
      without a key later; processing leaves the state after one turn per byte. */
  lemma CryptIsTurns(st: Rc4State, data: seq<byte>, states: seq<Rc4State>)
    requires AreTurns(seq(|data|, _ => 0), states) && states[0] == st
    ensures After(st, |data|) == states[|data|]
    ensures forall n: nat :: n < |data| ==>
      var t := states[n + 1];
      Crypt(st, data)[n] == Xor8(data[n], t.s[(t.s[t.i] as int + t.s[t.j] as int) % 256])
  {
    hide Xor8, After, IsTurn;
    StreamIs(st, |data|, states, |data|);
    forall n: nat | n < |data|
      ensures var t := states[n + 1];
              Crypt(st, data)[n] == Xor8(data[n], t.s[(t.s[t.i] as int + t.s[t.j] as int) % 256])
    {
      StreamIs(st, |data|, states, n + 1);
    }
  }

  lemma {:induction false} StreamIs(st: Rc4State, len: nat, states: seq<Rc4State>, n: nat)
    requires AreTurns(seq(len, _ => 0), states) && states[0] == st && n <= len
    ensures states[n] == After(st, n)
    decreases n
  {
    hide Step, IsTurn;
    if n != 0 {
      StreamIs(st, len, states, n - 1);
      StepTurn(After(st, n - 1));
      assert IsTurn(seq(len, _ => 0)[n - 1], states[n - 1], states[n - 1 + 1]);
      TurnIsFunction(0, states[n - 1], states[n], After(st, n));
    }
  }

  /** From every state there are the turns of any key bytes. */
  lemma {:induction false} TurnsFrom(st: Rc4State, ks: seq<byte>) returns (states: seq<Rc4State>)
    ensures AreTurns(ks, states) && states[0] == st
    decreases |ks|
  {
    hide IsTurn;
    if ks == [] {
      states := [st];
    } else {
      var n := |ks| - 1;
      var before := TurnsFrom(st, ks[..n]);
      var next := TurnFrom(before[n], ks[n]);
      states := before + [next];
      forall m: nat | m < |ks|
        ensures IsTurn(ks[m], states[m], states[m + 1])
      {
        assert m < n ==> ks[m] == ks[..n][m] && states[m] == before[m] && states[m + 1] == before[m + 1];
      }
    }
  }

  lemma TurnFrom(st: Rc4State, k: byte) returns (t: Rc4State)
    ensures IsTurn(k, st, t)
  {
    var i: byte := (st.i as int + 1) % 256;
    var j: byte := (st.j as int + st.s[i] as int + k as int) % 256;
    t := Rc4State(Swap(st.s, i, j), i, j);
  }

  // ----- states that are never entered

  /** j is one ahead of i and its entry is 1. Such a state is followed by such states only. */
  predicate Finney(st: Rc4State) {
    st.j as int == (st.i as int + 1) % 256 && st.s[st.j] == 1
  }

  lemma FinneyBackwards(st: Rc4State)
    ensures Finney(Step(st)) <==> Finney(st)
  {
  }

  /** No key leads to such a state, after any number of bytes. */
  lemma {:induction false} NeverFinney(key: CipherKey, n: nat)
    ensures !Finney(After(Keyed(key), n))
  {
    hide Step, Finney, Schedule;
    if n == 0 {
      KeyedNotFinney(key);
    } else {
      NeverFinney(key, n - 1);
      FinneyBackwards(After(Keyed(key), n - 1));
    }
  }

  lemma KeyedNotFinney(key: CipherKey)
    ensures !Finney(After(Keyed(key), 0))
  {
    hide Schedule;
  }

  // ----- by value

  /** From the identity table the first three key bytes are 2, 5 and 7. */
  lemma FirstBytes()
    ensures var st := Rc4State(Identity(), 0, 0);
            KeyByte(st, 0) == 2 && KeyByte(st, 1) == 5 && KeyByte(st, 2) == 7
  {
    var st := Rc4State(Identity(), 0, 0);
    var s1 := Step(st);
    var s2 := Step(s1);
    var s3 := Step(s2);
    assert s1.i == 1 && s1.j == 1 && s1.s == Identity();
    assert s2.i == 2 && s2.j == 3;
    assert s3.i == 3 && s3.j == 5;
    assert After(st, 0) == st;
    assert After(st, 1) == s1;
    assert After(st, 2) == s2;
    assert After(st, 3) == s3;
  }
}
