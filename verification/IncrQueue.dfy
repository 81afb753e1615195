/** The ring buffer of incremental events of the indexing client (mnemosyne_sync.c:987-1009). */
module IncrQueue {
  const QUEUE_SIZE: nat := 64

  datatype Event = FileAdd(path: string, name: string) | FileRemove(path: string) | NewsAdd(path: string, article: nat)

  // ----- the ring

  /** Push onto a queue that keeps the newest 64. */
  function Pushed(q: seq<Event>, e: Event): seq<Event> {
    (if |q| >= QUEUE_SIZE then q[1..] else q) + [e]
  }

  function Slot(head: nat, i: nat): (r: nat)
    ensures r < QUEUE_SIZE
  {
    (head + i) % QUEUE_SIZE
  }

  /** mn_incr_queue_t */
  class Ring {
    const entries: array<Event>
    var head: nat
    var tail: nat
    var count: nat

    predicate Valid()
      reads this
    {
      entries.Length == QUEUE_SIZE && head < QUEUE_SIZE && count <= QUEUE_SIZE && tail == Slot(head, count)
    }

    /** The queued events, oldest first. */
    function Contents(): (q: seq<Event>)
      reads this, entries
      requires Valid()
      ensures |q| == count
    {
      seq(count, i requires 0 <= i < count && entries.Length == QUEUE_SIZE reads this, entries => entries[Slot(head, i)])
    }

    constructor ()
      ensures Valid() && Contents() == [] && fresh(entries)
    {
      entries := new Event[QUEUE_SIZE](_ => FileRemove(""));
      head, tail, count := 0, 0, 0;
    }

    /** incr_queue_push. */
    method Push(e: Event)
      requires Valid()
      modifies this, entries
      ensures Valid() && Contents() == Pushed(old(Contents()), e)
    {
      ghost var q := Contents();
      ghost var h := head;
      if count >= QUEUE_SIZE {
        head := (head + 1) % QUEUE_SIZE;
        count := count - 1;
        SlotNext(h, count);
        forall i | 0 <= i < count
          ensures Contents()[i] == q[i + 1]
        {
          SlotNext(h, i);
        }
      }
      ghost var rest := Contents();
      assert rest == if |q| >= QUEUE_SIZE then q[1..] else q;
      SlotsApart(head, count);
      SlotAfter(head, count);
      entries[tail] := e;
      tail := (tail + 1) % QUEUE_SIZE;
      count := count + 1;
      assert Contents() == rest + [e];
    }

    /** incr_queue_pop: false if there is nothing. */
    method Pop() returns (ok: bool, e: Event)
      requires Valid()
      modifies this
      ensures Valid() && ok == (old(Contents()) != [])
      ensures ok ==> [e] + Contents() == old(Contents())
      ensures !ok ==> Contents() == old(Contents())
    {
      if count == 0 {
        return false, FileRemove("");
      }
      ghost var q := Contents();
      ghost var h := head;
      e := entries[head];
      assert Slot(h, 0) == h;
      head := (head + 1) % QUEUE_SIZE;
      SlotNext(h, count - 1);
      count := count - 1;
      ok := true;
      forall i | 0 <= i < count
        ensures Contents()[i] == q[i + 1]
      {
        SlotNext(h, i);
      }
      assert [e] + Contents() == q;
    }

    method Clear()
      requires Valid()
      modifies this
      ensures Valid() && Contents() == []
    {
      head, tail, count := 0, 0, 0;
    }
  }

  lemma SlotNext(h: nat, i: nat)
    requires h < QUEUE_SIZE && i <= QUEUE_SIZE
    ensures Slot((h + 1) % QUEUE_SIZE, i) == Slot(h, i + 1)
  {
  }

  lemma SlotAfter(h: nat, n: nat)
    requires h < QUEUE_SIZE && n <= QUEUE_SIZE
    ensures (Slot(h, n) + 1) % QUEUE_SIZE == Slot(h, n + 1)
  {
  }

  lemma SlotsApart(h: nat, n: nat)
    requires h < QUEUE_SIZE && n < QUEUE_SIZE
    ensures forall i :: 0 <= i < n ==> Slot(h, i) != Slot(h, n)
  {
  }

  // ----- the newest 64

  function PushAll(q: seq<Event>, es: seq<Event>): seq<Event>
    decreases |es|
  {
    if es == [] then q else PushAll(Pushed(q, es[0]), es[1..])
  }

  function Newest(q: seq<Event>): seq<Event> {
    if |q| <= 64 then q else q[|q| - 64..]
  }

  /** Events that are only pushed: the queue holds the newest 64 of all of them, in order. */
  lemma {:induction false} NewestKept(q: seq<Event>, es: seq<Event>)
    ensures PushAll(Newest(q), es) == Newest(q + es)
    decreases |es|
  {
    if es == [] {
      assert q + es == q;
    } else {
      assert q + [es[0]] + es[1..] == q + es;
      assert Pushed(Newest(q), es[0]) == Newest(q + [es[0]]);
      NewestKept(q + [es[0]], es[1..]);
    }
  }
}
