/** The indexing client: failure handling, suspension, full syncs and the draining of queued
    events (mnemosyne_sync.c:91-138, 208-266, 364-440, 570-691, 862-985 and 1011-1101).
    Every POST takes its status and the time after it from an oracle, so a name that does not
    resolve is one more status. */
module Mnemosyne {
  import opened IncrQueue

  const MAX_LEVEL: nat := 4
  const MAX_FAILURES: nat := 5

  datatype Status = Active | Suspended

  datatype Config = Config(indexFiles: bool, indexNews: bool, indexBoard: bool)

  /** What the i-th POST answers, and the time read after it. */
  datatype World = World(status: nat -> int, clock: nat -> int)

  /** What the server holds: counts as the heartbeat and the syncs take them. */
  datatype Content = Content(filesCounted: int, filesSynced: int, hasNews: bool, newsCounted: int, newsSynced: int, boardPosts: nat)

  /** sent: the queued events posted so far; posts: the number of POSTs so far. */
  datatype Sync = Sync(cfg: Config, state: Status, failures: nat, level: nat, nextRetry: int, chunked: bool,
                       queue: seq<Event>, files: int, news: int, posts: nat, sent: seq<Event>)

  predicate Accepted(status: int) { 200 <= status < 300 }

  /** backoff_delays */
  function Delay(level: nat): nat {
    match level
    case 0 => 2
    case 1 => 4
    case 2 => 8
    case 3 => 16
    case _ => 32
  }

  // ----- the operations on values

  /** mn_handle_post_result. */
  function Handled(s: Sync, status: int, now: int): Sync {
    if Accepted(status) then s.(failures := 0, level := 0, nextRetry := 0)
    else
      var f := s.failures + 1;
      var wanted := if f - 1 > MAX_LEVEL then MAX_LEVEL else f - 1;
      var level := if wanted > s.level then wanted else s.level;
      var t := s.(failures := f, level := level, nextRetry := now + Delay(level));
      if f >= MAX_FAILURES && s.state == Active then t.(state := Suspended, chunked := false, queue := []) else t
  }

  /** One POST and its result. */
  function AfterPost(s: Sync, w: World): Sync {
    Handled(s.(posts := s.posts + 1), w.status(s.posts), w.clock(s.posts))
  }

  function FileSync(s: Sync, w: World, c: Content): Sync {
    var t := AfterPost(s, w);
    if Accepted(w.status(s.posts)) then t.(files := c.filesSynced) else t
  }

  function NewsSync(s: Sync, w: World, c: Content): Sync {
    if !c.hasNews then s
    else
      var t := AfterPost(s, w);
      if Accepted(w.status(s.posts)) then t.(news := c.newsSynced) else t
  }

  function BoardSync(s: Sync, w: World, c: Content): Sync {
    if c.boardPosts == 0 then s else AfterPost(s, w)
  }

  /** mn_start_full_sync: files, news, message board, until one of them suspends. */
  function FullSync(s: Sync, w: World, c: Content): Sync {
    if s.state == Suspended then s
    else
      var a := if s.cfg.indexFiles then FileSync(s, w, c) else s;
      if a.state == Suspended then a
      else
        var b := if s.cfg.indexNews then NewsSync(a, w, c) else a;
        if b.state == Suspended || !s.cfg.indexBoard then b else BoardSync(b, w, c)
  }

  /** mn_send_heartbeat: success while suspended resumes and starts a full sync. */
  function Heartbeat(s: Sync, w: World, c: Content): Sync {
    var t := s.(files := if s.cfg.indexFiles then c.filesCounted else 0,
                news := if s.cfg.indexNews && c.hasNews then c.newsCounted else 0,
                posts := s.posts + 1);
    var status := w.status(s.posts);
    if Accepted(status) && s.state == Suspended then
      FullSync(t.(state := Active, failures := 0, level := 0, nextRetry := 0), w, c)
    else if s.state != Suspended then Handled(t, status, w.clock(s.posts))
    else t
  }

  /** mn_periodic_check. */
  function Periodic(s: Sync, w: World, c: Content): Sync {
    var files := if s.cfg.indexFiles then c.filesCounted else 0;
    var news := if s.cfg.indexNews && c.hasNews then c.newsCounted else 0;
    if s.state == Suspended || s.chunked then s
    else if s.cfg.indexFiles && files != s.files then FileSync(s.(files := files), w, c)
    else if s.cfg.indexNews && news != s.news then NewsSync(s.(news := news), w, c)
    else s
  }

  /** mn_queue_file_add, mn_queue_file_remove and mn_queue_news_add. */
  function Queued(s: Sync, e: Event): Sync {
    if s.state == Suspended then s else s.(queue := Pushed(s.queue, e))
  }

  /** The draining loop. */
  function DrainLoop(s: Sync, w: World): Sync
    decreases |s.queue|
  {
    if s.queue == [] then s
    else
      var t := AfterPost(s.(queue := s.queue[1..], sent := s.sent + [s.queue[0]]), w);
      if t.state == Suspended then t else DrainLoop(t, w)
  }

  /** mn_drain_incremental_queue. */
  function Drained(s: Sync, w: World): Sync {
    if s.state == Suspended || s.chunked then s else DrainLoop(s, w)
  }

  /** mn_sync_reconfigure, to a configuration that is enabled. */
  function Reconfigured(s: Sync, cfg: Config): Sync {
    s.(cfg := cfg, state := Active, failures := 0, level := 0, chunked := false)
  }

  /** A saved cursor was loaded when the startup delay was over, whatever the state is by then. */
  function Resumed(s: Sync): Sync { s.(chunked := true) }

  // ----- runs

  datatype Op =
    | DoHeartbeat(c: Content)
    | DoFullSync(c: Content)
    | DoFileSync(c: Content)
    | DoNewsSync(c: Content)
    | DoPeriodic(c: Content)
    | DoQueue(e: Event)
    | DoDrain
    | DoReconfigure(cfg: Config)
    | DoResume

  function Step(s: Sync, w: World, op: Op): Sync {
    match op
    case DoHeartbeat(c) => Heartbeat(s, w, c)
    case DoFullSync(c) => FullSync(s, w, c)
    case DoFileSync(c) => if s.state == Suspended then s else FileSync(s, w, c)
    case DoNewsSync(c) => if s.state == Suspended then s else NewsSync(s, w, c)
    case DoPeriodic(c) => Periodic(s, w, c)
    case DoQueue(e) => Queued(s, e)
    case DoDrain => Drained(s, w)
    case DoReconfigure(cfg) => Reconfigured(s, cfg)
    case DoResume => Resumed(s)
  }

  function Run(s: Sync, w: World, ops: seq<Op>): Sync
    decreases |ops|
  {
    if ops == [] then s else Run(Step(s, w, ops[0]), w, ops[1..])
  }

  /** Active means fewer than five failures in a row; suspended means exactly five and an empty
      queue; the level follows the failures. */
  predicate Inv(s: Sync) {
    && (s.state == Active ==> s.failures < MAX_FAILURES)
    && (s.state == Suspended ==> s.failures == MAX_FAILURES && s.queue == [])
    && s.level == (if s.failures == 0 then 0 else s.failures - 1) <= MAX_LEVEL
    && |s.queue| <= QUEUE_SIZE
  }

  lemma PostKeeps(s: Sync, w: World)
    requires Inv(s) && s.state == Active
    ensures Inv(AfterPost(s, w))
  {
  }

  lemma SyncsKeep(s: Sync, w: World, c: Content)
    requires Inv(s) && s.state == Active
    ensures Inv(FileSync(s, w, c)) && Inv(NewsSync(s, w, c)) && Inv(BoardSync(s, w, c))
  {
    hide AfterPost;
    PostKeeps(s, w);
  }

  lemma FullSyncKeeps(s: Sync, w: World, c: Content)
    requires Inv(s)
    ensures Inv(FullSync(s, w, c))
  {
    hide Inv, FileSync, NewsSync, BoardSync;
    if s.state == Active {
      SyncsKeep(s, w, c);
      var a := if s.cfg.indexFiles then FileSync(s, w, c) else s;
      if a.state == Active {
        SyncsKeep(a, w, c);
        var b := if s.cfg.indexNews then NewsSync(a, w, c) else a;
        if b.state == Active {
          SyncsKeep(b, w, c);
        }
      }
    }
  }

  lemma {:induction false} DrainKeeps(s: Sync, w: World)
    requires Inv(s) && s.state == Active
    ensures Inv(DrainLoop(s, w))
    decreases |s.queue|
  {
    hide AfterPost;
    if s.queue != [] {
      var u := s.(queue := s.queue[1..], sent := s.sent + [s.queue[0]]);
      PostKeeps(u, w);
      var t := AfterPost(u, w);
      QueueAfterPost(u, w);
      if t.state == Active {
        DrainKeeps(t, w);
      }
    }
  }

  // A POST leaves the queue alone or, suspending, empties it.
  lemma QueueAfterPost(s: Sync, w: World)
    ensures var t := AfterPost(s, w);
            t.sent == s.sent && t.posts == s.posts + 1 && ((t.state == s.state && t.queue == s.queue) || (t.state == Suspended && t.queue == []))
  {
  }

  lemma HeartbeatKeeps(s: Sync, w: World, c: Content)
    requires Inv(s)
    ensures Inv(Heartbeat(s, w, c))
  {
    hide FullSync;
    var t := s.(files := if s.cfg.indexFiles then c.filesCounted else 0,
                news := if s.cfg.indexNews && c.hasNews then c.newsCounted else 0,
                posts := s.posts + 1);
    FullSyncKeeps(t.(state := Active, failures := 0, level := 0, nextRetry := 0), w, c);
  }

  lemma StepKeeps(s: Sync, w: World, op: Op)
    requires Inv(s)
    ensures Inv(Step(s, w, op))
  {
    hide Heartbeat, FullSync, FileSync, NewsSync, DrainLoop;
    match op {
      case DoHeartbeat(c) => HeartbeatKeeps(s, w, c);
      case DoFullSync(c) => FullSyncKeeps(s, w, c);
      case DoFileSync(c) => if s.state == Active { SyncsKeep(s, w, c); }
      case DoNewsSync(c) => if s.state == Active { SyncsKeep(s, w, c); }
      case DoPeriodic(c) =>
        if s.state == Active {
          SyncsKeep(s.(files := if s.cfg.indexFiles then c.filesCounted else 0), w, c);
          SyncsKeep(s.(news := if s.cfg.indexNews && c.hasNews then c.newsCounted else 0), w, c);
        }
      case DoQueue(e) =>
      case DoDrain => if s.state == Active { DrainKeeps(s, w); }
      case DoReconfigure(cfg) =>
      case DoResume =>
    }
  }

  function Init(cfg: Config): Sync { Sync(cfg, Active, 0, 0, 0, false, [], 0, 0, 0, []) }

  lemma {:induction false} RunFrom(s: Sync, w: World, ops: seq<Op>)
    requires Inv(s)
    ensures Inv(Run(s, w, ops))
    decreases |ops|
  {
    hide Inv, Step;
    if ops != [] {
      StepKeeps(s, w, ops[0]);
      RunFrom(Step(s, w, ops[0]), w, ops[1..]);
    }
  }

  /** Over every run, whatever the POSTs answer. */
  lemma RunKeeps(cfg: Config, w: World, ops: seq<Op>)
    ensures Inv(Run(Init(cfg), w, ops))
  {
    hide Run;
    RunFrom(Init(cfg), w, ops);
  }

  // ----- what becomes of queued events

  /** The events accepted during a run: those queued while active. */
  function AcceptedOf(s: Sync, op: Op): seq<Event> {
    if op.DoQueue? && s.state == Active then [op.e] else []
  }

  function AcceptedIn(s: Sync, w: World, ops: seq<Op>): seq<Event>
    decreases |ops|
  {
    if ops == [] then [] else AcceptedOf(s, ops[0]) + AcceptedIn(Step(s, w, ops[0]), w, ops[1..])
  }

  predicate Increasing(idx: seq<nat>) { forall i, j :: 0 <= i < j < |idx| ==> idx[i] < idx[j] }

  /** The queue is the newest part of the accepted events, from position `from` on; the events
      sent are earlier ones, each at most once and in order: idx gives their positions. */
  predicate Fifo(s: Sync, accepted: seq<Event>, from: nat, idx: seq<nat>) {
    && from <= |accepted| && s.queue == accepted[from..]
    && Increasing(idx) && |s.sent| == |idx|
    && forall i :: 0 <= i < |idx| ==> idx[i] < from && s.sent[i] == accepted[idx[i]]
  }

  lemma {:induction false} DrainFifo(s: Sync, w: World, accepted: seq<Event>, from: nat, idx: seq<nat>)
    returns (from': nat, idx': seq<nat>)
    requires Fifo(s, accepted, from, idx)
    ensures Fifo(DrainLoop(s, w), accepted, from', idx')
    decreases |s.queue|
  {
    hide AfterPost;
    if s.queue == [] {
      from', idx' := from, idx;
    } else {
      var u := s.(queue := s.queue[1..], sent := s.sent + [s.queue[0]]);
      var t := AfterPost(u, w);
      QueueAfterPost(u, w);
      assert s.queue[1..] == accepted[from + 1..];
      assert Fifo(u, accepted, from + 1, idx + [from]);
      if t.state == Suspended {
        from', idx' := Emptied(u, t, accepted, from + 1, idx + [from]);
      } else {
        assert Fifo(t, accepted, from + 1, idx + [from]);
        from', idx' := DrainFifo(t, w, accepted, from + 1, idx + [from]);
      }
    }
  }

  // A step that keeps what was sent and keeps the queue or empties it.
  lemma Emptied(s: Sync, t: Sync, accepted: seq<Event>, from: nat, idx: seq<nat>) returns (from': nat, idx': seq<nat>)
    requires Fifo(s, accepted, from, idx) && t.sent == s.sent && (t.queue == s.queue || t.queue == [])
    ensures Fifo(t, accepted, from', idx')
  {
    idx' := idx;
    if t.queue == s.queue {
      from' := from;
    } else {
      from' := |accepted|;
      assert accepted[|accepted|..] == [];
    }
  }

  /** Nothing queued was sent, and the queue is kept, or emptied by a suspension. */
  predicate Quiet(s: Sync, t: Sync) {
    t.sent == s.sent && (t.queue == s.queue || (t.queue == [] && t.state == Suspended))
  }

  lemma QuietSyncs(s: Sync, w: World, c: Content)
    ensures Quiet(s, AfterPost(s, w)) && Quiet(s, FileSync(s, w, c)) && Quiet(s, NewsSync(s, w, c)) && Quiet(s, BoardSync(s, w, c))
  {
    hide AfterPost;
    QueueAfterPost(s, w);
  }

  lemma QuietFullSync(s: Sync, w: World, c: Content)
    ensures Quiet(s, FullSync(s, w, c))
  {
    hide FileSync, NewsSync, BoardSync;
    QuietSyncs(s, w, c);
    var a := if s.cfg.indexFiles then FileSync(s, w, c) else s;
    QuietSyncs(a, w, c);
    var b := if s.cfg.indexNews then NewsSync(a, w, c) else a;
    QuietSyncs(b, w, c);
  }

  lemma QuietHeartbeat(s: Sync, w: World, c: Content)
    ensures Quiet(s, Heartbeat(s, w, c))
  {
    hide FullSync;
    var t := s.(files := if s.cfg.indexFiles then c.filesCounted else 0,
                news := if s.cfg.indexNews && c.hasNews then c.newsCounted else 0,
                posts := s.posts + 1);
    QuietFullSync(t.(state := Active, failures := 0, level := 0, nextRetry := 0), w, c);
  }

  // Everything but queueing and draining is quiet.
  lemma OtherSteps(s: Sync, w: World, op: Op)
    requires !op.DoDrain? && !(op.DoQueue? && s.state == Active)
    ensures Quiet(s, Step(s, w, op))
  {
    hide Heartbeat, FullSync, FileSync, NewsSync;
    match op {
      case DoHeartbeat(c) => QuietHeartbeat(s, w, c);
      case DoFullSync(c) => QuietFullSync(s, w, c);
      case DoFileSync(c) => QuietSyncs(s, w, c);
      case DoNewsSync(c) => QuietSyncs(s, w, c);
      case DoPeriodic(c) =>
        QuietSyncs(s.(files := if s.cfg.indexFiles then c.filesCounted else 0), w, c);
        QuietSyncs(s.(news := if s.cfg.indexNews && c.hasNews then c.newsCounted else 0), w, c);
      case _ =>
    }
  }

  lemma StepFifo(s: Sync, w: World, op: Op, accepted: seq<Event>, from: nat, idx: seq<nat>)
    returns (from': nat, idx': seq<nat>)
    requires Inv(s) && Fifo(s, accepted, from, idx)
    ensures Fifo(Step(s, w, op), accepted + AcceptedOf(s, op), from', idx')
  {
    hide Heartbeat, FullSync, FileSync, NewsSync, Periodic, DrainLoop;
    if op.DoQueue? && s.state == Active {
      idx' := idx;
      from' := if |s.queue| >= QUEUE_SIZE then from + 1 else from;
      QueueFifo(s, op.e, accepted, from, idx, from');
    } else {
      assert accepted + [] == accepted;
      if op.DoDrain? && s.state == Active && !s.chunked {
        from', idx' := DrainFifo(s, w, accepted, from, idx);
      } else if op.DoDrain? {
        from', idx' := from, idx;
      } else {
        OtherSteps(s, w, op);
        from', idx' := Emptied(s, Step(s, w, op), accepted, from, idx);
      }
    }
  }

  lemma QueueFifo(s: Sync, e: Event, accepted: seq<Event>, from: nat, idx: seq<nat>, from': nat)
    requires Fifo(s, accepted, from, idx) && s.state == Active
    requires from' == if |s.queue| >= QUEUE_SIZE then from + 1 else from
    ensures Fifo(Queued(s, e), accepted + [e], from', idx)
  {
    assert accepted[from..] + [e] == (accepted + [e])[from..];
    if |s.queue| >= QUEUE_SIZE {
      assert accepted[from..][1..] + [e] == (accepted + [e])[from + 1..];
    }
  }

  lemma {:induction false} RunFifoFrom(s: Sync, w: World, ops: seq<Op>, accepted: seq<Event>, from: nat, idx: seq<nat>)
    returns (from': nat, idx': seq<nat>)
    requires Inv(s) && Fifo(s, accepted, from, idx)
    ensures Fifo(Run(s, w, ops), accepted + AcceptedIn(s, w, ops), from', idx')
    decreases |ops|
  {
    hide Inv, Fifo, Step;
    if ops == [] {
      assert accepted + [] == accepted;
      from', idx' := from, idx;
    } else {
      var f, i := StepFifo(s, w, ops[0], accepted, from, idx);
      StepKeeps(s, w, ops[0]);
      var t, more := Step(s, w, ops[0]), AcceptedOf(s, ops[0]);
      from', idx' := RunFifoFrom(t, w, ops[1..], accepted + more, f, i);
      assert accepted + more + AcceptedIn(t, w, ops[1..]) == accepted + (more + AcceptedIn(t, w, ops[1..]));
    }
  }

  /** Over every run: the queue is a newest part of the accepted events, at most 64, and the
      events sent come from the part before it, in order, none twice. */
  lemma RunFifo(cfg: Config, w: World, ops: seq<Op>) returns (from: nat, idx: seq<nat>)
    ensures var s, accepted := Run(Init(cfg), w, ops), AcceptedIn(Init(cfg), w, ops);
            Fifo(s, accepted, from, idx) && |s.queue| <= QUEUE_SIZE
  {
    hide Run, AcceptedIn;
    from, idx := RunFifoFrom(Init(cfg), w, ops, [], 0, []);
    assert [] + AcceptedIn(Init(cfg), w, ops) == AcceptedIn(Init(cfg), w, ops);
    RunKeeps(cfg, w, ops);
  }

  lemma NoFullSync(s: Sync, w: World, c: Content)
    requires s.state == Suspended
    ensures FullSync(s, w, c) == s
  {
  }

  /** While suspended nothing queued is sent and nothing is queued: only a heartbeat posts, once,
      and only its success (or a new configuration) ends the suspension. A cursor loaded in the
      meantime blocks draining after it. */
  lemma SuspendedSilence(s: Sync, w: World, op: Op)
    requires Inv(s) && s.state == Suspended
    ensures var t := Step(s, w, op);
            && t.sent == s.sent && t.queue == []
            && (!op.DoHeartbeat? && !op.DoReconfigure? && !op.DoResume? ==> t == s)
            && (op.DoResume? ==> t == s.(chunked := true))
            && (op.DoHeartbeat? && !Accepted(w.status(s.posts)) ==> t.state == Suspended && t.posts == s.posts + 1)
            && (op.DoHeartbeat? && Accepted(w.status(s.posts)) ==> t.state == Active && t.chunked == s.chunked)
  {
    hide Handled, FullSync, FileSync, NewsSync;
    if op.DoHeartbeat? {
      QuietHeartbeat(s, w, op.c);
    } else if op.DoFullSync? {
      NoFullSync(s, w, op.c);
    }
    if op.DoHeartbeat? && Accepted(w.status(s.posts)) {
      var t := s.(files := if s.cfg.indexFiles then op.c.filesCounted else 0,
                  news := if s.cfg.indexNews && op.c.hasNews then op.c.newsCounted else 0,
                  posts := s.posts + 1);
      FreshFullSync(t.(state := Active, failures := 0, level := 0, nextRetry := 0), w, op.c);
    }
  }

  lemma FewFailures(s: Sync, w: World, k: nat)
    requires s.state == Active && s.failures <= k < MAX_FAILURES - 1
    ensures var t := AfterPost(s, w); t.state == Active && t.failures <= k + 1 && t.chunked == s.chunked
  {
  }

  // Three POSTs cannot fail five times.
  lemma FreshFullSync(s: Sync, w: World, c: Content)
    requires s.state == Active && s.failures == 0
    ensures FullSync(s, w, c).state == Active && FullSync(s, w, c).chunked == s.chunked
  {
    hide AfterPost;
    FewFailures(s, w, 0);
    var a := if s.cfg.indexFiles then FileSync(s, w, c) else s;
    FewFailures(a, w, 1);
    var b := if s.cfg.indexNews then NewsSync(a, w, c) else a;
    FewFailures(b, w, 2);
  }

  /** The k-th failure in a row sets the retry time 2, 4, 8, 16, 32 seconds ahead; the fifth suspends. */
  lemma Backoff(s: Sync, status: int, now: int)
    requires Inv(s) && s.state == Active && !Accepted(status)
    ensures var t := Handled(s, status, now);
            && t.failures == s.failures + 1 && t.nextRetry == now + Doubling(t.failures)
            && (t.state == Suspended <==> t.failures == MAX_FAILURES)
  {
    assert Doubling(1) == 2 && Doubling(2) == 4 && Doubling(3) == 8;
    assert Doubling(4) == 16;
    assert Doubling(5) == 32;
  }

  function Doubling(k: nat): nat { if k == 0 then 1 else 2 * Doubling(k - 1) }

  // ----- what the failure count and the suspension mean

  /** How many POSTs up to the n-th have failed in a row, counted back as far as POST `base`. */
  function FailedInARow(w: World, base: nat, n: nat): nat
    requires base <= n
    decreases n
  {
    if n == base || Accepted(w.status(n - 1)) then 0 else 1 + FailedInARow(w, base, n - 1)
  }

  /** Failures and state say what the POSTs since `base` have answered: failures is the length of
      the last unbroken row of failures, up to five, and five in a row mean suspended. */
  predicate Streak(s: Sync, w: World, base: nat) {
    && base <= s.posts
    && var row := FailedInARow(w, base, s.posts);
       && s.failures == (if row < 5 then row else 5)
       && (s.state == Suspended <==> row >= 5)
       && (0 < row < 5 ==> s.nextRetry == w.clock(s.posts - 1) + Doubling(row))
       && (row == 0 && base < s.posts ==> s.nextRetry == 0)
  }

  lemma PostStreak(s: Sync, w: World, base: nat)
    requires Inv(s) && s.state == Active && Streak(s, w, base)
    ensures Streak(AfterPost(s, w), w, base) && Inv(AfterPost(s, w))
  {
    hide Doubling, Handled;
    PostKeeps(s, w);
    var u := s.(posts := s.posts + 1);
    HandledKeeps(u, w.status(s.posts), w.clock(s.posts));
    if Accepted(w.status(s.posts)) {
      SuccessResets(u, w.status(s.posts), w.clock(s.posts));
    } else {
      Backoff(u, w.status(s.posts), w.clock(s.posts));
    }
  }

  lemma SuccessResets(s: Sync, status: int, now: int)
    requires Accepted(status)
    ensures Handled(s, status, now) == s.(failures := 0, level := 0, nextRetry := 0)
  {
  }

  lemma SyncsStreak(s: Sync, w: World, c: Content, base: nat)
    requires Inv(s) && s.state == Active && Streak(s, w, base)
    ensures Streak(FileSync(s, w, c), w, base) && Streak(NewsSync(s, w, c), w, base) && Streak(BoardSync(s, w, c), w, base)
  {
    hide AfterPost, FailedInARow, Doubling;
    PostStreak(s, w, base);
  }

  lemma FullSyncStreak(s: Sync, w: World, c: Content, base: nat)
    requires Inv(s) && Streak(s, w, base)
    ensures Streak(FullSync(s, w, c), w, base)
  {
    hide Inv, Streak, FileSync, NewsSync, BoardSync;
    if s.state == Active {
      SyncsStreak(s, w, c, base);
      SyncsKeep(s, w, c);
      var a := if s.cfg.indexFiles then FileSync(s, w, c) else s;
      if a.state == Active {
        SyncsStreak(a, w, c, base);
        SyncsKeep(a, w, c);
        var b := if s.cfg.indexNews then NewsSync(a, w, c) else a;
        if b.state == Active {
          SyncsStreak(b, w, c, base);
        }
      }
    }
  }

  lemma HeartbeatStreak(s: Sync, w: World, c: Content, base: nat)
    requires Inv(s) && Streak(s, w, base)
    ensures Streak(Heartbeat(s, w, c), w, base)
  {
    hide FullSync, Handled, Doubling;
    var t := s.(files := if s.cfg.indexFiles then c.filesCounted else 0,
                news := if s.cfg.indexNews && c.hasNews then c.newsCounted else 0);
    if s.state == Active {
      PostStreak(t, w, base);
      assert Heartbeat(s, w, c) == AfterPost(t, w);
    } else if Accepted(w.status(s.posts)) {
      FullSyncStreak(t.(posts := s.posts + 1, state := Active, failures := 0, level := 0, nextRetry := 0), w, c, base);
    }
  }

  lemma {:induction false} DrainStreak(s: Sync, w: World, base: nat)
    requires Inv(s) && s.state == Active && Streak(s, w, base)
    ensures Streak(DrainLoop(s, w), w, base)
    decreases |s.queue|
  {
    hide AfterPost, FailedInARow, Doubling;
    if s.queue != [] {
      var u := s.(queue := s.queue[1..], sent := s.sent + [s.queue[0]]);
      PostStreak(u, w, base);
      QueueAfterPost(u, w);
      if AfterPost(u, w).state == Active {
        DrainStreak(AfterPost(u, w), w, base);
      }
    }
  }

  /** The POSTs are counted anew after a new configuration. */
  function BaseAfter(s: Sync, base: nat, op: Op): nat { if op.DoReconfigure? then s.posts else base }

  lemma StepStreak(s: Sync, w: World, op: Op, base: nat)
    requires Inv(s) && Streak(s, w, base)
    ensures Streak(Step(s, w, op), w, BaseAfter(s, base, op))
  {
    hide Heartbeat, FullSync, FileSync, NewsSync, DrainLoop, Doubling;
    match op {
      case DoHeartbeat(c) => HeartbeatStreak(s, w, c, base);
      case DoFullSync(c) => FullSyncStreak(s, w, c, base);
      case DoFileSync(c) => if s.state == Active { SyncsStreak(s, w, c, base); }
      case DoNewsSync(c) => if s.state == Active { SyncsStreak(s, w, c, base); }
      case DoPeriodic(c) =>
        if s.state == Active {
          SyncsStreak(s.(files := if s.cfg.indexFiles then c.filesCounted else 0), w, c, base);
          SyncsStreak(s.(news := if s.cfg.indexNews && c.hasNews then c.newsCounted else 0), w, c, base);
        }
      case DoDrain => if s.state == Active { DrainStreak(s, w, base); }
      case _ =>
    }
  }

  function BaseOf(s: Sync, w: World, ops: seq<Op>, base: nat): nat
    decreases |ops|
  {
    if ops == [] then base else BaseOf(Step(s, w, ops[0]), w, ops[1..], BaseAfter(s, base, ops[0]))
  }

  lemma {:induction false} StreakFrom(s: Sync, w: World, ops: seq<Op>, base: nat)
    requires Inv(s) && Streak(s, w, base)
    ensures Streak(Run(s, w, ops), w, BaseOf(s, w, ops, base))
    decreases |ops|
  {
    hide Inv, Step, Streak, BaseAfter;
    if ops != [] {
      StepStreak(s, w, ops[0], base);
      StepKeeps(s, w, ops[0]);
      StreakFrom(Step(s, w, ops[0]), w, ops[1..], BaseAfter(s, base, ops[0]));
    }
  }

  /** Over every run the failure count is the number of POSTs that have failed in a row, up to
      five, since the start or the last configuration; the client is suspended exactly while the
      last five or more have. */
  lemma RunStreak(cfg: Config, w: World, ops: seq<Op>)
    ensures Streak(Run(Init(cfg), w, ops), w, BaseOf(Init(cfg), w, ops, 0))
  {
    hide Run, BaseOf;
    StreakFrom(Init(cfg), w, ops, 0);
  }

  // ----- what a full sync and a periodic check post

  function One(b: bool): nat { if b then 1 else 0 }

  /** A full sync posts files, news and the message board, in this order, each if it is to be
      indexed and there is something to send, and stops early only when suspended. */
  lemma FullSyncPosts(s: Sync, w: World, c: Content)
    requires Inv(s) && s.state == Active
    ensures var t := FullSync(s, w, c);
            var files, news, board := One(s.cfg.indexFiles), One(s.cfg.indexNews && c.hasNews), One(s.cfg.indexBoard && c.boardPosts > 0);
            && s.posts <= t.posts <= s.posts + files + news + board
            && (t.state == Active ==> t.posts == s.posts + files + news + board)
            && t.files == (if files == 1 && Accepted(w.status(s.posts)) then c.filesSynced else s.files)
            && (t.state == Active ==>
                t.news == if news == 1 && Accepted(w.status(s.posts + files)) then c.newsSynced else s.news)
  {
    hide Handled;
    HandledKeeps(s.(posts := s.posts + 1), w.status(s.posts), w.clock(s.posts));
    var a := if s.cfg.indexFiles then FileSync(s, w, c) else s;
    HandledKeeps(a.(posts := a.posts + 1), w.status(a.posts), w.clock(a.posts));
    var b := if s.cfg.indexNews then NewsSync(a, w, c) else a;
    HandledKeeps(b.(posts := b.posts + 1), w.status(b.posts), w.clock(b.posts));
  }

  lemma HandledKeeps(s: Sync, status: int, now: int)
    ensures var t := Handled(s, status, now);
            t.cfg == s.cfg && t.files == s.files && t.news == s.news && t.posts == s.posts
  {
  }

  /** A periodic check posts exactly when the client is active, no cursor blocks it, and the
      number of files or articles is not the one it remembers; one POST, files first. */
  lemma PeriodicPostsIff(s: Sync, w: World, c: Content)
    ensures var t := Periodic(s, w, c);
            var drift := s.cfg.indexFiles && c.filesCounted != s.files;
            && t.posts == s.posts + One(s.state == Active && !s.chunked
                 && (drift || (s.cfg.indexNews && c.hasNews && c.newsCounted != s.news)))
            && (s.state == Active && !s.chunked && drift && Accepted(w.status(s.posts)) ==> t.files == c.filesSynced && t.news == s.news)
            && (s.state == Suspended || s.chunked ==> t == s)
  {
    hide Handled;
    var files := if s.cfg.indexFiles then c.filesCounted else 0;
    var news := if s.cfg.indexNews && c.hasNews then c.newsCounted else 0;
    HandledKeeps(s.(files := files, posts := s.posts + 1), w.status(s.posts), w.clock(s.posts));
    HandledKeeps(s.(news := news, posts := s.posts + 1), w.status(s.posts), w.clock(s.posts));
  }

  /** A heartbeat is one POST and remembers the counts; accepted while suspended it is followed by
      a full sync, and refused while suspended it changes nothing else. */
  lemma HeartbeatPosts(s: Sync, w: World, c: Content)
    requires Inv(s)
    ensures var t := Heartbeat(s, w, c);
            var resumes := s.state == Suspended && Accepted(w.status(s.posts));
            var files, news, board := One(s.cfg.indexFiles), One(s.cfg.indexNews && c.hasNews), One(s.cfg.indexBoard && c.boardPosts > 0);
            && s.posts < t.posts <= s.posts + 1 + (if resumes then files + news + board else 0)
            && (resumes && t.state == Active ==> t.posts == s.posts + 1 + files + news + board)
            && (!resumes ==> t.files == (if s.cfg.indexFiles then c.filesCounted else 0)
                             && t.news == (if s.cfg.indexNews && c.hasNews then c.newsCounted else 0))
            && (s.state == Suspended && !resumes ==> t == s.(posts := s.posts + 1, files := t.files, news := t.news))
  {
    hide Handled, FullSync;
    var t := s.(files := if s.cfg.indexFiles then c.filesCounted else 0,
                news := if s.cfg.indexNews && c.hasNews then c.newsCounted else 0,
                posts := s.posts + 1);
    HandledKeeps(t, w.status(s.posts), w.clock(s.posts));
    FullSyncPosts(t.(state := Active, failures := 0, level := 0, nextRetry := 0), w, c);
  }

  /** A drain that does not suspend the client sends the whole queue, in order; one that does has
      sent a beginning of it. */
  lemma {:induction false} DrainEmpties(s: Sync, w: World)
    requires s.state == Active
    ensures var t := DrainLoop(s, w);
            && t.queue == []
            && (t.state == Active ==> t.sent == s.sent + s.queue)
            && (t.state == Suspended ==> t.sent <= s.sent + s.queue)
            && t.posts - s.posts == |t.sent| - |s.sent|
    decreases |s.queue|
  {
    hide AfterPost;
    if s.queue == [] {
      assert s.sent + [] == s.sent;
    } else {
      var u := s.(queue := s.queue[1..], sent := s.sent + [s.queue[0]]);
      assert u.sent + u.queue == s.sent + s.queue;
      QueueAfterPost(u, w);
      if AfterPost(u, w).state == Active {
        DrainEmpties(AfterPost(u, w), w);
      }
    }
  }

  // ----- draining blocked by a loaded cursor

  lemma {:induction false} DrainSends(s: Sync, w: World)
    ensures |DrainLoop(s, w).sent| >= |s.sent| + if s.queue == [] then 0 else 1
    decreases |s.queue|
  {
    hide AfterPost;
    if s.queue != [] {
      var u := s.(queue := s.queue[1..], sent := s.sent + [s.queue[0]]);
      QueueAfterPost(u, w);
      if AfterPost(u, w).state == Active {
        DrainSends(AfterPost(u, w), w);
      }
    }
  }

  /** A drain sends nothing exactly while suspended, or after a cursor was loaded, or with an empty queue. */
  lemma DrainSendsNothingIff(s: Sync, w: World)
    ensures Drained(s, w).sent == s.sent <==> s.state == Suspended || s.chunked || s.queue == []
  {
    hide DrainLoop;
    DrainSends(s, w);
    DrainTurn(s, w);
  }

  predicate Suspends(s: Sync, w: World, op: Op) { s.state == Active && Step(s, w, op).state == Suspended }

  /** Once a cursor was loaded, only a suspension or a new configuration makes draining possible again. */
  lemma StaysBlocked(s: Sync, w: World, op: Op)
    requires s.chunked
    ensures var t := Step(s, w, op);
            t.sent == s.sent && (t.chunked <==> !op.DoReconfigure? && !Suspends(s, w, op))
  {
    hide FullSync, FileSync, NewsSync, DrainLoop;
    if !op.DoDrain? && !op.DoQueue? {
      OtherSteps(s, w, op);
    }
    match op {
      case DoHeartbeat(c) => HeartbeatChunked(s, w, c);
      case DoFullSync(c) => FullSyncChunked(s, w, c);
      case DoFileSync(c) => SyncsChunked(s, w, c);
      case DoNewsSync(c) => SyncsChunked(s, w, c);
      case _ =>
    }
  }

  lemma HeartbeatChunked(s: Sync, w: World, c: Content)
    requires s.chunked
    ensures var t := Heartbeat(s, w, c); t.chunked <==> !(s.state == Active && t.state == Suspended)
  {
    hide FullSync;
    if s.state == Suspended {
      var t := s.(files := if s.cfg.indexFiles then c.filesCounted else 0,
                  news := if s.cfg.indexNews && c.hasNews then c.newsCounted else 0,
                  posts := s.posts + 1);
      FreshFullSync(t.(state := Active, failures := 0, level := 0, nextRetry := 0), w, c);
    }
  }

  /** No step of the run suspends or brings a new configuration. */
  predicate Undisturbed(s: Sync, w: World, ops: seq<Op>)
    decreases |ops|
  {
    ops == [] || (!ops[0].DoReconfigure? && !Suspends(s, w, ops[0]) && Undisturbed(Step(s, w, ops[0]), w, ops[1..]))
  }

  /** After a saved cursor was loaded, nothing queued is sent before a suspension that follows or
      a new configuration, however long the run is. */
  lemma {:induction false} BlockedRun(s: Sync, w: World, ops: seq<Op>)
    requires s.chunked && Undisturbed(s, w, ops)
    ensures Run(s, w, ops).sent == s.sent && Run(s, w, ops).chunked
    decreases |ops|
  {
    hide Step, Suspends;
    if ops != [] {
      StaysBlocked(s, w, ops[0]);
      BlockedRun(Step(s, w, ops[0]), w, ops[1..]);
    }
  }

  lemma SyncsChunked(s: Sync, w: World, c: Content)
    requires s.chunked
    ensures forall t :: t == FileSync(s, w, c) || t == NewsSync(s, w, c) || t == BoardSync(s, w, c) ==>
              (t.chunked <==> !(s.state == Active && t.state == Suspended)) && (s.state == Suspended ==> t.state == Suspended)
  {
  }

  lemma FullSyncChunked(s: Sync, w: World, c: Content)
    requires s.chunked
    ensures var t := FullSync(s, w, c); t.chunked <==> !(s.state == Active && t.state == Suspended)
  {
    hide FileSync, NewsSync, BoardSync;
    SyncsChunked(s, w, c);
    var a := if s.cfg.indexFiles then FileSync(s, w, c) else s;
    if a.chunked {
      SyncsChunked(a, w, c);
      var b := if s.cfg.indexNews then NewsSync(a, w, c) else a;
      if b.chunked {
        SyncsChunked(b, w, c);
      }
    }
  }

  // ----- which events are lost

  /** An event is pushed out of the full queue. */
  predicate Overflows(s: Sync, op: Op) { op.DoQueue? && s.state == Active && |s.queue| >= QUEUE_SIZE }

  predicate Lossless(s: Sync, w: World, ops: seq<Op>)
    decreases |ops|
  {
    ops == [] || (!Overflows(s, ops[0]) && !Suspends(s, w, ops[0]) && Lossless(Step(s, w, ops[0]), w, ops[1..]))
  }

  lemma {:induction false} DrainAccounts(s: Sync, w: World)
    requires s.state == Active
    ensures var t := DrainLoop(s, w); t.state == Active ==> t.sent + t.queue == s.sent + s.queue
    decreases |s.queue|
  {
    hide AfterPost;
    if s.queue != [] {
      var u := s.(queue := s.queue[1..], sent := s.sent + [s.queue[0]]);
      assert u.sent + u.queue == s.sent + s.queue;
      QueueAfterPost(u, w);
      if AfterPost(u, w).state == Active {
        DrainAccounts(AfterPost(u, w), w);
      }
    }
  }

  lemma StepAccounts(s: Sync, w: World, op: Op)
    requires Inv(s) && !Overflows(s, op) && !Suspends(s, w, op)
    ensures var t := Step(s, w, op); t.sent + t.queue == s.sent + s.queue + AcceptedOf(s, op)
  {
    hide Heartbeat, FullSync, FileSync, NewsSync, Periodic, DrainLoop;
    if op.DoQueue? && s.state == Active {
      assert s.sent + (s.queue + [op.e]) == s.sent + s.queue + [op.e];
    } else {
      assert s.sent + s.queue + [] == s.sent + s.queue;
      if op.DoDrain? {
        if s.state == Active {
          DrainAccounts(s, w);
        }
      } else {
        OtherSteps(s, w, op);
      }
    }
  }

  /** Queued events are lost only when the queue overflows or a suspension empties it: over every
      run without either, what was sent and what waits are together all that was accepted, in order. */
  lemma {:induction false} NothingLost(s: Sync, w: World, ops: seq<Op>)
    requires Inv(s) && Lossless(s, w, ops)
    ensures var t := Run(s, w, ops); t.sent + t.queue == s.sent + s.queue + AcceptedIn(s, w, ops)
    decreases |ops|
  {
    hide Inv, Step, Overflows, Suspends, AcceptedOf;
    if ops == [] {
      assert s.sent + s.queue + [] == s.sent + s.queue;
    } else {
      var t := Step(s, w, ops[0]);
      StepAccounts(s, w, ops[0]);
      StepKeeps(s, w, ops[0]);
      NothingLost(t, w, ops[1..]);
      var a, b := AcceptedOf(s, ops[0]), AcceptedIn(t, w, ops[1..]);
      assert s.sent + s.queue + a + b == s.sent + s.queue + (a + b);
    }
  }

  // ----- the object

  /** mn_sync_t: its fields change in place; the queue is the ring. */
  class Client {
    var cfg: Config
    const ring: Ring
    var state: Status
    var failures: nat
    var level: nat
    var nextRetry: int
    var chunked: bool
    var files: int
    var news: int
    var posts: nat
    var sent: seq<Event>

    function State(): Sync
      reads this, ring, ring.entries
      requires ring.Valid()
    {
      Sync(cfg, state, failures, level, nextRetry, chunked, ring.Contents(), files, news, posts, sent)
    }

    constructor (config: Config)
      ensures ring.Valid() && State() == Init(config) && fresh(ring) && fresh(ring.entries)
    {
      cfg := config;
      ring := new Ring();
      state, failures, level, nextRetry, chunked := Active, 0, 0, 0, false;
      files, news, posts, sent := 0, 0, 0, [];
    }

    /** mn_handle_post_result. */
    method HandlePostResult(status: int, now: int)
      requires ring.Valid()
      modifies `state, `failures, `level, `nextRetry, `chunked, ring
      ensures ring.Valid() && State() == Handled(old(State()), status, now)
    {
      if Accepted(status) {
        failures, level, nextRetry := 0, 0, 0;
        return;
      }
      failures := failures + 1;
      var newLevel := failures - 1;
      if newLevel > MAX_LEVEL {
        newLevel := MAX_LEVEL;
      }
      if newLevel > level {
        level := newLevel;
      }
      nextRetry := now + Delay(level);
      if failures >= MAX_FAILURES && state == Active {
        state, chunked := Suspended, false;
        ring.Clear();
      }
    }

    /** A POST: its status and the time after it. */
    method Post(w: World) returns (status: int, now: int)
      modifies `posts
      ensures status == w.status(old(posts)) && now == w.clock(old(posts)) && posts == old(posts) + 1
    {
      status, now := w.status(posts), w.clock(posts);
      posts := posts + 1;
    }

    /** do_full_file_sync. */
    method DoFullFileSync(w: World, c: Content)
      requires ring.Valid()
      modifies this, ring
      ensures ring.Valid() && State() == FileSync(old(State()), w, c) && cfg == old(cfg)
    {
      hide Handled;
      var status, now := Post(w);
      HandlePostResult(status, now);
      if Accepted(status) {
        files := c.filesSynced;
      }
    }

    /** do_full_news_sync. */
    method DoFullNewsSync(w: World, c: Content)
      requires ring.Valid()
      modifies this, ring
      ensures ring.Valid() && State() == NewsSync(old(State()), w, c) && cfg == old(cfg)
    {
      hide Handled;
      if !c.hasNews {
        return;
      }
      var status, now := Post(w);
      HandlePostResult(status, now);
      if Accepted(status) {
        news := c.newsSynced;
      }
    }

    /** do_full_msgboard_sync. */
    method DoFullBoardSync(w: World, c: Content)
      requires ring.Valid()
      modifies this, ring
      ensures ring.Valid() && State() == BoardSync(old(State()), w, c) && cfg == old(cfg)
    {
      hide Handled;
      if c.boardPosts == 0 {
        return;
      }
      var status, now := Post(w);
      HandlePostResult(status, now);
    }

    /** mn_start_full_sync. */
    method StartFullSync(w: World, c: Content)
      requires ring.Valid()
      modifies this, ring
      ensures ring.Valid() && State() == FullSync(old(State()), w, c)
    {
      hide FileSync, NewsSync, BoardSync;
      if state == Suspended {
        return;
      }
      if cfg.indexFiles {
        DoFullFileSync(w, c);
      }
      if state == Suspended {
        return;
      }
      if cfg.indexNews {
        DoFullNewsSync(w, c);
      }
      if state == Suspended {
        return;
      }
      if cfg.indexBoard {
        DoFullBoardSync(w, c);
      }
    }

    /** The recovery of mn_send_heartbeat. */
    method Resume(w: World, c: Content)
      requires ring.Valid()
      modifies this, ring
      ensures ring.Valid() && State() == FullSync(old(State()).(state := Active, failures := 0, level := 0, nextRetry := 0), w, c)
    {
      hide FullSync;
      state, failures, level, nextRetry := Active, 0, 0, 0;
      StartFullSync(w, c);
    }

    /** mn_send_heartbeat. */
    method SendHeartbeat(w: World, c: Content)
      requires ring.Valid()
      modifies this, ring
      ensures ring.Valid() && State() == Heartbeat(old(State()), w, c)
    {
      hide FullSync, Handled;
      files := if cfg.indexFiles then c.filesCounted else 0;
      news := if cfg.indexNews && c.hasNews then c.newsCounted else 0;
      var status, now := Post(w);
      if Accepted(status) && state == Suspended {
        Resume(w, c);
        return;
      }
      if state != Suspended {
        HandlePostResult(status, now);
      }
    }

    /** mn_periodic_check. */
    method PeriodicCheck(w: World, c: Content)
      requires ring.Valid()
      modifies this, ring
      ensures ring.Valid() && State() == Periodic(old(State()), w, c)
    {
      hide FileSync, NewsSync;
      if state == Suspended || chunked {
        return;
      }
      var actualFiles := if cfg.indexFiles then c.filesCounted else 0;
      var actualNews := if cfg.indexNews && c.hasNews then c.newsCounted else 0;
      if cfg.indexFiles && actualFiles != files {
        files := actualFiles;
        DoFullFileSync(w, c);
        return;
      }
      if cfg.indexNews && actualNews != news {
        news := actualNews;
        DoFullNewsSync(w, c);
      }
    }

    /** mn_queue_file_add and its siblings. */
    method QueueEvent(e: Event)
      requires ring.Valid()
      modifies ring, ring.entries
      ensures ring.Valid() && State() == Queued(old(State()), e)
    {
      if state == Suspended {
        return;
      }
      ring.Push(e);
    }

    /** mn_sync_reconfigure. */
    method Reconfigure(config: Config)
      requires ring.Valid()
      modifies this
      ensures ring.Valid() && State() == Reconfigured(old(State()), config)
    {
      cfg := config;
      state, failures, level, chunked := Active, 0, 0, false;
    }

    /** The end of the startup delay, when a saved cursor was loaded. */
    method ResumeCursor()
      requires ring.Valid()
      modifies `chunked
      ensures State() == Resumed(old(State()))
    {
      chunked := true;
    }

    /** One queued event goes out. */
    method SendEvent(e: Event, w: World)
      requires ring.Valid()
      modifies this, ring
      ensures ring.Valid() && State() == AfterPost(old(State()).(sent := old(sent) + [e]), w)
    {
      hide Handled;
      sent := sent + [e];
      var status, now := Post(w);
      HandlePostResult(status, now);
    }

    /** mn_drain_incremental_queue. */
    method DrainQueue(w: World)
      requires ring.Valid()
      modifies this, ring
      ensures ring.Valid() && State() == Drained(old(State()), w)
    {
      hide DrainLoop, AfterPost;
      if state == Suspended || chunked {
        return;
      }
      ghost var start := State();
      DrainTurn(start, w);
      var ok, e := ring.Pop();
      while ok
        invariant ring.Valid() && state == Active
        invariant !ok ==> State() == DrainLoop(start, w)
        invariant ok ==> Pending(State(), e, w) == DrainLoop(start, w)
        decreases if ok then ring.count + 1 else 0
      {
        PendingTurn(State(), e, w);
        SendEvent(e, w);
        if state == Suspended {
          return;
        }
        ghost var t := State();
        DrainTurn(t, w);
        ok, e := ring.Pop();
        assert ok ==> Pending(State(), e, w) == DrainLoop(t, w);
      }
    }
  }

  /** What the loop arrives at with e already popped. */
  function Pending(s: Sync, e: Event, w: World): Sync { DrainLoop(s.(queue := [e] + s.queue), w) }

  lemma PendingTurn(s: Sync, e: Event, w: World)
    ensures var t := AfterPost(s.(sent := s.sent + [e]), w);
            Pending(s, e, w) == (if t.state == Suspended then t else DrainLoop(t, w)) && |t.queue| <= |s.queue|
  {
    hide AfterPost;
    var u := s.(queue := [e] + s.queue);
    assert u.queue[1..] == s.queue;
    QueueAfterPost(s.(sent := s.sent + [e]), w);
  }

  lemma DrainTurn(s: Sync, w: World)
    ensures s.queue == [] ==> DrainLoop(s, w) == s
    ensures s.queue != [] ==>
      var t := AfterPost(s.(queue := s.queue[1..], sent := s.sent + [s.queue[0]]), w);
      DrainLoop(s, w) == if t.state == Suspended then t else DrainLoop(t, w)
  {
  }
}
