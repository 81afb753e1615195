/** Whole runs of the chat history: appends, prunes, tombstones, clean restarts and crashes
    (chat_history.c:529-628 and 768-868). */
module HistoryRun {
  import opened Bits
  import opened Wrappers
  import C = ChaCha20
  import opened Text
  import opened HistoryRecord
  import opened HistoryScan
  import opened HistoryQuery
  import opened HistoryTombs
  import opened HistoryStore

  // ----- tombstones

  /** lm_chat_history_tombstone; any id is accepted, known or not. */
  function Tombstoned(s: Store, id: u64): Store {
    if id in s.tombs then s else s.(tombs := s.tombs + [id], tombFile := s.tombFile + TombLine(id))
  }

  /** Some channel has a message with this id. */
  predicate Known(s: Store, id: u64) {
    exists i, j :: 0 <= i < |s.channels| && 0 <= j < |s.channels[i].entries| && s.channels[i].entries[j].id == id
  }

  /** What the call returns, and what the header promises: -1 if the message is not found. */
  function TombstoneCode(s: Store, id: u64): int { 0 }
  function PromisedCode(s: Store, id: u64): int { if Known(s, id) then 0 else -1 }

  /** The call keeps the promise exactly for ids that some channel has. */
  lemma CodeAsPromisedIff(s: Store, id: u64)
    ensures TombstoneCode(s, id) == PromisedCode(s, id) <==> Known(s, id)
  {
  }

  /** The next start would read the tombstones that are in memory. */
  predicate Agrees(s: Store) { TombsOf(s.tombFile) == s.tombs }

  /** The sidecar holds exactly the lines of the tombstones in memory. */
  predicate Sidecar(s: Store) { s.tombFile == TombFile(s.tombs) }

  lemma SidecarAgrees(s: Store)
    requires Sidecar(s)
    ensures Agrees(s) && Unfinished(s.tombFile) == []
  {
    hide TombFile, TombLine, TombsOf, Unfinished;
    TombsReadBack(s.tombs);
    WholeFinished(s.tombs);
  }

  lemma WholeFinished(ids: seq<u64>)
    ensures Unfinished(TombFile(ids)) == []
  {
    hide TombLine, Unfinished;
    if ids == [] {
      NothingUnfinished();
    } else {
      TombFileSnoc(ids[..|ids| - 1], ids[|ids| - 1]);
      assert ids[..|ids| - 1] + [ids[|ids| - 1]] == ids;
      TombFinishes(TombFile(ids[..|ids| - 1]), ids[|ids| - 1]);
    }
  }

  lemma NothingUnfinished()
    ensures Unfinished([]) == []
  {
  }

  /** A tombstone takes effect at once, touches no channel, and a second one changes nothing. It
      survives the next start, whatever a crash has left of the sidecar, exactly if the sidecar
      had it or its unfinished last line lets it be read. */
  lemma TombstoneSurvivesIff(s: Store, id: u64, listing: seq<DiskFile>)
    requires Agrees(s)
    ensures var t := Tombstoned(s, id);
            && id in t.tombs && (forall x :: x in t.tombs <==> x == id || x in s.tombs)
            && Tombstoned(t, id) == t && t.channels == s.channels && t.nextId == s.nextId
            && (Opened(listing, t.tombFile).tombs == t.tombs <==> id in s.tombs || KeepsNext(s.tombFile, id))
  {
    hide TombFile, TombLine, TombsOf, Discover, KeepsNext;
    AppendedTombIff(s.tombFile, id);
  }

  // ----- runs

  /** The files, the state in memory, and the configuration in force. */
  datatype System = System(store: Store, cfg: Config, key: Option<C.Key>)

  datatype Op =
    | Append(m: Message)
    | Prune(now: i64)
    | Tombstone(id: u64)
    | Restart(listing: seq<DiskFile>, tombFile: Str, cfg: Config, key: Option<C.Key>)

  /** A restart may come with another configuration and another key. */
  function Step(s: System, op: Op): System {
    match op
    case Append(m) => s.(store := AppendTo(s.store, s.cfg, s.key, m).0)
    case Prune(now) => s.(store := Pruned(s.store, s.cfg, now))
    case Tombstone(id) => s.(store := Tombstoned(s.store, id))
    case Restart(listing, tombFile, cfg, key) => System(Opened(listing, tombFile), cfg, key)
  }

  /** Messages are C strings to channels 0 to 15, as long as there are ids; a restart finds the
      files as a close or a crash left them. */
  predicate Legal(s: System, op: Op) {
    match op
    case Append(m) => m.channel < MAX_CHANNELS && s.store.nextId < LAST_ID && 0 !in m.nick && 0 !in m.body
    case Restart(listing, tombFile, cfg, key) => Remains(listing, s.store.channels)
    case _ => true
  }

  function Run(s: System, ops: seq<Op>): System
    decreases |ops|
  {
    if ops == [] then s else Run(Step(s, ops[0]), ops[1..])
  }

  predicate LegalRun(s: System, ops: seq<Op>)
    decreases |ops|
  {
    ops == [] || (Legal(s, ops[0]) && LegalRun(Step(s, ops[0]), ops[1..]))
  }

  lemma StepKeeps(s: System, op: Op)
    requires Inv(s.store) && Legal(s, op)
    ensures Inv(Step(s, op).store)
  {
    hide SlotOk, AppendTo, Pruned, Opened, Remains;
    match op {
      case Append(m) => AppendKeeps(s.store, s.cfg, s.key, m);
      case Prune(now) => PruneKeeps(s.store, s.cfg, now);
      case Tombstone(id) =>
      case Restart(listing, tombFile, cfg, key) => OpenKeeps(s.store, listing, tombFile);
    }
  }

  lemma {:induction false} RunKeeps(s: System, ops: seq<Op>)
    requires Inv(s.store) && LegalRun(s, ops)
    ensures Inv(Run(s, ops).store)
    decreases |ops|
  {
    hide Inv, Step, Legal;
    if ops != [] {
      StepKeeps(s, ops[0]);
      RunKeeps(Step(s, ops[0]), ops[1..]);
    }
  }

  const EMPTY: Store := Store([], 1, [], [])

  /** Over every run of appends, prunes, tombstones, closes and crashes at any byte, with any
      changes of configuration and key in between: in each channel the index agrees with the
      file, and next_id is above every id. */
  lemma RunIndexed(cfg: Config, key: Option<C.Key>, ops: seq<Op>)
    requires LegalRun(System(EMPTY, cfg, key), ops)
    ensures var s := Run(System(EMPTY, cfg, key), ops).store;
            && Distinct(s.channels)
            && (forall i :: 0 <= i < |s.channels| ==> Indexed(s.channels[i]))
            && (forall i :: 0 <= i < |s.channels| ==> IdsBelow(s.channels[i].entries, s.nextId))
  {
    hide Run, LegalRun, Indexed, ChannelOk;
    RunKeeps(System(EMPTY, cfg, key), ops);
    var s := Run(System(EMPTY, cfg, key), ops).store;
    forall i | 0 <= i < |s.channels|
      ensures Indexed(s.channels[i])
    {
      assert SlotOk(s.channels[i], s.nextId);
      OkIsIndexed(s.channels[i]);
    }
  }

  // ----- tombstones over a run

  /** No restart of the run finds a sidecar other than the one that was written. */
  predicate SidecarsWhole(s: System, ops: seq<Op>)
    decreases |ops|
  {
    ops == [] || ((ops[0].Restart? ==> ops[0].tombFile == s.store.tombFile) && SidecarsWhole(Step(s, ops[0]), ops[1..]))
  }

  lemma SidecarStep(s: System, op: Op)
    requires Sidecar(s.store) && (op.Restart? ==> op.tombFile == s.store.tombFile)
    ensures Sidecar(Step(s, op).store)
    ensures forall x :: x in s.store.tombs ==> x in Step(s, op).store.tombs
    ensures op.Tombstone? ==> op.id in Step(s, op).store.tombs
  {
    hide TombFile, TombLine, TombsOf, Discover, Record, WithSlot, SlotOf, PruneAll;
    match op {
      case Tombstone(id) => TombFileSnoc(s.store.tombs, id);
      case Restart(listing, tombFile, cfg, key) => TombsReadBack(s.store.tombs);
      case _ =>
    }
  }

  /** Over every run whose restarts find the sidecar whole, memory and sidecar hold the same
      tombstones, and every id once tombstoned stays so. */
  lemma {:induction false} TombstonesStay(s: System, ops: seq<Op>)
    requires Sidecar(s.store) && SidecarsWhole(s, ops)
    ensures var t := Run(s, ops).store;
            && Sidecar(t) && Agrees(t)
            && (forall x :: x in s.store.tombs ==> x in t.tombs)
            && (forall i :: 0 <= i < |ops| && ops[i].Tombstone? ==> ops[i].id in t.tombs)
    decreases |ops|
  {
    hide Sidecar, Agrees, Step;
    if ops == [] {
      SidecarAgrees(s.store);
    } else {
      var rest := ops[1..];
      SidecarStep(s, ops[0]);
      TombstonesStay(Step(s, ops[0]), rest);
      var t := Run(s, ops).store;
      forall i | 0 <= i < |ops| && ops[i].Tombstone?
        ensures ops[i].id in t.tombs
      {
        if i > 0 {
          assert ops[i] == rest[i - 1];
        }
      }
    }
  }

  /** Every new tombstone of the run finds a last line that lets it be read. */
  predicate TombstonesRead(s: System, ops: seq<Op>)
    decreases |ops|
  {
    ops == []
    || ((ops[0].Tombstone? && ops[0].id !in s.store.tombs ==> KeepsNext(s.store.tombFile, ops[0].id))
        && TombstonesRead(Step(s, ops[0]), ops[1..]))
  }

  lemma AgreesStep(s: System, op: Op)
    requires Agrees(s.store) && (op.Tombstone? && op.id !in s.store.tombs ==> KeepsNext(s.store.tombFile, op.id))
    ensures Agrees(Step(s, op).store)
  {
    hide TombLine, TombsOf, KeepsNext, Discover, Record, WithSlot, SlotOf, PruneAll;
    if op.Tombstone? {
      AppendedTombIff(s.store.tombFile, op.id);
    }
  }

  /** Over every run, with the sidecar torn at any restart in any way, what is in memory is what
      the next start reads, as long as no new tombstone comes behind a line that swallows it. */
  lemma {:induction false} MemoryAgrees(s: System, ops: seq<Op>)
    requires Agrees(s.store) && TombstonesRead(s, ops)
    ensures Agrees(Run(s, ops).store)
    decreases |ops|
  {
    hide Agrees, Step, KeepsNext;
    if ops != [] {
      AgreesStep(s, ops[0]);
      MemoryAgrees(Step(s, ops[0]), ops[1..]);
    }
  }

  /** A crash in the tombstone of 12, a restart, a tombstone, a restart: the second one is gone. */
  lemma TombstoneLost(cfg: Config, key: Option<C.Key>, id: u64)
    requires id != 1
    ensures var s := System(Opened([], TombFile([12])[..7]), cfg, key);
            var t := Step(s, Tombstone(id));
            && id in t.store.tombs && Step(t, Restart([], t.store.tombFile, cfg, key)).store.tombs == [1]
  {
    hide TombFile, TombLine, TombsOf;
    LostTombstone(id);
    TornNamesOther();
  }

  // ----- closing and opening again

  function FilesOf(cs: seq<Channel>): (r: seq<DiskFile>)
    ensures |r| == |cs|
  {
    seq(|cs|, i requires 0 <= i < |cs| => DiskFile(cs[i].id, cs[i].file))
  }

  predicate Slotted(cs: seq<Channel>) {
    forall i :: 0 <= i < |cs| ==> ChannelOk(cs[i]) && cs[i].id < MAX_CHANNELS
  }

  lemma DiscoverFirst(done: seq<Channel>, c: Channel, rest: seq<Channel>, m: u64)
    requires |done| < MAX_CHANNELS && ChannelOk(c) && c.id < MAX_CHANNELS
    ensures Discover(FilesOf([c] + rest), done, m) == Discover(FilesOf(rest), done + [c], MaxId(LinesOf(c.file), m))
  {
    hide LinesOf, MaxId, Concat, IndexOf;
    var listing := FilesOf([c] + rest);
    assert listing[0] == DiskFile(c.id, c.file);
    assert listing[1..] == FilesOf(rest);
    assert Scanned(listing[0]) == c;
  }

  lemma RestSlotted(cs: seq<Channel>)
    requires Slotted(cs) && cs != []
    ensures Slotted(cs[1..]) && ChannelOk(cs[0]) && cs[0].id < MAX_CHANNELS
  {
    hide ChannelOk;
    assert forall i :: 0 <= i < |cs[1..]| ==> cs[1..][i] == cs[i + 1];
  }

  lemma {:induction false} DiscoverAll(done: seq<Channel>, cs: seq<Channel>, m: u64)
    requires |done| + |cs| <= MAX_CHANNELS && Slotted(cs)
    ensures Discover(FilesOf(cs), done, m).0 == done + cs
    decreases |cs|
  {
    assert Discover(FilesOf([]), done, m) == (done, m);
    hide Slotted, ChannelOk, LinesOf, MaxId, Discover, FilesOf;
    if cs == [] {
      assert done + cs == done;
    } else {
      RestSlotted(cs);
      var c, rest := cs[0], cs[1..];
      assert cs == [c] + rest;
      DiscoverFirst(done, c, rest, m);
      DiscoverAll(done + [c], rest, MaxId(LinesOf(c.file), m));
      assert done + [c] + rest == done + cs;
    }
  }

  /** A clean close and open gives back every channel, file and index, and the tombstones that
      the sidecar holds. */
  lemma CleanReopen(s: Store)
    requires Inv(s)
    ensures var t := Opened(FilesOf(s.channels), s.tombFile);
            && t.channels == s.channels && t.tombFile == s.tombFile && Agrees(t)
            && (t.tombs == s.tombs <==> Agrees(s))
  {
    hide ChannelOk, Discover, TombsOf, TombFile;
    assert forall i :: 0 <= i < |s.channels| ==> SlotOk(s.channels[i], s.nextId);
    DiscoverAll([], s.channels, 0);
    assert [] + s.channels == s.channels;
  }

  // ----- the base64 table over a run

  /** Every line of the channel is parsed inside the table, whatever key is configured. */
  predicate AllInTable(c: Channel) {
    forall i :: 0 <= i < |LinesOf(c.file)| ==> TextInTable(TextOf(LinesOf(c.file)[i], BODY, ENTRY_BODY))
  }

  predicate StoreInTable(s: Store) { forall i :: 0 <= i < |s.channels| ==> AllInTable(s.channels[i]) }

  /** No message of the run is stored in the clear with a text that a later key takes for base64
      outside the table. */
  predicate NoneExposed(s: System, ops: seq<Op>)
    decreases |ops|
  {
    ops == [] || ((ops[0].Append? ==> !Exposed(s.key, ops[0].m.body)) && NoneExposed(Step(s, ops[0]), ops[1..]))
  }

  lemma AppendInTable(s: Store, cfg: Config, key: Option<C.Key>, m: Message)
    requires Inv(s) && StoreInTable(s) && !Exposed(key, m.body)
    requires m.channel < MAX_CHANNELS && s.nextId < LAST_ID && 0 !in m.nick && 0 !in m.body
    ensures StoreInTable(AppendTo(s, cfg, key, m).0)
  {
    hide SlotOk, Record, GoodLine, WithSlot, SlotOf, AllInTable, Exposed;
    var (t, id) := AppendTo(s, cfg, key, m);
    WithSlotOk(s.channels, m.channel, s.nextId);
    MessageLine(key, s.nextId, m);
    SlotsInTable(s.channels, m.channel);
    var cs := WithSlot(s.channels, m.channel);
    var line := Record(key, m.nonce, HeaderOf(s.nextId, m), m.nick, m.body);
    if cfg.enabled && cs.Some? && line.Some? {
      var c := cs.value[SlotOf(cs.value, m.channel).value];
      AddedOk(c, s.nextId, line.value);
      LineOfMessage(key, s.nextId, m);
      MoreInTable(c, s.nextId, line.value);
    }
  }

  lemma LineOfMessage(key: Option<C.Key>, id: u64, m: Message)
    requires 0 !in m.nick && 0 !in m.body && !Exposed(key, m.body)
    requires Record(key, m.nonce, HeaderOf(id, m), m.nick, m.body).Some?
    ensures TextInTable(TextOf(Record(key, m.nonce, HeaderOf(id, m), m.nick, m.body).value, BODY, ENTRY_BODY))
  {
    hide Record, Exposed, TextInTable, TextOf;
    var any: C.Key := seq(32, _ => 0);
    RecordInTableIff(Some(any), key, m.nonce, HeaderOf(id, m), m.nick, m.body);
  }

  lemma SlotsInTable(cs: seq<Channel>, id: u16)
    requires forall i :: 0 <= i < |cs| ==> AllInTable(cs[i])
    ensures var r := WithSlot(cs, id); r.Some? ==> forall i :: 0 <= i < |r.value| ==> AllInTable(r.value[i])
  {
    hide AllInTable, SlotOf;
    EmptyInTable(id);
  }

  lemma EmptyInTable(id: u16)
    ensures AllInTable(Channel(id, [], []))
  {
    hide TextInTable, TextOf;
    NoLines();
  }

  lemma MoreInTable(c: Channel, id: u64, line: Str)
    requires AllInTable(c) && LinesOf(c.file + line) == LinesOf(c.file) + [line] && TextInTable(TextOf(line, BODY, ENTRY_BODY))
    ensures AllInTable(Added(c, id, line))
  {
    hide LinesOf, TextInTable, TextOf;
  }

  // A beginning or an end of the lines.
  lemma PartInTable(c: Channel, d: Channel, i: nat, j: nat)
    requires AllInTable(c) && i <= j <= |LinesOf(c.file)| && LinesOf(d.file) == LinesOf(c.file)[i..j]
    ensures AllInTable(d)
  {
    hide LinesOf, TextInTable, TextOf;
    forall k | 0 <= k < |LinesOf(d.file)|
      ensures TextInTable(TextOf(LinesOf(d.file)[k], BODY, ENTRY_BODY))
    {
      assert LinesOf(d.file)[k] == LinesOf(c.file)[i + k];
    }
  }

  lemma PruneInTable(s: Store, cfg: Config, now: i64)
    requires Inv(s) && StoreInTable(s)
    ensures StoreInTable(Pruned(s, cfg, now))
  {
    hide SlotOk, AllInTable, PruneChannel, LinesOf, Dropped;
    forall i | 0 <= i < |s.channels|
      ensures AllInTable(PruneChannel(s.channels[i], cfg, now))
    {
      var c := s.channels[i];
      assert SlotOk(c, s.nextId);
      PruneKeepsSuffix(c, cfg, now, s.nextId);
      var n := |LinesOf(c.file)|;
      assert LinesOf(c.file)[Dropped(c, cfg, now)..n] == LinesOf(c.file)[Dropped(c, cfg, now)..];
      PartInTable(c, PruneChannel(c, cfg, now), Dropped(c, cfg, now), n);
    }
  }

  lemma {:induction false} DiscoverInTable(listing: seq<DiskFile>, cs: seq<Channel>, m: u64)
    requires forall i :: 0 <= i < |listing| ==> AllInTable(Scanned(listing[i]))
    requires forall i :: 0 <= i < |cs| ==> AllInTable(cs[i])
    ensures forall i :: 0 <= i < |Discover(listing, cs, m).0| ==> AllInTable(Discover(listing, cs, m).0[i])
    decreases |listing|
  {
    hide AllInTable, Scanned, MaxId, LinesOf;
    if listing != [] {
      var f, rest := listing[0], listing[1..];
      assert forall i :: 0 <= i < |rest| ==> rest[i] == listing[i + 1];
      if f.ch >= MAX_CHANNELS {
        DiscoverInTable(rest, cs, m);
      } else if |cs| < MAX_CHANNELS {
        DiscoverInTable(rest, cs + [Scanned(f)], MaxId(LinesOf(f.bytes), m));
      }
    }
  }

  lemma OpenInTable(s: Store, listing: seq<DiskFile>, tombFile: Str)
    requires Inv(s) && StoreInTable(s) && Remains(listing, s.channels)
    ensures StoreInTable(Opened(listing, tombFile))
  {
    hide SlotOk, Discover, Scanned, AllInTable, LinesOf, Complete;
    forall j | 0 <= j < |listing|
      ensures AllInTable(Scanned(listing[j]))
    {
      assert Left(listing[j], s.channels);
      var i :| 0 <= i < |s.channels| && s.channels[i].id == listing[j].ch && listing[j].bytes <= s.channels[i].file;
      assert SlotOk(s.channels[i], s.nextId);
      ScannedPart(s.channels[i], listing[j], s.nextId);
    }
    DiscoverInTable(listing, [], 0);
  }

  lemma ScannedPart(c: Channel, f: DiskFile, n: nat)
    requires SlotOk(c, n) && f.ch == c.id && f.bytes <= c.file && AllInTable(c)
    ensures AllInTable(Scanned(f))
  {
    hide SlotOk, AllInTable, LinesOf, Complete, GoodLine;
    CutRecovers(c, f, n);
    LinesOfConcat(LinesOf(f.bytes));
    var k := Complete(LinesOf(c.file), |f.bytes|);
    assert LinesOf(c.file)[0..k] == LinesOf(c.file)[..k];
    PartInTable(c, Scanned(f), 0, k);
  }

  lemma StepInTable(s: System, op: Op)
    requires Inv(s.store) && StoreInTable(s.store) && Legal(s, op) && (op.Append? ==> !Exposed(s.key, op.m.body))
    ensures StoreInTable(Step(s, op).store)
  {
    hide Inv, AllInTable, AppendTo, Pruned, Opened, Remains, Exposed;
    match op {
      case Append(m) => AppendInTable(s.store, s.cfg, s.key, m);
      case Prune(now) => PruneInTable(s.store, s.cfg, now);
      case Tombstone(id) =>
      case Restart(listing, tombFile, cfg, key) => OpenInTable(s.store, listing, tombFile);
    }
  }

  lemma {:induction false} RunInTable(s: System, ops: seq<Op>)
    requires Inv(s.store) && StoreInTable(s.store) && LegalRun(s, ops) && NoneExposed(s, ops)
    ensures StoreInTable(Run(s, ops).store)
    decreases |ops|
  {
    hide Inv, StoreInTable, Step, Legal, Exposed;
    if ops != [] {
      StepKeeps(s, ops[0]);
      StepInTable(s, ops[0]);
      RunInTable(Step(s, ops[0]), ops[1..]);
    }
  }

  /** Every restart of the run comes with the same key. */
  predicate KeyKept(s: System, ops: seq<Op>) {
    forall i :: 0 <= i < |ops| && ops[i].Restart? ==> ops[i].key == s.key
  }

  lemma {:induction false} KeyedNeverExposed(s: System, ops: seq<Op>)
    requires s.key.Some? && KeyKept(s, ops)
    ensures NoneExposed(s, ops) && Run(s, ops).key == s.key
    decreases |ops|
  {
    hide AppendTo, Pruned, Opened, Tombstoned;
    if ops != [] {
      var rest := ops[1..];
      assert forall i :: 0 <= i < |rest| ==> rest[i] == ops[i + 1];
      assert Step(s, ops[0]).key == s.key;
      KeyedNeverExposed(Step(s, ops[0]), rest);
    }
  }

  lemma {:induction false} KeyStays(s: System, ops: seq<Op>)
    requires KeyKept(s, ops)
    ensures Run(s, ops).key == s.key
    decreases |ops|
  {
    hide AppendTo, Pruned, Opened, Tombstoned;
    if ops != [] {
      var rest := ops[1..];
      assert forall i :: 0 <= i < |rest| ==> rest[i] == ops[i + 1];
      assert Step(s, ops[0]).key == s.key;
      KeyStays(Step(s, ops[0]), rest);
    }
  }

  /** A channel is parsed inside the table under this key. */
  predicate ReadableWith(key: Option<C.Key>, c: Channel) {
    forall i :: 0 <= i < |LinesOf(c.file)| ==> LineInTable(key, LinesOf(c.file)[i])
  }

  /** Over every run from the empty store, with crashes and pruning: under a key that never
      changes, every line of every channel is parsed inside the table; under changing keys it is,
      as long as no exposed text was stored in the clear. */
  lemma RunReadable(cfg: Config, key: Option<C.Key>, ops: seq<Op>)
    requires var s := System(EMPTY, cfg, key); LegalRun(s, ops) && (KeyKept(s, ops) || NoneExposed(s, ops))
    ensures var t := Run(System(EMPTY, cfg, key), ops);
            forall i :: 0 <= i < |t.store.channels| ==> ReadableWith(t.key, t.store.channels[i])
  {
    hide Run, LegalRun, NoneExposed, KeyKept, LinesOf, TextInTable, TextOf, Inv;
    var s := System(EMPTY, cfg, key);
    EmptyInv();
    if KeyKept(s, ops) {
      KeyStays(s, ops);
      if key.Some? {
        KeyedNeverExposed(s, ops);
      }
    }
    if NoneExposed(s, ops) {
      RunInTable(s, ops);
    }
  }

  lemma EmptyInv()
    ensures Inv(EMPTY)
  {
  }
}
