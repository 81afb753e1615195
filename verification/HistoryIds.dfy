/** What a start finds, and whether newer messages get higher ids (chat_history.c:397-422,
    529-571 and 586; docs/Capabilities-Chat-History.md:100). */
module HistoryIds {
  import opened Bits
  import opened Wrappers
  import C = ChaCha20
  import opened Text
  import opened HistoryRecord
  import opened HistoryScan
  import opened HistoryQuery
  import opened HistoryTombs
  import opened HistoryStore
  import opened HistoryRun
  import opened HistoryAnswers
  import opened HistoryExact

  // ----- which lines a start finds

  predicate OneFileEach(listing: seq<DiskFile>) {
    forall i, j :: 0 <= i < j < |listing| ==> listing[i].ch != listing[j].ch
  }

  /** The good lines the file of a channel begins with, none without a file. */
  function LinesOnDisk(listing: seq<DiskFile>, channel: u16): seq<Str> {
    if listing == [] then []
    else if listing[0].ch == channel then LinesOf(listing[0].bytes)
    else LinesOnDisk(listing[1..], channel)
  }

  /** A start opens the file of every channel below 16, in any order of the directory, whatever
      bytes the files hold. */
  lemma OpenedLines(listing: seq<DiskFile>, tombFile: Str, channel: u16)
    requires OneFileEach(listing) && channel < 16
    ensures LinesIn(Opened(listing, tombFile), channel) == LinesOnDisk(listing, channel)
    ensures Opened(listing, tombFile).tombs == TombsOf(tombFile)
  {
    hide Discover, LinesOf, LinesOnDisk, TombsOf;
    DiscoveredLines(listing, [], 0, channel);
  }

  predicate Opening(listing: seq<DiskFile>, cs: seq<Channel>) {
    OneFileEach(listing) && Apart(cs, listing) && Distinct(cs) && forall i :: 0 <= i < |cs| ==> cs[i].id < 16
  }

  lemma {:induction false} DiscoveredLines(listing: seq<DiskFile>, cs: seq<Channel>, m: u64, channel: u16)
    requires Opening(listing, cs) && channel < 16
    ensures var r := Discover(listing, cs, m).0;
            var i, j := SlotOf(r, channel), SlotOf(cs, channel);
            (if i.None? then [] else LinesOf(r[i.value].file))
            == (if j.None? then LinesOnDisk(listing, channel) else LinesOf(cs[j.value].file))
    decreases |listing|
  {
    hide LinesOf, MaxId, Scanned, SlotOf, Opening;
    if listing == [] {
    } else {
      var f, rest := listing[0], listing[1..];
      OpeningRest(listing, cs);
      if f.ch >= MAX_CHANNELS {
        DiscoveredLines(rest, cs, m, channel);
      } else {
        DiscoveredLines(rest, cs + [Scanned(f)], MaxId(LinesOf(f.bytes), m), channel);
        ScannedSlot(listing, cs, channel);
      }
    }
  }

  lemma OpeningRest(listing: seq<DiskFile>, cs: seq<Channel>)
    requires Opening(listing, cs) && listing != []
    ensures Opening(listing[1..], cs)
    ensures listing[0].ch < 16 ==> |cs| < 16 && Opening(listing[1..], cs + [Scanned(listing[0])])
  {
    hide LinesOf, IndexOf;
    var rest := listing[1..];
    assert forall i :: 0 <= i < |rest| ==> rest[i] == listing[i + 1];
    if listing[0].ch < 16 {
      var ids := seq(|cs|, i requires 0 <= i < |cs| => cs[i].id as int);
      OneIsFree(ids, 16, listing[0].ch);
    }
  }

  // Different numbers below n that leave one out are fewer than n.
  lemma OneIsFree(ids: seq<int>, n: nat, x: nat)
    requires x < n && x !in ids
    requires forall i, j :: 0 <= i < j < |ids| ==> ids[i] != ids[j]
    requires forall i :: 0 <= i < |ids| ==> 0 <= ids[i] < n
    ensures |ids| < n
  {
    var taken, all := Members(ids), Below(n);
    MembersCount(ids);
    BelowCount(n);
    var more := taken + {x};
    assert all == more + (all - more);
  }

  function Members(ids: seq<int>): (s: set<int>)
    ensures forall y :: y in s <==> y in ids
  {
    if ids == [] then {} else Members(ids[1..]) + {ids[0]}
  }

  lemma {:induction false} MembersCount(ids: seq<int>)
    requires forall i, j :: 0 <= i < j < |ids| ==> ids[i] != ids[j]
    ensures |Members(ids)| == |ids|
  {
    if ids != [] {
      MembersCount(ids[1..]);
    }
  }

  function Below(n: nat): set<int> { if n == 0 then {} else Below(n - 1) + {n - 1} }

  lemma {:induction false} BelowCount(n: nat)
    ensures |Below(n)| == n && forall y :: y in Below(n) <==> 0 <= y < n
  {
    if n > 0 {
      BelowCount(n - 1);
    }
  }

  lemma ScannedSlot(listing: seq<DiskFile>, cs: seq<Channel>, channel: u16)
    requires Opening(listing, cs) && listing != []
    ensures var f, rest := listing[0], listing[1..];
            var r := cs + [Scanned(f)];
            var i, j := SlotOf(r, channel), SlotOf(cs, channel);
            (if i.None? then LinesOnDisk(rest, channel) else LinesOf(r[i.value].file))
            == (if j.None? then LinesOnDisk(listing, channel) else LinesOf(cs[j.value].file))
  {
    hide LinesOf, SlotOf, IndexOf;
    var f := listing[0];
    var r := cs + [Scanned(f)];
    SlotSuffix(cs, [Scanned(f)], channel);
    LinesOfConcat(LinesOf(f.bytes));
    if SlotOf(cs, channel).None? {
      if f.ch == channel {
        assert r[|cs|].id == channel;
      }
    }
  }

  // ----- the id after a start

  /** Some line of a channel has this id. */
  predicate HasId(cs: seq<Channel>, id: u64) {
    exists i, j :: 0 <= i < |cs| && 0 <= j < |cs[i].entries| && cs[i].entries[j].id == id
  }

  predicate AtMost(c: Channel, m: u64) { forall j :: 0 <= j < |c.entries| ==> c.entries[j].id <= m }

  /** m is the largest id of these channels, or 0. */
  predicate Largest(cs: seq<Channel>, m: u64) {
    (forall i :: 0 <= i < |cs| ==> AtMost(cs[i], m)) && (m == 0 || HasId(cs, m))
  }

  /** Whatever bytes the files hold, the next id is one more than the largest id found, so 1 if
      there is none. */
  lemma OpenedNextId(listing: seq<DiskFile>, tombFile: Str) returns (m: u64)
    ensures Largest(Opened(listing, tombFile).channels, m)
    ensures Opened(listing, tombFile).nextId == (m + 1) % 0x1_0000_0000_0000_0000
  {
    hide Discover, Largest, TombsOf;
    NothingLargest();
    DiscoveredLargest(listing, [], 0);
    m := Discover(listing, [], 0).1;
  }

  lemma NothingLargest()
    ensures Largest([], 0)
  {
  }

  lemma {:induction false} DiscoveredLargest(listing: seq<DiskFile>, cs: seq<Channel>, m: u64)
    requires Largest(cs, m)
    ensures var (r, n) := Discover(listing, cs, m); Largest(r, n)
    decreases |listing|
  {
    hide Largest, Scanned, LinesOf, MaxId;
    if listing != [] {
      var f := listing[0];
      if f.ch >= MAX_CHANNELS {
        DiscoveredLargest(listing[1..], cs, m);
      } else if |cs| < MAX_CHANNELS {
        ScannedLargest(f, cs, m);
        DiscoveredLargest(listing[1..], cs + [Scanned(f)], MaxId(LinesOf(f.bytes), m));
      }
    }
  }

  lemma ScannedLargest(f: DiskFile, cs: seq<Channel>, m: u64)
    requires Largest(cs, m)
    ensures Largest(cs + [Scanned(f)], MaxId(LinesOf(f.bytes), m))
  {
    hide LinesOf, MaxId, GoodLine, IdOf, IndexOf, Concat;
    var lines, r, c := LinesOf(f.bytes), cs + [Scanned(f)], Scanned(f);
    var n := MaxId(lines, m);
    MaxIdIsMost(lines, m);
    forall j | 0 <= j < |lines|
      ensures c.entries[j].id == IdOf(lines[j])
    {
      IdsOfIndex(lines, j);
    }
    forall i | 0 <= i < |r|
      ensures AtMost(r[i], n)
    {
      if i < |cs| {
        assert AtMost(cs[i], m);
      }
    }
    if n != m {
      var j :| 0 <= j < |lines| && IdOf(lines[j]) == n;
      assert r[|cs|].entries[j].id == n;
    } else if m != 0 {
      var i, j :| 0 <= i < |cs| && 0 <= j < |cs[i].entries| && cs[i].entries[j].id == m;
      assert r[i].entries[j].id == m;
    }
  }

  // ----- newer messages and higher ids

  /** The id an operation gives to a message, 0 if none. */
  function GivenId(s: System, op: Op): u64 { if op.Append? then AppendTo(s.store, s.cfg, s.key, op.m).1 else 0 }

  /** The ids given out over a run, oldest first. */
  function Given(s: System, ops: seq<Op>): seq<u64>
    decreases |ops|
  {
    if ops == [] then []
    else (if GivenId(s, ops[0]) > 0 then [GivenId(s, ops[0])] else []) + Given(Step(s, ops[0]), ops[1..])
  }

  predicate Rising(ids: seq<u64>, last: u64) {
    (forall i :: 0 <= i < |ids| ==> last < ids[i]) && forall i, j :: 0 <= i < j < |ids| ==> ids[i] < ids[j]
  }

  /** A start that finds the newest message ever stored, or a later one, or nothing was stored. */
  predicate FindsNewest(s: System, op: Op, last: u64) {
    op.Restart? ==> last == 0 || exists id: u64 :: id >= last && HasId(Step(s, op).store.channels, id)
  }

  /** The next id is above every id given so far exactly if the start finds the newest message. */
  lemma RestartAboveIff(s: System, op: Op, last: u64)
    requires Inv(s.store) && op.Restart? && Legal(s, op) && last < s.store.nextId
    ensures Step(s, op).store.nextId > last <==> FindsNewest(s, op, last)
  {
    hide Opened, Inv, Legal, Largest;
    StepKeeps(s, op);
    var t := Step(s, op).store;
    var m := OpenedNextId(op.listing, op.tombFile);
    LargestFound(t, m);
    LargestIs(t.channels, m);
  }

  lemma LargestFound(t: Store, m: u64)
    requires Inv(t) && Largest(t.channels, m) && t.nextId == (m + 1) % 0x1_0000_0000_0000_0000
    ensures t.nextId == m + 1
  {
    hide SlotOk, Largest;
  }

  lemma LargestIs(cs: seq<Channel>, m: u64)
    requires Largest(cs, m)
    ensures forall id: u64 :: HasId(cs, id) ==> id <= m
    ensures m > 0 ==> HasId(cs, m)
  {
    forall id: u64 | HasId(cs, id)
      ensures id <= m
    {
      var i, j :| 0 <= i < |cs| && 0 <= j < |cs[i].entries| && cs[i].entries[j].id == id;
      assert AtMost(cs[i], m);
    }
  }

  /** Every start of the run finds the newest message given so far. */
  predicate NewestFound(s: System, ops: seq<Op>, last: u64)
    decreases |ops|
  {
    ops == []
    || (FindsNewest(s, ops[0], last)
        && NewestFound(Step(s, ops[0]), ops[1..], if GivenId(s, ops[0]) > 0 then GivenId(s, ops[0]) else last))
  }

  lemma StepAbove(s: System, op: Op, last: u64)
    requires Inv(s.store) && Legal(s, op) && last < s.store.nextId && FindsNewest(s, op, last)
    ensures var id := GivenId(s, op);
            && (id > 0 ==> id > last) && (if id > 0 then id else last) < Step(s, op).store.nextId
  {
    hide Inv, Opened, Record, FindsNewest, WithSlot, SlotOf, Remains;
    if op.Restart? {
      RestartAboveIff(s, op, last);
    }
  }

  /** The ids given over a run rise, also over crashes, prunes and restarts, as long as every
      start finds the newest message. */
  lemma {:induction false} IdsRise(s: System, ops: seq<Op>, last: u64)
    requires Inv(s.store) && LegalRun(s, ops) && last < s.store.nextId && NewestFound(s, ops, last)
    ensures Rising(Given(s, ops), last)
    decreases |ops|
  {
    hide Inv, Step, GivenId, Legal, FindsNewest;
    if ops != [] {
      StepAbove(s, ops[0], last);
      StepKeeps(s, ops[0]);
      var id := GivenId(s, ops[0]);
      IdsRise(Step(s, ops[0]), ops[1..], if id > 0 then id else last);
    }
  }

  /** One that does not find it gives an id again that is not above it, if the next message is stored. */
  lemma IdGivenAgain(s: System, op: Op, m: Message, last: u64)
    requires Inv(s.store) && op.Restart? && Legal(s, op) && last < s.store.nextId
    requires GivenId(Step(s, op), Append(m)) > 0
    ensures GivenId(Step(s, op), Append(m)) > last <==> FindsNewest(s, op, last)
  {
    hide Inv, Opened, Record, FindsNewest, WithSlot, SlotOf, Remains;
    RestartAboveIff(s, op, last);
  }

  // ----- an id that is given twice

  /** A start that finds no message gives out id 1 again. */
  lemma NothingFound(listing: seq<DiskFile>, tombFile: Str)
    requires forall i :: 0 <= i < |Opened(listing, tombFile).channels| ==> Opened(listing, tombFile).channels[i].entries == []
    ensures Opened(listing, tombFile).nextId == 1
  {
    hide Opened;
    var m := OpenedNextId(listing, tombFile);
  }

  // What a clean close leaves.
  lemma CloseRemains(cs: seq<Channel>)
    requires Distinct(cs)
    ensures Remains(FilesOf(cs), cs)
  {
    forall i | 0 <= i < |cs|
      ensures Left(FilesOf(cs)[i], cs)
    {
      assert cs[i].id == FilesOf(cs)[i].ch;
    }
  }

  lemma FirstStored(cfg: Config, key: Option<C.Key>, m: Message) returns (line: Str)
    requires m.channel < MAX_CHANNELS && 0 !in m.nick && 0 !in m.body && AppendTo(EMPTY, cfg, key, m).1 > 0
    ensures AppendTo(EMPTY, cfg, key, m).1 == 1
    ensures var cs := AppendTo(EMPTY, cfg, key, m).0.channels;
            |cs| == 1 && LinesOf(cs[0].file) == [line] && TsOf(line) == m.now
  {
    hide Record, LinesOf, GoodLine, IndexOf, Concat;
    EmptySlotOk(m.channel, 1);
    NoFileNoLines();
    MessageLine(key, 1, m);
    line := Record(key, m.nonce, HeaderOf(1, m), m.nick, m.body).value;
    AddedOk(Channel(m.channel, [], []), 1, line);
    TimeOf(key, 1, m);
  }

  lemma TimeOf(key: Option<C.Key>, id: u64, m: Message)
    requires 0 !in m.nick && 0 !in m.body
    requires Record(key, m.nonce, HeaderOf(id, m), m.nick, m.body).Some?
    ensures TsOf(Record(key, m.nonce, HeaderOf(id, m), m.nick, m.body).value) == m.now
  {
    hide Record, GetU64;
    RecordIsLine(key, m.nonce, HeaderOf(id, m), m.nick, m.body);
    if m.now < 0 {
      NegativeModulo(m.now);
    }
  }

  lemma AllOld(c: Channel, cfg: Config, now: i64, n: nat, line: Str)
    requires SlotOk(c, n) && LinesOf(c.file) == [line] && cfg.maxDays > 0
    requires TsOf(line) < now as int - cfg.maxDays as int * 86400 && cfg.alloc(Kept([line], cfg, now))
    ensures PruneChannel(c, cfg, now).entries == []
  {
    hide LinesOf, TsOf, Kept, PruneChannel, SlotOk;
    PruneExact(c, cfg, now, n, 0);
    PruneKeepsSuffix(c, cfg, now, n);
    CountsAgree(PruneChannel(c, cfg, now), n);
  }

  /** A message that is stored, pruned for its age and followed by a clean restart leaves its id
      to the next message: a newer message gets an id that is not higher than that of an older one. */
  lemma PrunedIdReturns(cfg: Config, key: Option<C.Key>, m: Message, now: i64, next: Message)
    requires var s := System(EMPTY, cfg, key); Legal(s, Append(m)) && GivenId(s, Append(m)) > 0
    requires cfg.maxDays > 0 && m.now < now as int - cfg.maxDays as int * 86400 && forall n: nat :: cfg.alloc(n)
    ensures var s := Step(Step(System(EMPTY, cfg, key), Append(m)), Prune(now));
            var op := Restart(FilesOf(s.store.channels), s.store.tombFile, cfg, key);
            && Legal(s, op) && GivenId(System(EMPTY, cfg, key), Append(m)) == 1
            && Step(s, op).store.nextId == 1
            && (GivenId(Step(s, op), Append(next)) > 0 ==> GivenId(Step(s, op), Append(next)) == 1)
  {
    hide Record, LinesOf, Kept, SlotOk, Remains, Opened, FilesOf, PruneChannel, WithSlot, SlotOf;
    var s0 := System(EMPTY, cfg, key);
    EmptyInv();
    StepKeeps(s0, Append(m));
    var s1 := Step(s0, Append(m));
    var line := FirstStored(cfg, key, m);
    AllOld(s1.store.channels[0], cfg, now, s1.store.nextId, line);
    StepKeeps(s1, Prune(now));
    var s2 := Step(s1, Prune(now));
    CloseRemains(s2.store.channels);
    CleanReopen(s2.store);
    NothingFound(FilesOf(s2.store.channels), s2.store.tombFile);
  }
}
