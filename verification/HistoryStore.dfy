/** The chat history as a whole: channel files with their indexes, the id counter, appending,
    pruning and opening (chat_history.c:396-439, 529-628 and 786-868). */
module HistoryStore {
  import opened Bits
  import opened Wrappers
  import opened ChaCha20
  import opened Text
  import opened HistoryRecord
  import opened HistoryScan
  import opened HistoryQuery
  import opened HistoryTombs

  const MAX_CHANNELS: nat := 16

  /** A channel slot and the bytes of its file. */
  datatype Channel = Channel(id: u16, file: Str, entries: seq<Idx>)

  /** The context and the tombstone sidecar. */
  datatype Store = Store(channels: seq<Channel>, nextId: u64, tombs: seq<u64>, tombFile: Str)

  /** alloc: whether an index of so many entries can be allocated, also one of none. */
  datatype Config = Config(enabled: bool, maxMsgs: u32, maxDays: u32, alloc: nat -> bool)

  datatype Message = Message(channel: u16, flags: u16, icon: u16, nick: Str, body: Str, now: i64, nonce: Nonce)

  // ----- the invariant

  /** Entry i begins where entry i - 1 ended; the last one ends with the file; the bytes of each
      are one line that carries its id; ids increase. */
  predicate Indexed(c: Channel) {
    && Sorted(c.entries)
    && (forall i :: 0 <= i < |c.entries| ==> c.entries[i].offset == EndOf(c.entries, i) && Carries(c.file, c.entries[i]))
    && EndOf(c.entries, |c.entries|) == |c.file|
  }

  /** Where the first i entries end. */
  function EndOf(xs: seq<Idx>, i: nat): nat
    requires i <= |xs|
  {
    if i == 0 then 0 else xs[i - 1].offset + xs[i - 1].length
  }

  function LineAt(file: Str, x: Idx): Str {
    if x.offset + x.length <= |file| then file[x.offset..x.offset + x.length] else []
  }

  predicate Carries(file: Str, x: Idx) {
    && x.offset + x.length <= |file|
    && IsLine(LineAt(file, x)) && x.length < LINE_MAX && GetU64(LineAt(file, x), ID) == Some(x.id)
  }

  /** The file is its good lines and the index is theirs. */
  predicate ChannelOk(c: Channel) {
    && c.file == Concat(LinesOf(c.file)) && c.entries == IndexOf(LinesOf(c.file), 0)
    && Sorted(c.entries)
  }

  predicate IdsBelow(xs: seq<Idx>, n: nat) { forall i :: 0 <= i < |xs| ==> 0 < xs[i].id < n }

  predicate Distinct(cs: seq<Channel>) {
    forall i, j :: 0 <= i < j < |cs| ==> cs[i].id != cs[j].id
  }

  predicate SlotOk(c: Channel, n: nat) { ChannelOk(c) && IdsBelow(c.entries, n) && c.id < MAX_CHANNELS }

  predicate Inv(s: Store) {
    && s.nextId > 0 && Distinct(s.channels) && |s.channels| <= MAX_CHANNELS
    && forall i :: 0 <= i < |s.channels| ==> SlotOk(s.channels[i], s.nextId)
  }

  lemma EndIs(c: Channel, i: nat)
    requires ChannelOk(c) && i <= |c.entries|
    ensures EndOf(c.entries, i) == |Concat(LinesOf(c.file)[..i])|
  {
    NoLines();
    hide LinesOf, IndexOf, Concat, Sorted, GoodLine;
    if i > 0 {
      IndexTiles(LinesOf(c.file), i - 1);
    }
  }

  lemma EntryAt(c: Channel, i: nat)
    requires ChannelOk(c) && i < |c.entries|
    ensures var x := c.entries[i];
            x.offset == EndOf(c.entries, i) && LineAt(c.file, x) == LinesOf(c.file)[i] && Carries(c.file, x)
  {
    hide LinesOf, IndexOf, Concat, Sorted, IsLine, GetU64, EndOf;
    var lines := LinesOf(c.file);
    IndexTiles(lines, i);
    EndIs(c, i);
    assert GoodLine(lines[i]);
  }

  /** The invariant in terms of offsets and bytes. */
  lemma OkIsIndexed(c: Channel)
    requires ChannelOk(c)
    ensures Indexed(c)
  {
    hide LinesOf, IndexOf, Concat, Sorted, Carries, EndOf;
    forall i | 0 <= i < |c.entries|
      ensures c.entries[i].offset == EndOf(c.entries, i) && Carries(c.file, c.entries[i])
    {
      EntryAt(c, i);
    }
    EndIs(c, |c.entries|);
    var lines := LinesOf(c.file);
    assert lines[..|lines|] == lines;
  }

  // ----- append

  /** The slot of a channel. */
  function SlotOf(cs: seq<Channel>, id: u16): (r: Option<nat>)
    ensures r.Some? ==> r.value < |cs| && cs[r.value].id == id
    ensures r.None? ==> forall i :: 0 <= i < |cs| ==> cs[i].id != id
  {
    if cs == [] then None
    else if cs[0].id == id then Some(0)
    else
      var r := SlotOf(cs[1..], id);
      if r.None? then
        assert forall i :: 0 < i < |cs| ==> cs[i] == cs[1..][i - 1];
        None
      else Some(r.value + 1)
  }

  /** The slots with one for this channel, if there is room. */
  function WithSlot(cs: seq<Channel>, id: u16): (r: Option<seq<Channel>>)
    ensures r.Some? ==> SlotOf(r.value, id).Some?
  {
    if SlotOf(cs, id).Some? then Some(cs)
    else if |cs| >= MAX_CHANNELS then None
    else
      var r := cs + [Channel(id, [], [])];
      assert r[|cs|].id == id;
      Some(r)
  }

  function HeaderOf(id: u64, m: Message): Header { Header(id, m.channel, m.now, m.flags, m.icon) }

  function Added(c: Channel, id: u64, line: Str): Channel {
    c.(file := c.file + line, entries := c.entries + [Idx(id, |c.file|, |line|)])
  }

  /** lm_chat_history_append: the new state and the id, 0 on failure. An id is used up even if
      the line is too long. */
  function AppendTo(s: Store, cfg: Config, key: Option<Key>, m: Message): (Store, u64) {
    if !cfg.enabled then (s, 0)
    else
      var cs := WithSlot(s.channels, m.channel);
      if cs.None? then (s, 0)
      else
        var t := s.(channels := cs.value, nextId := Add64(s.nextId, 1));
        var line := Record(key, m.nonce, HeaderOf(s.nextId, m), m.nick, m.body);
        if line.None? then (t, 0)
        else
          var i := SlotOf(cs.value, m.channel).value;
          (t.(channels := cs.value[i := Added(cs.value[i], s.nextId, line.value)]), s.nextId)
  }

  lemma AddedOk(c: Channel, id: u64, line: Str)
    requires SlotOk(c, id) && 0 < id && GoodLine(line) && IdOf(line) == id
    ensures SlotOk(Added(c, id, line), id + 1)
    ensures LinesOf(c.file + line) == LinesOf(c.file) + [line]
  {
    hide GoodLine, LinesOf, IndexOf, Concat, IdOf;
    var lines := LinesOf(c.file);
    IndexSplit(lines, [line], 0);
    ConcatSplit(lines, [line]);
    OneLine(line, |c.file|);
    LinesOfConcat(lines + [line]);
  }

  lemma MoreRoom(c: Channel, n: nat, m: nat)
    requires SlotOk(c, n) && n <= m
    ensures SlotOk(c, m)
  {
    hide ChannelOk;
  }

  lemma EmptySlotOk(id: u16, n: nat)
    requires id < MAX_CHANNELS
    ensures SlotOk(Channel(id, [], []), n)
  {
    hide GoodLine;
    assert LinesOf([]) == [];
    assert Concat([]) == [] && IndexOf([], 0) == [];
  }

  lemma WithSlotOk(cs: seq<Channel>, id: u16, n: nat)
    requires Distinct(cs) && id < MAX_CHANNELS && forall i :: 0 <= i < |cs| ==> SlotOk(cs[i], n)
    ensures var r := WithSlot(cs, id);
            r.Some? ==> Distinct(r.value) && (|cs| <= MAX_CHANNELS ==> |r.value| <= MAX_CHANNELS) && (forall i :: 0 <= i < |r.value| ==> SlotOk(r.value[i], n))
  {
    hide SlotOk;
    EmptySlotOk(id, n);
  }

  lemma MessageLine(key: Option<Key>, id: u64, m: Message)
    requires 0 !in m.nick && 0 !in m.body
    ensures var r := Record(key, m.nonce, HeaderOf(id, m), m.nick, m.body);
            r.Some? ==> GoodLine(r.value) && IdOf(r.value) == id
  {
    hide Record, GetU64, IsLine;
    if Record(key, m.nonce, HeaderOf(id, m), m.nick, m.body).Some? {
      RecordIsLine(key, m.nonce, HeaderOf(id, m), m.nick, m.body);
    }
  }

  lemma AppendKeeps(s: Store, cfg: Config, key: Option<Key>, m: Message)
    requires Inv(s) && m.channel < MAX_CHANNELS && s.nextId < LAST_ID && 0 !in m.nick && 0 !in m.body
    ensures Inv(AppendTo(s, cfg, key, m).0)
  {
    hide SlotOk, Record, GoodLine, WithSlot, SlotOf;
    var (t, id) := AppendTo(s, cfg, key, m);
    WithSlotOk(s.channels, m.channel, s.nextId);
    MessageLine(key, s.nextId, m);
    var n: nat := s.nextId;
    forall i | 0 <= i < |t.channels|
      ensures SlotOk(t.channels[i], t.nextId)
    {
      var cs := WithSlot(s.channels, m.channel);
      if cs.Some? && cfg.enabled {
        MoreRoom(cs.value[i], n, n + 1);
        var line := Record(key, m.nonce, HeaderOf(s.nextId, m), m.nick, m.body);
        if line.Some? {
          AddedOk(cs.value[SlotOf(cs.value, m.channel).value], s.nextId, line.value);
        }
      }
    }
  }

  // ----- prune

  function TsOf(line: Str): i64 { CastI64(Num(line, TS)) }

  /** How many lines at the front are older than the cutoff. */
  function AgeDrop(lines: seq<Str>, cutoff: int): (d: nat)
    ensures d <= |lines|
    ensures forall i :: 0 <= i < d ==> TsOf(lines[i]) < cutoff
    ensures d < |lines| ==> TsOf(lines[d]) >= cutoff
    decreases |lines|
  {
    if lines == [] || TsOf(lines[0]) >= cutoff then 0
    else
      var d := AgeDrop(lines[1..], cutoff);
      assert forall i :: 0 < i <= d ==> lines[i] == lines[1..][i - 1];
      1 + d
  }

  const SIZE: nat := 0x1_0000_0000_0000_0000

  /** size_t subtraction; counts are below 2^64. */
  function SizeMinus(a: nat, b: nat): nat
    requires b < SIZE
  {
    if a >= b then a - b else SIZE + a - b
  }

  /** max_msgs + slack, in 32 bits. */
  function Threshold(cfg: Config): u32 { Add32(cfg.maxMsgs, cfg.maxMsgs / 10) }

  function CountDrop(count: nat, cfg: Config): (d: nat)
    ensures d < SIZE || d <= count
  {
    if cfg.maxMsgs != 0 && count > Threshold(cfg) then SizeMinus(count, cfg.maxMsgs) else 0
  }

  function Cutoff(cfg: Config, now: i64): int { now as int - cfg.maxDays as int * 86400 }

  /** drop_count: the larger of the two counts. It exceeds the number of entries if the
      subtraction of max_msgs wrapped. */
  function Drop(lines: seq<Str>, cfg: Config, now: i64): (d: nat)
    ensures d < SIZE || d <= |lines|
  {
    var byCount := CountDrop(|lines|, cfg);
    var byAge := if cfg.maxDays != 0 then AgeDrop(lines, Cutoff(cfg, now)) else 0;
    if byAge > byCount then byAge else byCount
  }

  /** kept: how many index entries are allocated. */
  function Kept(lines: seq<Str>, cfg: Config, now: i64): nat {
    var d := Drop(lines, cfg, now);
    if d <= |lines| then |lines| - d else SizeMinus(|lines|, d)
  }

  function Tail(lines: seq<Str>, d: nat): (r: seq<Str>)
    requires d <= |lines|
    ensures AllGood(lines) ==> AllGood(r)
  {
    if AllGood(lines) then
      assert forall i :: 0 <= i < |lines[d..]| ==> lines[d..][i] == lines[i + d];
      lines[d..]
    else lines[d..]
  }

  /** The number of entries prune takes from a channel: none if the new index cannot be had. */
  function Dropped(c: Channel, cfg: Config, now: i64): (d: nat)
    ensures d <= |LinesOf(c.file)|
  {
    var lines := LinesOf(c.file);
    var d := Drop(lines, cfg, now);
    if !cfg.alloc(Kept(lines, cfg, now)) then 0 else if d < |lines| then d else |lines|
  }

  /** One channel is rewritten with the entries that are left, unless none goes. */
  function PruneChannel(c: Channel, cfg: Config, now: i64): Channel {
    var lines, d := LinesOf(c.file), Dropped(c, cfg, now);
    if d == 0 then c else Channel(c.id, Concat(Tail(lines, d)), IndexOf(Tail(lines, d), 0))
  }

  function PruneAll(cs: seq<Channel>, cfg: Config, now: i64): (r: seq<Channel>)
    ensures |r| == |cs| && forall i :: 0 <= i < |cs| ==> r[i] == PruneChannel(cs[i], cfg, now)
  {
    seq(|cs|, i requires 0 <= i < |cs| => PruneChannel(cs[i], cfg, now))
  }

  /** lm_chat_history_prune. */
  function Pruned(s: Store, cfg: Config, now: i64): Store {
    if cfg.enabled then s.(channels := PruneAll(s.channels, cfg, now)) else s
  }

  // The ids of an index are those of its lines.
  lemma IdsOfIndex(lines: seq<Str>, i: nat)
    requires AllGood(lines) && i < |lines|
    ensures IndexOf(lines, 0)[i].id == IdOf(lines[i])
  {
    hide GoodLine, IdOf, IndexOf, Concat;
    IndexTiles(lines, i);
  }

  lemma TailSorted(lines: seq<Str>, d: nat, n: nat)
    requires AllGood(lines) && d <= |lines| && Sorted(IndexOf(lines, 0)) && IdsBelow(IndexOf(lines, 0), n)
    ensures Sorted(IndexOf(Tail(lines, d), 0)) && IdsBelow(IndexOf(Tail(lines, d), 0), n)
  {
    hide GoodLine, IdOf, IndexOf, Concat, AllGood;
    var t := Tail(lines, d);
    forall i | 0 <= i < |t|
      ensures IndexOf(t, 0)[i].id == IndexOf(lines, 0)[i + d].id
    {
      IdsOfIndex(t, i);
      IdsOfIndex(lines, i + d);
    }
  }

  /** Prune keeps exactly a suffix of a channel, byte for byte and with its ids. */
  lemma PruneKeepsSuffix(c: Channel, cfg: Config, now: i64, n: nat)
    requires SlotOk(c, n)
    ensures var p := PruneChannel(c, cfg, now);
            && SlotOk(p, n) && p.id == c.id
            && LinesOf(p.file) == LinesOf(c.file)[Dropped(c, cfg, now)..]
            && c.file == Concat(LinesOf(c.file)[..Dropped(c, cfg, now)]) + p.file
  {
    NoLines();
    hide LinesOf, IndexOf, Concat, GoodLine, Sorted, IdsBelow, Dropped;
    var lines, d := LinesOf(c.file), Dropped(c, cfg, now);
    assert lines == lines[..d] + lines[d..];
    ConcatSplit(lines[..d], lines[d..]);
    if d == 0 {
      assert lines[0..] == lines;
    } else {
      LinesOfConcat(Tail(lines, d));
      TailSorted(lines, d, n);
    }
  }

  /** max_msgs and a tenth of it. */
  function Bound(cfg: Config): nat { cfg.maxMsgs as int + cfg.maxMsgs / 10 }

  /** With max_msgs set a channel keeps at most that many entries and a tenth, exactly unless
      it has more and the new index cannot be had: then it keeps them all. */
  lemma PruneBound(c: Channel, cfg: Config, now: i64, n: nat)
    requires SlotOk(c, n) && cfg.maxMsgs > 0
    ensures |PruneChannel(c, cfg, now).entries| <= Bound(cfg)
            <==> |c.entries| <= Bound(cfg) || cfg.alloc(Kept(LinesOf(c.file), cfg, now))
  {
    hide LinesOf, IndexOf, Concat, GoodLine, Sorted, IdsBelow, AgeDrop;
    ThresholdBelow(cfg);
  }

  lemma ThresholdBelow(cfg: Config)
    ensures Threshold(cfg) <= Bound(cfg)
    ensures Bound(cfg) < 0x1_0000_0000 <==> Threshold(cfg) == Bound(cfg)
    ensures Bound(cfg) >= 0x1_0000_0000 ==> Threshold(cfg) == Bound(cfg) - 0x1_0000_0000
  {
  }

  /** What pruning by count is for: the newest max_msgs lines of more than the bound, all of fewer. */
  function Newest(lines: seq<Str>, cfg: Config): seq<Str> {
    if |lines| > Bound(cfg) then lines[|lines| - cfg.maxMsgs..] else lines
  }

  /** Pruning by count leaves these lines exactly if the sum of max_msgs and its tenth fits 32
      bits, or the channel is at most as long as the wrapped sum, or exactly max_msgs long, or
      longer than the bound. */
  lemma PruneNewestIff(c: Channel, cfg: Config, now: i64, n: nat)
    requires SlotOk(c, n) && cfg.maxMsgs > 0 && cfg.maxDays == 0
    requires cfg.alloc(Kept(LinesOf(c.file), cfg, now))
    ensures var count := |c.entries|;
            LinesOf(PruneChannel(c, cfg, now).file) == Newest(LinesOf(c.file), cfg)
            <==> Bound(cfg) < 0x1_0000_0000 || count <= Threshold(cfg) || count == cfg.maxMsgs || count > Bound(cfg)
  {
    hide LinesOf, IndexOf, Concat, GoodLine, Sorted, IdsBelow, PruneChannel;
    PruneKeepsSuffix(c, cfg, now, n);
    ThresholdBelow(cfg);
    var lines, d := LinesOf(c.file), Dropped(c, cfg, now);
    assert lines[0..] == lines;
    if d > 0 {
      assert |lines[d..]| < |lines|;
    }
  }

  /** With max_msgs 3904515724 the sum is 0, and every channel that is shorter loses all its messages. */
  lemma WrappedSum(c: Channel, cfg: Config, now: i64, n: nat)
    requires SlotOk(c, n) && cfg.maxMsgs == 3904515724 && cfg.maxDays == 0 && cfg.alloc(cfg.maxMsgs)
    requires 0 < |c.entries| < cfg.maxMsgs
    ensures PruneChannel(c, cfg, now).file == [] && PruneChannel(c, cfg, now).entries == []
  {
    hide LinesOf, GoodLine, Sorted, IdsBelow;
    NoLines();
    var lines := LinesOf(c.file);
    assert Dropped(c, cfg, now) == |lines| && Tail(lines, |lines|) == [];
  }

  /** Pruning by age alone drops exactly the leading entries older than the cutoff, if the new
      index can be had. */
  lemma PruneAge(c: Channel, cfg: Config, now: i64, n: nat)
    requires SlotOk(c, n) && cfg.maxMsgs == 0 && cfg.maxDays > 0
    ensures var lines, d := LinesOf(c.file), Dropped(c, cfg, now);
            && (!cfg.alloc(Kept(lines, cfg, now)) ==> d == 0)
            && (cfg.alloc(Kept(lines, cfg, now)) ==>
                  && (forall i :: 0 <= i < d ==> TsOf(lines[i]) < Cutoff(cfg, now))
                  && (d < |lines| ==> TsOf(lines[d]) >= Cutoff(cfg, now)))
  {
    hide LinesOf, TsOf, GoodLine;
  }

  lemma PruneKeeps(s: Store, cfg: Config, now: i64)
    requires Inv(s)
    ensures Inv(Pruned(s, cfg, now))
  {
    hide SlotOk, PruneChannel;
    forall i | 0 <= i < |s.channels|
      ensures SlotOk(PruneChannel(s.channels[i], cfg, now), s.nextId) && PruneChannel(s.channels[i], cfg, now).id == s.channels[i].id
    {
      assert SlotOk(s.channels[i], s.nextId);
      PruneKeepsSuffix(s.channels[i], cfg, now, s.nextId);
    }
  }

  // ----- open

  /** A file channel-<ch>.jsonl found in the directory. */
  datatype DiskFile = DiskFile(ch: u16, bytes: Str)

  /** The slot of a file: scanned and repaired. */
  function Scanned(f: DiskFile): Channel {
    Channel(f.ch, Concat(LinesOf(f.bytes)), IndexOf(LinesOf(f.bytes), 0))
  }

  /** lm_discover_channels, in the order of the directory. */
  function Discover(listing: seq<DiskFile>, cs: seq<Channel>, maxId: u64): (seq<Channel>, u64)
    decreases |listing|
  {
    if listing == [] then (cs, maxId)
    else
      var f := listing[0];
      if f.ch >= MAX_CHANNELS then Discover(listing[1..], cs, maxId)
      else if |cs| >= MAX_CHANNELS then (cs, maxId)
      else Discover(listing[1..], cs + [Scanned(f)], MaxId(LinesOf(f.bytes), maxId))
  }

  /** lm_chat_history_open. */
  function Opened(listing: seq<DiskFile>, tombFile: Str): Store {
    var (cs, maxId) := Discover(listing, [], 0);
    Store(cs, Add64(maxId, 1), TombsOf(tombFile), tombFile)
  }

  /** A file on disk after a crash: the file of some channel, cut at any byte. */
  predicate Left(f: DiskFile, cs: seq<Channel>) {
    exists i :: 0 <= i < |cs| && cs[i].id == f.ch && f.bytes <= cs[i].file
  }

  /** The directory after a crash or a clean close, in any order. */
  predicate Remains(listing: seq<DiskFile>, cs: seq<Channel>) {
    && (forall i, j :: 0 <= i < j < |listing| ==> listing[i].ch != listing[j].ch)
    && (forall i :: 0 <= i < |listing| ==> Left(listing[i], cs))
  }

  lemma FrontSorted(lines: seq<Str>, k: nat, n: nat)
    requires AllGood(lines) && k <= |lines| && Sorted(IndexOf(lines, 0)) && IdsBelow(IndexOf(lines, 0), n)
    ensures AllGood(lines[..k]) && Sorted(IndexOf(lines[..k], 0)) && IdsBelow(IndexOf(lines[..k], 0), n)
  {
    hide GoodLine, IdOf, IndexOf, Concat;
    var t := lines[..k];
    forall i | 0 <= i < |t|
      ensures IndexOf(t, 0)[i].id == IndexOf(lines, 0)[i].id
    {
      IdsOfIndex(t, i);
      IdsOfIndex(lines, i);
    }
  }

  /** Crash recovery of one channel: whatever byte the file was cut at, the scan indexes exactly
      the complete lines and leaves the file at their end. */
  lemma CutRecovers(c: Channel, f: DiskFile, n: nat)
    requires SlotOk(c, n) && f.ch == c.id && f.bytes <= c.file
    ensures var lines, k := LinesOf(c.file), Complete(LinesOf(c.file), |f.bytes|);
            && LinesOf(f.bytes) == lines[..k]
            && Scanned(f).file == Concat(lines[..k]) <= f.bytes
            && (k < |lines| ==> |f.bytes| < |Concat(lines[..k + 1])|)
            && SlotOk(Scanned(f), n)
  {
    hide LinesOf, IndexOf, Concat, GoodLine, Sorted, IdsBelow;
    var lines := LinesOf(c.file);
    CutFile(lines, |f.bytes|);
    assert f.bytes == Concat(lines)[..|f.bytes|];
    CompleteIsMost(lines, |f.bytes|);
    KeptPrefix(f.bytes);
    var k := Complete(lines, |f.bytes|);
    FrontSorted(lines, k, n);
    LinesOfConcat(lines[..k]);
  }

  lemma IdsUpTo(lines: seq<Str>, m: u64)
    requires AllGood(lines) && IdsBelow(IndexOf(lines, 0), LAST_ID)
    ensures IdsBelow(IndexOf(lines, 0), MaxId(lines, m) + 1)
    ensures m < LAST_ID ==> MaxId(lines, m) < LAST_ID
  {
    hide GoodLine, IdOf, IndexOf, Concat, MaxId;
    MaxIdIsMost(lines, m);
    forall i | 0 <= i < |lines|
      ensures IndexOf(lines, 0)[i].id == IdOf(lines[i])
    {
      IdsOfIndex(lines, i);
    }
  }

  predicate Files(listing: seq<DiskFile>) {
    && (forall i, j :: 0 <= i < j < |listing| ==> listing[i].ch != listing[j].ch)
    && (forall i :: 0 <= i < |listing| ==> SlotOk(Scanned(listing[i]), LAST_ID))
  }

  predicate Apart(cs: seq<Channel>, listing: seq<DiskFile>) {
    forall i, j :: 0 <= i < |cs| && 0 <= j < |listing| ==> cs[i].id != listing[j].ch
  }

  predicate Slots(cs: seq<Channel>, n: nat) {
    Distinct(cs) && forall i :: 0 <= i < |cs| ==> SlotOk(cs[i], n)
  }

  lemma RestFiles(listing: seq<DiskFile>, cs: seq<Channel>)
    requires Files(listing) && Apart(cs, listing) && listing != []
    ensures Files(listing[1..]) && Apart(cs, listing[1..]) && Apart(cs + [Scanned(listing[0])], listing[1..])
  {
    hide SlotOk, LinesOf, IndexOf, Concat;
    var rest := listing[1..];
    assert forall i :: 0 <= i < |rest| ==> rest[i] == listing[i + 1];
  }

  lemma OneMoreSlot(listing: seq<DiskFile>, cs: seq<Channel>, m: u64)
    requires Files(listing) && Apart(cs, listing) && listing != [] && Slots(cs, m + 1) && m < LAST_ID
    ensures var m' := MaxId(LinesOf(listing[0].bytes), m); m' < LAST_ID && Slots(cs + [Scanned(listing[0])], m' + 1)
  {
    hide SlotOk, LinesOf, MaxId, IndexOf, Concat;
    var m' := MaxId(LinesOf(listing[0].bytes), m);
    NewSlot(listing[0], m);
    forall i | 0 <= i < |cs|
      ensures SlotOk(cs[i], m' + 1)
    {
      MoreRoom(cs[i], m + 1, m' + 1);
    }
  }

  lemma {:induction false} DiscoverKeeps(listing: seq<DiskFile>, cs: seq<Channel>, m: u64)
    requires Files(listing) && Apart(cs, listing) && Slots(cs, m + 1) && m < LAST_ID && |cs| <= MAX_CHANNELS
    ensures var (r, n) := Discover(listing, cs, m); n < LAST_ID && Slots(r, n + 1) && |r| <= MAX_CHANNELS
    decreases |listing|
  {
    hide Files, Apart, Slots, Scanned, MaxId, LinesOf;
    if listing != [] {
      RestFiles(listing, cs);
      OneMoreSlot(listing, cs, m);
      var f := listing[0];
      if f.ch >= MAX_CHANNELS {
        DiscoverKeeps(listing[1..], cs, m);
      } else if |cs| < MAX_CHANNELS {
        DiscoverKeeps(listing[1..], cs + [Scanned(f)], MaxId(LinesOf(f.bytes), m));
      }
    }
  }

  lemma NewSlot(f: DiskFile, m: u64)
    requires SlotOk(Scanned(f), LAST_ID) && m < LAST_ID
    ensures var m' := MaxId(LinesOf(f.bytes), m); m <= m' < LAST_ID && SlotOk(Scanned(f), m' + 1)
  {
    hide LinesOf, IndexOf, Concat, Sorted, GoodLine, MaxId, IdsBelow;
    IdsUpTo(LinesOf(f.bytes), m);
  }

  /** Opening after a crash or a clean close keeps the invariant. */
  lemma OpenKeeps(s: Store, listing: seq<DiskFile>, tombFile: Str)
    requires Inv(s) && Remains(listing, s.channels)
    ensures Inv(Opened(listing, tombFile))
  {
    hide SlotOk, Discover, Scanned;
    forall j | 0 <= j < |listing|
      ensures SlotOk(Scanned(listing[j]), LAST_ID)
    {
      assert Left(listing[j], s.channels);
      var i :| 0 <= i < |s.channels| && s.channels[i].id == listing[j].ch && listing[j].bytes <= s.channels[i].file;
      assert SlotOk(s.channels[i], s.nextId);
      CutRecovers(s.channels[i], listing[j], s.nextId);
      MoreRoom(Scanned(listing[j]), s.nextId, LAST_ID);
    }
    DiscoverKeeps(listing, [], 0);
    var (cs, n) := Discover(listing, [], 0);
    assert Add64(n, 1) == n + 1;
  }
}
