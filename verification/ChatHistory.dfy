/** The chat history object: its methods carry out the steps of HistoryRun on slots, index and
    files (chat_history.c:396-439 and 529-868). */
module ChatHistory {
  import opened Bits
  import opened Wrappers
  import C = ChaCha20
  import opened Text
  import opened HistoryRecord
  import opened HistoryScan
  import opened HistoryQuery
  import opened HistoryTombs
  import opened HistoryStore
  import opened HistoryRun
  import opened HistoryAnswers

  // ----- pruning one channel

  /** lm_read_line_at, for a line that fits the buffer. */
  method ReadLineAt(c: Channel, i: nat, ghost n: nat) returns (line: Str)
    requires SlotOk(c, n) && i < |c.entries|
    ensures line == LinesOf(c.file)[i] && c.entries[i].id == IdOf(line) && GoodLine(line)
  {
    hide *;
    SlotLine(c, i, n);
    line := c.file[c.entries[i].offset..c.entries[i].offset + c.entries[i].length];
  }

  lemma SlotLine(c: Channel, i: nat, n: nat)
    requires SlotOk(c, n) && i < |c.entries|
    ensures i < |LinesOf(c.file)| && GoodLine(LinesOf(c.file)[i])
    ensures var x := c.entries[i];
            x.offset + x.length <= |c.file| && c.file[x.offset..x.offset + x.length] == LinesOf(c.file)[i] && x.id == IdOf(LinesOf(c.file)[i])
  {
    hide LinesOf, IndexOf, Concat, GoodLine, Sorted, IsLine, GetU64;
    AsIndex(c, n);
    EntryAt(c, i);
    IdsOfIndex(LinesOf(c.file), i);
    GoodAt(LinesOf(c.file), i);
  }

  lemma AsIndex(c: Channel, n: nat)
    requires SlotOk(c, n)
    ensures c.entries == IndexOf(LinesOf(c.file), 0) && |c.entries| == |LinesOf(c.file)|
  {
    hide LinesOf, IndexOf, Concat, Sorted;
  }

  lemma GoodAt(lines: seq<Str>, i: nat)
    requires AllGood(lines) && i < |lines|
    ensures GoodLine(lines[i])
  {
    hide GoodLine;
  }

  /** The age loop of prune: the first entry within the window, the count if there is none. */
  method FindAgeDrop(c: Channel, cutoff: int, ghost n: nat) returns (d: nat)
    requires SlotOk(c, n)
    ensures d == AgeDrop(LinesOf(c.file), cutoff)
  {
    hide *;
    AsIndex(c, n);
    ghost var lines := LinesOf(c.file);
    var i := 0;
    while i < |c.entries|
      invariant 0 <= i <= |c.entries|
      invariant forall k :: 0 <= k < i ==> TsOf(lines[k]) < cutoff
    {
      var line := ReadLineAt(c, i, n);
      if TsOf(line) >= cutoff {
        break;
      }
      i := i + 1;
    }
    d := i;
  }

  /** The rewriting loop of prune: the bytes of the new file and its index. A drop count beyond
      the end copies nothing. */
  method Rewrite(c: Channel, drop: nat, ghost n: nat) returns (file: Str, entries: seq<Idx>)
    requires SlotOk(c, n)
    ensures var lines := LinesOf(c.file);
            var d := if drop < |lines| then drop else |lines|;
            file == Concat(Tail(lines, d)) && entries == IndexOf(Tail(lines, d), 0)
  {
    hide *;
    AsIndex(c, n);
    ghost var lines := LinesOf(c.file);
    file, entries := [], [];
    var i := drop;
    ghost var first := if drop < |lines| then drop else |lines|;
    ghost var done: seq<Str> := [];
    BeforeScan([], 0);
    assert lines[first..first] == [];
    while i < |c.entries|
      invariant drop <= i && (drop <= |c.entries| ==> i <= |c.entries|)
      invariant AllGood(done) && done == lines[first..if i < |lines| then i else |lines|]
      invariant file == Concat(done) && entries == IndexOf(done, 0)
    {
      var line := ReadLineAt(c, i, n);
      RewriteTurn(done, line);
      assert lines[drop..i + 1] == lines[drop..i] + [lines[i]];
      entries := entries + [Idx(c.entries[i].id, |file|, |line|)];
      file := file + line;
      done := done + [line];
      i := i + 1;
    }
    assert lines[first..|lines|] == lines[first..];
    TailIs(lines, first);
  }

  lemma TailIs(lines: seq<Str>, d: nat)
    requires d <= |lines|
    ensures Tail(lines, d) == lines[d..]
  {
    hide GoodLine;
  }

  lemma RewriteTurn(done: seq<Str>, line: Str)
    requires AllGood(done) && GoodLine(line)
    ensures AllGood(done + [line]) && Concat(done + [line]) == Concat(done) + line
    ensures IndexOf(done + [line], 0) == IndexOf(done, 0) + [Idx(IdOf(line), |Concat(done)|, |line|)]
  {
    hide GoodLine, IndexOf, Concat, IdOf;
    OneLine(line, |Concat(done)|);
    assert AllGood([line]);
    IndexSplit(done, [line], 0);
    ConcatSplit(done, [line]);
  }

  method PruneOne(c: Channel, cfg: Config, now: i64, ghost n: nat) returns (r: Channel)
    requires SlotOk(c, n)
    ensures r == PruneChannel(c, cfg, now)
  {
    hide SlotOk, LinesOf, IndexOf, Concat, AgeDrop, Tail, AllGood;
    AsIndex(c, n);
    var count := |c.entries|;
    if count == 0 {
      return c;
    }
    var drop := 0;
    var slack := cfg.maxMsgs / 10;
    if cfg.maxMsgs != 0 && count > Add32(cfg.maxMsgs, slack) {
      drop := SizeMinus(count, cfg.maxMsgs);
    }
    if cfg.maxDays != 0 {
      var ageDrop := FindAgeDrop(c, now as int - cfg.maxDays as int * 86400, n);
      if ageDrop > drop {
        drop := ageDrop;
      }
    }
    if drop == 0 {
      return c;
    }
    var kept := if drop <= count then count - drop else SizeMinus(count, drop);
    if !cfg.alloc(kept) {
      return c;
    }
    var file, entries := Rewrite(c, drop, n);
    r := Channel(c.id, file, entries);
  }

  // ----- finding a slot

  method FindSlot(cs: seq<Channel>, id: u16) returns (r: Option<nat>)
    ensures r == SlotOf(cs, id)
  {
    hide *;
    var i := 0;
    assert cs[0..] == cs;
    NoShift(SlotOf(cs, id));
    while i < |cs|
      invariant 0 <= i <= |cs|
      invariant SlotOf(cs, id) == Shift(SlotOf(cs[i..], id), i)
    {
      SlotTurn(cs, id, i);
      if cs[i].id == id {
        return Some(i);
      }
      i := i + 1;
    }
    SlotTurn(cs, id, i);
    r := None;
  }

  lemma NoShift(r: Option<nat>)
    ensures Shift(r, 0) == r
  {
  }

  lemma SlotTurn(cs: seq<Channel>, id: u16, i: nat)
    requires i <= |cs|
    ensures i == |cs| ==> Shift(SlotOf(cs[i..], id), i) == None
    ensures i < |cs| ==> Shift(SlotOf(cs[i..], id), i) == if cs[i].id == id then Some(i) else Shift(SlotOf(cs[i + 1..], id), i + 1)
  {
    if i < |cs| {
      assert cs[i..][1..] == cs[i + 1..];
    }
  }

  // ----- opening

  lemma ScannedIs(f: DiskFile)
    ensures Scanned(f) == Channel(f.ch, Concat(LinesOf(f.bytes)), IndexOf(LinesOf(f.bytes), 0))
  {
  }

  /** lm_discover_channels: every file of the directory is scanned and repaired. */
  method DiscoverChannels(listing: seq<DiskFile>) returns (cs: seq<Channel>, maxId: u64)
    ensures (cs, maxId) == Discover(listing, [], 0)
  {
    hide *;
    cs, maxId := [], 0;
    var i := 0;
    assert listing[0..] == listing;
    while i < |listing|
      invariant 0 <= i <= |listing|
      invariant Discover(listing, [], 0) == Discover(listing[i..], cs, maxId)
    {
      DiscoverTurn(listing, i, cs, maxId);
      var f := listing[i];
      i := i + 1;
      if f.ch >= MAX_CHANNELS {
        continue;
      }
      if |cs| >= MAX_CHANNELS {
        return;
      }
      var entries, repaired, newMax := ChannelScan(f.bytes, maxId);
      ScannedIs(f);
      cs := cs + [Channel(f.ch, repaired, entries)];
      maxId := newMax;
    }
    DiscoverTurn(listing, i, cs, maxId);
  }

  // ----- the object

  class History {
    const cfg: Config
    const key: Option<C.Key>
    var channels: seq<Channel>
    var nextId: u64
    var tombs: seq<u64>
    var tombFile: Str

    /** The fields as one value. */
    function State(): Store
      reads this
    {
      Store(channels, nextId, tombs, tombFile)
    }

    /** lm_chat_history_open. */
    constructor (listing: seq<DiskFile>, sidecar: Str, config: Config, encryptionKey: Option<C.Key>)
      ensures State() == Opened(listing, sidecar) && cfg == config && key == encryptionKey
    {
      cfg, key := config, encryptionKey;
      channels, nextId, tombs, tombFile := [], 1, [], sidecar;
      new;
      hide Discover, TombsOf;
      var found, maxId := DiscoverChannels(listing);
      channels := found;
      tombs := TombstonesScan(sidecar);
      nextId := Add64(maxId, 1);
    }

    /** lm_chat_history_append. An id is taken before anything can fail. */
    method Append(m: Message) returns (id: u64)
      modifies this
      ensures (State(), id) == AppendTo(old(State()), cfg, key, m)
    {
      hide Record, SlotOf;
      if !cfg.enabled {
        return 0;
      }
      var slot := FindSlot(channels, m.channel);
      if slot.None? {
        if |channels| >= MAX_CHANNELS {
          return 0;
        }
        channels := channels + [Channel(m.channel, [], [])];
        NewSlotIs(old(channels), m.channel);
        slot := Some(|channels| - 1);
      }
      id := nextId;
      nextId := Add64(nextId, 1);
      var line := FormatRecord(key, m.nonce, Header(id, m.channel, m.now, m.flags, m.icon), m.nick, m.body);
      if line.None? {
        return 0;
      }
      var c := channels[slot.value];
      var offset := |c.file|;
      channels := channels[slot.value :=
        c.(file := c.file + line.value, entries := c.entries + [Idx(id, offset, |line.value|)])];
    }

    /** lm_chat_history_tombstone, with its return code. */
    method TombstoneMessage(id: u64) returns (code: int)
      modifies `tombs, `tombFile
      ensures State() == Tombstoned(old(State()), id) && code == TombstoneCode(old(State()), id)
    {
      var has := TombHas(tombs, id);
      if has {
        return 0;
      }
      tombFile := tombFile + TombLine(id);
      tombs := tombs + [id];
      code := 0;
    }

    /** lm_chat_history_prune. */
    method Prune(now: i64)
      requires Inv(State())
      modifies `channels
      ensures State() == Pruned(old(State()), cfg, now) && Inv(State())
    {
      hide PruneChannel, Inv, SlotOk;
      if !cfg.enabled {
        return;
      }
      ghost var before := State();
      PruneKeeps(before, cfg, now);
      var i := 0;
      while i < |channels|
        invariant 0 <= i <= |channels| == |before.channels|
        invariant forall k :: 0 <= k < i ==> channels[k] == PruneChannel(before.channels[k], cfg, now)
        invariant forall k :: i <= k < |channels| ==> channels[k] == before.channels[k]
      {
        InvSlot(before, i);
        var c := PruneOne(channels[i], cfg, now, before.nextId);
        channels := channels[i := c];
        i := i + 1;
      }
      assert channels == PruneAll(before.channels, cfg, now);
    }

    /** lm_chat_history_query, where its reads are defined: the window is inside the index, and
        the lines in it are parsed inside the base64 table. */
    method Query(channel: u16, before: u64, after: u64, limit: u16) returns (entries: seq<Entry>, more: bool)
      requires Inv(State())
      requires AllCountable(State())
      requires var i := SlotOf(channels, channel);
               i.Some? ==> Readable(channels[i.value], key, before, after, Effective(limit))
      ensures Result(entries, more) == QueryOf(State(), key, channel, before, after, limit)
    {
      hide Inv, SlotOf, Window, ParseAll, Texts, Sorted, Carries, LineInTable, Effective;
      var slot := FindSlot(channels, channel);
      if slot.None? || |channels[slot.value].entries| == 0 {
        return [], false;
      }
      var c := channels[slot.value];
      SortedSlot(State(), slot.value);
      var w := FindWindow(c.entries, before, after, limit);
      more := w.more;
      entries := ReadEntries(c, key, tombs, w.start, w.end);
    }
  }

  /** The window is inside the index and its lines are parsed inside the base64 table. */
  predicate Readable(c: Channel, key: Option<C.Key>, before: u64, after: u64, l: nat)
    requires 1 <= l <= MAX_LIMIT
  {
    Countable(c)
    && var w := Window(c.entries, before, after, l);
       w.start <= w.end <= |c.entries| && forall i :: w.start <= i < w.end ==> LineInTable(key, LineAt(c.file, c.entries[i]))
  }

  /** With safe cursors every query is, on every channel a run leaves. */
  lemma SafeIsReadable(c: Channel, n: nat, key: Option<C.Key>, before: u64, after: u64, l: nat)
    requires SlotOk(c, n) && Countable(c) && ReadableWith(key, c) && Safe(before, after) && 1 <= l <= MAX_LIMIT
    ensures Readable(c, key, before, after, l)
  {
    hide Window, LinesOf, IndexOf, Concat, Carries, IdsBelow, LineAt, LineInTable, Page, Matching;
    SafeCursors(c.entries, before, after, l);
    var w := Window(c.entries, before, after, l);
    forall i | w.start <= i < w.end
      ensures LineInTable(key, LineAt(c.file, c.entries[i]))
    {
      EntryAt(c, i);
    }
  }

  lemma InvSlot(s: Store, i: nat)
    requires Inv(s) && i < |s.channels|
    ensures SlotOk(s.channels[i], s.nextId)
  {
    hide SlotOk;
  }

  lemma NewSlotIs(cs: seq<Channel>, id: u16)
    requires SlotOf(cs, id).None?
    ensures SlotOf(cs + [Channel(id, [], [])], id) == Some(|cs|)
    decreases |cs|
  {
    if cs != [] {
      assert (cs + [Channel(id, [], [])])[1..] == cs[1..] + [Channel(id, [], [])];
      NewSlotIs(cs[1..], id);
    }
  }

  lemma DiscoverTurn(listing: seq<DiskFile>, i: nat, cs: seq<Channel>, m: u64)
    requires i <= |listing|
    ensures i == |listing| ==> Discover(listing[i..], cs, m) == (cs, m)
    ensures i < |listing| ==>
      var f := listing[i];
      Discover(listing[i..], cs, m)
      == if f.ch >= MAX_CHANNELS then Discover(listing[i + 1..], cs, m)
         else if |cs| >= MAX_CHANNELS then (cs, m)
         else Discover(listing[i + 1..], cs + [Scanned(f)], MaxId(LinesOf(f.bytes), m))
  {
    hide Scanned, MaxId, LinesOf;
    if i < |listing| {
      assert listing[i..][1..] == listing[i + 1..];
    }
  }

  // ----- reading the entries of a window

  lemma SortedSlot(s: Store, i: nat)
    requires Inv(s) && i < |s.channels|
    ensures Sorted(s.channels[i].entries) && forall k :: 0 <= k < |s.channels[i].entries| ==> Carries(s.channels[i].file, s.channels[i].entries[k])
  {
    hide LinesOf, IndexOf, Concat, Sorted, Carries;
    assert SlotOk(s.channels[i], s.nextId);
    OkIsIndexed(s.channels[i]);
  }

  method ReadEntries(c: Channel, key: Option<C.Key>, tombs: seq<u64>, start: nat, end: nat) returns (entries: seq<Entry>)
    requires start <= end <= |c.entries|
    requires forall i :: start <= i < end ==> LineInTable(key, LineAt(c.file, c.entries[i]))
    requires forall k :: 0 <= k < |c.entries| ==> Carries(c.file, c.entries[k])
    ensures entries == ParseAll(key, tombs, Texts(c.file, c.entries[start..end]))
  {
    hide *;
    entries := [];
    var i := start;
    assert c.entries[start..start] == [];
    NothingRead(key, tombs, c.file);
    while i < end
      invariant start <= i <= end
      invariant entries == ParseAll(key, tombs, Texts(c.file, c.entries[start..i]))
    {
      ghost var x := c.entries[i];
      assert c.entries[start..i + 1] == c.entries[start..i] + [x];
      NextRead(key, tombs, c.file, c.entries[start..i], x);
      var line := LineAt(c.file, c.entries[i]);
      var e := ParseEntry(key, tombs, line);
      if e.Some? {
        entries := entries + [e.value];
      }
      i := i + 1;
    }
  }

  lemma NothingRead(key: Option<C.Key>, tombs: seq<u64>, file: Str)
    ensures ParseAll(key, tombs, Texts(file, [])) == []
  {
  }

  lemma NextRead(key: Option<C.Key>, tombs: seq<u64>, file: Str, xs: seq<Idx>, x: Idx)
    ensures ParseAll(key, tombs, Texts(file, xs + [x]))
         == ParseAll(key, tombs, Texts(file, xs)) + (var e := Parse(key, tombs, LineAt(file, x)); if e.Some? then [e.value] else [])
  {
    hide Parse, ParseAll, Texts, LineAt;
    TextsConcat(file, xs, [x]);
    TextsOfOne(file, x);
    ParseAllSplit(key, tombs, Texts(file, xs), [LineAt(file, x)]);
    FirstParsed(key, tombs, LineAt(file, x), []);
    assert [LineAt(file, x)] + [] == [LineAt(file, x)];
  }
}
