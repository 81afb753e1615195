/** What append, prune and query do to the lines of a store, stated line by line
    (chat_history.c:573-628, 686-761 and 786-868). */
module HistoryExact {
  import opened Bits
  import opened Wrappers
  import C = ChaCha20
  import opened Text
  import opened HistoryRecord
  import opened HistoryScan
  import opened HistoryQuery
  import opened HistoryTombs
  import opened HistoryStore
  import opened HistoryRun
  import opened HistoryAnswers

  // ----- prune

  /** The first k lines are all older than max_days. */
  predicate OldFront(lines: seq<Str>, cfg: Config, now: i64, k: nat)
    requires k <= |lines|
  {
    forall i :: 0 <= i < k ==> TsOf(lines[i]) < now as int - cfg.maxDays as int * 86400
  }

  /** There are more lines than max_msgs and a tenth, added in 32 bits. */
  predicate TooMany(lines: seq<Str>, cfg: Config) {
    cfg.maxMsgs > 0 && |lines| > (cfg.maxMsgs as int + cfg.maxMsgs as int / 10) % 0x1_0000_0000
  }

  /** Line i is to stay: it ends no stretch of old lines at the front, and if there are too many
      it is one of the last max_msgs; where there are fewer than that, none stays. */
  predicate Stays(lines: seq<Str>, cfg: Config, now: i64, i: nat)
    requires i < |lines|
  {
    && (cfg.maxDays > 0 ==> !OldFront(lines, cfg, now, i + 1))
    && (TooMany(lines, cfg) ==> cfg.maxMsgs <= |lines| && i >= |lines| - cfg.maxMsgs)
  }

  /** With both limits in force prune drops the lines that are not to stay, and only those, if the
      new index can be allocated, and no line if it cannot. */
  lemma PruneExact(c: Channel, cfg: Config, now: i64, n: nat, i: nat)
    requires SlotOk(c, n) && i < |LinesOf(c.file)|
    ensures var lines, d := LinesOf(c.file), Dropped(c, cfg, now);
            && LinesOf(PruneChannel(c, cfg, now).file) == lines[d..]
            && (cfg.alloc(Kept(lines, cfg, now)) ==> (i >= d <==> Stays(lines, cfg, now, i)))
            && (!cfg.alloc(Kept(lines, cfg, now)) ==> d == 0)
  {
    hide LinesOf, SlotOk, PruneChannel, Stays, Drop;
    PruneKeepsSuffix(c, cfg, now, n);
    StaysIff(LinesOf(c.file), cfg, now, i);
  }

  lemma StaysIff(lines: seq<Str>, cfg: Config, now: i64, i: nat)
    requires i < |lines|
    ensures i >= Drop(lines, cfg, now) <==> Stays(lines, cfg, now, i)
  {
    hide TsOf, AgeDrop, OldFront;
    OldFrontIff(lines, cfg, now, AgeDrop(lines, Cutoff(cfg, now)), i + 1);
  }

  lemma OldFrontIff(lines: seq<Str>, cfg: Config, now: i64, a: nat, k: nat)
    requires k <= |lines| && a == AgeDrop(lines, Cutoff(cfg, now))
    ensures OldFront(lines, cfg, now, k) <==> k <= a
  {
    hide TsOf, AgeDrop;
  }

  /** What is allocated is an index of the lines that are left, unless max_msgs exceeds their number. */
  lemma KeptIsLeft(c: Channel, cfg: Config, now: i64, n: nat)
    requires SlotOk(c, n) && cfg.alloc(Kept(LinesOf(c.file), cfg, now))
    requires TooMany(LinesOf(c.file), cfg) ==> cfg.maxMsgs <= |LinesOf(c.file)|
    ensures Kept(LinesOf(c.file), cfg, now) == |PruneChannel(c, cfg, now).entries|
  {
    hide LinesOf, TsOf, GoodLine, Sorted, Concat, AgeDrop;
  }

  /** The lines of a channel, none if it has no slot. */
  function LinesIn(s: Store, channel: u16): seq<Str> {
    var i := SlotOf(s.channels, channel);
    if i.None? then [] else LinesOf(s.channels[i.value].file)
  }

  /** The same for the whole store: every channel keeps its last lines, namely those that are to stay
      if the history is on and the new index can be allocated, and else all of them; ids and
      tombstones do not change. */
  lemma PrunedStore(s: Store, cfg: Config, now: i64, channel: u16, i: nat)
    requires Inv(s) && i < |LinesIn(s, channel)|
    ensures var t, lines := Pruned(s, cfg, now), LinesIn(s, channel);
            var d := |lines| - |LinesIn(t, channel)|;
            && 0 <= d && LinesIn(t, channel) == lines[d..]
            && (i >= d <==> !cfg.enabled || !cfg.alloc(Kept(lines, cfg, now)) || Stays(lines, cfg, now, i))
            && t.nextId == s.nextId && t.tombs == s.tombs && t.tombFile == s.tombFile
  {
    hide LinesOf, SlotOf, PruneChannel, SlotOk, Stays, Kept;
    var at := SlotOf(s.channels, channel).value;
    assert SlotOk(s.channels[at], s.nextId);
    PruneExact(s.channels[at], cfg, now, s.nextId, i);
    if cfg.enabled {
      forall j | 0 <= j < |s.channels|
        ensures PruneChannel(s.channels[j], cfg, now).id == s.channels[j].id
      {
        assert SlotOk(s.channels[j], s.nextId);
        PruneKeepsSuffix(s.channels[j], cfg, now, s.nextId);
      }
      SameSlots(s.channels, PruneAll(s.channels, cfg, now), channel);
    }
  }

  lemma {:induction false} SameSlots(a: seq<Channel>, b: seq<Channel>, channel: u16)
    requires |a| == |b| && forall i :: 0 <= i < |a| ==> a[i].id == b[i].id
    ensures SlotOf(a, channel) == SlotOf(b, channel)
    decreases |a|
  {
    if a != [] && a[0].id != channel {
      SameSlots(a[1..], b[1..], channel);
    }
  }

  // ----- append

  /** A message is stored exactly if the history is on, there is a slot or room for one and the
      record fits; then it is the last line of its channel and no other channel changes. The id
      counter moves on also where only the record does not fit. */
  lemma AppendExact(s: Store, cfg: Config, key: Option<C.Key>, m: Message, channel: u16)
    requires Inv(s) && m.channel < MAX_CHANNELS && s.nextId < LAST_ID && 0 !in m.nick && 0 !in m.body
    ensures var (t, id) := AppendTo(s, cfg, key, m);
            var record := Record(key, m.nonce, HeaderOf(s.nextId, m), m.nick, m.body);
            var room := cfg.enabled && (SlotOf(s.channels, m.channel).Some? || |s.channels| < 16);
            && id == (if room && record.Some? then s.nextId else 0)
            && t.nextId == (if room then s.nextId + 1 else s.nextId)
            && LinesIn(t, channel) == LinesIn(s, channel)
                 + (if room && record.Some? && channel == m.channel then [record.value] else [])
            && t.tombs == s.tombs && t.tombFile == s.tombFile
  {
    hide Record, LinesOf, SlotOf, GoodLine, SlotOk;
    var cs := WithSlot(s.channels, m.channel);
    if cfg.enabled && cs.Some? {
      SlotLines(s, m.channel, channel);
      WithSlotOk(s.channels, m.channel, s.nextId);
      MessageLine(key, s.nextId, m);
      var i := SlotOf(cs.value, m.channel).value;
      var record := Record(key, m.nonce, HeaderOf(s.nextId, m), m.nick, m.body);
      if record.Some? {
        AddedOk(cs.value[i], s.nextId, record.value);
        SlotUpdate(cs.value, i, Added(cs.value[i], s.nextId, record.value), channel);
        if channel == m.channel {
          SlotAt(cs.value, m.channel, i);
        }
      }
    }
  }

  // A new slot is empty and leaves the others where they are.
  lemma SlotLines(s: Store, id: u16, channel: u16)
    requires WithSlot(s.channels, id).Some?
    ensures LinesIn(s.(channels := WithSlot(s.channels, id).value), channel) == LinesIn(s, channel)
  {
    hide LinesOf, SlotOf;
    var cs := WithSlot(s.channels, id).value;
    SlotKept(s.channels, id, channel);
    if SlotOf(s.channels, channel).None? {
      var i := SlotOf(cs, channel);
      if i.Some? {
        assert cs[i.value] == Channel(id, [], []);
        NoFileNoLines();
      }
    }
  }

  lemma NoFileNoLines()
    ensures LinesOf([]) == []
  {
  }

  // ----- query

  /** Every line of a page is one entry of the answer. */
  lemma {:induction false} ParsedOneByOne(key: Option<C.Key>, tombs: seq<u64>, lines: seq<Str>, i: nat)
    requires AllGood(lines) && i < |lines|
    ensures |ParseAll(key, tombs, lines)| == |lines|
    ensures Parse(key, tombs, lines[i]).Some? && ParseAll(key, tombs, lines)[i] == Parse(key, tombs, lines[i]).value
    decreases |lines|
  {
    hide Parse, GoodLine;
    GoodParses(key, tombs, lines[0]);
    var rest := Tail(lines, 1);
    if i > 0 {
      ParsedOneByOne(key, tombs, rest, i - 1);
    } else if rest != [] {
      ParsedOneByOne(key, tombs, rest, 0);
    }
  }

  lemma GoodParses(key: Option<C.Key>, tombs: seq<u64>, line: Str)
    requires GoodLine(line)
    ensures Parse(key, tombs, line).Some?
  {
  }

  lemma {:induction false} FilteredGood(lines: seq<Str>, before: u64, after: u64)
    requires AllGood(lines)
    ensures AllGood(FilterLines(lines, before, after))
    decreases |lines|
  {
    hide GoodLine, IdOf;
    if lines != [] {
      FilteredGood(Tail(lines, 1), before, after);
    }
  }

  /** A query answers with the page of the lines in its channel that match the cursors, entry by
      entry, and has_more says whether more lines match than the limit in force. */
  lemma QueryExact(s: Store, key: Option<C.Key>, channel: u16, before: u64, after: u64, limit: u16)
    requires Inv(s) && AllCountable(s) && Safe(before, after)
    ensures var r, l := QueryOf(s, key, channel, before, after, limit), if limit == 0 || limit > 200 then 50 else limit as int;
            var lines := LinesIn(s, channel);
            && AllGood(lines)
            && var page := LinePage(lines, before, after, l);
            && |r.entries| == |page|
            && (forall i :: 0 <= i < |page| ==> Some(r.entries[i]) == Parse(key, s.tombs, page[i]))
            && (r.more <==> |FilterLines(lines, before, after)| > l)
  {
    hide LinesOf, GoodLine, Parse, ParseAll, SlotOf, FilterLines, Answer, More, SlotOk;
    var r, l := QueryOf(s, key, channel, before, after, limit), Effective(limit);
    var lines := LinesIn(s, channel);
    var i := SlotOf(s.channels, channel);
    NothingFiltered(before, after);
    if i.Some? {
      var c := s.channels[i.value];
      AnswerIsPage(c, s.nextId, before, after, l);
      CountsAgree(c, s.nextId);
      FilteredGood(lines, before, after);
      var page := LinePage(lines, before, after, l);
      assert AllGood(page);
      if c.entries == [] {
        assert lines == [];
      } else {
        ParsedPage(key, s.tombs, page);
      }
    }
  }

  lemma ParsedPage(key: Option<C.Key>, tombs: seq<u64>, page: seq<Str>)
    requires AllGood(page)
    ensures var es := ParseAll(key, tombs, page);
            |es| == |page| && forall i :: 0 <= i < |page| ==> Some(es[i]) == Parse(key, tombs, page[i])
  {
    hide GoodLine, Parse;
    var es := ParseAll(key, tombs, page);
    forall i | 0 <= i < |page|
      ensures |es| == |page| && Some(es[i]) == Parse(key, tombs, page[i])
    {
      ParsedOneByOne(key, tombs, page, i);
    }
  }
}
