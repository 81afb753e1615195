/** What queries of the chat history answer, and paging while messages arrive
    (chat_history.c:645-761). */
module HistoryAnswers {
  import opened Bits
  import opened Wrappers
  import C = ChaCha20
  import opened Text
  import opened HistoryRecord
  import opened HistoryScan
  import opened HistoryQuery
  import opened HistoryTombs
  import opened HistoryStore
  import opened HistoryRun

  // ----- what a query answers

  /** A channel whose count fits the query's arithmetic. */
  predicate Countable(c: Channel) { |c.entries| < 0x1000_0000_0000_0000 }

  predicate AllCountable(s: Store) { forall i :: 0 <= i < |s.channels| ==> Countable(s.channels[i]) }

  function Texts(file: Str, xs: seq<Idx>): (r: seq<Str>)
    ensures |r| == |xs| && forall i :: 0 <= i < |xs| ==> r[i] == LineAt(file, xs[i])
  {
    seq(|xs|, i requires 0 <= i < |xs| => LineAt(file, xs[i]))
  }

  /** The lines the query reads. */
  function Answer(c: Channel, before: u64, after: u64, l: nat): seq<Str>
    requires Countable(c) && 1 <= l <= MAX_LIMIT
  {
    Texts(c.file, Fetch(c.entries, before, after, l))
  }

  /** The lines within the cursors. */
  function FilterLines(lines: seq<Str>, before: u64, after: u64): seq<Str>
    requires AllGood(lines)
    decreases |lines|
  {
    if lines == [] then []
    else
      (if (after == 0 || IdOf(lines[0]) > after) && (before == 0 || IdOf(lines[0]) < before) then [lines[0]] else [])
      + FilterLines(lines[1..], before, after)
  }

  /** The specification of a query on a log of lines. */
  function LinePage(lines: seq<Str>, before: u64, after: u64, l: nat): seq<Str>
    requires AllGood(lines)
  {
    var m := FilterLines(lines, before, after);
    if |m| <= l then m else if after != 0 then m[..l] else m[|m| - l..]
  }

  lemma TextsConcat(file: Str, a: seq<Idx>, b: seq<Idx>)
    ensures Texts(file, a + b) == Texts(file, a) + Texts(file, b)
  {
  }

  lemma TextsOfOne(file: Str, x: Idx)
    ensures Texts(file, [x]) == [LineAt(file, x)] && Texts(file, []) == []
  {
  }

  lemma FirstAt(pre: Str, l: Str, more: Str, x: Idx)
    requires x.offset == |pre| && x.length == |l|
    ensures LineAt(pre + (l + more), x) == l
  {
  }

  lemma {:induction false} MatchedTexts(pre: Str, lines: seq<Str>, before: u64, after: u64)
    requires AllGood(lines)
    ensures Texts(pre + Concat(lines), Matching(IndexOf(lines, |pre|), before, after)) == FilterLines(lines, before, after)
    decreases |lines|
  {
    hide GoodLine, IdOf, LineAt, Texts;
    var file := pre + Concat(lines);
    if lines == [] {
      TextsOfOne(file, Idx(0, 0, 0));
    } else {
      var l, rest := lines[0], Tail(lines, 1);
      var x := Idx(IdOf(l), |pre|, |l|);
      FirstAt(pre, l, Concat(rest), x);
      assert (pre + l) + Concat(rest) == file;
      MatchedTexts(pre + l, rest, before, after);
      var more := Matching(IndexOf(rest, |pre + l|), before, after);
      assert IndexOf(lines, |pre|) == [x] + IndexOf(rest, |pre + l|);
      assert ([x] + IndexOf(rest, |pre + l|))[1..] == IndexOf(rest, |pre + l|);
      TextsConcat(file, if Matches(x, before, after) then [x] else [], more);
      TextsOfOne(file, x);
    }
  }

  lemma TextsCut(file: Str, xs: seq<Idx>, a: nat, b: nat)
    requires a <= b <= |xs|
    ensures Texts(file, xs[a..b]) == Texts(file, xs)[a..b]
  {
  }

  /** A query reads exactly the page of the lines in the file, and tells whether lines were left out. */
  lemma AnswerIsPage(c: Channel, n: nat, before: u64, after: u64, l: nat)
    requires SlotOk(c, n) && Countable(c) && 1 <= l <= MAX_LIMIT
    requires Safe(before, after)
    ensures var lines := LinesOf(c.file);
            && Answer(c, before, after, l) == LinePage(lines, before, after, l)
            && (More(c.entries, before, after, l) <==> |FilterLines(lines, before, after)| > l)
  {
    hide LinesOf, IndexOf, Concat, GoodLine, Sorted, Matching, FilterLines, Window, IdsBelow, Texts;
    var lines := LinesOf(c.file);
    var m := Matching(c.entries, before, after);
    SafeCursors(c.entries, before, after, l);
    MatchedTexts([], lines, before, after);
    assert [] + Concat(lines) == c.file;
    TextsCut(c.file, m, 0, |m|);
    if |m| > l {
      TextsCut(c.file, m, 0, l);
      TextsCut(c.file, m, |m| - l, |m|);
    }
  }

  lemma FilterFirst(l: Str, lines: seq<Str>, before: u64, after: u64)
    requires GoodLine(l) && AllGood(lines)
    ensures AllGood([l] + lines)
    ensures FilterLines([l] + lines, before, after)
         == FilterLines([l], before, after) + FilterLines(lines, before, after)
  {
    hide GoodLine, IdOf;
    First(l, lines, 0);
    assert ([l] + lines)[1..] == lines;
    var one := [l];
    assert one[1..] == [];
  }

  lemma {:induction false} FilterSplit(a: seq<Str>, b: seq<Str>, before: u64, after: u64)
    requires AllGood(a) && AllGood(b)
    ensures AllGood(a + b) && FilterLines(a + b, before, after) == FilterLines(a, before, after) + FilterLines(b, before, after)
    decreases |a|
  {
    hide GoodLine, IdOf, AllGood, FilterLines;
    if a == [] {
      assert a + b == b;
      NothingFiltered(before, after);
    } else {
      var l, rest := a[0], Tail(a, 1);
      First(l, rest, 0);
      assert a == [l] + rest && a + b == [l] + (rest + b);
      FilterSplit(rest, b, before, after);
      FilterFirst(l, rest, before, after);
      FilterFirst(l, rest + b, before, after);
    }
  }

  lemma NothingFiltered(before: u64, after: u64)
    ensures AllGood([]) && FilterLines([], before, after) == []
  {
  }

  /** After a prune a query is the query on the kept suffix of the old log: of the lines that
      match in the old log, the kept ones. */
  lemma PrunedAnswer(c: Channel, n: nat, cfg: Config, now: i64, before: u64, after: u64, l: nat)
    requires SlotOk(c, n) && Countable(PruneChannel(c, cfg, now)) && 1 <= l <= MAX_LIMIT
    requires Safe(before, after)
    ensures var lines, d := LinesOf(c.file), Dropped(c, cfg, now);
            && AllGood(lines[..d]) && AllGood(lines[d..])
            && Answer(PruneChannel(c, cfg, now), before, after, l) == LinePage(lines[d..], before, after, l)
            && FilterLines(lines, before, after) == FilterLines(lines[..d], before, after) + FilterLines(lines[d..], before, after)
  {
    hide LinesOf, GoodLine, SlotOk, FilterLines, PruneChannel, LinePage, Answer, Dropped;
    var lines, d := LinesOf(c.file), Dropped(c, cfg, now);
    PruneKeepsSuffix(c, cfg, now, n);
    AnswerIsPage(PruneChannel(c, cfg, now), n, before, after, l);
    assert lines == lines[..d] + lines[d..];
    assert AllGood(lines[..d]) && AllGood(lines[d..]);
    FilterSplit(lines[..d], lines[d..], before, after);
  }

  function ParseAll(key: Option<C.Key>, tombs: seq<u64>, lines: seq<Str>): seq<Entry>
    decreases |lines|
  {
    if lines == [] then []
    else
      var e := Parse(key, tombs, lines[0]);
      (if e.Some? then [e.value] else []) + ParseAll(key, tombs, lines[1..])
  }

  datatype Result = Result(entries: seq<Entry>, more: bool)

  /** lm_chat_history_query. */
  function QueryOf(s: Store, key: Option<C.Key>, channel: u16, before: u64, after: u64, limit: u16): Result
    requires AllCountable(s)
  {
    var i := SlotOf(s.channels, channel);
    if i.None? || s.channels[i.value].entries == [] then Result([], false)
    else
      var c, l := s.channels[i.value], Effective(limit);
      Result(ParseAll(key, s.tombs, Answer(c, before, after, l)), More(c.entries, before, after, l))
  }

  lemma FirstParsed(key: Option<C.Key>, tombs: seq<u64>, line: Str, rest: seq<Str>)
    ensures var e := Parse(key, tombs, line);
            ParseAll(key, tombs, [line] + rest) == (if e.Some? then [e.value] else []) + ParseAll(key, tombs, rest)
    ensures ParseAll(key, tombs, []) == []
  {
    hide Parse;
    assert ([line] + rest)[1..] == rest;
  }

  lemma {:induction false} ParseAllSplit(key: Option<C.Key>, tombs: seq<u64>, a: seq<Str>, b: seq<Str>)
    ensures ParseAll(key, tombs, a + b) == ParseAll(key, tombs, a) + ParseAll(key, tombs, b)
    decreases |a|
  {
    hide Parse, ParseAll;
    if a == [] {
      assert a + b == b;
      FirstParsed(key, tombs, [], []);
    } else {
      var rest := a[1..];
      ParseAllSplit(key, tombs, rest, b);
      FirstParsed(key, tombs, a[0], rest);
      FirstParsed(key, tombs, a[0], rest + b);
      assert a == [a[0]] + rest && a + b == [a[0]] + (rest + b);
    }
  }

  lemma {:induction false} NoCursors(lines: seq<Str>)
    requires AllGood(lines)
    ensures FilterLines(lines, 0, 0) == lines
    decreases |lines|
  {
    hide GoodLine, IdOf;
    if lines != [] {
      NoCursors(Tail(lines, 1));
      assert lines == [lines[0]] + lines[1..];
    }
  }

  lemma NewestLine(c: Channel, n: nat, lines: seq<Str>, line: Str, l: nat) returns (front: seq<Str>)
    requires SlotOk(c, n) && Countable(c) && 1 <= l <= MAX_LIMIT && LinesOf(c.file) == lines + [line]
    ensures Answer(c, 0, 0, l) == front + [line]
  {
    hide SlotOk, LinesOf, GoodLine, FilterLines, Answer;
    AnswerIsPage(c, n, 0, 0, l);
    NoCursors(lines + [line]);
    var all := lines + [line];
    front := if |all| <= l then lines else all[|all| - l..|all| - 1];
    assert LinePage(all, 0, 0, l) == front + [line];
  }

  /** The store after an append. */
  function StoreAfter(s: Store, cfg: Config, key: Option<C.Key>, m: Message): Store { AppendTo(s, cfg, key, m).0 }

  /** A message that append accepts. */
  predicate Succeeds(s: Store, cfg: Config, key: Option<C.Key>, m: Message) {
    && Inv(s) && m.channel < MAX_CHANNELS && s.nextId < LAST_ID && 0 !in m.nick && 0 !in m.body
    && AppendTo(s, cfg, key, m).1 != 0
  }

  /** The entry is the message with this id: the same header, and nick and body unchanged exactly
      when they are clean and short enough, unless there is a tombstone for it. */
  predicate Shows(e: Entry, id: u64, m: Message, key: Option<C.Key>, tombs: seq<u64>) {
    && e.id == id && e.ch == m.channel && e.ts == m.now && e.icon == m.icon
    && (id in tombs ==> e.flags == Deleted(m.flags) && e.nick == [] && e.body == [])
    && (id !in tombs ==> e.flags == m.flags && (e.nick == m.nick <==> NickReturns(m.nick)))
    && (id !in tombs ==> (e.body == m.body <==> BodyReturns(key, m.body)))
  }

  /** Append, then query the newest messages: the last one returned is the message. */
  lemma AppendThenQuery(s: Store, cfg: Config, key: Option<C.Key>, m: Message, limit: u16)
    requires Succeeds(s, cfg, key, m) && AllCountable(StoreAfter(s, cfg, key, m))
    ensures var es := QueryOf(StoreAfter(s, cfg, key, m), key, m.channel, 0, 0, limit).entries;
            es != [] && Shows(es[|es| - 1], s.nextId, m, key, s.tombs)
    ensures AppendTo(s, cfg, key, m).1 == s.nextId
  {
    hide AppendTo, Record, Parse, ParseAll, QueryOf, Inv, SlotOk, LinesOf, Deleted, BodyReturns, NickReturns, Answer, SlotOf, AllCountable;
    var i, line, lines := AppendedLine(s, cfg, key, m);
    var t := StoreAfter(s, cfg, key, m);
    CountableAt(t, i);
    var front := NewestLine(t.channels[i], t.nextId, lines, line, Effective(limit));
    ParseAllSplit(key, t.tombs, front, [line]);
    AppendThenParse(key, m.nonce, HeaderOf(s.nextId, m), m.nick, m.body, t.tombs);
    LastParsed(key, t.tombs, line);
    LastAnswer(t, key, m.channel, limit, i);
  }

  lemma CountableAt(s: Store, i: nat)
    requires AllCountable(s) && i < |s.channels|
    ensures Countable(s.channels[i])
  {
  }

  lemma LastParsed(key: Option<C.Key>, tombs: seq<u64>, line: Str)
    ensures Parse(key, tombs, line).Some? ==> ParseAll(key, tombs, [line]) == [Parse(key, tombs, line).value]
  {
    hide Parse;
    assert ParseAll(key, tombs, [line][1..]) == [];
  }

  lemma LastAnswer(t: Store, key: Option<C.Key>, channel: u16, limit: u16, i: nat)
    requires AllCountable(t)
    requires i < |t.channels| && SlotOf(t.channels, channel) == Some(i) && t.channels[i].entries != []
    ensures QueryOf(t, key, channel, 0, 0, limit).entries == ParseAll(key, t.tombs, Answer(t.channels[i], 0, 0, Effective(limit)))
  {
    hide ParseAll, Answer, SlotOf, More;
  }

  lemma SlotAt(cs: seq<Channel>, id: u16, i: nat)
    requires Distinct(cs) && i < |cs| && cs[i].id == id
    ensures SlotOf(cs, id) == Some(i)
  {
    hide SlotOf;
  }

  // What a successful append did to its channel.
  lemma AppendedLine(s: Store, cfg: Config, key: Option<C.Key>, m: Message) returns (i: nat, line: Str, lines: seq<Str>)
    requires Succeeds(s, cfg, key, m)
    ensures AppendTo(s, cfg, key, m).1 == s.nextId
    ensures Record(key, m.nonce, HeaderOf(s.nextId, m), m.nick, m.body) == Some(line)
    ensures var t := StoreAfter(s, cfg, key, m);
            && t.tombs == s.tombs && i < |t.channels| && SlotOf(t.channels, m.channel) == Some(i)
            && LinesOf(t.channels[i].file) == lines + [line]
            && SlotOk(t.channels[i], t.nextId) && t.channels[i].entries != []
  {
    hide SlotOk, Record, GoodLine, WithSlot, SlotOf, LinesOf;
    var (t, id) := AppendTo(s, cfg, key, m);
    AppendKeeps(s, cfg, key, m);
    WithSlotOk(s.channels, m.channel, s.nextId);
    MessageLine(key, s.nextId, m);
    var cs := WithSlot(s.channels, m.channel).value;
    i := SlotOf(cs, m.channel).value;
    line := Record(key, m.nonce, HeaderOf(id, m), m.nick, m.body).value;
    lines := LinesOf(cs[i].file);
    AddedOk(cs[i], id, line);
    SlotAt(t.channels, m.channel, i);
  }

  /** A tombstone for the next id, which no channel has yet, is accepted and hides the message
      that gets the id. */
  lemma HiddenInAdvance(s: Store, cfg: Config, key: Option<C.Key>, m: Message, limit: u16)
    requires Inv(s)
    requires var t := Tombstoned(s, s.nextId); Succeeds(t, cfg, key, m) && AllCountable(StoreAfter(t, cfg, key, m))
    ensures !Known(s, s.nextId) && TombstoneCode(s, s.nextId) == 0
    ensures var es := QueryOf(StoreAfter(Tombstoned(s, s.nextId), cfg, key, m), key, m.channel, 0, 0, limit).entries;
            es != [] && var e := es[|es| - 1]; e.id == s.nextId && e.nick == [] && e.body == [] && e.flags == Deleted(m.flags)
  {
    hide StoreAfter, Succeeds, Inv, Tombstoned, AllCountable, QueryOf, Deleted, Known, AppendTo, NickReturns, BodyReturns;
    NextUnknown(s);
    TombstonedHas(s, s.nextId);
    AppendThenQuery(Tombstoned(s, s.nextId), cfg, key, m, limit);
  }

  lemma TombstonedHas(s: Store, id: u64)
    ensures id in Tombstoned(s, id).tombs && Tombstoned(s, id).nextId == s.nextId
  {
    hide TombLine;
  }

  lemma NextUnknown(s: Store)
    requires Inv(s)
    ensures !Known(s, s.nextId)
  {
    hide ChannelOk;
    forall i, j | 0 <= i < |s.channels| && 0 <= j < |s.channels[i].entries|
      ensures s.channels[i].entries[j].id != s.nextId
    {
      assert SlotOk(s.channels[i], s.nextId);
    }
  }

  // ----- queries and the base64 table

  /** A query parses only lines inside the table. */
  predicate AnswerInTable(key: Option<C.Key>, c: Channel, before: u64, after: u64, l: nat)
    requires Countable(c) && 1 <= l <= MAX_LIMIT
  {
    var a := Answer(c, before, after, l);
    forall i :: 0 <= i < |a| ==> LineInTable(key, a[i])
  }

  lemma FetchedLine(c: Channel, n: nat, before: u64, after: u64, l: nat, i: nat)
    requires SlotOk(c, n) && Countable(c) && 1 <= l <= MAX_LIMIT && i < |Answer(c, before, after, l)|
    ensures var k := Window(c.entries, before, after, l).start + i;
            k < |LinesOf(c.file)| && Answer(c, before, after, l)[i] == LinesOf(c.file)[k]
  {
    hide Window, LinesOf, IndexOf, Concat, Carries, IdsBelow, LineAt;
    EntryAt(c, Window(c.entries, before, after, l).start + i);
  }

  lemma SingleAnswer(c: Channel, n: nat, i: nat)
    requires SlotOk(c, n) && n <= LAST_ID && Countable(c) && i < |c.entries|
    ensures i < |LinesOf(c.file)| && c.entries[i].id < LAST_ID
    ensures Answer(c, c.entries[i].id + 1, 0, 1) == [LinesOf(c.file)[i]]
  {
    hide LinesOf, IndexOf, Concat, Carries, LineAt, Rank;
    EntryAt(c, i);
    assert 0 < c.entries[i].id < n;
    assert i + 1 < |c.entries| ==> c.entries[i].id < c.entries[i + 1].id;
    RankIs(c.entries, c.entries[i].id + 1, i + 1);
    assert c.entries[i..i + 1] == [c.entries[i]];
    TextsOfOne(c.file, c.entries[i]);
  }

  ghost predicate AnswersInTable(key: Option<C.Key>, c: Channel)
    requires Countable(c)
  {
    forall before: u64, after: u64, l: nat :: 1 <= l <= MAX_LIMIT ==> AnswerInTable(key, c, before, after, l)
  }

  /** Every query stays inside the base64 table exactly if every line of the channel is parsed
      inside it. */
  lemma AnswersInTableIff(key: Option<C.Key>, c: Channel, n: nat)
    requires SlotOk(c, n) && n <= LAST_ID && Countable(c)
    ensures AnswersInTable(key, c) <==> ReadableWith(key, c)
  {
    hide SlotOk, LinesOf, LineInTable, Answer, Window;
    if ReadableWith(key, c) {
      forall before: u64, after: u64, l: nat | 1 <= l <= MAX_LIMIT
        ensures AnswerInTable(key, c, before, after, l)
      {
        var a := Answer(c, before, after, l);
        forall i | 0 <= i < |a|
          ensures LineInTable(key, a[i])
        {
          FetchedLine(c, n, before, after, l, i);
        }
      }
    }
    if AnswersInTable(key, c) {
      CountsAgree(c, n);
      forall i | 0 <= i < |LinesOf(c.file)|
        ensures LineInTable(key, LinesOf(c.file)[i])
      {
        SingleAnswer(c, n, i);
        assert AnswerInTable(key, c, c.entries[i].id + 1, 0, 1);
        var a := Answer(c, c.entries[i].id + 1, 0, 1);
        assert a[0] == LinesOf(c.file)[i];
      }
    }
  }

  lemma CountsAgree(c: Channel, n: nat)
    requires SlotOk(c, n)
    ensures |c.entries| == |LinesOf(c.file)|
  {
    hide LinesOf, Concat, Sorted, IdsBelow, GoodLine;
  }

  /** Stored without a key and read with one: the newest query leaves the table exactly if the
      text is exposed, as one that begins with ENC: and a byte above 127. */
  lemma KeyAddedLater(s: Store, cfg: Config, m: Message, later: C.Key, limit: u16)
    requires Succeeds(s, cfg, None, m) && AllCountable(StoreAfter(s, cfg, None, m))
    ensures var t := StoreAfter(s, cfg, None, m);
            var i := SlotOf(t.channels, m.channel);
            i.Some? && var a := Answer(t.channels[i.value], 0, 0, Effective(limit));
            a != [] && (LineInTable(Some(later), a[|a| - 1]) <==> !Exposed(None, m.body))
  {
    hide AppendTo, Record, Inv, SlotOk, LinesOf, Answer, SlotOf, LineInTable, Exposed, AllCountable;
    var i, line, lines := AppendedLine(s, cfg, None, m);
    var t := StoreAfter(s, cfg, None, m);
    CountableAt(t, i);
    var front := NewestLine(t.channels[i], t.nextId, lines, line, Effective(limit));
    RecordInTableIff(Some(later), None, m.nonce, HeaderOf(s.nextId, m), m.nick, m.body);
  }

  // ----- paging while messages are appended

  /** The index of a channel, empty if it has no slot. */
  function LogOf(s: Store, channel: u16): seq<Idx> {
    var i := SlotOf(s.channels, channel);
    if i.None? then [] else s.channels[i.value].entries
  }

  predicate AllAppends(ops: seq<Op>) { forall i :: 0 <= i < |ops| ==> ops[i].Append? }

  lemma SlotKept(cs: seq<Channel>, id: u16, other: u16)
    ensures var r := WithSlot(cs, id);
            r.Some? ==> cs <= r.value && (SlotOf(cs, other).Some? ==> SlotOf(r.value, other) == SlotOf(cs, other))
  {
    SlotSuffix(cs, [Channel(id, [], [])], other);
  }

  lemma {:induction false} SlotSuffix(cs: seq<Channel>, more: seq<Channel>, other: u16)
    ensures SlotOf(cs, other).Some? ==> SlotOf(cs + more, other) == SlotOf(cs, other)
    decreases |cs|
  {
    if cs != [] && cs[0].id != other {
      SlotSuffix(cs[1..], more, other);
      assert (cs + more)[1..] == cs[1..] + more;
    }
  }

  lemma {:induction false} SlotUpdate(cs: seq<Channel>, i: nat, c: Channel, other: u16)
    requires i < |cs| && c.id == cs[i].id
    ensures SlotOf(cs[i := c], other) == SlotOf(cs, other)
    decreases |cs|
  {
    if cs != [] && cs[0].id != other {
      if i > 0 {
        assert cs[i := c][1..] == cs[1..][i - 1 := c];
        SlotUpdate(cs[1..], i - 1, c, other);
      } else {
        assert cs[0 := c][1..] == cs[1..];
      }
    }
  }

  /** An append only adds at the end of an index. */
  lemma AppendGrows(s: Store, cfg: Config, key: Option<C.Key>, m: Message, channel: u16)
    ensures LogOf(s, channel) <= LogOf(AppendTo(s, cfg, key, m).0, channel)
  {
    hide Record, SlotOf, WithSlot;
    SlotKept(s.channels, m.channel, channel);
    var cs := WithSlot(s.channels, m.channel);
    var line := Record(key, m.nonce, HeaderOf(s.nextId, m), m.nick, m.body);
    if cfg.enabled && cs.Some? && line.Some? {
      var i := SlotOf(cs.value, m.channel).value;
      SlotUpdate(cs.value, i, Added(cs.value[i], s.nextId, line.value), channel);
    }
  }

  lemma {:induction false} AppendsGrow(s: System, ops: seq<Op>, channel: u16)
    requires AllAppends(ops)
    ensures LogOf(s.store, channel) <= LogOf(Run(s, ops).store, channel)
    decreases |ops|
  {
    hide LogOf, AppendTo;
    if ops != [] {
      assert AllAppends(ops[1..]) && ops[0].Append?;
      AppendGrows(s.store, s.cfg, s.key, ops[0].m, channel);
      AppendsGrow(Step(s, ops[0]), ops[1..], channel);
    }
  }

  /** The index of a channel at each query, the store going through one batch of operations
      between two queries. */
  function LogsAt(s: System, batches: seq<seq<Op>>, channel: u16): (r: seq<seq<Idx>>)
    ensures |r| == |batches| + 1
    decreases |batches|
  {
    if batches == [] then [LogOf(s.store, channel)]
    else [LogOf(s.store, channel)] + LogsAt(Run(s, batches[0]), batches[1..], channel)
  }

  predicate LegalBatches(s: System, batches: seq<seq<Op>>)
    decreases |batches|
  {
    batches == [] || (AllAppends(batches[0]) && LegalRun(s, batches[0])
                      && LegalBatches(Run(s, batches[0]), batches[1..]))
  }

  predicate Grown(logs: seq<seq<Idx>>) {
    && (forall i :: 0 <= i < |logs| ==> Sorted(logs[i]))
    && (forall i :: 0 <= i < |logs| - 1 ==> logs[i] <= logs[i + 1])
  }

  lemma LogSorted(s: Store, channel: u16)
    requires Inv(s)
    ensures Sorted(LogOf(s, channel)) && IdsBelow(LogOf(s, channel), s.nextId)
  {
    hide SlotOf, LinesOf, IndexOf, Concat;
    var i := SlotOf(s.channels, channel);
    if i.Some? {
      assert SlotOk(s.channels[i.value], s.nextId);
    }
  }

  lemma {:induction false} LogsGrow(s: System, batches: seq<seq<Op>>, channel: u16)
    requires Inv(s.store) && LegalBatches(s, batches)
    ensures var logs := LogsAt(s, batches, channel); Grown(logs) && logs[0] == LogOf(s.store, channel)
    decreases |batches|
  {
    hide Inv, Run, LegalRun, LogOf, Sorted, AllAppends;
    LogSorted(s.store, channel);
    if batches != [] {
      var t := Run(s, batches[0]);
      RunKeeps(s, batches[0]);
      AppendsGrow(s, batches[0], channel);
      LogsGrow(t, batches[1..], channel);
      GrownFirst(LogOf(s.store, channel), LogsAt(t, batches[1..], channel));
    }
  }

  lemma GrownFirst(x: seq<Idx>, logs: seq<seq<Idx>>)
    requires Grown(logs) && logs != [] && Sorted(x) && x <= logs[0]
    ensures Grown([x] + logs)
  {
    hide Sorted;
    var r := [x] + logs;
    forall i | 0 <= i < |r| - 1
      ensures r[i] <= r[i + 1]
    {
      if i > 0 {
        assert logs[i - 1] <= logs[i - 1 + 1];
      }
    }
  }

  /** Scrolling back through a channel while messages arrive: with a query more than every l-th
      entry, the pages are exactly the entries present at the first query, each once. */
  lemma PagingWhileAppending(s: System, batches: seq<seq<Op>>, channel: u16, l: nat)
    requires Inv(s.store) && LegalBatches(s, batches) && 1 <= l <= MAX_LIMIT
    requires forall i :: 0 <= i <= |batches| ==> |LogsAt(s, batches, channel)[i]| < 0x1000_0000_0000_0000
    requires |LogOf(s.store, channel)| <= (|batches| + 1) * l
    ensures Back(LogsAt(s, batches, channel), 0, l) == Some(LogOf(s.store, channel))
  {
    hide LogsAt, LogOf, LegalBatches, Inv, Back, Sorted;
    LogsGrow(s, batches, channel);
    LogSorted(s.store, channel);
    PagingBack(LogsAt(s, batches, channel), l);
  }
}
