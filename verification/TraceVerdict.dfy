// check_trace.py as a program: gen_events_info fills its dictionaries line by line,
// check_trace_status compares the texts of the reference and of the new trace.
module TraceVerdict {
  import opened Sorting
  import opened TraceText
  import opened TraceChecker

  // The events_order dictionary with its keys in insertion order.
  datatype EventsOrder = EventsOrder(tids: seq<int>, lists: map<int, seq<string>>)

  ghost predicate Describes(order: EventsOrder, uncounted: string -> bool, es: seq<Event>) {
    && order.tids == Tids(es)
    && (forall tid :: tid in order.lists <==> tid in order.tids)
    && (forall tid :: tid in order.lists ==> order.lists[tid] == ThreadList(uncounted, es, tid))
  }

  ghost predicate Counts(keys: seq<string>, counts: map<string, nat>, names: seq<string>) {
    && keys == Keys(names)
    && (forall x :: x in counts <==> x in keys)
    && (forall x :: x in counts ==> counts[x] == multiset(names)[x])
  }

  // The body of the line loop in order mode.
  method RecordOrder(order: EventsOrder, uncounted: string -> bool, e: Event, ghost es: seq<Event>)
    returns (order': EventsOrder)
    requires Describes(order, uncounted, es)
    ensures Describes(order', uncounted, es + [e])
  {
    TidsStep(es, e);
    ThreadListEmpty(uncounted, es, e.tid);
    forall tid
      ensures ThreadList(uncounted, es + [e], tid)
           == if e.tid == tid then Extend(uncounted, ThreadList(uncounted, es, tid), e.name)
              else ThreadList(uncounted, es, tid)
    {
      ThreadListStep(uncounted, es, e, tid);
    }
    if e.tid in order.lists {
      var list := order.lists[e.tid];
      if uncounted(e.name) {
        if e.name != list[|list| - 1] {
          list := list + [e.name];
        }
      } else {
        list := list + [e.name];
      }
      order' := order.(lists := order.lists[e.tid := list]);
    } else {
      order' := EventsOrder(order.tids + [e.tid], order.lists[e.tid := [e.name]]);
    }
  }

  // The body of the line loop in count mode.
  method RecordCount(keys: seq<string>, counts: map<string, nat>, name: string, ghost names: seq<string>)
    returns (keys': seq<string>, counts': map<string, nat>)
    requires Counts(keys, counts, names)
    ensures Counts(keys', counts', names + [name])
  {
    assert (names + [name])[..|names|] == names;
    KeysDistinct(names);
    if name in counts {
      keys', counts' := keys, counts[name := counts[name] + 1];
    } else {
      assert name !in multiset(names);
      keys', counts' := keys + [name], counts[name := 1];
    }
  }

  // The text of the counts, one line per key, split and sorted.
  method RenderCounts(keys: seq<string>, counts: map<string, nat>, uncounted: string -> bool, ghost names: seq<string>)
    returns (res: string)
    requires Counts(keys, counts, names)
    ensures res == CountText(uncounted, names)
  {
    ghost var lines := CountLines(uncounted, names);
    res := "";
    for i := 0 to |keys|
      invariant res == Unlines(lines[..i])
    {
      var x := keys[i];
      assert x in keys;
      assert lines[i] == CountLine(uncounted, x, counts[x]);
      AppendLine(res, x, Decimal(counts[x]));
      if uncounted(x) {
        res := res + x + "\n";
      } else {
        res := res + x + " : count " + Decimal(counts[x]) + "\n";
      }
      UnlinesAppend(lines[..i], lines[i]);
      assert lines[..i + 1] == lines[..i] + [lines[i]];
    }
    assert lines[..|lines|] == lines;
    var newres := Split(res);
    newres := Sort(LexLe, newres);
    res := Repr(newres);
  }

  lemma AppendLine(text: string, x: string, count: string)
    ensures text + x + "\n" == text + Terminated(x)
    ensures text + x + " : count " + count + "\n" == text + Terminated(x + " : count " + count)
  {
    assert text + x + " : count " + count + "\n" == text + (x + " : count " + count + "\n");
  }

  lemma UnlinesAppend(lines: seq<string>, line: string)
    ensures Unlines(lines + [line]) == Unlines(lines) + Terminated(line)
  {
    assert Map(Terminated, lines + [line]) == Map(Terminated, lines) + [Terminated(line)];
    ConcatAppend(Map(Terminated, lines), Terminated(line));
  }

  lemma ConcatAppend(parts: seq<string>, part: string)
    ensures Concat(parts + [part]) == Concat(parts) + part
  {
    assert (parts + [part])[..|parts|] == parts;
  }

  // The printed lists stand side by side, in order and without anything in between.
  lemma ReprAllAppend(xss: seq<seq<string>>, xs: seq<string>)
    ensures ReprAll([]) == ""
    ensures ReprAll(xss + [xs]) == ReprAll(xss) + Repr(xs)
  {
    assert Map(Repr, xss + [xs]) == Map(Repr, xss) + [Repr(xs)];
    ConcatAppend(Map(Repr, xss), Repr(xs));
  }

  lemma ListOfRank(order: EventsOrder, uncounted: string -> bool, es: seq<Event>, i: nat)
    requires Describes(order, uncounted, es) && i < |Sort(IntLe, order.tids)|
    ensures Sort(IntLe, order.tids)[i] in order.lists
    ensures RankedLists(uncounted, es)[i] == order.lists[Sort(IntLe, order.tids)[i]]
  {
    SortedMember(order.tids, i);
    var tid := Sort(IntLe, order.tids)[i];
    assert order.lists[tid] == ThreadList(uncounted, es, tid);
    var f := t => ThreadList(uncounted, es, t);
    assert RankedLists(uncounted, es)[i] == f(tid);
  }

  // The lists of all threads in the order of the tids.
  method RenderOrder(order: EventsOrder, uncounted: string -> bool, ghost es: seq<Event>) returns (res: string)
    requires Describes(order, uncounted, es)
    ensures res == OrderText(uncounted, es)
  {
    var tids := Sort(IntLe, order.tids);
    ghost var lists := RankedLists(uncounted, es);
    res := "";
    for i := 0 to |tids|
      invariant res == ReprAll(lists[..i])
    {
      ListOfRank(order, uncounted, es, i);
      var list := order.lists[tids[i]];
      ReprAllAppend(lists[..i], list);
      assert lists[..i + 1] == lists[..i] + [list];
      res := res + Repr(list);
    }
    assert lists[..|lists|] == lists;
  }

  lemma SortedMember(tids: seq<int>, i: nat)
    requires i < |Sort(IntLe, tids)|
    ensures Sort(IntLe, tids)[i] in tids
  {
    IntIsTotalOrder();
    SortSorts(IntLe, tids);
    assert Sort(IntLe, tids)[i] in multiset(tids);
  }

  // The text that gen_events_info returns; without a metric nothing is added to it.
  function TextOf(metric: Metric, cfg: Config, lines: seq<Line>): string {
    match metric
    case Cnt => CountText(cfg.uncounted, Names(Checked(lines, cfg.ignored, cfg.countChecked)))
    case Or => OrderText(cfg.uncounted, Checked(lines, cfg.ignored, cfg.orderChecked))
    case NoMetric => ""
  }

  lemma NamesAppend(es: seq<Event>, e: Event)
    ensures Names(es + [e]) == Names(es) + [e.name]
  {
  }

  // gen_events_info
  method GenEventsInfo(metric: Metric, cfg: Config, lines: seq<Line>) returns (res: string, order: EventsOrder)
    ensures res == TextOf(metric, cfg, lines)
    ensures metric == Or ==> Describes(order, cfg.uncounted, Checked(lines, cfg.ignored, cfg.orderChecked))
    ensures metric != Or ==> order == EventsOrder([], map[])
  {
    var keys: seq<string>, counts: map<string, nat> := [], map[];
    order := EventsOrder([], map[]);
    ghost var names: seq<string>, es: seq<Event> := [], [];
    for i := 0 to |lines|
      invariant metric == Cnt ==> names == Names(Checked(lines[..i], cfg.ignored, cfg.countChecked))
      invariant metric == Or ==> es == Checked(lines[..i], cfg.ignored, cfg.orderChecked)
      invariant Counts(keys, counts, names)
      invariant Describes(order, cfg.uncounted, es)
      invariant metric != Or ==> order == EventsOrder([], map[]) && es == []
    {
      CheckedStep(lines, i, cfg.ignored, cfg.countChecked);
      CheckedStep(lines, i, cfg.ignored, cfg.orderChecked);
      var found := EventOf(lines[i]);
      if found.None? || cfg.ignored(found.value.name) {
        continue;
      }
      var event := found.value;
      if metric == Cnt && cfg.countChecked(event.name) {
        keys, counts := RecordCount(keys, counts, event.name, names);
        NamesAppend(Checked(lines[..i], cfg.ignored, cfg.countChecked), event);
        names := names + [event.name];
      }
      if metric == Or && cfg.orderChecked(event.name) {
        order := RecordOrder(order, cfg.uncounted, event, es);
        es := es + [event];
      }
    }
    assert lines[..|lines|] == lines;
    res := "";
    if metric == Cnt {
      res := RenderCounts(keys, counts, cfg.uncounted, names);
    }
    if metric == Or {
      res := RenderOrder(order, cfg.uncounted, es);
    }
  }

  // ----- The verdict

  // The known comparison levels; every other text is none of them.
  datatype Level = CheckNone | CheckDiff | CheckCount | CheckEvents | CheckOrder | OtherLevel

  function LevelOf(text: string): Level {
    if text == "--check-none" then CheckNone
    else if text == "--check-diff" then CheckDiff
    else if text == "--check-count" then CheckCount
    else if text == "--check-events" then CheckEvents
    else if text == "--check-order" then CheckOrder
    else OtherLevel
  }

  // The outcome of reading the configuration file: checking is switched off, there are
  // no entries, this trace has no entry, or the text of the level in its entry.
  datatype Setup = Disabled | NoEntries | NotListed | Listed(level: string)

  function MetricOf(level: Level): Metric {
    match level
    case CheckCount => Cnt
    case CheckEvents => Cnt
    case CheckOrder => Or
    case _ => NoMetric
  }

  // When a listed trace passes: by level, or by comparing the two texts.
  predicate Passes(level: Level, cfg: Config, rtrace: seq<Line>, trace: seq<Line>, filesEqual: bool) {
    match level
    case CheckNone => true
    case CheckDiff => filesEqual
    case _ => TextOf(MetricOf(level), cfg, rtrace) == TextOf(MetricOf(level), cfg, trace)
  }

  // What the metrics are to compare, in terms of the two traces.
  ghost predicate Equivalent(metric: Metric, cfg: Config, rtrace: seq<Line>, trace: seq<Line>)
    requires metric != NoMetric
  {
    match metric
    case Cnt =>
      SameCounts(cfg.uncounted, Names(Checked(rtrace, cfg.ignored, cfg.countChecked)),
                 Names(Checked(trace, cfg.ignored, cfg.countChecked)))
    case Or =>
      RankedLists(cfg.uncounted, Checked(rtrace, cfg.ignored, cfg.orderChecked))
      == RankedLists(cfg.uncounted, Checked(trace, cfg.ignored, cfg.orderChecked))
  }

  lemma NamesAreWords(lines: seq<Line>, ignored: string -> bool, checked: string -> bool)
    requires forall i :: 0 <= i < |lines| ==> WellFormed(lines[i])
    ensures Words(Names(Checked(lines, ignored, checked)))
  {
    CheckedAreWords(lines, ignored, checked);
    var es := Checked(lines, ignored, checked);
    forall x | x in Names(es)
      ensures IsWord(x)
    {
      var k :| 0 <= k < |Names(es)| && Names(es)[k] == x;
      assert es[k] in es;
    }
  }

  ghost predicate WellFormedTrace(lines: seq<Line>) {
    forall i :: 0 <= i < |lines| ==> WellFormed(lines[i])
  }

  method SelectMetric(text: string) returns (metric: Metric)
    ensures metric == MetricOf(LevelOf(text))
  {
    metric := NoMetric;
    if text == "--check-count" || text == "--check-events" {
      metric := Cnt;
    }
    if text == "--check-order" {
      metric := Or;
    }
  }

  // check_trace_status: 0 for PASSED and 1 for FAILED.
  method CheckTraceStatus(setup: Setup, cfg: Config, rtrace: seq<Line>, trace: seq<Line>, filesEqual: bool)
    returns (status: int)
    ensures status == 0 || status == 1
    ensures status == 0 <==>
              match setup
              case Disabled => true
              case NoEntries => false
              case NotListed => false
              case Listed(text) => Passes(LevelOf(text), cfg, rtrace, trace, filesEqual)
  {
    match setup {
      case Disabled => return 0;
      case NoEntries => return 1;
      case NotListed => return 1;
      case Listed(text) =>
        if text == "--check-none" {
          return 0;
        }
        if text == "--check-diff" {
          return if filesEqual then 0 else 1;
        }
        var metric := SelectMetric(text);
        var cntR, orderR := GenEventsInfo(metric, cfg, rtrace);
        var cnt, order := GenEventsInfo(metric, cfg, trace);
        status := if cntR == cnt then 0 else 1;
    }
  }

  // ----- What PASSED means

  // At a level with a metric, PASSED is the equivalence of the two traces.
  lemma PassedMeansEquivalent(level: Level, cfg: Config, rtrace: seq<Line>, trace: seq<Line>, filesEqual: bool)
    requires WellFormedTrace(rtrace) && WellFormedTrace(trace)
    requires MetricOf(level) != NoMetric
    ensures Passes(level, cfg, rtrace, trace, filesEqual) <==> Equivalent(MetricOf(level), cfg, rtrace, trace)
  {
    if MetricOf(level) == Cnt {
      NamesAreWords(rtrace, cfg.ignored, cfg.countChecked);
      NamesAreWords(trace, cfg.ignored, cfg.countChecked);
      CountTextsAgree(cfg.uncounted, Names(Checked(rtrace, cfg.ignored, cfg.countChecked)),
                      Names(Checked(trace, cfg.ignored, cfg.countChecked)));
    } else {
      CheckedAreWords(rtrace, cfg.ignored, cfg.orderChecked);
      CheckedAreWords(trace, cfg.ignored, cfg.orderChecked);
      OrderTextsAgree(cfg.uncounted, Checked(rtrace, cfg.ignored, cfg.orderChecked),
                      Checked(trace, cfg.ignored, cfg.orderChecked));
    }
  }

  // What the known texts say, spelled out.
  lemma KnownLevels()
    ensures LevelOf("--check-none") == CheckNone && LevelOf("--check-diff") == CheckDiff
    ensures LevelOf("--check-count") == CheckCount && LevelOf("--check-order") == CheckOrder
    ensures LevelOf("--check-events") == CheckEvents && LevelOf("--check-event") == OtherLevel
  {
    assert "--check-none"[8] == 'n' && "--check-diff"[8] == 'd' && "--check-count"[8] == 'c';
    assert "--check-events"[8] == 'e' && "--check-event"[8] == 'e' && "--check-order"[8] == 'o';
    assert |"--check-event"| == 13 && |"--check-events"| == 14;
  }

  // The verdict for each known text, in terms of the checked events of the two traces.
  lemma VerdictByText(cfg: Config, rtrace: seq<Line>, trace: seq<Line>, filesEqual: bool)
    requires WellFormedTrace(rtrace) && WellFormedTrace(trace)
    ensures Passes(LevelOf("--check-none"), cfg, rtrace, trace, filesEqual)
    ensures Passes(LevelOf("--check-diff"), cfg, rtrace, trace, filesEqual) <==> filesEqual
    ensures Passes(LevelOf("--check-count"), cfg, rtrace, trace, filesEqual)
       <==> SameCounts(cfg.uncounted, Names(Checked(rtrace, cfg.ignored, cfg.countChecked)),
                       Names(Checked(trace, cfg.ignored, cfg.countChecked)))
    ensures Passes(LevelOf("--check-events"), cfg, rtrace, trace, filesEqual)
       <==> SameCounts(cfg.uncounted, Names(Checked(rtrace, cfg.ignored, cfg.countChecked)),
                       Names(Checked(trace, cfg.ignored, cfg.countChecked)))
    ensures Passes(LevelOf("--check-order"), cfg, rtrace, trace, filesEqual)
       <==> RankedLists(cfg.uncounted, Checked(rtrace, cfg.ignored, cfg.orderChecked))
            == RankedLists(cfg.uncounted, Checked(trace, cfg.ignored, cfg.orderChecked))
  {
    KnownLevels();
    PassedMeansEquivalent(CheckCount, cfg, rtrace, trace, filesEqual);
    PassedMeansEquivalent(CheckEvents, cfg, rtrace, trace, filesEqual);
    PassedMeansEquivalent(CheckOrder, cfg, rtrace, trace, filesEqual);
  }

  // Both traces have lines for the event or none has, and equally many if its count matters.
  ghost predicate SameOccurrences(uncounted: string -> bool, rtrace: seq<Line>, trace: seq<Line>, x: string) {
    && (Occurrences(rtrace, x) == {} <==> Occurrences(trace, x) == {})
    && (!uncounted(x) ==> |Occurrences(rtrace, x)| == |Occurrences(trace, x)|)
  }

  lemma SameCountsByLines(
    uncounted: string -> bool, ignored: string -> bool, checked: string -> bool, a: seq<Line>, b: seq<Line>)
    ensures SameCounts(uncounted, Names(Checked(a, ignored, checked)), Names(Checked(b, ignored, checked)))
       <==> forall x :: CanBeChecked(x, ignored, checked) ==> SameOccurrences(uncounted, a, b, x)
  {
    var m, n := Names(Checked(a, ignored, checked)), Names(Checked(b, ignored, checked));
    forall x
      ensures x in m <==> CanBeChecked(x, ignored, checked) && Occurrences(a, x) != {}
      ensures x in n <==> CanBeChecked(x, ignored, checked) && Occurrences(b, x) != {}
      ensures CanBeChecked(x, ignored, checked) ==>
                multiset(m)[x] == |Occurrences(a, x)| && multiset(n)[x] == |Occurrences(b, x)|
    {
      CountOfName(a, ignored, checked, x);
      CountOfName(b, ignored, checked, x);
      assert x in m <==> x in multiset(m);
      assert x in n <==> x in multiset(n);
    }
    if SameCounts(uncounted, m, n) {
      forall x | CanBeChecked(x, ignored, checked)
        ensures SameOccurrences(uncounted, a, b, x)
      {
        assert x in m <==> x in n;
      }
    }
    if forall x :: CanBeChecked(x, ignored, checked) ==> SameOccurrences(uncounted, a, b, x) {
      forall x
        ensures x in m <==> x in n
        ensures x in m && !uncounted(x) ==> multiset(m)[x] == multiset(n)[x]
      {
        assert CanBeChecked(x, ignored, checked) ==> SameOccurrences(uncounted, a, b, x);
      }
    }
  }

  // The count levels, line by line: a trace passes exactly if every event that the patterns let
  // through is recorded by lines of both traces or of none, and by equally many if counts matter.
  lemma CountVerdict(text: string, cfg: Config, rtrace: seq<Line>, trace: seq<Line>, filesEqual: bool)
    requires text == "--check-count" || text == "--check-events"
    requires WellFormedTrace(rtrace) && WellFormedTrace(trace)
    ensures Passes(LevelOf(text), cfg, rtrace, trace, filesEqual)
       <==> forall x :: CanBeChecked(x, cfg.ignored, cfg.countChecked) ==>
              SameOccurrences(cfg.uncounted, rtrace, trace, x)
  {
    VerdictByText(cfg, rtrace, trace, filesEqual);
    SameCountsByLines(cfg.uncounted, cfg.ignored, cfg.countChecked, rtrace, trace);
  }

  // An event that only one of the traces records.
  lemma RecordedOnce(text: string, cfg: Config, rtrace: seq<Line>, trace: seq<Line>, filesEqual: bool, x: string)
    requires text == "--check-count" || text == "--check-events"
    requires WellFormedTrace(rtrace) && WellFormedTrace(trace)
    requires CanBeChecked(x, cfg.ignored, cfg.countChecked)
    requires (Occurrences(rtrace, x) == {}) != (Occurrences(trace, x) == {})
    ensures !Passes(LevelOf(text), cfg, rtrace, trace, filesEqual)
  {
    CountVerdict(text, cfg, rtrace, trace, filesEqual);
    assert !SameOccurrences(cfg.uncounted, rtrace, trace, x);
  }

  // The order level: a trace passes exactly if an order-preserving matching of the threads pairs
  // equal lists.
  lemma OrderVerdict(cfg: Config, rtrace: seq<Line>, trace: seq<Line>, filesEqual: bool)
    requires WellFormedTrace(rtrace) && WellFormedTrace(trace)
    ensures Passes(LevelOf("--check-order"), cfg, rtrace, trace, filesEqual)
       <==> exists m :: Matches(cfg.uncounted, Checked(rtrace, cfg.ignored, cfg.orderChecked),
                                Checked(trace, cfg.ignored, cfg.orderChecked), m)
  {
    VerdictByText(cfg, rtrace, trace, filesEqual);
    RankedListsCharacterised(cfg.uncounted, Checked(rtrace, cfg.ignored, cfg.orderChecked),
                             Checked(trace, cfg.ignored, cfg.orderChecked));
  }

  // Some pair of traces fails at this level.
  ghost predicate CanFail(level: Level, cfg: Config) {
    exists rtrace, trace, filesEqual ::
      WellFormedTrace(rtrace) && WellFormedTrace(trace) && !Passes(level, cfg, rtrace, trace, filesEqual)
  }

  // Some event name gets past the configured patterns.
  ghost predicate SomeNameChecked(ignored: string -> bool, checked: string -> bool) {
    exists name :: IsWord(name) && !ignored(name) && checked(name)
  }

  function OneEvent(name: string, tid: int): Line {
    Line(false, None, Some(Event(name, tid)), None)
  }

  lemma {:induction false} CheckedPassPatterns(lines: seq<Line>, ignored: string -> bool, checked: string -> bool)
    requires WellFormedTrace(lines) && !SomeNameChecked(ignored, checked)
    ensures Checked(lines, ignored, checked) == []
  {
    if lines == [] {
    } else {
      var last := |lines| - 1;
      CheckedPassPatterns(lines[..last], ignored, checked);
      assert WellFormed(lines[last]);
      var e := EventOf(lines[last]);
      assert e.Some? ==> IsWord(e.value.name);
    }
  }

  lemma OneEventChecked(name: string, tid: int, ignored: string -> bool, checked: string -> bool)
    requires IsWord(name) && !ignored(name) && checked(name)
    ensures WellFormedTrace([OneEvent(name, tid)]) && WellFormedTrace([])
    ensures Checked([OneEvent(name, tid)], ignored, checked) == [Event(name, tid)]
    ensures Checked([], ignored, checked) == []
  {
    assert IsWordChar(name[0]);
    assert Counted(OneEvent(name, tid), ignored, checked);
    assert [OneEvent(name, tid)][..0] == [];
  }

  // A trace with one checked event fails against the empty trace.
  lemma OneEventFails(level: Level, cfg: Config, name: string)
    requires MetricOf(level) == Cnt ==> IsWord(name) && !cfg.ignored(name) && cfg.countChecked(name)
    requires MetricOf(level) == Or ==> IsWord(name) && !cfg.ignored(name) && cfg.orderChecked(name)
    requires MetricOf(level) != NoMetric
    ensures WellFormedTrace([OneEvent(name, 1)]) && WellFormedTrace([])
    ensures !Passes(level, cfg, [OneEvent(name, 1)], [], true)
  {
    var checked := if MetricOf(level) == Cnt then cfg.countChecked else cfg.orderChecked;
    OneEventChecked(name, 1, cfg.ignored, checked);
    PassedMeansEquivalent(level, cfg, [OneEvent(name, 1)], [], true);
    var es := [Event(name, 1)];
    if MetricOf(level) == Cnt {
      assert Names(es)[0] == name;
      assert name in Names(es) && name !in Names([]);
    } else {
      OneThreadRanked(cfg.uncounted, es[0]);
    }
  }

  lemma OneThreadRanked(uncounted: string -> bool, e: Event)
    ensures |RankedLists(uncounted, [e])| == 1 && |RankedLists(uncounted, [])| == 0
  {
    assert [e][..0] == [];
    assert Tids([e]) == [e.tid];
    assert [e.tid][1..] == [];
    assert Sort(IntLe, [e.tid]) == Insert(IntLe, [], e.tid);
  }

  // A comparison can fail exactly if files are compared, or if there is a metric and
  // the patterns for that metric let some event name through.
  lemma LevelsThatCanFail(level: Level, cfg: Config)
    ensures CanFail(level, cfg)
       <==> || level == CheckDiff
            || (MetricOf(level) == Cnt && SomeNameChecked(cfg.ignored, cfg.countChecked))
            || (MetricOf(level) == Or && SomeNameChecked(cfg.ignored, cfg.orderChecked))
  {
    if level == CheckDiff {
      var empty: seq<Line> := [];
      assert WellFormedTrace(empty) && !Passes(level, cfg, empty, empty, false);
    } else if MetricOf(level) == Cnt && SomeNameChecked(cfg.ignored, cfg.countChecked) {
      var name :| IsWord(name) && !cfg.ignored(name) && cfg.countChecked(name);
      OneEventFails(level, cfg, name);
    } else if MetricOf(level) == Or && SomeNameChecked(cfg.ignored, cfg.orderChecked) {
      var name :| IsWord(name) && !cfg.ignored(name) && cfg.orderChecked(name);
      OneEventFails(level, cfg, name);
    } else {
      forall rtrace, trace, filesEqual | WellFormedTrace(rtrace) && WellFormedTrace(trace)
        ensures Passes(level, cfg, rtrace, trace, filesEqual)
      {
        if MetricOf(level) == Cnt {
          CheckedPassPatterns(rtrace, cfg.ignored, cfg.countChecked);
          CheckedPassPatterns(trace, cfg.ignored, cfg.countChecked);
        } else if MetricOf(level) == Or {
          CheckedPassPatterns(rtrace, cfg.ignored, cfg.orderChecked);
          CheckedPassPatterns(trace, cfg.ignored, cfg.orderChecked);
        }
      }
    }
  }

  // With patterns that ignore nothing and check every name, a level can fail exactly if
  // it is one of the four comparing ones.
  lemma ComparingLevels(level: Level, cfg: Config)
    requires forall name :: !cfg.ignored(name) && cfg.countChecked(name) && cfg.orderChecked(name)
    ensures CanFail(level, cfg) <==> level in {CheckDiff, CheckCount, CheckEvents, CheckOrder}
  {
    LevelsThatCanFail(level, cfg);
    assert IsWord("a");
  }

  // Traces that differ in their events and in the order of the common ones: they pass at any
  // unknown level, and fail at the level for events.
  lemma UnknownLevelPasses(cfg: Config, x: string, y: string, rtrace: seq<Line>, trace: seq<Line>)
    requires forall name :: !cfg.ignored(name) && cfg.countChecked(name)
    requires IsWord(x) && IsWord(y) && x != y
    requires rtrace == [OneEvent(x, 1), OneEvent(x, 2)]
    requires trace == [OneEvent(y, 2), OneEvent(x, 1)]
    ensures WellFormedTrace(rtrace) && WellFormedTrace(trace)
    ensures Passes(OtherLevel, cfg, rtrace, trace, false)
    ensures !Passes(CheckEvents, cfg, rtrace, trace, false)
  {
    assert IsWordChar(y[0]);
    KnownLevels();
    assert Records(trace[0], y);
    assert 0 in Occurrences(trace, y);
    assert !Records(rtrace[0], y) && !Records(rtrace[1], y);
    assert Occurrences(rtrace, y) == {};
    RecordedOnce("--check-events", cfg, rtrace, trace, false, y);
  }

  // The level text --check-event, without the final s, is none of the known ones, so the
  // traces configured with it pass whatever they contain.
  lemma MisspelledLevelPasses(cfg: Config, rtrace: seq<Line>, trace: seq<Line>)
    requires forall name :: !cfg.ignored(name) && cfg.countChecked(name)
    requires rtrace == [OneEvent("hipMalloc", 1), OneEvent("hipMalloc", 2)]
    requires trace == [OneEvent("hipFree", 2), OneEvent("hipMalloc", 1)]
    ensures Passes(LevelOf("--check-event"), cfg, rtrace, trace, false)
    ensures !Passes(LevelOf("--check-events"), cfg, rtrace, trace, false)
  {
    KnownLevels();
    UnknownLevelPasses(cfg, "hipMalloc", "hipFree", rtrace, trace);
  }

  // When every name is checked, the checked events are the events of the lines.
  lemma {:induction false} CheckedAll(lines: seq<Line>, ignored: string -> bool, checked: string -> bool)
    requires forall name :: !ignored(name) && checked(name)
    requires forall i :: 0 <= i < |lines| ==> EventOf(lines[i]).Some?
    ensures var es := Checked(lines, ignored, checked);
            |es| == |lines| && forall i :: 0 <= i < |lines| ==> es[i] == EventOf(lines[i]).value
  {
    if lines == [] {
    } else {
      CheckedAll(lines[..|lines| - 1], ignored, checked);
    }
  }

  lemma DistinctPairIsKept(uncounted: string -> bool, x: string, y: string)
    requires x != y
    ensures Destutter(uncounted, [x, y]) == [x, y]
  {
    assert Destutter(uncounted, []) == [] && [x][..0] == [];
    assert Destutter(uncounted, [x]) == [x];
    assert [x, y][..1] == [x];
  }

  lemma TwoEventsOrder(cfg: Config, x: string, y: string, tid: int, lines: seq<Line>)
    requires forall name :: !cfg.ignored(name) && cfg.orderChecked(name)
    requires IsWord(x) && IsWord(y) && x != y && lines == [OneEvent(x, tid), OneEvent(y, tid)]
    ensures WellFormedTrace(lines)
    ensures RankedLists(cfg.uncounted, Checked(lines, cfg.ignored, cfg.orderChecked)) == [[x, y]]
  {
    assert IsWordChar(x[0]) && IsWordChar(y[0]);
    CheckedAll(lines, cfg.ignored, cfg.orderChecked);
    var es := Checked(lines, cfg.ignored, cfg.orderChecked);
    SingleThread(cfg.uncounted, es, tid);
    assert Names(es) == [x, y];
    DistinctPairIsKept(cfg.uncounted, x, y);
  }

  lemma ExchangedPair<T>(x: T, y: T)
    ensures multiset([x, y]) == multiset([y, x])
    ensures x != y ==> [[x, y]] != [[y, x]]
  {
    assert [x, y] == [x] + [y] && [y, x] == [y] + [x];
    assert [[x, y]][0][0] == x && [[y, x]][0][0] == y;
  }

  // Two events of one thread in the opposite order: the order level fails, the count level passes.
  lemma OrderLevelSeesOrder(cfg: Config, x: string, y: string, tid: int, rtrace: seq<Line>, trace: seq<Line>)
    requires forall name :: !cfg.ignored(name) && cfg.orderChecked(name)
    requires IsWord(x) && IsWord(y) && x != y
    requires rtrace == [OneEvent(x, tid), OneEvent(y, tid)]
    requires trace == [OneEvent(y, tid), OneEvent(x, tid)]
    ensures !Passes(LevelOf("--check-order"), cfg, rtrace, trace, false)
    ensures Passes(LevelOf("--check-count"), cfg, rtrace, trace, false)
  {
    TwoEventsOrder(cfg, x, y, tid, rtrace);
    TwoEventsOrder(cfg, y, x, tid, trace);
    ExchangedPair(x, y);
    ExchangedPair(OneEvent(x, tid), OneEvent(y, tid));
    LineOrderIsInvisible(cfg.uncounted, rtrace, trace, cfg.ignored, cfg.countChecked);
    VerdictByText(cfg, rtrace, trace, false);
  }

  // A line with a tool record counts, whatever else it matches: it is missed in an empty trace.
  lemma ToolRecordIsCounted(
    cfg: Config, activity: Option<Event>, callback: Option<Event>, x: string, tid: int, trace: seq<Line>)
    requires IsWord(x) && !cfg.ignored(x) && cfg.countChecked(x)
    requires trace == [Line(false, activity, callback, Some(Event(x, tid)))] && WellFormedTrace(trace)
    ensures !Passes(LevelOf("--check-count"), cfg, trace, [], false)
  {
    assert IsWordChar(x[0]);
    assert Records(trace[0], x);
    assert 0 in Occurrences(trace, x) && Occurrences([], x) == {};
    RecordedOnce("--check-count", cfg, trace, [], false, x);
  }
}
