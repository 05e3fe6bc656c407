// check_trace.py: folding a trace into event counts or per-thread event lists,
// and the verdict obtained by comparing two renderings.
module TraceChecker {
  import opened Sorting
  import opened TraceText

  // ----- Traces

  datatype Event = Event(name: string, tid: int)

  datatype Option<T> = None | Some(value: T)

  // What the patterns see in one line: whether it is a before/after marker, and
  // the capture groups of each of the three record patterns.
  datatype Line = Line(marker: bool, activity: Option<Event>, callback: Option<Event>, tool: Option<Event>)

  // The configured patterns, as predicates on event names.
  datatype Config = Config(ignored: string -> bool, countChecked: string -> bool, orderChecked: string -> bool,
                           uncounted: string -> bool)

  datatype Metric = Cnt | Or | NoMetric

  // Capture groups for names match one or more word characters.
  ghost predicate WellFormed(line: Line) {
    && (line.activity.Some? ==> IsWord(line.activity.value.name))
    && (line.callback.Some? ==> IsWord(line.callback.value.name))
    && (line.tool.Some? ==> IsWord(line.tool.value.name))
  }

  // The event of a line; a later pattern overrides an earlier one.
  function EventOf(line: Line): Option<Event> {
    if line.marker then None
    else
      var last := if line.tool.Some? then line.tool else if line.callback.Some? then line.callback else line.activity;
      if last.Some? && (last.value.name == "" || last.value.name == "(null)") then None else last
  }

  // The events that reach the counters: neither ignored nor outside the checked names.
  function Checked(lines: seq<Line>, ignored: string -> bool, checked: string -> bool): (es: seq<Event>) {
    if lines == [] then []
    else
      var rest, line := Checked(lines[..|lines| - 1], ignored, checked), lines[|lines| - 1];
      if Counted(line, ignored, checked) then rest + [EventOf(line).value] else rest
  }

  lemma {:induction false} CheckedAreWords(lines: seq<Line>, ignored: string -> bool, checked: string -> bool)
    requires forall i :: 0 <= i < |lines| ==> WellFormed(lines[i])
    ensures forall e :: e in Checked(lines, ignored, checked) ==> IsWord(e.name)
  {
    if lines == [] {
    } else {
      CheckedAreWords(lines[..|lines| - 1], ignored, checked);
      assert WellFormed(lines[|lines| - 1]);
    }
  }

  predicate Counted(line: Line, ignored: string -> bool, checked: string -> bool) {
    var e := EventOf(line);
    e.Some? && !ignored(e.value.name) && checked(e.value.name)
  }

  lemma CheckedStep(lines: seq<Line>, i: nat, ignored: string -> bool, checked: string -> bool)
    requires i < |lines|
    ensures Checked(lines[..i + 1], ignored, checked)
         == Checked(lines[..i], ignored, checked)
            + if Counted(lines[i], ignored, checked) then [EventOf(lines[i]).value] else []
  {
    assert lines[..i + 1][..i] == lines[..i];
  }

  lemma {:induction false} CheckedAppends(a: seq<Line>, b: seq<Line>, ignored: string -> bool, checked: string -> bool)
    ensures Checked(a + b, ignored, checked) == Checked(a, ignored, checked) + Checked(b, ignored, checked)
  {
    if b == [] {
      assert a + b == a;
    } else {
      var last := |b| - 1;
      CheckedAppends(a, b[..last], ignored, checked);
      assert (a + b)[..|a + b| - 1] == a + b[..last];
    }
  }

  // ----- Which lines and records are events

  // A tool record decides whatever else the line matches, a callback record when there is no
  // tool record, an activity record when there is neither; markers and other lines are no events.
  lemma RecordRule(activity: Option<Event>, callback: Option<Event>, tool: Option<Event>, e: Event)
    requires e.name != "" && e.name != "(null)"
    ensures EventOf(Line(false, activity, callback, Some(e))) == Some(e)
    ensures EventOf(Line(false, activity, Some(e), None)) == Some(e)
    ensures EventOf(Line(false, Some(e), None, None)) == Some(e)
    ensures EventOf(Line(false, None, None, None)) == None
    ensures EventOf(Line(true, activity, callback, tool)) == None
    ensures forall tid :: EventOf(Line(false, activity, callback, Some(Event("(null)", tid)))) == None
  {
  }

  // A marker, or a line without a record, can be deleted anywhere.
  lemma {:induction false} SilentLine(
    pre: seq<Line>, line: Line, post: seq<Line>, ignored: string -> bool, checked: string -> bool)
    requires line.marker || (line.activity.None? && line.callback.None? && line.tool.None?)
    ensures Checked(pre + [line] + post, ignored, checked) == Checked(pre + post, ignored, checked)
  {
    CheckedAppends(pre + [line], post, ignored, checked);
    CheckedAppends(pre, [line], ignored, checked);
    CheckedAppends(pre, post, ignored, checked);
    CheckedSingle(line, ignored, checked);
  }

  // The last of the three records that a line has is one of x.
  predicate Records(line: Line, x: string) {
    && !line.marker
    && if line.tool.Some? then line.tool.value.name == x
       else if line.callback.Some? then line.callback.value.name == x
       else line.activity.Some? && line.activity.value.name == x
  }

  // The lines that record x.
  ghost function Occurrences(lines: seq<Line>, x: string): set<nat> {
    set i: nat | i < |lines| && Records(lines[i], x)
  }

  lemma LastOccurrence(lines: seq<Line>, last: nat, x: string)
    requires |lines| == last + 1
    ensures |Occurrences(lines, x)| == |Occurrences(lines[..last], x)| + if Records(lines[last], x) then 1 else 0
  {
    var before := Occurrences(lines[..last], x);
    assert last !in before;
    if Records(lines[last], x) {
      assert Occurrences(lines, x) == before + {last};
    } else {
      assert Occurrences(lines, x) == before;
    }
  }

  predicate CanBeChecked(x: string, ignored: string -> bool, checked: string -> bool) {
    x != "" && x != "(null)" && !ignored(x) && checked(x)
  }

  lemma NamesCount(es: seq<Event>, e: Event, x: string)
    ensures multiset(Names(es + [e]))[x] == multiset(Names(es))[x] + if e.name == x then 1 else 0
  {
    assert Names(es + [e]) == Names(es) + [e.name];
  }

  // The number of checked events of a name is the number of lines that record it.
  lemma {:induction false} CountOfName(lines: seq<Line>, ignored: string -> bool, checked: string -> bool, x: string)
    ensures multiset(Names(Checked(lines, ignored, checked)))[x]
         == if CanBeChecked(x, ignored, checked) then |Occurrences(lines, x)| else 0
  {
    if lines == [] {
      assert Occurrences(lines, x) == {};
    } else {
      var last := |lines| - 1;
      CountOfName(lines[..last], ignored, checked, x);
      LastOccurrence(lines, last, x);
      if Counted(lines[last], ignored, checked) {
        NamesCount(Checked(lines[..last], ignored, checked), EventOf(lines[last]).value, x);
      }
    }
  }

  // The events of a thread come from the lines that record one for it, in their order.
  lemma {:induction false} EventsOfThread(
    lines: seq<Line>, ignored: string -> bool, checked: string -> bool, tid: int) returns (ks: seq<nat>)
    ensures forall i, j :: 0 <= i < j < |ks| ==> ks[i] < ks[j]
    ensures forall k :: k in ks <==>
              0 <= k < |lines| && Counted(lines[k], ignored, checked) && EventOf(lines[k]).value.tid == tid
    ensures |Project(Checked(lines, ignored, checked), tid)| == |ks|
    ensures forall i :: 0 <= i < |ks| ==> ks[i] < |lines| && Records(lines[ks[i]],
              Project(Checked(lines, ignored, checked), tid)[i])
  {
    if lines == [] {
      ks := [];
    } else {
      var last := |lines| - 1;
      ks := EventsOfThread(lines[..last], ignored, checked, tid);
      if Counted(lines[last], ignored, checked) && EventOf(lines[last]).value.tid == tid {
        ks := ks + [last];
      }
    }
  }

  // ----- Order mode

  // The names of one thread's events, in trace order.
  function Project(es: seq<Event>, tid: int): seq<string> {
    if es == [] then []
    else
      var rest, e := Project(es[..|es| - 1], tid), es[|es| - 1];
      if e.tid == tid then rest + [e.name] else rest
  }

  // Append a name unless it repeats the last one and repetitions of it do not count.
  function Extend(uncounted: string -> bool, xs: seq<string>, x: string): seq<string> {
    if xs != [] && uncounted(x) && x == xs[|xs| - 1] then xs else xs + [x]
  }

  function Destutter(uncounted: string -> bool, xs: seq<string>): seq<string> {
    if xs == [] then [] else Extend(uncounted, Destutter(uncounted, xs[..|xs| - 1]), xs[|xs| - 1])
  }

  // The distinct tids in order of first appearance: the keys of the events_order dictionary.
  function Tids(es: seq<Event>): seq<int> {
    if es == [] then []
    else
      var rest, e := Tids(es[..|es| - 1]), es[|es| - 1];
      if e.tid in rest then rest else rest + [e.tid]
  }

  function ThreadList(uncounted: string -> bool, es: seq<Event>, tid: int): seq<string> {
    Destutter(uncounted, Project(es, tid))
  }

  // The de-stuttered event list of every thread, in the order of the tids.
  function RankedLists(uncounted: string -> bool, es: seq<Event>): seq<seq<string>> {
    Map(tid => ThreadList(uncounted, es, tid), Sort(IntLe, Tids(es)))
  }

  // What one more event changes.
  lemma TidsStep(es: seq<Event>, e: Event)
    ensures Tids(es + [e]) == if e.tid in Tids(es) then Tids(es) else Tids(es) + [e.tid]
  {
    assert (es + [e])[..|es|] == es;
  }

  lemma DestutterStep(uncounted: string -> bool, xs: seq<string>, x: string)
    ensures Destutter(uncounted, xs + [x]) == Extend(uncounted, Destutter(uncounted, xs), x)
  {
    assert (xs + [x])[..|xs|] == xs;
  }

  lemma ThreadListStep(uncounted: string -> bool, es: seq<Event>, e: Event, tid: int)
    ensures ThreadList(uncounted, es + [e], tid)
         == if e.tid == tid then Extend(uncounted, ThreadList(uncounted, es, tid), e.name)
            else ThreadList(uncounted, es, tid)
  {
    assert (es + [e])[..|es|] == es;
    DestutterStep(uncounted, Project(es, tid), e.name);
  }

  lemma ThreadListEmpty(uncounted: string -> bool, es: seq<Event>, tid: int)
    ensures ThreadList(uncounted, es, tid) == [] <==> tid !in Tids(es)
  {
    TidsDistinct(es);
    DestutterNotEmpty(uncounted, Project(es, tid));
  }

  lemma {:induction false} TidsDistinct(es: seq<Event>)
    ensures Distinct(Tids(es))
    ensures forall tid :: tid in Tids(es) <==> Project(es, tid) != []
  {
    if es == [] {
    } else {
      TidsDistinct(es[..|es| - 1]);
    }
  }

  lemma {:induction false} DestutterNotEmpty(uncounted: string -> bool, xs: seq<string>)
    ensures Destutter(uncounted, xs) == [] <==> xs == []
    ensures xs != [] ==> Destutter(uncounted, xs)[|Destutter(uncounted, xs)| - 1] == xs[|xs| - 1]
  {
    if xs == [] {
    } else {
      DestutterNotEmpty(uncounted, xs[..|xs| - 1]);
    }
  }

  // No two adjacent names are equal and uncounted.
  ghost predicate StutterFree(uncounted: string -> bool, xs: seq<string>) {
    forall i :: 0 < i < |xs| ==> !(xs[i] == xs[i - 1] && uncounted(xs[i]))
  }

  lemma StutterFreePrefix(uncounted: string -> bool, xs: seq<string>, x: string)
    ensures StutterFree(uncounted, xs + [x])
       <==> StutterFree(uncounted, xs) && Extend(uncounted, xs, x) == xs + [x]
  {
    var ys, last := xs + [x], |xs|;
    assert |ys| == last + 1 && ys[last] == x && ys != xs;
    assert forall i :: 0 <= i < last ==> ys[i] == xs[i];
    if StutterFree(uncounted, ys) {
      forall i | 0 < i < last
        ensures !(xs[i] == xs[i - 1] && uncounted(xs[i]))
      {
        assert ys[i] == xs[i] && ys[i - 1] == xs[i - 1];
      }
      assert last > 0 ==> !(ys[last] == ys[last - 1] && uncounted(ys[last]));
    }
  }

  // De-stuttering gives a stutter-free list and leaves such a list alone.
  lemma {:induction false} DestutterIsCanonical(uncounted: string -> bool, xs: seq<string>)
    ensures StutterFree(uncounted, Destutter(uncounted, xs))
    ensures StutterFree(uncounted, xs) <==> Destutter(uncounted, xs) == xs
  {
    if xs == [] {
    } else {
      var init, x := xs[..|xs| - 1], xs[|xs| - 1];
      var canon := Destutter(uncounted, init);
      assert xs == init + [x];
      DestutterIsCanonical(uncounted, init);
      StutterFreePrefix(uncounted, init, x);
      StutterFreePrefix(uncounted, canon, x);
      DestutterShortens(uncounted, init);
      if Destutter(uncounted, xs) == xs {
        assert Extend(uncounted, canon, x) == canon + [x];
        SamePrefixAndLast(canon, init, x);
      }
    }
  }

  lemma SamePrefixAndLast(a: seq<string>, b: seq<string>, x: string)
    ensures a + [x] == b + [x] <==> a == b
  {
    assert a == (a + [x])[..|a|] && b == (b + [x])[..|b|];
  }

  lemma {:induction false} DestutterShortens(uncounted: string -> bool, xs: seq<string>)
    ensures |Destutter(uncounted, xs)| <= |xs|
  {
    if xs == [] {
    } else {
      DestutterShortens(uncounted, xs[..|xs| - 1]);
    }
  }

  lemma {:induction false} DestutterIdempotent(uncounted: string -> bool, xs: seq<string>)
    ensures Destutter(uncounted, Destutter(uncounted, xs)) == Destutter(uncounted, xs)
  {
    DestutterIsCanonical(uncounted, xs);
    DestutterIsCanonical(uncounted, Destutter(uncounted, xs));
  }

  // Repeating an uncounted event in place never changes the list.
  lemma {:induction false} RepetitionIsInvisible(uncounted: string -> bool, xs: seq<string>, x: string, ys: seq<string>)
    requires uncounted(x)
    ensures Destutter(uncounted, xs + [x, x] + ys) == Destutter(uncounted, xs + [x] + ys)
  {
    var once, twice := xs + [x] + ys, xs + [x, x] + ys;
    if ys == [] {
      assert once == xs + [x];
      assert twice[..|twice| - 1] == once;
      DestutterNotEmpty(uncounted, once);
    } else {
      var last := |ys| - 1;
      RepetitionIsInvisible(uncounted, xs, x, ys[..last]);
      assert once[..|once| - 1] == xs + [x] + ys[..last];
      assert twice[..|twice| - 1] == xs + [x, x] + ys[..last];
    }
  }

  // The ranked lists are determined by the per-thread projections.
  lemma {:induction false} RankedListsOfProjections(uncounted: string -> bool, a: seq<Event>, b: seq<Event>)
    requires forall tid :: Project(a, tid) == Project(b, tid)
    ensures RankedLists(uncounted, a) == RankedLists(uncounted, b)
  {
    TidsDistinct(a);
    TidsDistinct(b);
    forall tid
      ensures tid in Tids(a) <==> tid in Tids(b)
    {
      assert Project(a, tid) == Project(b, tid);
    }
    SameElementsSameMultiset(Tids(a), Tids(b));
    IntIsTotalOrder();
    SortDeterminedByElements(IntLe, Tids(a), Tids(b));
  }

  lemma {:induction false} ProjectAppends(a: seq<Event>, b: seq<Event>, tid: int)
    ensures Project(a + b, tid) == Project(a, tid) + Project(b, tid)
  {
    if b == [] {
      assert a + b == a;
    } else {
      var last := |b| - 1;
      ProjectAppends(a, b[..last], tid);
      assert (a + b)[..|a + b| - 1] == a + b[..last];
    }
  }

  // So adjacent events of different threads can be exchanged.
  lemma {:induction false} InterleavingIsInvisible(
    uncounted: string -> bool, pre: seq<Event>, x: Event, y: Event, post: seq<Event>)
    requires x.tid != y.tid
    ensures RankedLists(uncounted, pre + [x, y] + post) == RankedLists(uncounted, pre + [y, x] + post)
  {
    forall tid
      ensures Project(pre + [x, y] + post, tid) == Project(pre + [y, x] + post, tid)
    {
      ProjectAppends(pre + [x, y], post, tid);
      ProjectAppends(pre + [y, x], post, tid);
      ProjectAppends(pre, [x, y], tid);
      ProjectAppends(pre, [y, x], tid);
      ProjectPair(x, y, tid);
      ProjectPair(y, x, tid);
    }
    RankedListsOfProjections(uncounted, pre + [x, y] + post, pre + [y, x] + post);
  }

  lemma {:induction false} ProjectPair(x: Event, y: Event, tid: int)
    ensures Project([x, y], tid) == (if x.tid == tid then [x.name] else []) + (if y.tid == tid then [y.name] else [])
  {
    assert [x][..0] == [];
    assert Project([x], tid) == if x.tid == tid then [x.name] else [];
    assert [x, y][..1] == [x];
  }

  // The same for two adjacent lines of a trace, whatever is checked.
  lemma {:induction false} LineInterleavingIsInvisible(
    uncounted: string -> bool, ignored: string -> bool, checked: string -> bool,
    pre: seq<Line>, x: Line, y: Line, post: seq<Line>)
    requires EventOf(x).Some? && EventOf(y).Some? ==> EventOf(x).value.tid != EventOf(y).value.tid
    ensures RankedLists(uncounted, Checked(pre + [x, y] + post, ignored, checked))
         == RankedLists(uncounted, Checked(pre + [y, x] + post, ignored, checked))
  {
    CheckedPair(pre, x, y, post, ignored, checked);
    CheckedPair(pre, y, x, post, ignored, checked);
    var a, b := Checked(pre, ignored, checked), Checked(post, ignored, checked);
    if Counted(x, ignored, checked) && Counted(y, ignored, checked) {
      var e, f := EventOf(x).value, EventOf(y).value;
      InterleavingIsInvisible(uncounted, a, e, f, b);
      assert [e] + [f] == [e, f] && [f] + [e] == [f, e];
    } else {
      assert CheckedOne(x, ignored, checked) + CheckedOne(y, ignored, checked)
          == CheckedOne(y, ignored, checked) + CheckedOne(x, ignored, checked);
    }
  }

  function CheckedOne(line: Line, ignored: string -> bool, checked: string -> bool): seq<Event> {
    if Counted(line, ignored, checked) then [EventOf(line).value] else []
  }

  lemma {:induction false} CheckedPair(
    pre: seq<Line>, x: Line, y: Line, post: seq<Line>, ignored: string -> bool, checked: string -> bool)
    ensures Checked(pre + [x, y] + post, ignored, checked)
         == Checked(pre, ignored, checked) + (CheckedOne(x, ignored, checked) + CheckedOne(y, ignored, checked))
            + Checked(post, ignored, checked)
  {
    CheckedAppends(pre + [x, y], post, ignored, checked);
    CheckedAppends(pre, [x, y], ignored, checked);
    assert [x, y] == [x] + [y];
    CheckedAppends([x], [y], ignored, checked);
    CheckedSingle(x, ignored, checked);
    CheckedSingle(y, ignored, checked);
  }

  lemma CheckedSingle(line: Line, ignored: string -> bool, checked: string -> bool)
    ensures Checked([line], ignored, checked) == CheckedOne(line, ignored, checked)
  {
    assert [line][..|[line]| - 1] == [];
    assert Checked([line], ignored, checked)
        == Checked([], ignored, checked) + if Counted(line, ignored, checked) then [EventOf(line).value] else [];
  }

  // ----- What equality of the ranked lists means

  // m takes the members of s one to one onto those of t and keeps their order.
  ghost predicate OrderIsomorphism(m: map<int, int>, s: seq<int>, t: seq<int>) {
    && (forall x :: x in m <==> x in s)
    && (forall y :: y in m.Values <==> y in t)
    && (forall x, y :: x in m && y in m && x < y ==> m[x] < m[y])
  }

  ghost predicate EqualLists(uncounted: string -> bool, a: seq<Event>, b: seq<Event>, m: map<int, int>) {
    forall tid :: tid in m ==> ThreadList(uncounted, a, tid) == ThreadList(uncounted, b, m[tid])
  }

  // m matches the threads of a with those of b: onto, in order, with equal lists.
  ghost predicate Matches(uncounted: string -> bool, a: seq<Event>, b: seq<Event>, m: map<int, int>) {
    OrderIsomorphism(m, Tids(a), Tids(b)) && EqualLists(uncounted, a, b, m)
  }

  ghost predicate Increasing(s: seq<int>) {
    forall i, j :: 0 <= i < j < |s| ==> s[i] < s[j]
  }

  function RankedTids(es: seq<Event>): seq<int> {
    Sort(IntLe, Tids(es))
  }

  lemma SortedDistinctIncreases(s: seq<int>, t: seq<int>)
    requires Sorted(IntLe, s) && Distinct(t) && multiset(s) == multiset(t)
    ensures Increasing(s)
    ensures forall x :: x in s <==> x in t
  {
    forall x
      ensures x in s <==> x in t
    {
      assert x in s <==> x in multiset(s);
      assert x in t <==> x in multiset(t);
    }
    forall i, j | 0 <= i < j < |s|
      ensures s[i] < s[j]
    {
      assert IntLe(s[i], s[j]);
      DistinctMultiplicity(t, s[i]);
      SeparatedMultiplicity(s, i, j);
    }
  }

  lemma SeparatedMultiplicity(s: seq<int>, i: nat, j: nat)
    requires i < j < |s|
    ensures s[i] == s[j] ==> multiset(s)[s[i]] >= 2
  {
    assert s == s[..i] + [s[i]] + s[i + 1..j] + [s[j]] + s[j + 1..];
  }

  lemma RankedTidsIncrease(es: seq<Event>)
    ensures Increasing(RankedTids(es))
    ensures forall t :: t in RankedTids(es) <==> t in Tids(es)
  {
    IntIsTotalOrder();
    SortSorts(IntLe, Tids(es));
    TidsDistinct(es);
    SortedDistinctIncreases(RankedTids(es), Tids(es));
  }

  lemma IncreasingUnique(s: seq<int>, t: seq<int>)
    requires Increasing(s) && Increasing(t) && forall x :: x in s <==> x in t
    ensures s == t
  {
    IncreasingIsSorted(s);
    IncreasingIsSorted(t);
    assert forall x :: x in s <==> x in t;
    SameElementsSameMultiset(s, t);
    IntIsTotalOrder();
    SortedUnique(IntLe, s, t);
  }

  lemma IncreasingIsSorted(s: seq<int>)
    requires Increasing(s)
    ensures Distinct(s) && Sorted(IntLe, s)
  {
    forall i, j | 0 <= i < j < |s|
      ensures s[i] != s[j] && IntLe(s[i], s[j])
    {
      assert s[i] < s[j];
    }
  }

  // Threads of equal rank are matched.
  ghost function RankMatch(s: seq<int>, t: seq<int>): (m: map<int, int>)
    requires |s| == |t| && Increasing(s)
    ensures forall x :: x in m <==> x in s
    ensures forall i :: 0 <= i < |s| ==> s[i] in m && m[s[i]] == t[i]
  {
    map i | 0 <= i < |s| :: s[i] := t[i]
  }

  lemma RankMatchValue(s: seq<int>, t: seq<int>, y: int)
    requires |s| == |t| && Increasing(s)
    ensures y in RankMatch(s, t).Values <==> y in t
  {
    var m := RankMatch(s, t);
    if y in t {
      var i := IndexOf(t, y);
      assert s[i] in m && m[s[i]] == y;
    }
    if y in m.Values {
      var x := KeyOf(m, y);
      assert x in s;
      var i := IndexOf(s, x);
      assert t[i] == y;
    }
  }

  lemma RankMatchKeepsOrder(s: seq<int>, t: seq<int>, x: int, y: int)
    requires |s| == |t| && Increasing(s) && Increasing(t) && x in s && y in s && x < y
    ensures RankMatch(s, t)[x] < RankMatch(s, t)[y]
  {
    var i := IndexOf(s, x);
    var j := IndexOf(s, y);
    assert i < j;
    assert t[i] < t[j];
  }

  lemma RankMatchIsIsomorphism(s: seq<int>, t: seq<int>)
    requires |s| == |t| && Increasing(s) && Increasing(t)
    ensures OrderIsomorphism(RankMatch(s, t), s, t)
  {
    var m := RankMatch(s, t);
    forall y
      ensures y in m.Values <==> y in t
    {
      RankMatchValue(s, t, y);
    }
    forall x, y | x in m && y in m && x < y
      ensures m[x] < m[y]
    {
      RankMatchKeepsOrder(s, t, x, y);
    }
  }

  function Images(m: map<int, int>, s: seq<int>): (r: seq<int>)
    requires forall i :: 0 <= i < |s| ==> s[i] in m
    ensures |r| == |s| && forall i :: 0 <= i < |s| ==> r[i] == m[s[i]]
  {
    seq(|s|, i requires 0 <= i < |s| => m[s[i]])
  }

  lemma ImagesMember(m: map<int, int>, s: seq<int>, y: int)
    requires forall i :: 0 <= i < |s| ==> s[i] in m
    requires forall x :: x in m ==> x in s
    ensures y in Images(m, s) <==> y in m.Values
  {
    var r := Images(m, s);
    if y in r {
      var i := IndexOf(r, y);
      assert s[i] in m && m[s[i]] == y;
    }
    if y in m.Values {
      var x := KeyOf(m, y);
      assert x in s;
      var i := IndexOf(s, x);
      assert r[i] == y;
    }
  }

  lemma IsomorphismDomain(m: map<int, int>, s: seq<int>, t: seq<int>)
    requires OrderIsomorphism(m, s, t)
    ensures forall i :: 0 <= i < |s| ==> s[i] in m
  {
    forall i | 0 <= i < |s|
      ensures s[i] in m
    {
      var x := s[i];
      assert x in s;
    }
  }

  // An isomorphism of increasing lists pairs equal ranks.
  lemma IsomorphismIsByRank(m: map<int, int>, s: seq<int>, t: seq<int>)
    requires Increasing(s) && Increasing(t) && OrderIsomorphism(m, s, t)
    ensures forall i :: 0 <= i < |s| ==> s[i] in m
    ensures Images(m, s) == t
  {
    IsomorphismDomain(m, s, t);
    var r := Images(m, s);
    forall i, j | 0 <= i < j < |r|
      ensures r[i] < r[j]
    {
      assert s[i] in m && s[j] in m && s[i] < s[j];
    }
    forall y
      ensures y in r <==> y in t
    {
      ImagesMember(m, s, y);
      assert y in r <==> y in m.Values;
      assert y in m.Values <==> y in t;
    }
    IncreasingUnique(r, t);
  }

  // The i-th list comes from the thread with the i-th smallest number.
  lemma RankedListAt(uncounted: string -> bool, es: seq<Event>, i: nat)
    requires i < |RankedTids(es)|
    ensures |RankedLists(uncounted, es)| == |RankedTids(es)|
    ensures RankedLists(uncounted, es)[i] == ThreadList(uncounted, es, RankedTids(es)[i])
    ensures RankedLists(uncounted, es)[i] == Destutter(uncounted, Project(es, RankedTids(es)[i]))
  {
    var f := tid => ThreadList(uncounted, es, tid);
    assert RankedLists(uncounted, es)[i] == f(RankedTids(es)[i]);
  }

  lemma EqualListsMatch(uncounted: string -> bool, a: seq<Event>, b: seq<Event>) returns (m: map<int, int>)
    requires RankedLists(uncounted, a) == RankedLists(uncounted, b)
    ensures Matches(uncounted, a, b, m)
  {
    var s, t := RankedTids(a), RankedTids(b);
    RankedTidsIncrease(a);
    RankedTidsIncrease(b);
    assert |s| == |RankedLists(uncounted, a)| == |RankedLists(uncounted, b)| == |t|;
    m := RankMatch(s, t);
    RankMatchIsIsomorphism(s, t);
    forall x | x in m
      ensures ThreadList(uncounted, a, x) == ThreadList(uncounted, b, m[x])
    {
      var i := IndexOf(s, x);
      RankedListAt(uncounted, a, i);
      RankedListAt(uncounted, b, i);
    }
  }

  lemma MatchingListsEqual(uncounted: string -> bool, a: seq<Event>, b: seq<Event>, m: map<int, int>)
    requires Matches(uncounted, a, b, m)
    ensures RankedLists(uncounted, a) == RankedLists(uncounted, b)
  {
    var s, t := RankedTids(a), RankedTids(b);
    RankedTidsIncrease(a);
    RankedTidsIncrease(b);
    IsomorphismIsByRank(m, s, t);
    assert |RankedLists(uncounted, b)| == |t| == |s| == |RankedLists(uncounted, a)|;
    forall i | 0 <= i < |s|
      ensures RankedLists(uncounted, a)[i] == RankedLists(uncounted, b)[i]
    {
      assert s[i] in m && m[s[i]] == t[i];
      RankedListAt(uncounted, a, i);
      RankedListAt(uncounted, b, i);
    }
  }

  // The lists in thread order are equal exactly when an order-preserving matching of the
  // threads, one to one and onto, pairs threads with equal lists.
  lemma RankedListsCharacterised(uncounted: string -> bool, a: seq<Event>, b: seq<Event>)
    ensures RankedLists(uncounted, a) == RankedLists(uncounted, b) <==> exists m :: Matches(uncounted, a, b, m)
  {
    if RankedLists(uncounted, a) == RankedLists(uncounted, b) {
      var m := EqualListsMatch(uncounted, a, b);
    }
    if exists m :: Matches(uncounted, a, b, m) {
      var m :| Matches(uncounted, a, b, m);
      MatchingListsEqual(uncounted, a, b, m);
    }
  }

  // ----- Renaming of threads

  function Rename(f: int -> int, es: seq<Event>): (r: seq<Event>)
    ensures |r| == |es| && forall i :: 0 <= i < |es| ==> r[i] == es[i].(tid := f(es[i].tid))
  {
    seq(|es|, i requires 0 <= i < |es| => es[i].(tid := f(es[i].tid)))
  }

  // f keeps the order of the given thread numbers.
  ghost predicate IncreasingOn(f: int -> int, tids: set<int>) {
    forall x, y :: x in tids && y in tids && x < y ==> f(x) < f(y)
  }

  ghost predicate Within(es: seq<Event>, tids: set<int>) {
    forall i :: 0 <= i < |es| ==> es[i].tid in tids
  }

  lemma {:induction false} RenamedProjection(f: int -> int, tids: set<int>, es: seq<Event>, tid: int)
    requires IncreasingOn(f, tids) && Within(es, tids) && tid in tids
    ensures Project(Rename(f, es), f(tid)) == Project(es, tid)
  {
    if es == [] {
    } else {
      var last := |es| - 1;
      RenamedProjection(f, tids, es[..last], tid);
      assert Rename(f, es)[..last] == Rename(f, es[..last]);
      assert es[last].tid in tids;
    }
  }

  lemma {:induction false} RenamedTids(f: int -> int, tids: set<int>, es: seq<Event>)
    requires IncreasingOn(f, tids) && Within(es, tids)
    ensures Tids(Rename(f, es)) == Map(f, Tids(es))
    ensures forall tid :: tid in Tids(es) ==> tid in tids
  {
    if es == [] {
    } else {
      var last := |es| - 1;
      RenamedTids(f, tids, es[..last]);
      assert Rename(f, es)[..last] == Rename(f, es[..last]);
      var rest, tid := Tids(es[..last]), es[last].tid;
      assert tid in tids;
      RenamedMember(f, tids, rest, tid);
      assert Map(f, rest + [tid]) == Map(f, rest) + [f(tid)];
    }
  }

  lemma InjectiveOn(f: int -> int, tids: set<int>, x: int, y: int)
    requires IncreasingOn(f, tids) && x in tids && y in tids
    ensures f(x) == f(y) <==> x == y
  {
    assert x < y ==> f(x) < f(y);
    assert y < x ==> f(y) < f(x);
  }

  lemma RenamedMember(f: int -> int, tids: set<int>, s: seq<int>, tid: int)
    requires IncreasingOn(f, tids) && tid in tids && forall t :: t in s ==> t in tids
    ensures f(tid) in Map(f, s) <==> tid in s
  {
    if tid in s {
      var k :| 0 <= k < |s| && s[k] == tid;
      assert Map(f, s)[k] == f(tid);
    }
    if f(tid) in Map(f, s) {
      var k :| 0 <= k < |s| && Map(f, s)[k] == f(tid);
      assert s[k] in s;
      InjectiveOn(f, tids, s[k], tid);
    }
  }

  lemma SortedUnderRenaming(f: int -> int, tids: set<int>, s: seq<int>)
    requires IncreasingOn(f, tids) && forall t :: t in s ==> t in tids
    ensures Sort(IntLe, Map(f, s)) == Map(f, Sort(IntLe, s))
    ensures forall i :: 0 <= i < |Sort(IntLe, s)| ==> Sort(IntLe, s)[i] in tids
  {
    var sorted := Sort(IntLe, s);
    IntIsTotalOrder();
    SortSorts(IntLe, s);
    SortSorts(IntLe, Map(f, s));
    MapPermutes(f, sorted, s);
    forall i | 0 <= i < |sorted|
      ensures sorted[i] in tids
    {
      assert sorted[i] in multiset(s);
    }
    forall i, j | 0 <= i < j < |sorted|
      ensures IntLe(Map(f, sorted)[i], Map(f, sorted)[j])
    {
      assert IntLe(sorted[i], sorted[j]);
    }
    SortedUnique(IntLe, Sort(IntLe, Map(f, s)), Map(f, sorted));
  }

  // Thread numbers matter only through their order.
  lemma {:induction false} RenamingIsInvisible(uncounted: string -> bool, f: int -> int, es: seq<Event>)
    requires IncreasingOn(f, set e | e in es :: e.tid)
    ensures RankedLists(uncounted, Rename(f, es)) == RankedLists(uncounted, es)
  {
    var tids := set e | e in es :: e.tid;
    assert Within(es, tids);
    RenamedTids(f, tids, es);
    SortedUnderRenaming(f, tids, Tids(es));
    var sorted := Sort(IntLe, Tids(es));
    forall i | 0 <= i < |sorted|
      ensures RankedLists(uncounted, Rename(f, es))[i] == RankedLists(uncounted, es)[i]
    {
      RenamedProjection(f, tids, es, sorted[i]);
    }
  }

  // ----- Count mode

  function NameOf(e: Event): string {
    e.name
  }

  function Names(es: seq<Event>): seq<string> {
    Map(NameOf, es)
  }

  // The distinct names in order of first appearance: the keys of the events_count dictionary.
  function Keys(names: seq<string>): seq<string> {
    if names == [] then []
    else
      var rest, x := Keys(names[..|names| - 1]), names[|names| - 1];
      if x in rest then rest else rest + [x]
  }

  lemma {:induction false} KeysDistinct(names: seq<string>)
    ensures Distinct(Keys(names))
    ensures forall x :: x in Keys(names) <==> x in names
  {
    if names == [] {
    } else {
      KeysDistinct(names[..|names| - 1]);
      assert names == names[..|names| - 1] + [names[|names| - 1]];
    }
  }

  function CountLine(uncounted: string -> bool, name: string, count: nat): string {
    if uncounted(name) then name else name + " : count " + Decimal(count)
  }

  function CountLines(uncounted: string -> bool, names: seq<string>): (lines: seq<string>)
    ensures |lines| == |Keys(names)|
  {
    Map(x => CountLine(uncounted, x, multiset(names)[x]), Keys(names))
  }

  function CountText(uncounted: string -> bool, names: seq<string>): string {
    Repr(Sort(LexLe, Split(Unlines(CountLines(uncounted, names)))))
  }

  lemma {:induction false} KeysOfOneName(names: seq<string>, x: string)
    requires names != [] && forall i :: 0 <= i < |names| ==> names[i] == x
    ensures Keys(names) == [x] && multiset(names)[x] == |names|
  {
    var last := |names| - 1;
    assert names == names[..last] + [x];
    if last == 0 {
      assert names[..0] == [];
    } else {
      KeysOfOneName(names[..last], x);
    }
  }

  lemma SortBeforeEmpty(line: string)
    requires line != ""
    ensures Sort(LexLe, [line, ""]) == ["", line]
  {
    assert [line, ""][1..] == [""] && [""][1..] == [] && ["", line][1..] == [line];
    assert Sort(LexLe, [""]) == [""];
  }

  // The text for a single event, printed with its count unless that does not matter.
  lemma {:induction false} TextOfOneName(uncounted: string -> bool, names: seq<string>, x: string)
    requires IsWord(x) && names != [] && forall i :: 0 <= i < |names| ==> names[i] == x
    ensures uncounted(x) ==> CountText(uncounted, names) == "['', '" + x + "']"
    ensures !uncounted(x) ==>
              CountText(uncounted, names) == "['', '" + (x + " : count " + Decimal(|names|)) + "']"
  {
    var line := CountLine(uncounted, x, |names|);
    KeysOfOneName(names, x);
    assert CountLines(uncounted, names) == [line];
    CountLineIsPlain(uncounted, x, |names|);
    SplitUnlines([line]);
    SortBeforeEmpty(line);
    assert [line] + [""] == [line, ""];
    ReprAfterEmpty(line);
  }

  lemma ReprAfterEmpty(line: string)
    ensures Repr(["", line]) == "['', '" + line + "']"
  {
    ReprAppend([""], line);
    assert [""] + [line] == ["", line];
    assert "['']"[..3] == "[''" && "[''" + ", '" == "['', '";
  }

  lemma CountLineIsPlain(uncounted: string -> bool, name: string, count: nat)
    requires IsWord(name)
    ensures Free(CountLine(uncounted, name, count), '\n') && Free(CountLine(uncounted, name, count), '\'')
    ensures CountLine(uncounted, name, count) != ""
  {
    DecimalReadsBack(count);
  }

  lemma CountLineHasSpace(uncounted: string -> bool, name: string, count: nat)
    requires IsWord(name)
    ensures Free(CountLine(uncounted, name, count), ' ') <==> uncounted(name)
  {
    if !uncounted(name) {
      assert CountLine(uncounted, name, count)[|name|] == ' ';
    }
  }

  lemma CountedLineParts(x: string, digits: string)
    ensures x + " : count " + digits == x + [' '] + (": count " + digits)
  {
  }

  lemma CountedLineInjective(x: string, m: nat, y: string, n: nat)
    requires IsWord(x) && IsWord(y)
    requires x + " : count " + Decimal(m) == y + " : count " + Decimal(n)
    ensures x == y && m == n
  {
    CountedLineParts(x, Decimal(m));
    CountedLineParts(y, Decimal(n));
    CutUnique(x, ": count " + Decimal(m), y, ": count " + Decimal(n), ' ');
    SamePrefix(": count ", Decimal(m), Decimal(n));
    DecimalInjective(m, n);
  }

  lemma SamePrefix(p: string, u: string, v: string)
    requires p + u == p + v
    ensures u == v
  {
    assert (p + u)[|p|..] == u && (p + v)[|p|..] == v;
  }

  lemma {:induction false} EventsOnOneThread(es: seq<Event>, tid: int)
    requires es != [] && forall i :: 0 <= i < |es| ==> es[i].tid == tid
    ensures Tids(es) == [tid] && Project(es, tid) == Names(es)
  {
    var last := |es| - 1;
    if last == 0 {
      assert es[..0] == [];
    } else {
      EventsOnOneThread(es[..last], tid);
    }
  }

  // A trace with a single thread has one list, made from all names in order.
  lemma SingleThread(uncounted: string -> bool, es: seq<Event>, tid: int)
    requires es != [] && forall i :: 0 <= i < |es| ==> es[i].tid == tid
    ensures RankedLists(uncounted, es) == [Destutter(uncounted, Names(es))]
  {
    EventsOnOneThread(es, tid);
    assert [tid][1..] == [];
    assert Sort(IntLe, [tid]) == [tid];
  }

  // A line tells the event and, unless its count does not matter, the count.
  lemma CountLineInjective(uncounted: string -> bool, x: string, m: nat, y: string, n: nat)
    requires IsWord(x) && IsWord(y)
    ensures CountLine(uncounted, x, m) == CountLine(uncounted, y, n) <==> x == y && (uncounted(x) || m == n)
  {
    CountLineHasSpace(uncounted, x, m);
    CountLineHasSpace(uncounted, y, n);
    if CountLine(uncounted, x, m) == CountLine(uncounted, y, n) && !uncounted(x) {
      CountedLineInjective(x, m, y, n);
    }
  }

  // Same events, and same numbers of those whose count matters.
  ghost predicate SameCounts(uncounted: string -> bool, a: seq<string>, b: seq<string>) {
    && (forall x :: x in a <==> x in b)
    && (forall x :: x in a && !uncounted(x) ==> multiset(a)[x] == multiset(b)[x])
  }

  ghost predicate Words(names: seq<string>) {
    forall x :: x in names ==> IsWord(x)
  }

  lemma CountLinesArePlain(uncounted: string -> bool, names: seq<string>)
    requires Words(names)
    ensures forall i :: 0 <= i < |CountLines(uncounted, names)| ==>
              Free(CountLines(uncounted, names)[i], '\n') && Free(CountLines(uncounted, names)[i], '\'')
              && CountLines(uncounted, names)[i] != ""
  {
    KeysDistinct(names);
    forall i | 0 <= i < |CountLines(uncounted, names)|
      ensures Free(CountLines(uncounted, names)[i], '\n') && Free(CountLines(uncounted, names)[i], '\'')
              && CountLines(uncounted, names)[i] != ""
    {
      var x := Keys(names)[i];
      assert x in Keys(names);
      CountLineIsPlain(uncounted, x, multiset(names)[x]);
    }
  }

  // The text lists the lines and one empty string, sorted.
  lemma CountTextSplits(uncounted: string -> bool, names: seq<string>)
    requires Words(names)
    ensures CountText(uncounted, names) == Repr(Sort(LexLe, CountLines(uncounted, names) + [""]))
    ensures QuoteFree(Sort(LexLe, CountLines(uncounted, names) + [""]))
  {
    CountLinesArePlain(uncounted, names);
    SplitUnlines(CountLines(uncounted, names));
    SortKeepsQuoteFree(CountLines(uncounted, names) + [""]);
  }

  lemma SameWithoutLast<T>(a: seq<T>, b: seq<T>, x: T)
    ensures multiset(a + [x]) == multiset(b + [x]) <==> multiset(a) == multiset(b)
  {
    assert multiset(a) == multiset(a + [x]) - multiset{x};
    assert multiset(b) == multiset(b + [x]) - multiset{x};
  }

  lemma SameRepr(xs: seq<string>, ys: seq<string>)
    requires QuoteFree(xs) && QuoteFree(ys)
    ensures Repr(xs) == Repr(ys) <==> xs == ys
  {
    if Repr(xs) == Repr(ys) {
      assert Repr(xs) + "" == Repr(xs) && Repr(ys) + "" == Repr(ys);
      ReprInjective(xs, "", ys, "");
    }
  }

  // The text determines the multiset of lines and is determined by it.
  lemma CountTextIsMultiset(uncounted: string -> bool, a: seq<string>, b: seq<string>)
    requires Words(a) && Words(b)
    ensures CountText(uncounted, a) == CountText(uncounted, b)
       <==> multiset(CountLines(uncounted, a)) == multiset(CountLines(uncounted, b))
  {
    var la, lb := CountLines(uncounted, a) + [""], CountLines(uncounted, b) + [""];
    CountTextSplits(uncounted, a);
    CountTextSplits(uncounted, b);
    SameRepr(Sort(LexLe, la), Sort(LexLe, lb));
    LexIsTotalOrder();
    SortDeterminedByElements(LexLe, la, lb);
    SameWithoutLast(CountLines(uncounted, a), CountLines(uncounted, b), "");
  }

  lemma SortKeepsQuoteFree(s: seq<string>)
    requires QuoteFree(s)
    ensures QuoteFree(Sort(LexLe, s))
  {
    LexIsTotalOrder();
    SortSorts(LexLe, s);
    var t := Sort(LexLe, s);
    forall i | 0 <= i < |t|
      ensures Free(t[i], '\'')
    {
      assert t[i] in multiset(t);
      assert t[i] in s;
    }
  }

  lemma LineOfKey(uncounted: string -> bool, names: seq<string>, x: string)
    requires x in names
    ensures CountLine(uncounted, x, multiset(names)[x]) in CountLines(uncounted, names)
  {
    KeysDistinct(names);
    var k :| 0 <= k < |Keys(names)| && Keys(names)[k] == x;
    assert CountLines(uncounted, names)[k] == CountLine(uncounted, x, multiset(names)[x]);
  }

  lemma KeyOfLine(uncounted: string -> bool, names: seq<string>, line: string) returns (x: string)
    requires line in CountLines(uncounted, names)
    ensures x in names && line == CountLine(uncounted, x, multiset(names)[x])
  {
    KeysDistinct(names);
    var k :| 0 <= k < |CountLines(uncounted, names)| && CountLines(uncounted, names)[k] == line;
    x := Keys(names)[k];
    assert x in Keys(names);
  }

  lemma SameLinesSameCounts(uncounted: string -> bool, a: seq<string>, b: seq<string>, x: string)
    requires Words(a) && Words(b) && x in a
    requires multiset(CountLines(uncounted, a)) == multiset(CountLines(uncounted, b))
    ensures x in b && (!uncounted(x) ==> multiset(a)[x] == multiset(b)[x])
  {
    LineOfKey(uncounted, a, x);
    var line := CountLine(uncounted, x, multiset(a)[x]);
    assert line in multiset(CountLines(uncounted, b));
    var y := KeyOfLine(uncounted, b, line);
    CountLineInjective(uncounted, x, multiset(a)[x], y, multiset(b)[y]);
  }

  lemma SameCountsSameLines(uncounted: string -> bool, a: seq<string>, b: seq<string>)
    requires SameCounts(uncounted, a, b)
    ensures multiset(CountLines(uncounted, a)) == multiset(CountLines(uncounted, b))
  {
    KeysDistinct(a);
    KeysDistinct(b);
    SameElementsSameMultiset(Keys(a), Keys(b));
    var f := x => CountLine(uncounted, x, multiset(a)[x]);
    MapPermutes(f, Keys(a), Keys(b));
    assert CountLines(uncounted, a) == Map(f, Keys(a));
    forall i | 0 <= i < |Keys(b)|
      ensures Map(f, Keys(b))[i] == CountLines(uncounted, b)[i]
    {
      assert Keys(b)[i] in Keys(b);
    }
    assert CountLines(uncounted, b) == Map(f, Keys(b));
  }

  lemma SameLinesGiveSameCounts(uncounted: string -> bool, a: seq<string>, b: seq<string>)
    requires Words(a) && Words(b)
    requires multiset(CountLines(uncounted, a)) == multiset(CountLines(uncounted, b))
    ensures SameCounts(uncounted, a, b)
  {
    forall x | x in a
      ensures x in b && (!uncounted(x) ==> multiset(a)[x] == multiset(b)[x])
    {
      SameLinesSameCounts(uncounted, a, b, x);
    }
    forall x | x in b
      ensures x in a
    {
      SameLinesSameCounts(uncounted, b, a, x);
    }
  }

  // Two count texts are equal exactly when the traces have the same events and the same counts.
  lemma {:induction false} CountTextsAgree(uncounted: string -> bool, a: seq<string>, b: seq<string>)
    requires Words(a) && Words(b)
    ensures CountText(uncounted, a) == CountText(uncounted, b) <==> SameCounts(uncounted, a, b)
  {
    CountTextIsMultiset(uncounted, a, b);
    if CountText(uncounted, a) == CountText(uncounted, b) {
      SameLinesGiveSameCounts(uncounted, a, b);
    } else if SameCounts(uncounted, a, b) {
      SameCountsSameLines(uncounted, a, b);
    }
  }

  lemma CheckedAt(s: seq<Line>, k: nat, ignored: string -> bool, checked: string -> bool)
    requires k < |s|
    ensures multiset(Checked(s, ignored, checked))
         == multiset(Checked([s[k]], ignored, checked)) + multiset(Checked(Without(s, k), ignored, checked))
  {
    assert s == s[..k] + ([s[k]] + s[k + 1..]);
    CheckedAppends(s[..k], [s[k]] + s[k + 1..], ignored, checked);
    CheckedAppends([s[k]], s[k + 1..], ignored, checked);
    CheckedAppends(s[..k], s[k + 1..], ignored, checked);
  }

  // The checked events of a rearranged trace are rearranged.
  lemma {:induction false} CheckedPermutes(a: seq<Line>, b: seq<Line>, ignored: string -> bool, checked: string -> bool)
    requires multiset(a) == multiset(b)
    ensures multiset(Checked(a, ignored, checked)) == multiset(Checked(b, ignored, checked))
    decreases |a|
  {
    SameLength(a, b);
    if a == [] {
    } else {
      var k := MatchHead(a, b);
      CheckedPermutes(a[1..], Without(b, k), ignored, checked);
      CheckedAt(a, 0, ignored, checked);
      CheckedAt(b, k, ignored, checked);
      assert Without(a, 0) == a[1..];
    }
  }

  // The order of the lines does not matter in count mode.
  lemma LineOrderIsInvisible(
    uncounted: string -> bool, a: seq<Line>, b: seq<Line>, ignored: string -> bool, checked: string -> bool)
    requires multiset(a) == multiset(b)
    ensures SameCounts(uncounted, Names(Checked(a, ignored, checked)), Names(Checked(b, ignored, checked)))
  {
    CheckedPermutes(a, b, ignored, checked);
    MapPermutes(NameOf, Checked(a, ignored, checked), Checked(b, ignored, checked));
    var x, y := Names(Checked(a, ignored, checked)), Names(Checked(b, ignored, checked));
    assert forall e :: e in x <==> e in multiset(x);
    assert forall e :: e in y <==> e in multiset(y);
  }

  // ----- Order texts

  predicate WordsOnly(xs: seq<string>) {
    forall i :: 0 <= i < |xs| ==> IsWord(xs[i])
  }

  lemma {:induction false} ProjectionIsWords(es: seq<Event>, tid: int)
    requires forall e :: e in es ==> IsWord(e.name)
    ensures WordsOnly(Project(es, tid))
  {
    if es == [] {
    } else {
      ProjectionIsWords(es[..|es| - 1], tid);
      assert es[|es| - 1] in es;
    }
  }

  lemma {:induction false} DestutterIsWords(uncounted: string -> bool, xs: seq<string>)
    requires WordsOnly(xs)
    ensures WordsOnly(Destutter(uncounted, xs))
  {
    if xs == [] {
    } else {
      DestutterIsWords(uncounted, xs[..|xs| - 1]);
    }
  }

  function OrderText(uncounted: string -> bool, es: seq<Event>): string {
    ReprAll(RankedLists(uncounted, es))
  }

  lemma RankedListsQuoteFree(uncounted: string -> bool, es: seq<Event>)
    requires forall e :: e in es ==> IsWord(e.name)
    ensures forall i :: 0 <= i < |RankedLists(uncounted, es)| ==> QuoteFree(RankedLists(uncounted, es)[i])
  {
    forall i | 0 <= i < |RankedLists(uncounted, es)|
      ensures QuoteFree(RankedLists(uncounted, es)[i])
    {
      var tid := Sort(IntLe, Tids(es))[i];
      ProjectionIsWords(es, tid);
      DestutterIsWords(uncounted, Project(es, tid));
      assert RankedLists(uncounted, es)[i] == ThreadList(uncounted, es, tid);
    }
  }

  // Two order texts are equal exactly when the ranked lists are.
  lemma OrderTextsAgree(uncounted: string -> bool, a: seq<Event>, b: seq<Event>)
    requires forall e :: e in a ==> IsWord(e.name)
    requires forall e :: e in b ==> IsWord(e.name)
    ensures OrderText(uncounted, a) == OrderText(uncounted, b)
       <==> RankedLists(uncounted, a) == RankedLists(uncounted, b)
  {
    RankedListsQuoteFree(uncounted, a);
    RankedListsQuoteFree(uncounted, b);
    ReprAllInjective(RankedLists(uncounted, a), RankedLists(uncounted, b));
  }
}
