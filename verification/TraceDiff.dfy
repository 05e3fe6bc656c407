// The order branch of diff_strings: where the event lists of two traces start to differ.
module TraceDiff {
  import opened Sorting
  import opened TraceText
  import opened TraceChecker
  import opened TraceVerdict

  datatype Report =
    | OnlyReference(events: seq<string>)
    | Differs(rank: nat, index: nat, tidR: int, tid: int, nameR: string, name: string)
    | MissingFrom(rank: nat, index: nat)
    | OnlyTrace(events: seq<string>)

  // The length of the longest common prefix.
  function CommonPrefix(a: seq<string>, b: seq<string>): (n: nat)
    ensures n <= |a| && n <= |b| && a[..n] == b[..n]
    ensures n < |a| && n < |b| ==> a[n] != b[n]
  {
    if a == [] || b == [] || a[0] != b[0] then 0
    else
      var n := CommonPrefix(a[1..], b[1..]);
      assert a[..n + 1] == [a[0]] + a[1..][..n] && b[..n + 1] == [b[0]] + b[1..][..n];
      n + 1
  }

  lemma {:induction false} CommonPrefixUnique(a: seq<string>, b: seq<string>, n: nat)
    requires n <= |a| && n <= |b| && a[..n] == b[..n]
    requires n == |a| || n == |b| || a[n] != b[n]
    ensures CommonPrefix(a, b) == n
  {
    PrefixAgrees(a, b, CommonPrefix(a, b));
    PrefixAgrees(a, b, n);
  }

  lemma PrefixAgrees(a: seq<string>, b: seq<string>, n: nat)
    requires n <= |a| && n <= |b| && a[..n] == b[..n]
    ensures forall i :: 0 <= i < n ==> a[i] == b[i]
  {
    assert forall i :: 0 <= i < n ==> a[i] == a[..n][i] && b[i] == b[..n][i];
  }

  // The report for one rank: none for equal lists, otherwise the first difference.
  function RankReport(rank: nat, tidR: int, tid: int, listR: seq<string>, list: seq<string>): seq<Report> {
    var n := CommonPrefix(listR, list);
    if listR == list then []
    else if n < |listR| && n < |list| then [Differs(rank, n, tidR, tid, listR[n], list[n])]
    else [MissingFrom(rank, n)]
  }

  // The nested event loops for one pair of lists.
  method DiffLists(rank: nat, tidR: int, tid: int, listR: seq<string>, list: seq<string>) returns (reports: seq<Report>)
    ensures reports == RankReport(rank, tidR, tid, listR, list)
  {
    reports := [];
    if listR != list {
      var diffCntR := 0;
      var foundDiffEvt := false;
      while diffCntR < |listR| && !foundDiffEvt
        invariant diffCntR <= |listR|
        invariant !foundDiffEvt ==> reports == []
        invariant !foundDiffEvt ==> forall k :: 0 <= k < diffCntR && k < |list| ==> listR[k] == list[k]
        invariant foundDiffEvt ==> reports == RankReport(rank, tidR, tid, listR, list)
        decreases |listR| - diffCntR
      {
        var diffCnt := 0;
        while diffCnt < |list|
          invariant diffCnt <= |list| && !foundDiffEvt
          invariant diffCntR < diffCnt ==> listR[diffCntR] == list[diffCntR]
        {
          if diffCnt == diffCntR {
            if listR[diffCntR] != list[diffCnt] {
              CommonPrefixUnique(listR, list, diffCntR);
              reports := reports + [Differs(rank, diffCntR, tidR, tid, listR[diffCntR], list[diffCnt])];
              foundDiffEvt := true;
              break;
            }
          }
          diffCnt := diffCnt + 1;
        }
        diffCntR := diffCntR + 1;
      }
      if |listR| != |list| && !foundDiffEvt {
        var n := if |listR| < |list| then |listR| else |list|;
        CommonPrefixUnique(listR, list, n);
        reports := reports + [MissingFrom(rank, n)];
      }
    }
  }

  // The reports for the first n ranks in order.
  function Gather(at: nat -> seq<Report>, n: nat): seq<Report> {
    if n == 0 then [] else Gather(at, n - 1) + at(n - 1)
  }

  lemma {:induction false} GatherEmpty(at: nat -> seq<Report>, n: nat)
    ensures Gather(at, n) == [] <==> forall k :: 0 <= k < n ==> at(k) == []
  {
    if n == 0 {
    } else {
      GatherEmpty(at, n - 1);
      assert |Gather(at, n)| == |Gather(at, n - 1)| + |at(n - 1)|;
    }
  }

  function ReportsOf(orderR: EventsOrder, order: EventsOrder): nat -> seq<Report>
    requires Complete(orderR) && Complete(order)
  {
    (k: nat) => ReportAt(orderR, order, k)
  }

  // What is reported when both traces have events.
  function RankReports(orderR: EventsOrder, order: EventsOrder): seq<Report>
    requires Complete(orderR) && Complete(order)
  {
    Gather(ReportsOf(orderR, order), |orderR.tids|)
  }

  lemma GatherStep(orderR: EventsOrder, order: EventsOrder, k: nat)
    requires Complete(orderR) && Complete(order)
    ensures Gather(ReportsOf(orderR, order), k + 1)
         == Gather(ReportsOf(orderR, order), k) + ReportAt(orderR, order, k)
  {
  }

  // Nothing is reported for a rank that only one trace has.
  function ReportAt(orderR: EventsOrder, order: EventsOrder, k: nat): seq<Report>
    requires Complete(orderR) && Complete(order)
  {
    if k < |orderR.tids| && k < |order.tids|
    then RankReport(k, TidAt(orderR, k), TidAt(order, k), ListAt(orderR, k), ListAt(order, k))
    else []
  }

  ghost predicate Complete(order: EventsOrder) {
    forall tid :: tid in order.tids ==> tid in order.lists
  }

  lemma SortedTids(order: EventsOrder)
    requires Complete(order)
    ensures |Sort(IntLe, order.tids)| == |order.tids|
    ensures forall i :: 0 <= i < |order.tids| ==> Sort(IntLe, order.tids)[i] in order.lists
  {
    IntIsTotalOrder();
    SortSorts(IntLe, order.tids);
    SameLength(Sort(IntLe, order.tids), order.tids);
    forall i | 0 <= i < |order.tids|
      ensures Sort(IntLe, order.tids)[i] in order.lists
    {
      SortedMember(order.tids, i);
      var tid := Sort(IntLe, order.tids)[i];
      assert tid in order.tids;
    }
  }

  // The thread of a given rank and its list.
  function TidAt(order: EventsOrder, rank: nat): int
    requires Complete(order) && rank < |order.tids|
  {
    SortedTids(order);
    Sort(IntLe, order.tids)[rank]
  }

  function ListAt(order: EventsOrder, rank: nat): seq<string>
    requires Complete(order) && rank < |order.tids|
  {
    SortedTids(order);
    order.lists[TidAt(order, rank)]
  }

  // The lists of all threads in rank order; their concatenated text decides the verdict.
  function AllLists(order: EventsOrder): (lists: seq<seq<string>>)
    requires Complete(order)
    ensures |lists| == |order.tids|
    ensures forall k :: 0 <= k < |lists| ==> lists[k] == ListAt(order, k)
  {
    seq(|order.tids|, k requires 0 <= k < |order.tids| => ListAt(order, k))
  }

  // Everything that is reported: the lists of the only trace with events, or the rank reports.
  function AllReports(orderR: EventsOrder, order: EventsOrder): seq<Report>
    requires Complete(orderR) && Complete(order)
  {
    if order.tids == [] then Map((list: seq<string>) => OnlyReference(list), AllLists(orderR))
    else if orderR.tids == [] then Map((list: seq<string>) => OnlyTrace(list), AllLists(order))
    else RankReports(orderR, order)
  }

  // The search for the thread of the same rank in the other trace.
  method DiffRank(orderR: EventsOrder, order: EventsOrder, tids: seq<int>, cntTidR: nat, tidR: int)
    returns (found: seq<Report>)
    requires Complete(orderR) && Complete(order) && cntTidR < |orderR.tids|
    requires tids == Sort(IntLe, order.tids) && tidR == TidAt(orderR, cntTidR)
    ensures found == ReportAt(orderR, order, cntTidR)
  {
    SortedTids(orderR);
    SortedTids(order);
    found := [];
    var cntTid := 0;
    while cntTid < |tids|
      invariant cntTid <= |tids| && cntTid <= cntTidR
      invariant found == []
    {
      var tid := tids[cntTid];
      if cntTid == cntTidR {
        found := DiffLists(cntTid, tidR, tid, orderR.lists[tidR], order.lists[tid]);
        break;
      }
      cntTid := cntTid + 1;
    }
  }

  // diff_strings with metric 'or'.
  method DiffOrder(orderR: EventsOrder, order: EventsOrder) returns (reports: seq<Report>)
    requires Complete(orderR) && Complete(order)
    ensures reports == AllReports(orderR, order)
  {
    SortedTids(orderR);
    SortedTids(order);
    var tidsR, tids := Sort(IntLe, orderR.tids), Sort(IntLe, order.tids);
    reports := [];
    var cntTidR := 0;
    for k := 0 to |tidsR|
      invariant order.tids != [] ==> cntTidR == k && reports == Gather(ReportsOf(orderR, order), k)
      invariant order.tids == [] ==> |reports| == k
      invariant order.tids == [] ==> forall j :: 0 <= j < k ==> reports[j] == OnlyReference(AllLists(orderR)[j])
    {
      var tidR := tidsR[k];
      if |order.tids| == 0 {
        assert orderR.lists[tidR] == ListAt(orderR, k);
        reports := reports + [OnlyReference(orderR.lists[tidR])];
        continue;
      }
      var found := DiffRank(orderR, order, tids, cntTidR, tidR);
      GatherStep(orderR, order, k);
      reports := reports + found;
      cntTidR := cntTidR + 1;
    }
    if |orderR.tids| == 0 {
      for k := 0 to |tids|
        invariant |reports| == k && forall j :: 0 <= j < k ==> reports[j] == OnlyTrace(AllLists(order)[j])
      {
        assert order.lists[tids[k]] == ListAt(order, k);
        reports := reports + [OnlyTrace(order.lists[tids[k]])];
      }
    }
  }

  // ----- What the reports mean

  // What one report says about two lists of threads tidR and tid: where they differ for the first
  // time and in which events, or that the longer one goes on where the shorter one ends.
  ghost predicate Explains(r: Report, rank: nat, tidR: int, tid: int, listR: seq<string>, list: seq<string>) {
    && (r.Differs? || r.MissingFrom?)
    && r.rank == rank && r.index <= |listR| && r.index <= |list| && listR[..r.index] == list[..r.index]
    && (r.Differs? ==>
          && r.tidR == tidR && r.tid == tid
          && r.index < |listR| && r.nameR == listR[r.index]
          && r.index < |list| && r.name == list[r.index] && r.nameR != r.name)
    && (r.MissingFrom? ==> |listR| != |list| && (r.index == |listR| || r.index == |list|))
  }

  // For every rank present in both traces there is one report exactly when the lists differ.
  lemma {:induction false} RankReportMeaning(rank: nat, tidR: int, tid: int, listR: seq<string>, list: seq<string>)
    ensures |RankReport(rank, tidR, tid, listR, list)| == if listR == list then 0 else 1
    ensures forall r :: r in RankReport(rank, tidR, tid, listR, list) ==> Explains(r, rank, tidR, tid, listR, list)
    ensures forall r :: Explains(r, rank, tidR, tid, listR, list) ==> r in RankReport(rank, tidR, tid, listR, list)
  {
    var n := CommonPrefix(listR, list);
    if |listR| == n == |list| {
      assert listR == listR[..n] && list == list[..n];
    }
    forall r | Explains(r, rank, tidR, tid, listR, list)
      ensures r in RankReport(rank, tidR, tid, listR, list)
    {
      CommonPrefixUnique(listR, list, r.index);
    }
  }

  // The two traces have equal lists at rank k, or only one of them has that rank.
  ghost predicate AgreeAt(orderR: EventsOrder, order: EventsOrder, k: nat)
    requires Complete(orderR) && Complete(order)
  {
    k < |orderR.tids| && k < |order.tids| ==> ListAt(orderR, k) == ListAt(order, k)
  }

  lemma ReportAtMeaning(orderR: EventsOrder, order: EventsOrder, k: nat)
    requires Complete(orderR) && Complete(order)
    ensures ReportAt(orderR, order, k) == []
       <==> AgreeAt(orderR, order, k)
  {
    if k < |orderR.tids| && k < |order.tids| {
      RankReportMeaning(k, TidAt(orderR, k), TidAt(order, k), ListAt(orderR, k), ListAt(order, k));
    }
  }

  lemma NoReports(orderR: EventsOrder, order: EventsOrder)
    requires Complete(orderR) && Complete(order)
    ensures RankReports(orderR, order) == [] <==> forall k :: 0 <= k < |orderR.tids| ==> AgreeAt(orderR, order, k)
  {
    var at := ReportsOf(orderR, order);
    GatherEmpty(at, |orderR.tids|);
    forall k | 0 <= k < |orderR.tids|
      ensures at(k) == [] <==> AgreeAt(orderR, order, k)
    {
      ReportAtMeaning(orderR, order, k);
    }
  }

  lemma AllListsAreRanked(order: EventsOrder, uncounted: string -> bool, es: seq<Event>)
    requires Describes(order, uncounted, es)
    ensures Complete(order) && AllLists(order) == RankedLists(uncounted, es)
    ensures |order.tids| == |RankedTids(es)|
    ensures forall k :: 0 <= k < |order.tids| ==> TidAt(order, k) == RankedTids(es)[k]
  {
    SortedTids(order);
    forall k | 0 <= k < |order.tids|
      ensures AllLists(order)[k] == RankedLists(uncounted, es)[k]
    {
      assert ListAt(order, k) == order.lists[Sort(IntLe, order.tids)[k]];
    }
  }

  // ----- All reports

  ghost predicate OfRank(at: nat -> seq<Report>, k: nat) {
    forall r :: r in at(k) ==> (r.Differs? || r.MissingFrom?) && r.rank == k
  }

  ghost predicate IncreasingRanks(reports: seq<Report>, n: nat) {
    && (forall i :: 0 <= i < |reports| ==> (reports[i].Differs? || reports[i].MissingFrom?) && reports[i].rank < n)
    && (forall i, j :: 0 <= i < j < |reports| ==> reports[i].rank < reports[j].rank)
  }

  lemma {:induction false} GatherRanks(at: nat -> seq<Report>, n: nat)
    requires forall k: nat :: k < n ==> |at(k)| <= 1 && OfRank(at, k)
    ensures IncreasingRanks(Gather(at, n), n)
    ensures forall r :: r in Gather(at, n) <==> (r.Differs? || r.MissingFrom?) && r.rank < n && r in at(r.rank)
  {
    if n == 0 {
    } else {
      GatherRanks(at, n - 1);
      assert OfRank(at, n - 1);
      var before, last := Gather(at, n - 1), at(n - 1);
      assert forall r :: r in before + last <==> r in before || r in last;
      forall i | 0 <= i < |last|
        ensures (last[i].Differs? || last[i].MissingFrom?) && last[i].rank == n - 1
      {
        assert last[i] in last;
      }
    }
  }

  // Two traces with events: the reports come in the order of the ranks, and each explains
  // the two lists of its rank; every rank at which the lists differ is explained.
  lemma ReportsExplain(orderR: EventsOrder, order: EventsOrder)
    requires Complete(orderR) && Complete(order) && orderR.tids != [] && order.tids != []
    ensures IncreasingRanks(AllReports(orderR, order), |orderR.tids|)
    ensures forall r :: r in AllReports(orderR, order) <==>
              && (r.Differs? || r.MissingFrom?) && r.rank < |orderR.tids| && r.rank < |order.tids|
              && Explains(r, r.rank, TidAt(orderR, r.rank), TidAt(order, r.rank),
                          ListAt(orderR, r.rank), ListAt(order, r.rank))
    ensures forall k :: 0 <= k < |orderR.tids| && k < |order.tids| && ListAt(orderR, k) != ListAt(order, k) ==>
              ReportAt(orderR, order, k) != [] && ReportAt(orderR, order, k)[0] in AllReports(orderR, order)
  {
    var at := ReportsOf(orderR, order);
    forall k: nat
      ensures |at(k)| <= 1 && OfRank(at, k)
      ensures at(k) == ReportAt(orderR, order, k)
      ensures k < |orderR.tids| && k < |order.tids| ==>
                && (|at(k)| == 0 <==> ListAt(orderR, k) == ListAt(order, k))
                && forall r :: r in at(k) <==>
                     Explains(r, k, TidAt(orderR, k), TidAt(order, k), ListAt(orderR, k), ListAt(order, k))
    {
      if k < |orderR.tids| && k < |order.tids| {
        RankReportMeaning(k, TidAt(orderR, k), TidAt(order, k), ListAt(orderR, k), ListAt(order, k));
      }
    }
    GatherRanks(at, |orderR.tids|);
  }

  // If only one trace has events, all its lists are reported, on the side of that trace.
  lemma OneSidedReports(orderR: EventsOrder, order: EventsOrder)
    requires Complete(orderR) && Complete(order) && (orderR.tids == [] || order.tids == [])
    ensures order.tids == [] ==>
              && |AllReports(orderR, order)| == |orderR.tids|
              && forall k :: 0 <= k < |orderR.tids| ==> AllReports(orderR, order)[k] == OnlyReference(ListAt(orderR, k))
    ensures orderR.tids == [] ==>
              && |AllReports(orderR, order)| == |order.tids|
              && forall k :: 0 <= k < |order.tids| ==> AllReports(orderR, order)[k] == OnlyTrace(ListAt(order, k))
  {
  }

  // Two traces with events are reported on unless the lists of one are a prefix of the
  // lists of the other.
  lemma NoRankReports(orderR: EventsOrder, order: EventsOrder)
    requires Complete(orderR) && Complete(order) && orderR.tids != [] && order.tids != []
    ensures RankReports(orderR, order) == []
       <==> AllLists(orderR) <= AllLists(order) || AllLists(order) <= AllLists(orderR)
  {
    NoReports(orderR, order);
    var a, b := AllLists(orderR), AllLists(order);
    forall k | 0 <= k < |a|
      ensures AgreeAt(orderR, order, k) <==> (k < |b| ==> a[k] == b[k])
    {}
    if forall k :: 0 <= k < |a| ==> AgreeAt(orderR, order, k) {
      if |a| <= |b| {
        assert a <= b;
      } else {
        assert b <= a;
      }
    }
  }

  // One list of lists is a proper prefix of the other, and both traces have events.
  ghost predicate ExtraThreadsOnly(orderR: EventsOrder, order: EventsOrder)
    requires Complete(orderR) && Complete(order)
  {
    orderR.tids != [] && order.tids != [] && (AllLists(orderR) < AllLists(order) || AllLists(order) < AllLists(orderR))
  }

  // A failed comparison goes unexplained exactly when both traces have events and all
  // that one of them has in addition is further threads of higher rank.
  lemma SilentFailure(orderR: EventsOrder, order: EventsOrder)
    requires Complete(orderR) && Complete(order)
    ensures AllReports(orderR, order) == []
       <==> AllLists(orderR) == AllLists(order) || ExtraThreadsOnly(orderR, order)
  {
    assert |AllLists(orderR)| == |orderR.tids| && |AllLists(order)| == |order.tids|;
    if orderR.tids != [] && order.tids != [] {
      NoRankReports(orderR, order);
    }
  }

  // Thread 1 alike, thread 2 in one trace only: the lists differ and nothing is reported.
  lemma SecondThreadUnreported(orderR: EventsOrder, order: EventsOrder)
    requires orderR == EventsOrder([1], map[1 := ["a"]])
    requires order == EventsOrder([1, 2], map[1 := ["a"], 2 := ["b"]])
    ensures Complete(orderR) && Complete(order)
    ensures AllLists(orderR) != AllLists(order) && AllReports(orderR, order) == []
  {
    assert [1][1..] == [] && [2][1..] == [] && [1, 2][1..] == [2];
    assert Sort(IntLe, [1]) == [1] && Sort(IntLe, [2]) == [2];
    assert Sort(IntLe, [1, 2]) == [1] + [2];
    assert AllLists(orderR) == [["a"]] && AllLists(order) == [["a"], ["b"]];
    assert [["a"], ["b"]][..1] == [["a"]];
    SilentFailure(orderR, order);
  }
}
