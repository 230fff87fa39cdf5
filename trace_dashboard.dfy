/** The originator's dashboard in mal_trace_app.py: the traces of one work
    are grouped by cluster key into an insertion-ordered dictionary, the
    groups are ranked by size with a stable descending sort, the four largest
    are shown as cards with their first three members, and the raw traces
    are listed newest first. */
module TraceDashboard {
  import opened Seqs
  import opened TraceRecords

  /** How many clusters the dashboard shows. */
  const TopClusters: nat := 4

  /** How many example traces each cluster card shows. */
  const ExamplesShown: nat := 3

  predicate Distinct(ks: seq<string>) {
    forall i, j :: 0 <= i < j < |ks| ==> ks[i] != ks[j]
  }

  lemma DistinctAppend(ks: seq<string>, k: string)
    requires Distinct(ks) && k !in ks
    ensures Distinct(ks + [k])
  {
  }

  /** The keys of `clusters` after the `setdefault` loop, in dictionary
      order: each key enters when the first trace carrying it is seen. */
  function KeyOrder(ts: seq<Trace>): (ks: seq<string>)
    ensures Distinct(ks)
    ensures forall k :: k in ks <==> exists t :: t in ts && ClusterKey(t) == k
  {
    if ts == [] then
      []
    else
      var prefix := ts[..|ts| - 1];
      var ks := KeyOrder(prefix);
      var k := ClusterKey(ts[|ts| - 1]);
      assert ts == prefix + [ts[|ts| - 1]];
      assert forall t :: t in ts ==> t in prefix || t == ts[|ts| - 1];
      if k in ks then ks else ks + [k]
  }

  /** The list stored under key `k`: the traces with that key, in input
      order. */
  function Members(ts: seq<Trace>, k: string): (ms: seq<Trace>)
    ensures |ms| <= |ts|
  {
    if ts == [] then
      []
    else
      var t := ts[|ts| - 1];
      Members(ts[..|ts| - 1], k) + (if ClusterKey(t) == k then [t] else [])
  }

  /** Appending a trace appends it to its own group only. */
  lemma MembersAppend(ts: seq<Trace>, t: Trace, k: string)
    ensures Members(ts + [t], k) == Members(ts, k) + (if ClusterKey(t) == k then [t] else [])
  {
    assert (ts + [t])[..|ts|] == ts;
  }

  /** Partition: a trace is in the group of key `k` exactly when it is an
      input trace whose key is `k`, so every input trace is in exactly one
      group, the one of its own key. */
  lemma {:induction false} MembersExact(ts: seq<Trace>, t: Trace, k: string)
    ensures t in Members(ts, k) <==> t in ts && ClusterKey(t) == k
  {
    if ts != [] {
      var p := ts[..|ts| - 1];
      assert ts == p + [ts[|ts| - 1]];
      MembersExact(p, t, k);
    }
  }

  /** The group of `k` is the comprehension `[t for t in ts if
      cluster_key(t) == k]`: its members in input order. */
  lemma {:induction false} MembersInInputOrder(ts: seq<Trace>, k: string)
    ensures Members(ts, k) == Filter(ts, (t: Trace) => ClusterKey(t) == k)
  {
    if ts != [] {
      var p, t := ts[..|ts| - 1], ts[|ts| - 1];
      assert ts == p + [t];
      MembersInInputOrder(p, k);
      FilterAppend(p, [t], (t: Trace) => ClusterKey(t) == k);
    }
  }

  /** A key has a non-empty group exactly when it is one of the dictionary's
      keys: no group is empty, and no listed key lacks a group. */
  lemma MembersNonEmpty(ts: seq<Trace>, k: string)
    ensures Members(ts, k) != [] <==> k in KeyOrder(ts)
  {
    if k in KeyOrder(ts) {
      var t :| t in ts && ClusterKey(t) == k;
      MembersExact(ts, t, k);
    } else if Members(ts, k) != [] {
      MembersExact(ts, Members(ts, k)[0], k);
    }
  }

  /** The sum of the sizes of the groups listed in `ks`. */
  function TotalSize(ts: seq<Trace>, ks: seq<string>): nat {
    if ks == [] then 0 else TotalSize(ts, ks[..|ks| - 1]) + |Members(ts, ks[|ks| - 1])|
  }

  lemma {:induction false} TotalSizeAppend(ts: seq<Trace>, t: Trace, ks: seq<string>)
    requires Distinct(ks)
    ensures TotalSize(ts + [t], ks) == TotalSize(ts, ks) + (if ClusterKey(t) in ks then 1 else 0)
  {
    if ks != [] {
      var q, k := ks[..|ks| - 1], ks[|ks| - 1];
      assert ks == q + [k];
      TotalSizeAppend(ts, t, q);
      MembersAppend(ts, t, k);
      assert ClusterKey(t) in ks <==> ClusterKey(t) in q || ClusterKey(t) == k;
      assert k !in q;
    }
  }

  /** The group sizes add up to the number of traces. */
  lemma {:induction false} GroupSizesSum(ts: seq<Trace>)
    ensures TotalSize(ts, KeyOrder(ts)) == |ts|
  {
    if ts != [] {
      var p, t := ts[..|ts| - 1], ts[|ts| - 1];
      var k := ClusterKey(t);
      assert ts == p + [t];
      GroupSizesSum(p);
      TotalSizeAppend(p, t, KeyOrder(p));
      if k !in KeyOrder(p) {
        MembersNonEmpty(p, k);
        MembersAppend(p, t, k);
      }
    }
  }

  /** The index of the first trace carrying key `k` (`|ts|` if none does). */
  function FirstIndex(ts: seq<Trace>, k: string): (n: nat)
    ensures n <= |ts|
    ensures n < |ts| ==> ClusterKey(ts[n]) == k
    ensures forall i :: 0 <= i < n ==> ClusterKey(ts[i]) != k
  {
    if ts == [] then 0
    else if ClusterKey(ts[0]) == k then 0
    else
      var n := FirstIndex(ts[1..], k);
      assert forall i :: 1 <= i <= n && i < |ts| ==> ts[i] == ts[1..][i - 1];
      1 + n
  }

  lemma {:induction false} FirstIndexAppend(ts: seq<Trace>, t: Trace, k: string)
    ensures FirstIndex(ts + [t], k)
         == if FirstIndex(ts, k) < |ts| || ClusterKey(t) == k then FirstIndex(ts, k) else |ts| + 1
  {
    if ts != [] {
      assert (ts + [t])[1..] == ts[1..] + [t];
      FirstIndexAppend(ts[1..], t, k);
    }
  }

  /** Dictionary order is first-occurrence order: of two keys, the one
      listed first occurs first in the input. */
  lemma {:induction false} KeyOrderByFirstOccurrence(ts: seq<Trace>, i: nat, j: nat)
    requires i < j < |KeyOrder(ts)|
    ensures FirstIndex(ts, KeyOrder(ts)[i]) < FirstIndex(ts, KeyOrder(ts)[j]) < |ts|
  {
    var p, t := ts[..|ts| - 1], ts[|ts| - 1];
    var ks, k := KeyOrder(p), ClusterKey(t);
    assert ts == p + [t];
    assert KeyOrder(ts) == if k in ks then ks else ks + [k];
    var ki, kj := KeyOrder(ts)[i], KeyOrder(ts)[j];
    FirstIndexAppend(p, t, ki);
    FirstIndexAppend(p, t, kj);
    if j < |ks| {
      assert ki == ks[i] && kj == ks[j];
      KeyOrderByFirstOccurrence(p, i, j);
    } else {
      assert ki == ks[i] && kj == k && k !in ks;
      FirstIndexAbsent(p, k);
      FirstIndexPresent(p, ki);
    }
  }

  lemma FirstIndexAbsent(ts: seq<Trace>, k: string)
    requires k !in KeyOrder(ts)
    ensures FirstIndex(ts, k) == |ts|
  {
    assert forall n :: 0 <= n < |ts| ==> ts[n] in ts;
  }

  lemma FirstIndexPresent(ts: seq<Trace>, k: string)
    requires k in KeyOrder(ts)
    ensures FirstIndex(ts, k) < |ts|
  {
    var t :| t in ts && ClusterKey(t) == k;
    var n :| 0 <= n < |ts| && ts[n] == t;
    assert FirstIndex(ts, k) <= n;
  }

  /** `groups` with key order `order` is the dictionary built from `ts`. */
  ghost predicate Grouped(ts: seq<Trace>, groups: map<string, seq<Trace>>, order: seq<string>) {
    && order == KeyOrder(ts)
    && (forall k :: k in groups <==> k in order)
    && (forall k :: k in groups ==> groups[k] == Members(ts, k))
  }

  /** One `setdefault(key, []).append(t)` step on a key already present. */
  lemma GroupedOld(ts: seq<Trace>, t: Trace, groups: map<string, seq<Trace>>, order: seq<string>)
    requires Grouped(ts, groups, order) && ClusterKey(t) in groups
    ensures Grouped(ts + [t], groups[ClusterKey(t) := groups[ClusterKey(t)] + [t]], order)
  {
    var k0 := ClusterKey(t);
    var groups' := groups[k0 := groups[k0] + [t]];
    KeyOrderAppend(ts, t);
    forall k | k in groups' ensures groups'[k] == Members(ts + [t], k) {
      MembersAppend(ts, t, k);
    }
  }

  /** `KeyOrder` unfolded once on a trace appended at the end. */
  lemma KeyOrderAppend(ts: seq<Trace>, t: Trace)
    ensures KeyOrder(ts + [t]) == if ClusterKey(t) in KeyOrder(ts) then KeyOrder(ts) else KeyOrder(ts) + [ClusterKey(t)]
  {
    assert (ts + [t])[..|ts|] == ts;
  }

  /** One `setdefault(key, []).append(t)` step on a new key. */
  lemma GroupedNew(ts: seq<Trace>, t: Trace, groups: map<string, seq<Trace>>, order: seq<string>)
    requires Grouped(ts, groups, order) && ClusterKey(t) !in groups
    ensures Grouped(ts + [t], groups[ClusterKey(t) := [t]], order + [ClusterKey(t)])
  {
    var k0 := ClusterKey(t);
    var groups' := groups[k0 := [t]];
    KeyOrderAppend(ts, t);
    MembersNonEmpty(ts, k0);
    forall k | k in groups' ensures groups'[k] == Members(ts + [t], k) {
      MembersAppend(ts, t, k);
    }
  }

  /** The loop body on the `i`-th trace. */
  lemma GroupStep(ts: seq<Trace>, i: nat, groups: map<string, seq<Trace>>, order: seq<string>)
    requires i < |ts| && Grouped(ts[..i], groups, order)
    ensures var t := ts[i];
            var k := ClusterKey(t);
            if k in groups then Grouped(ts[..i + 1], groups[k := groups[k] + [t]], order)
            else Grouped(ts[..i + 1], groups[k := [t]], order + [k])
  {
    assert ts[..i + 1] == ts[..i] + [ts[i]];
    if ClusterKey(ts[i]) in groups {
      GroupedOld(ts[..i], ts[i], groups, order);
    } else {
      GroupedNew(ts[..i], ts[i], groups, order);
    }
  }

  /** The `setdefault(...).append(t)` loop: `groups` is the dictionary and
      `order` its key order. */
  method GroupByKey(ts: seq<Trace>) returns (groups: map<string, seq<Trace>>, order: seq<string>)
    ensures Grouped(ts, groups, order)
  {
    groups, order := map[], [];
    for i := 0 to |ts|
      invariant Grouped(ts[..i], groups, order)
    {
      var k := ClusterKey(ts[i]);
      GroupStep(ts, i, groups, order);
      if k in groups {
        groups := groups[k := groups[k] + [ts[i]]];
      } else {
        groups := groups[k := [ts[i]]];
        order := order + [k];
      }
    }
    assert ts[..|ts|] == ts;
  }

  /** One entry of `clusters.items()`. */
  datatype Group = Group(key: string, members: seq<Trace>)

  function Size(g: Group): int {
    |g.members|
  }

  /** `clusters.items()`, in dictionary order. */
  function Groups(ts: seq<Trace>): (gs: seq<Group>)
    ensures |gs| == |KeyOrder(ts)|
    ensures forall i :: 0 <= i < |gs| ==> gs[i] == Group(KeyOrder(ts)[i], Members(ts, KeyOrder(ts)[i]))
  {
    var ks := KeyOrder(ts);
    seq(|ks|, i requires 0 <= i < |ks| => Group(ks[i], Members(ts, ks[i])))
  }

  /** `clusters.items()` of a dictionary with key order `order`. */
  function Items(groups: map<string, seq<Trace>>, order: seq<string>): (gs: seq<Group>)
    requires forall k :: k in order ==> k in groups
    ensures |gs| == |order|
    ensures forall i :: 0 <= i < |order| ==> gs[i] == Group(order[i], groups[order[i]])
  {
    seq(|order|, i requires 0 <= i < |order| => Group(order[i], groups[order[i]]))
  }

  /** The items of the dictionary the loop builds are `Groups(ts)`. */
  lemma ItemsOfGrouping(ts: seq<Trace>, groups: map<string, seq<Trace>>, order: seq<string>)
    requires Grouped(ts, groups, order)
    ensures Items(groups, order) == Groups(ts)
  {
  }

  /** The dictionary is empty exactly when there are no traces. */
  lemma KeyOrderEmpty(ts: seq<Trace>)
    ensures KeyOrder(ts) == [] <==> ts == []
  {
    if ts != [] {
      assert ts[0] in ts;
    }
  }

  /** `sorted(items, key=len, reverse=True)[:4]`. */
  function TopGroups(gs: seq<Group>): (top: seq<Group>)
    ensures |top| == if |gs| < TopClusters then |gs| else TopClusters
    ensures top == SortDesc(gs, Size)[..|top|]
    ensures NonIncreasing(top, Size)
    ensures forall g :: g in top ==> g in gs
  {
    var sorted := SortDesc(gs, Size);
    var n := if |gs| < TopClusters then |gs| else TopClusters;
    SortDescMembers(gs, Size);
    PrefixNonIncreasing(sorted, Size, n);
    sorted[..n]
  }

  /** The clusters left off the dashboard are no larger than any shown. */
  lemma TopGroupsAreLargest(gs: seq<Group>, g: Group, h: Group)
    requires g in gs && g !in TopGroups(gs) && h in TopGroups(gs)
    ensures Size(g) <= Size(h)
  {
    var sorted, top := SortDesc(gs, Size), TopGroups(gs);
    SortDescMembers(gs, Size);
    var a :| 0 <= a < |sorted| && sorted[a] == g;
    var b :| 0 <= b < |top| && top[b] == h;
    assert sorted[b] == h;
    assert forall x :: 0 <= x < |top| ==> top[x] == sorted[x];
    assert a >= |top|;
  }

  /** `sum(t.dwell_sec for t in items)`. Dwell times the timer produces are
      never negative, and neither is their total. */
  function SumDwell(items: seq<Trace>): (r: real)
    ensures (forall i :: 0 <= i < |items| ==> items[i].dwellSec >= 0.0) ==> r >= 0.0
  {
    if items == [] then
      0.0
    else
      var p := items[..|items| - 1];
      assert forall i :: 0 <= i < |p| ==> p[i] == items[i];
      SumDwell(p) + items[|items| - 1].dwellSec
  }

  /** `sum(t.dwell_sec for t in items) / len(items)`: the value that, taken
      `len(items)` times, gives the total. Only ever asked of a non-empty
      group. */
  function AvgDwell(items: seq<Trace>): (r: real)
    requires items != []
    ensures r * (|items| as real) == SumDwell(items)
  {
    SumDwell(items) / (|items| as real)
  }

  /** `n * x`, as a sum of `n` copies of `x`. */
  function Scaled(n: nat, x: real): real {
    if n == 0 then 0.0 else Scaled(n - 1, x) + x
  }

  lemma {:induction false} ScaledIsProduct(n: nat, x: real)
    ensures Scaled(n, x) == (n as real) * x
  {
    if n > 0 {
      ScaledIsProduct(n - 1, x);
      assert (n as real) * x == ((n - 1) as real) * x + x;
    }
  }

  lemma {:induction false} SumDwellBounds(items: seq<Trace>, lo: real, hi: real)
    requires forall i :: 0 <= i < |items| ==> lo <= items[i].dwellSec <= hi
    ensures Scaled(|items|, lo) <= SumDwell(items) <= Scaled(|items|, hi)
  {
    if items != [] {
      var p := items[..|items| - 1];
      assert forall i :: 0 <= i < |p| ==> p[i] == items[i];
      SumDwellBounds(p, lo, hi);
    }
  }

  /** The average dwell of a group lies between its smallest and its
      largest dwell time. */
  lemma AvgDwellBounds(items: seq<Trace>, lo: real, hi: real)
    requires items != []
    requires forall t :: t in items ==> lo <= t.dwellSec <= hi
    ensures lo <= AvgDwell(items) <= hi
  {
    assert forall i :: 0 <= i < |items| ==> items[i] in items;
    SumDwellBounds(items, lo, hi);
    DivBounds(SumDwell(items), |items|, lo, hi);
  }

  /** A sum between `n` copies of `lo` and `n` copies of `hi`, divided by
      `n`, lies between `lo` and `hi`. */
  lemma DivBounds(s: real, n: nat, lo: real, hi: real)
    requires n > 0 && Scaled(n, lo) <= s <= Scaled(n, hi)
    ensures lo <= s / (n as real) <= hi
  {
    ScaledIsProduct(n, lo);
    ScaledIsProduct(n, hi);
    var m := n as real;
    var a := s / m;
    assert a * m == s;
    assert (a - lo) * m >= 0.0;
    assert (hi - a) * m >= 0.0;
  }

  /** One cluster card: its key, `count`, `avg dwell` and the examples. */
  datatype Card = Card(key: string, count: nat, avgDwell: real, examples: seq<Trace>)

  function CardOf(g: Group): (c: Card)
    requires g.members != []
    ensures c.key == g.key && c.count == |g.members| > 0
    ensures |c.examples| == if c.count < ExamplesShown then c.count else ExamplesShown
    ensures c.examples == g.members[..|c.examples|]
    ensures c.avgDwell == AvgDwell(g.members)
  {
    var n := if |g.members| < ExamplesShown then |g.members| else ExamplesShown;
    Card(g.key, |g.members|, AvgDwell(g.members), g.members[..n])
  }

  /** One card per ranked group, in rank order. */
  function Cards(top: seq<Group>): (cs: seq<Card>)
    requires forall g :: g in top ==> g.members != []
    ensures |cs| == |top| && forall i :: 0 <= i < |top| ==> cs[i] == CardOf(top[i])
  {
    seq(|top|, i requires 0 <= i < |top| => CardOf(top[i]))
  }

  /** Every ranked group of a work is one of its dictionary's entries, and
      none is empty. */
  lemma TopGroupsOfTraces(ts: seq<Trace>)
    ensures forall g :: g in TopGroups(Groups(ts)) ==>
              g.key in KeyOrder(ts) && g.members == Members(ts, g.key) && g.members != []
  {
    var gs := Groups(ts);
    forall g | g in TopGroups(gs)
      ensures g.key in KeyOrder(ts) && g.members == Members(ts, g.key) && g.members != []
    {
      var i :| 0 <= i < |gs| && gs[i] == g;
      MembersNonEmpty(ts, g.key);
    }
  }

  function CreatedAt(t: Trace): int {
    t.createdAt
  }

  /** What the dashboard shows for a work's traces: a notice when there are
      none (the page stops there), else the cards and the raw traces. */
  datatype Dashboard = NoTraces | Clusters(cards: seq<Card>, raw: seq<Trace>)

  /** The cards of a work with traces, one per ranked group. */
  function TopCards(ts: seq<Trace>): (cards: seq<Card>)
    ensures var top := TopGroups(Groups(ts));
            && |cards| == |top|
            && forall m :: 0 <= m < |top| ==>
                 && top[m].key in KeyOrder(ts)
                 && top[m].members == Members(ts, top[m].key) != []
                 && cards[m] == CardOf(top[m])
  {
    var top := TopGroups(Groups(ts));
    TopGroupsOfTraces(ts);
    assert forall m :: 0 <= m < |top| ==> top[m] in top;
    Cards(top)
  }

  /** The dashboard of one work. The raw list is `sorted(traces,
      key=created_at, reverse=True)`: newest first, a permutation of the
      work's traces. */
  function DashboardOf(ts: seq<Trace>): (d: Dashboard)
    ensures d.NoTraces? <==> ts == []
    ensures d.Clusters? ==> d.cards == TopCards(ts)
    ensures d.Clusters? ==> NonIncreasing(d.raw, CreatedAt) && multiset(d.raw) == multiset(ts)
  {
    if ts == [] then NoTraces else Clusters(TopCards(ts), SortDesc(ts, CreatedAt))
  }

  /** There are `min(4, number of groups)` cards. */
  lemma DashboardCardCount(ts: seq<Trace>)
    requires ts != []
    ensures |DashboardOf(ts).cards| == if |KeyOrder(ts)| < TopClusters then |KeyOrder(ts)| else TopClusters
  {
    assert ts[0] in ts;
  }

  /** The cards come in non-increasing count. */
  lemma DashboardCardsOrdered(ts: seq<Trace>, i: nat, j: nat)
    requires ts != [] && i < j < |DashboardOf(ts).cards|
    ensures DashboardOf(ts).cards[i].count >= DashboardOf(ts).cards[j].count
  {
    var top := TopGroups(Groups(ts));
    assert Size(top[i]) >= Size(top[j]);
  }

  /** Each card names one of the work's keys with its full group size and
      the group's first `min(3, size)` traces as examples. */
  lemma DashboardCardContents(ts: seq<Trace>, c: Card)
    requires ts != [] && c in DashboardOf(ts).cards
    ensures c.key in KeyOrder(ts)
    ensures c.count == |Members(ts, c.key)| > 0
    ensures |c.examples| == if c.count < ExamplesShown then c.count else ExamplesShown
    ensures c.examples == Members(ts, c.key)[..|c.examples|]
  {
    var top := TopGroups(Groups(ts));
    var cards := TopCards(ts);
    var m :| 0 <= m < |cards| && cards[m] == c;
    assert c == CardOf(top[m]);
  }

  /** Ties on the dashboard are shown in first-occurrence order: the sort is
      stable and dictionary order is first-occurrence order. */
  lemma RankedTiesByFirstOccurrence(ts: seq<Trace>, i: nat, j: nat)
    requires ts != []
    requires i < j < |DashboardOf(ts).cards|
    requires DashboardOf(ts).cards[i].count == DashboardOf(ts).cards[j].count
    ensures FirstIndex(ts, DashboardOf(ts).cards[i].key) < FirstIndex(ts, DashboardOf(ts).cards[j].key)
  {
    var gs := Groups(ts);
    CardIsRanked(ts, i);
    CardIsRanked(ts, j);
    var i', j' := SortDescStable(gs, Size, i, j);
    KeyOrderByFirstOccurrence(ts, i', j');
  }

  /** Card `i` shows the key and size of the `i`-th group in rank order. */
  lemma CardIsRanked(ts: seq<Trace>, i: nat)
    requires ts != [] && i < |DashboardOf(ts).cards|
    ensures var sorted := SortDesc(Groups(ts), Size);
            && i < |sorted|
            && DashboardOf(ts).cards[i].key == sorted[i].key
            && DashboardOf(ts).cards[i].count == Size(sorted[i])
  {
    var top := TopGroups(Groups(ts));
    assert DashboardOf(ts).cards[i] == CardOf(top[i]);
    assert top[i] == SortDesc(Groups(ts), Size)[i];
  }

  /** A cluster left off the dashboard is no larger than any shown. */
  lemma HiddenClustersNoLarger(ts: seq<Trace>, k: string, c: Card)
    requires ts != []
    requires k in KeyOrder(ts)
    requires forall c' :: c' in DashboardOf(ts).cards ==> c'.key != k
    requires c in DashboardOf(ts).cards
    ensures |Members(ts, k)| <= c.count
  {
    var gs := Groups(ts);
    var top := TopGroups(gs);
    var cards := DashboardOf(ts).cards;
    var a :| 0 <= a < |KeyOrder(ts)| && KeyOrder(ts)[a] == k;
    var b :| 0 <= b < |cards| && cards[b] == c;
    assert gs[a].key == k && |gs[a].members| == |Members(ts, k)|;
    CardIsRanked(ts, b);
    assert gs[a] !in top by {
      forall m | 0 <= m < |top| ensures top[m].key != k {
        CardIsRanked(ts, m);
        assert cards[m] in cards;
      }
    }
    TopGroupsAreLargest(gs, gs[a], top[b]);
  }
}
