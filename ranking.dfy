/** What the results window shows: the timetables that pass the filters,
    put in order by a stable insertion sort on total hours or total days. */
module Ranking {
  import opened Common
  import opened TimeGrid

  /** The state of the filter controls: one check box per weekday, the two
      sliders (a metric m exceeds a slider value v exactly when m exceeds
      the integer part of v, so the integer part is kept) and the sort mode. */
  datatype Filters = Filters(days: seq<bool>, maxHours: int, maxDays: int, byHours: bool)

  predicate ValidFilters(f: Filters) {
    |f.days| == Days
  }

  /** A timetable passes when it has no class on an unticked day, its longest
      day fits the hours slider and its number of days fits the days slider. */
  predicate Keep(g: Grid, f: Filters)
    requires IsGrid(g) && ValidFilters(f)
  {
    && (forall d :: 0 <= d < Days && !f.days[d] ==> !Occupied(g[d]))
    && LongestDay(g) <= f.maxHours
    && TotalDays(g) <= f.maxDays
  }

  /** The positions of the timetables that pass, in their original order. */
  function Kept(gs: seq<Grid>, f: Filters): (ks: seq<int>)
    requires AllGrids(gs) && ValidFilters(f)
    ensures forall t :: 0 <= t < |ks| ==> 0 <= ks[t] < |gs|
    ensures forall s, t :: 0 <= s < t < |ks| ==> ks[s] < ks[t]
  {
    if gs == [] then []
    else
      var n := |gs| - 1;
      Kept(gs[..n], f) + (if Keep(gs[n], f) then [n] else [])
  }

  /** The sort key: total hours in hours mode, total days otherwise. */
  function Key(g: Grid, byHours: bool): int
    requires IsGrid(g)
  {
    if byHours then TotalHours(g) else TotalDays(g)
  }

  // ---------------------------------------------------------------------
  // The stable insertion sort, on positions 0..|keys|-1

  predicate InRange(order: seq<int>, n: int) {
    forall q :: 0 <= q < |order| ==> 0 <= order[q] < n
  }

  /** Where the next item goes: before the first item with a strictly
      greater key, or at the end when there is none. */
  function InsertPos(order: seq<int>, keys: seq<int>, v: int): (p: int)
    requires InRange(order, |keys|)
    ensures 0 <= p <= |order|
    ensures forall q :: 0 <= q < p ==> keys[order[q]] <= v
    ensures p < |order| ==> v < keys[order[p]]
  {
    if order == [] then 0
    else if v < keys[order[0]] then 0
    else 1 + InsertPos(order[1..], keys, v)
  }

  /** InsertPos is the only position with its two properties. */
  lemma InsertPosUnique(order: seq<int>, keys: seq<int>, v: int, p: int)
    requires InRange(order, |keys|) && 0 <= p <= |order|
    requires forall q :: 0 <= q < p ==> keys[order[q]] <= v
    requires p < |order| ==> v < keys[order[p]]
    ensures p == InsertPos(order, keys, v)
  {
  }

  function Insert(order: seq<int>, p: int, x: int): (r: seq<int>)
    requires 0 <= p <= |order|
  {
    order[..p] + [x] + order[p..]
  }

  /** The sorted list as positions of the unsorted list: items are inserted
      one after the other, each at InsertPos. */
  function SortOrder(keys: seq<int>): (order: seq<int>)
    ensures |order| == |keys| && InRange(order, |keys|)
  {
    if keys == [] then []
    else
      var n := |keys| - 1;
      var o := SortOrder(keys[..n]);
      assert forall q :: 0 <= q < |o| ==> keys[..n][o[q]] == keys[o[q]];
      Insert(o, InsertPos(o, keys, keys[n]), n)
  }

  predicate SortedBy(order: seq<int>, keys: seq<int>)
    requires InRange(order, |keys|)
  {
    forall p, q :: 0 <= p < q < |order| ==> keys[order[p]] <= keys[order[q]]
  }

  /** Items with equal keys keep the order they had before sorting. */
  predicate StableBy(order: seq<int>, keys: seq<int>)
    requires InRange(order, |keys|)
  {
    forall p, q :: 0 <= p < q < |order| && keys[order[p]] == keys[order[q]] ==> order[p] < order[q]
  }

  lemma InsertAt(o: seq<int>, p: int, x: int)
    requires 0 <= p <= |o|
    ensures |Insert(o, p, x)| == |o| + 1
    ensures forall q :: 0 <= q < |o| + 1 ==>
      Insert(o, p, x)[q] == if q < p then o[q] else if q == p then x else o[q - 1]
  {
  }

  /** The sort is a permutation of the positions 0..|keys|-1. */
  lemma {:induction false} SortOrderPermutation(keys: seq<int>)
    ensures Distinct(SortOrder(keys))
    ensures forall i :: 0 <= i < |keys| ==> i in SortOrder(keys)
  {
    if keys != [] {
      var n := |keys| - 1;
      SortOrderPermutation(keys[..n]);
      var o := SortOrder(keys[..n]);
      var p := InsertPos(o, keys, keys[n]);
      SortOrderLast(keys);
      var r := SortOrder(keys);
      assert r == Insert(o, p, n);
      InsertDistinct(o, p, n);
      InsertMembers(o, p, n);
      forall i | 0 <= i < |keys| ensures i in r {
        if i < n {
          assert i in o;
        }
      }
    }
  }

  /** Inserting loses no listed position. */
  lemma InsertMembers(o: seq<int>, p: int, x: int)
    requires 0 <= p <= |o|
    ensures x in Insert(o, p, x)
    ensures forall i :: i in o ==> i in Insert(o, p, x)
  {
    var r := Insert(o, p, x);
    InsertAt(o, p, x);
    assert r[p] == x;
    forall i | i in o ensures i in r {
      var q :| 0 <= q < |o| && o[q] == i;
      if q < p { assert r[q] == i; } else { assert r[q + 1] == i; }
    }
  }

  /** Inserting a position not yet listed keeps the positions distinct. */
  lemma InsertDistinct(o: seq<int>, p: int, n: int)
    requires 0 <= p <= |o| && InRange(o, n) && Distinct(o)
    ensures Distinct(Insert(o, p, n))
  {
    var r := Insert(o, p, n);
    InsertAt(o, p, n);
    forall a, b | 0 <= a < b < |r| ensures r[a] != r[b] {
      if b < p {
        assert r[a] == o[a] && r[b] == o[b];
      } else if a > p {
        assert r[a] == o[a - 1] && r[b] == o[b - 1];
      } else if a == p {
        assert r[b] == o[b - 1];
      } else if b == p {
        assert r[a] == o[a];
      } else {
        assert r[a] == o[a] && r[b] == o[b - 1];
      }
    }
  }

  /** Sortedness and stability only look at the keys of listed positions,
      so they carry over from a prefix of the keys to the whole. */
  lemma ExtendKeys(o: seq<int>, keys: seq<int>, n: int)
    requires 0 <= n <= |keys| && InRange(o, n)
    ensures SortedBy(o, keys[..n]) ==> SortedBy(o, keys)
    ensures StableBy(o, keys[..n]) ==> StableBy(o, keys)
  {
    assert forall q :: 0 <= q < |o| ==> keys[..n][o[q]] == keys[o[q]];
  }

  /** The inserted key is at least every key before it and below every key
      after it. */
  lemma InsertSplits(o: seq<int>, keys: seq<int>, n: int, a: int, b: int)
    requires 0 <= n < |keys| && InRange(o, n) && SortedBy(o, keys)
    requires var p := InsertPos(o, keys, keys[n]); 0 <= a <= p < b <= |o|
    ensures var r := Insert(o, InsertPos(o, keys, keys[n]), n);
      keys[r[a]] < keys[r[b]]
  {
    var p := InsertPos(o, keys, keys[n]);
    var r := Insert(o, p, n);
    assert r[b] == o[b - 1] && keys[n] < keys[o[p]];
    if b - 1 > p {
      assert keys[o[p]] <= keys[o[b - 1]];
    }
    if a < p {
      assert r[a] == o[a] && keys[o[a]] <= keys[n];
    } else {
      assert r[a] == n;
    }
  }

  /** Inserting position n (above every listed position) at InsertPos keeps
      the list sorted. */
  lemma InsertKeepsSorted(o: seq<int>, keys: seq<int>, n: int)
    requires 0 <= n < |keys| && InRange(o, n) && SortedBy(o, keys)
    ensures var r := Insert(o, InsertPos(o, keys, keys[n]), n);
      InRange(r, |keys|) && SortedBy(r, keys)
  {
    var p := InsertPos(o, keys, keys[n]);
    var r := Insert(o, p, n);
    InsertAt(o, p, n);
    forall a, b | 0 <= a < b < |r| ensures keys[r[a]] <= keys[r[b]] {
      InsertPairSorted(o, keys, n, a, b);
    }
  }

  lemma InsertPairSorted(o: seq<int>, keys: seq<int>, n: int, a: int, b: int)
    requires 0 <= n < |keys| && InRange(o, n) && SortedBy(o, keys)
    requires 0 <= a < b <= |o|
    ensures var r := Insert(o, InsertPos(o, keys, keys[n]), n);
      keys[r[a]] <= keys[r[b]]
  {
    var p := InsertPos(o, keys, keys[n]);
    var r := Insert(o, p, n);
    InsertAt(o, p, n);
    if a <= p < b {
      InsertSplits(o, keys, n, a, b);
    } else if b < p {
      assert r[a] == o[a] && r[b] == o[b];
    } else if a > p {
      assert r[a] == o[a - 1] && r[b] == o[b - 1];
    } else {
      assert r[a] == o[a] && r[b] == n;
    }
  }

  /** ... and stable. */
  lemma InsertKeepsStable(o: seq<int>, keys: seq<int>, n: int)
    requires 0 <= n < |keys| && InRange(o, n) && SortedBy(o, keys) && StableBy(o, keys)
    ensures var r := Insert(o, InsertPos(o, keys, keys[n]), n);
      InRange(r, |keys|) && StableBy(r, keys)
  {
    var p := InsertPos(o, keys, keys[n]);
    var r := Insert(o, p, n);
    InsertAt(o, p, n);
    forall a, b | 0 <= a < b < |r| && keys[r[a]] == keys[r[b]] ensures r[a] < r[b] {
      InsertPairStable(o, keys, n, a, b);
    }
  }

  lemma InsertPairStable(o: seq<int>, keys: seq<int>, n: int, a: int, b: int)
    requires 0 <= n < |keys| && InRange(o, n) && SortedBy(o, keys) && StableBy(o, keys)
    requires 0 <= a < b <= |o|
    ensures var r := Insert(o, InsertPos(o, keys, keys[n]), n);
      keys[r[a]] == keys[r[b]] ==> r[a] < r[b]
  {
    var p := InsertPos(o, keys, keys[n]);
    var r := Insert(o, p, n);
    InsertAt(o, p, n);
    if a <= p < b {
      InsertSplits(o, keys, n, a, b);
    } else if b < p {
      assert r[a] == o[a] && r[b] == o[b];
    } else if a > p {
      assert r[a] == o[a - 1] && r[b] == o[b - 1];
    } else {
      assert r[a] == o[a] && r[b] == n;
    }
  }

  /** The sorted list ascends by key, and ties keep the order the filter
      produced them in. */
  lemma {:induction false} SortOrderSortedStable(keys: seq<int>)
    ensures SortedBy(SortOrder(keys), keys)
    ensures StableBy(SortOrder(keys), keys)
  {
    if keys != [] {
      var n := |keys| - 1;
      SortOrderSortedStable(keys[..n]);
      var o := SortOrder(keys[..n]);
      ExtendKeys(o, keys, n);
      InsertKeepsSorted(o, keys, n);
      InsertKeepsStable(o, keys, n);
    }
  }

  /** InsertPos only looks at the keys of the listed positions. */
  lemma {:induction false} InsertPosPrefix(order: seq<int>, keys: seq<int>, n: int, v: int)
    requires 0 <= n <= |keys| && InRange(order, n)
    ensures InsertPos(order, keys[..n], v) == InsertPos(order, keys, v)
  {
    if order != [] {
      InsertPosPrefix(order[1..], keys, n, v);
    }
  }

  /** One more pass of the insertion sort: the order of the first t + 1
      items is the order of the first t with item t inserted. */
  lemma SortOrderNext(keys: seq<int>, t: int)
    requires 0 <= t < |keys|
    ensures var o := SortOrder(keys[..t]);
      SortOrder(keys[..t + 1]) == Insert(o, InsertPos(o, keys, keys[t]), t)
  {
    var front := keys[..t + 1];
    var o := SortOrder(keys[..t]);
    assert front[..t] == keys[..t];
    SortOrderLast(front);
    InsertPosPrefix(o, keys, t + 1, keys[t]);
  }

  /** The last pass of the insertion sort inserts the last item. */
  lemma SortOrderLast(keys: seq<int>)
    requires keys != []
    ensures var n := |keys| - 1; var o := SortOrder(keys[..n]);
      SortOrder(keys) == Insert(o, InsertPos(o, keys, keys[n]), n)
  {
  }

  // ---------------------------------------------------------------------
  // The filter

  /** The filter keeps exactly the timetables that pass. */
  lemma {:induction false} KeptMember(gs: seq<Grid>, f: Filters, i: int)
    requires AllGrids(gs) && ValidFilters(f)
    ensures i in Kept(gs, f) <==> 0 <= i < |gs| && Keep(gs[i], f)
  {
    if gs != [] {
      var n := |gs| - 1;
      KeptMember(gs[..n], f, i);
      if 0 <= i < n {
        assert gs[..n][i] == gs[i];
      }
    }
  }

  /** `g` is at least as permissive as `f`: every day `f` allows, and sliders
      at least as high. */
  predicate Looser(f: Filters, g: Filters)
    requires ValidFilters(f) && ValidFilters(g)
  {
    && (forall d :: 0 <= d < Days && f.days[d] ==> g.days[d])
    && f.maxHours <= g.maxHours
    && f.maxDays <= g.maxDays
  }

  /** Relaxing the filters never hides a timetable that was shown. */
  lemma KeptMonotone(gs: seq<Grid>, f: Filters, g: Filters)
    requires AllGrids(gs) && ValidFilters(f) && ValidFilters(g) && Looser(f, g)
    ensures forall i :: i in Kept(gs, f) ==> i in Kept(gs, g)
  {
    forall i | i in Kept(gs, f) ensures i in Kept(gs, g) {
      KeptMember(gs, f, i);
      KeptMember(gs, g, i);
    }
  }

  // ---------------------------------------------------------------------
  // The list the window displays

  /** The keys of the kept timetables, in filter order. */
  function KeptKeys(gs: seq<Grid>, f: Filters): (keys: seq<int>)
    requires AllGrids(gs) && ValidFilters(f)
    ensures |keys| == |Kept(gs, f)|
  {
    var ks := Kept(gs, f);
    seq(|ks|, t requires 0 <= t < |ks| => Key(gs[ks[t]], f.byHours))
  }

  /** The positions, among all timetables, of the ones displayed, top to bottom. */
  function Displayed(gs: seq<Grid>, f: Filters): (ds: seq<int>)
    requires AllGrids(gs) && ValidFilters(f)
    ensures |ds| == |Kept(gs, f)| && InRange(ds, |gs|)
  {
    var ks := Kept(gs, f);
    var order := SortOrder(KeptKeys(gs, f));
    seq(|ks|, p requires 0 <= p < |ks| => ks[order[p]])
  }

  /** The displayed list holds each timetable that passes the filters
      exactly once and no other, ascending by the sort key, and timetables
      with equal keys appear in the order the engine produced them. */
  lemma DisplayedCorrect(gs: seq<Grid>, f: Filters)
    requires AllGrids(gs) && ValidFilters(f)
    ensures var ds := Displayed(gs, f);
      && (forall i :: i in ds <==> 0 <= i < |gs| && Keep(gs[i], f))
      && (forall p, q :: 0 <= p < q < |ds| ==> ds[p] != ds[q])
      && (forall p, q :: 0 <= p < q < |ds| ==> Key(gs[ds[p]], f.byHours) <= Key(gs[ds[q]], f.byHours))
      && (forall p, q :: 0 <= p < q < |ds| && Key(gs[ds[p]], f.byHours) == Key(gs[ds[q]], f.byHours) ==>
            ds[p] < ds[q])
  {
    DisplayedMembers(gs, f);
    DisplayedDistinct(gs, f);
    DisplayedOrdered(gs, f);
  }

  lemma DisplayedMembers(gs: seq<Grid>, f: Filters)
    requires AllGrids(gs) && ValidFilters(f)
    ensures var ds := Displayed(gs, f);
      forall i :: i in ds <==> 0 <= i < |gs| && Keep(gs[i], f)
  {
    var ks := Kept(gs, f);
    var order := SortOrder(KeptKeys(gs, f));
    var ds := Displayed(gs, f);
    SortOrderPermutation(KeptKeys(gs, f));
    forall i ensures i in ds <==> 0 <= i < |gs| && Keep(gs[i], f) {
      KeptMember(gs, f, i);
      if i in ks {
        var t :| 0 <= t < |ks| && ks[t] == i;
        assert t in order;
        var p :| 0 <= p < |order| && order[p] == t;
        assert ds[p] == i;
      }
    }
  }

  lemma DisplayedDistinct(gs: seq<Grid>, f: Filters)
    requires AllGrids(gs) && ValidFilters(f)
    ensures var ds := Displayed(gs, f);
      forall p, q :: 0 <= p < q < |ds| ==> ds[p] != ds[q]
  {
    var ks := Kept(gs, f);
    var order := SortOrder(KeptKeys(gs, f));
    var ds := Displayed(gs, f);
    SortOrderPermutation(KeptKeys(gs, f));
    forall p, q | 0 <= p < q < |ds| ensures ds[p] != ds[q] {
      assert order[p] != order[q];
      if order[p] < order[q] {
        assert ks[order[p]] < ks[order[q]];
      } else {
        assert ks[order[q]] < ks[order[p]];
      }
    }
  }

  lemma DisplayedOrdered(gs: seq<Grid>, f: Filters)
    requires AllGrids(gs) && ValidFilters(f)
    ensures var ds := Displayed(gs, f);
      && (forall p, q :: 0 <= p < q < |ds| ==> Key(gs[ds[p]], f.byHours) <= Key(gs[ds[q]], f.byHours))
      && (forall p, q :: 0 <= p < q < |ds| && Key(gs[ds[p]], f.byHours) == Key(gs[ds[q]], f.byHours) ==>
            ds[p] < ds[q])
  {
    var ks := Kept(gs, f);
    var keys := KeptKeys(gs, f);
    var order := SortOrder(keys);
    var ds := Displayed(gs, f);
    SortOrderPermutation(keys);
    SortOrderSortedStable(keys);
    forall p, q | 0 <= p < q < |ds| ensures Key(gs[ds[p]], f.byHours) <= Key(gs[ds[q]], f.byHours) {
      assert keys[order[p]] <= keys[order[q]];
    }
    forall p, q | 0 <= p < q < |ds| && Key(gs[ds[p]], f.byHours) == Key(gs[ds[q]], f.byHours)
      ensures ds[p] < ds[q]
    {
      assert keys[order[p]] == keys[order[q]];
      assert order[p] < order[q];
    }
  }

  /** The name hours mode gives the c-th timetable that passes. */
  function TimetableLabel(c: nat, hours: nat, days: nat): string {
    "Timetable " + NatToString(c) + "            Hours: " + NatToString(hours)
      + "            Days: " + NatToString(days)
  }

  const NoResults: string := "No valid timetables!"
  const CheckFilters: string := "Please double check the filters."
}
