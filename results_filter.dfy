/** The filter and sort passes of the results window, on the Week objects
    the engine produced. Each pass is proved against the functions of module
    Ranking, on the grids the weeks hold. */
module ResultsFilter {
  import opened Common
  import opened TimeGrid
  import opened Weeks
  import opened Courses
  import opened Ranking

  /** The weeks at the listed positions, in the listed order. */
  function Pick(ws: seq<Week>, order: seq<int>): (r: seq<Week>)
    requires InRange(order, |ws|)
    ensures |r| == |order| && forall p :: 0 <= p < |order| ==> r[p] == ws[order[p]]
  {
    seq(|order|, p requires 0 <= p < |order| => ws[order[p]])
  }

  /** The grids at the listed positions. */
  function PickGrids(gs: seq<Grid>, order: seq<int>): (r: seq<Grid>)
    requires InRange(order, |gs|)
    ensures |r| == |order| && forall p :: 0 <= p < |order| ==> r[p] == gs[order[p]]
  {
    seq(|order|, p requires 0 <= p < |order| => gs[order[p]])
  }

  /** The sort keys of a list of grids. */
  function KeysOf(gs: seq<Grid>, byHours: bool): (keys: seq<int>)
    requires AllGrids(gs)
    ensures |keys| == |gs|
  {
    seq(|gs|, j requires 0 <= j < |gs| => Key(gs[j], byHours))
  }

  /** The name hours mode gives a week holding `g` at place c. */
  function HoursLabel(g: Grid, c: nat): string
    requires IsGrid(g)
  {
    TimetableLabel(c, TotalHours(g), TotalDays(g))
  }

  // ---------------------------------------------------------------------
  // The filtering pass

  /** The day, hours and days filters for one timetable: it is dropped when
      an unticked day has a nonzero cell, when its longest day exceeds the
      hours slider or when its day count exceeds the days slider. */
  method Passes(w: Week, f: Filters) returns (includeInResults: bool)
    requires w.Valid() && ValidFilters(f)
    ensures includeInResults <==> Keep(w.Cells(), f)
  {
    ghost var g := w.Cells();
    includeInResults := true;
    for d := 0 to Days
      invariant includeInResults <==> forall d' :: 0 <= d' < d && !f.days[d'] ==> !Occupied(g[d'])
    {
      if !f.days[d] {
        for h := 0 to Hours
          invariant includeInResults <==>
            && (forall d' :: 0 <= d' < d && !f.days[d'] ==> !Occupied(g[d']))
            && (forall h' :: 0 <= h' < h ==> g[d][h'] == 0)
        {
          var v := w.GetOne(d, h);
          if v != 0 {
            includeInResults := false;
          }
        }
      }
    }
    var longest := w.GetLongestDay();
    if longest > f.maxHours {
      includeInResults := false;
    }
    var totalDays := w.GetTotalDays();
    if totalDays > f.maxDays {
      includeInResults := false;
    }
  }

  /** The filter over one more timetable. */
  lemma KeptSnoc(gs: seq<Grid>, f: Filters, t: int)
    requires AllGrids(gs) && ValidFilters(f) && 0 <= t < |gs|
    ensures Kept(gs[..t + 1], f) == Kept(gs[..t], f) + (if Keep(gs[t], f) then [t] else [])
  {
    assert gs[..t + 1][..t] == gs[..t];
  }

  /** The filtering pass: the weeks that pass, in their original order. */
  method FilterWeeks(ws: seq<Week>, f: Filters, ghost gs: seq<Grid>) returns (tempList: seq<Week>)
    requires Holds(ws, gs) && ValidFilters(f)
    ensures AllGrids(gs) && tempList == Pick(ws, Kept(gs, f))
  {
    assert AllGrids(gs);
    tempList := [];
    for t := 0 to |ws|
      invariant tempList == Pick(ws, Kept(gs[..t], f))
    {
      var includeInResults := Passes(ws[t], f);
      KeptSnoc(gs, f, t);
      if includeInResults {
        tempList := tempList + [ws[t]];
      }
    }
    assert gs[..|ws|] == gs;
  }

  // ---------------------------------------------------------------------
  // The insertion scan

  method SortKey(w: Week, byHours: bool) returns (key: int)
    requires w.Valid()
    ensures key == Key(w.Cells(), byHours)
  {
    if byHours {
      key := w.GetTotalHours();
    } else {
      key := w.GetTotalDays();
    }
  }

  /** ArrayList.indexOf: the first position holding `x`, or -1. Week does
      not override equals, so this compares references. */
  method IndexOf(s: seq<Week>, x: Week) returns (r: int)
    ensures -1 <= r < |s|
    ensures r == -1 <==> x !in s
    ensures 0 <= r ==> s[r] == x && forall k :: 0 <= k < r ==> s[k] != x
  {
    r := -1;
    for k := 0 to |s|
      invariant forall j :: 0 <= j < k ==> s[j] != x
    {
      if s[k] == x {
        r := k;
        return;
      }
    }
  }

  /** The scan for the insertion point: the position, found again with
      indexOf, of the first listed week whose key is strictly greater than
      `key`; the end of the list when there is none. */
  method InsertionIndex(sortedList: seq<Week>, key: int, byHours: bool) returns (higherIndex: int)
    requires AllValid(sortedList) && Distinct(sortedList)
    ensures 0 <= higherIndex <= |sortedList|
    ensures forall q :: 0 <= q < higherIndex ==> Key(sortedList[q].Cells(), byHours) <= key
    ensures higherIndex < |sortedList| ==> key < Key(sortedList[higherIndex].Cells(), byHours)
  {
    higherIndex := |sortedList|;
    for j := 0 to |sortedList|
      invariant higherIndex == |sortedList|
      invariant forall q :: 0 <= q < j ==> Key(sortedList[q].Cells(), byHours) <= key
    {
      var other := SortKey(sortedList[j], byHours);
      if key < other {
        higherIndex := IndexOf(sortedList, sortedList[j]);
        break;
      }
    }
  }

  /** Inserting a position into the order inserts its week into the list. */
  lemma PickInsert(ws: seq<Week>, order: seq<int>, hi: int, t: int)
    requires InRange(order, |ws|) && 0 <= t < |ws| && 0 <= hi <= |order|
    ensures InRange(Insert(order, hi, t), |ws|)
    ensures Pick(ws, Insert(order, hi, t)) == Pick(ws, order)[..hi] + [ws[t]] + Pick(ws, order)[hi..]
  {
    InsertAt(order, hi, t);
  }

  lemma PickDistinct(ws: seq<Week>, order: seq<int>)
    requires InRange(order, |ws|) && Distinct(ws) && Distinct(order)
    ensures Distinct(Pick(ws, order))
  {
    var r := Pick(ws, order);
    forall p, q | 0 <= p < q < |r| ensures r[p] != r[q] {
      assert order[p] != order[q];
    }
  }

  /** What the scan finds, read as positions of the filtered list: the
      insertion point of the insertion sort. */
  lemma InsertionPoint(ws: seq<Week>, gs: seq<Grid>, byHours: bool, order: seq<int>, key: int, hi: int)
    requires Holds(ws, gs) && InRange(order, |ws|) && 0 <= hi <= |order|
    requires forall q :: 0 <= q < hi ==> Key(Pick(ws, order)[q].Cells(), byHours) <= key
    requires hi < |order| ==> key < Key(Pick(ws, order)[hi].Cells(), byHours)
    ensures AllGrids(gs) && hi == InsertPos(order, KeysOf(gs, byHours), key)
  {
    var r := Pick(ws, order);
    var keys := KeysOf(gs, byHours);
    forall q | 0 <= q < hi ensures keys[order[q]] <= key {
      assert r[q] == ws[order[q]];
    }
    if hi < |order| {
      assert r[hi] == ws[order[hi]];
    }
    InsertPosUnique(order, keys, key, hi);
  }

  /** One pass of the insertion sort: week t goes in at the insertion point. */
  method InsertSorted(ws: seq<Week>, ghost gs: seq<Grid>, byHours: bool, ghost order: seq<int>,
                      sortedList: seq<Week>, t: int)
    returns (sortedList': seq<Week>, ghost order': seq<int>)
    requires Holds(ws, gs) && Distinct(ws) && 0 <= t < |ws|
    requires AllGrids(gs) && order == SortOrder(KeysOf(gs, byHours)[..t]) && sortedList == Pick(ws, order)
    ensures order' == SortOrder(KeysOf(gs, byHours)[..t + 1]) && sortedList' == Pick(ws, order')
  {
    ghost var keys := KeysOf(gs, byHours);
    var w := ws[t];
    var key := SortKey(w, byHours);
    SortOrderPermutation(keys[..t]);
    PickDistinct(ws, order);
    var higherIndex := InsertionIndex(sortedList, key, byHours);
    InsertionPoint(ws, gs, byHours, order, key, higherIndex);
    SortOrderNext(keys, t);
    PickInsert(ws, order, higherIndex, t);
    sortedList' := sortedList[..higherIndex] + [w] + sortedList[higherIndex..];
    order' := Insert(order, higherIndex, t);
  }

  // ---------------------------------------------------------------------
  // The sorting pass

  /** The first n weeks of the list carry their hours-mode names. */
  ghost predicate NamedUpTo(ws: seq<Week>, gs: seq<Grid>, n: int)
    requires AllGrids(gs) && |ws| == |gs| && 0 <= n <= |ws|
    reads set k | 0 <= k < |ws| :: ws[k]
  {
    forall j :: 0 <= j < n ==> ws[j].name == HoursLabel(gs[j], j + 1)
  }

  /** hours mode renames a week, by its place and its metrics, before
      sorting it; its cells stay as they are. */
  method Relabel(w: Week, c: nat, ghost g: Grid)
    requires w.Valid() && w.Cells() == g
    modifies w
    ensures w.name == HoursLabel(g, c)
  {
    var hours := w.GetTotalHours();
    var days := w.GetTotalDays();
    w.SetName(TimetableLabel(c, hours, days));
  }

  /** One pass of the hours-mode loop: week t is renamed, then inserted. */
  method HoursStep(ws: seq<Week>, ghost gs: seq<Grid>, ghost order: seq<int>, sortedList: seq<Week>, t: int)
    returns (sortedList': seq<Week>, ghost order': seq<int>)
    requires Holds(ws, gs) && Distinct(ws) && 0 <= t < |ws| && AllGrids(gs)
    requires NamedUpTo(ws, gs, t)
    requires order == SortOrder(KeysOf(gs, true)[..t]) && sortedList == Pick(ws, order)
    modifies ws[t]
    ensures Holds(ws, gs) && NamedUpTo(ws, gs, t + 1)
    ensures order' == SortOrder(KeysOf(gs, true)[..t + 1]) && sortedList' == Pick(ws, order')
  {
    Relabel(ws[t], t + 1, gs[t]);
    forall j | 0 <= j < t ensures ws[j].name == HoursLabel(gs[j], j + 1) {
      assert ws[j] != ws[t];
      assert old(ws[j].name) == HoursLabel(gs[j], j + 1);
    }
    sortedList', order' := InsertSorted(ws, gs, true, order, sortedList, t);
  }

  /** The hours-mode loop: rename, then insert by total hours. */
  method SortByHours(tempList: seq<Week>, ghost gs: seq<Grid>) returns (sortedList: seq<Week>)
    requires Holds(tempList, gs) && Distinct(tempList)
    modifies set j | 0 <= j < |tempList| :: tempList[j]
    ensures AllGrids(gs) && sortedList == Pick(tempList, SortOrder(KeysOf(gs, true)))
    ensures NamedUpTo(tempList, gs, |tempList|)
  {
    assert AllGrids(gs);
    ghost var order: seq<int> := [];
    sortedList := [];
    var c := 0;
    for t := 0 to |tempList|
      invariant c == t
      invariant Holds(tempList, gs) && NamedUpTo(tempList, gs, t)
      invariant order == SortOrder(KeysOf(gs, true)[..t]) && sortedList == Pick(tempList, order)
    {
      c := c + 1;
      sortedList, order := HoursStep(tempList, gs, order, sortedList, t);
    }
    assert KeysOf(gs, true)[..|tempList|] == KeysOf(gs, true);
  }

  /** The days-mode loop: insert by total days; no week is changed. */
  method SortByDays(tempList: seq<Week>, ghost gs: seq<Grid>) returns (sortedList: seq<Week>)
    requires Holds(tempList, gs) && Distinct(tempList)
    ensures AllGrids(gs) && sortedList == Pick(tempList, SortOrder(KeysOf(gs, false)))
  {
    assert AllGrids(gs);
    ghost var order: seq<int> := [];
    sortedList := [];
    for t := 0 to |tempList|
      invariant order == SortOrder(KeysOf(gs, false)[..t]) && sortedList == Pick(tempList, order)
    {
      sortedList, order := InsertSorted(tempList, gs, false, order, sortedList, t);
    }
    assert KeysOf(gs, false)[..|tempList|] == KeysOf(gs, false);
  }

  /** The sorting pass over the filtered list: each week is inserted before
      the first listed week with a strictly greater key (total hours in hours
      mode, total days otherwise); in hours mode each week is first renamed
      "Timetable c ... Hours: ... Days: ..." with c its place in the
      filtered list. */
  method SortWeeks(tempList: seq<Week>, byHours: bool, ghost gs: seq<Grid>) returns (sortedList: seq<Week>)
    requires Holds(tempList, gs) && Distinct(tempList)
    modifies set j | 0 <= j < |tempList| :: tempList[j]
    ensures AllGrids(gs) && sortedList == Pick(tempList, SortOrder(KeysOf(gs, byHours)))
    ensures byHours ==> NamedUpTo(tempList, gs, |tempList|)
    ensures !byHours ==> forall j :: 0 <= j < |tempList| ==> tempList[j].name == old(tempList[j].name)
  {
    if byHours {
      sortedList := SortByHours(tempList, gs);
    } else {
      sortedList := SortByDays(tempList, gs);
    }
  }

  // ---------------------------------------------------------------------
  // Both passes

  /** The t-th week that passes (counting from 1) carries its hours-mode name. */
  ghost predicate NamedKept(ws: seq<Week>, gs: seq<Grid>, ks: seq<int>)
    requires AllGrids(gs) && |ws| == |gs| && InRange(ks, |ws|)
    reads set k | 0 <= k < |ws| :: ws[k]
  {
    forall t :: 0 <= t < |ks| ==> ws[ks[t]].name == HoursLabel(gs[ks[t]], t + 1)
  }

  /** The filtering pass followed by the sorting pass: the displayed weeks,
      in display order; in hours mode the weeks that pass are renamed, and
      no other name changes. */
  method FilterAndSort(ws: seq<Week>, f: Filters, ghost gs: seq<Grid>) returns (sortedList: seq<Week>)
    requires Holds(ws, gs) && Distinct(ws) && ValidFilters(f)
    modifies set k | 0 <= k < |ws| :: ws[k]
    ensures AllGrids(gs) && sortedList == Pick(ws, Displayed(gs, f))
    ensures f.byHours ==> NamedKept(ws, gs, Kept(gs, f))
    ensures forall k :: 0 <= k < |ws| && (!f.byHours || k !in Kept(gs, f)) ==> ws[k].name == old(ws[k].name)
  {
    var tempList := FilterWeeks(ws, f, gs);
    ghost var ks := Kept(gs, f);
    ghost var tg := PickGrids(gs, ks);
    KeptPick(ws, gs, f);
    sortedList := SortWeeks(tempList, f.byHours, tg);
    DisplayedPick(ws, gs, f);
    forall k | 0 <= k < |ws| && k !in ks ensures ws[k].name == old(ws[k].name) {
      NotPicked(ws, ks, k);
    }
  }

  /** A week at a position that is not listed is none of the picked weeks. */
  lemma NotPicked(ws: seq<Week>, ks: seq<int>, k: int)
    requires Distinct(ws) && InRange(ks, |ws|) && 0 <= k < |ws| && k !in ks
    ensures forall j :: 0 <= j < |ks| ==> Pick(ws, ks)[j] != ws[k]
  {
    forall j | 0 <= j < |ks| ensures Pick(ws, ks)[j] != ws[k] {
      assert ks[j] != k;
    }
  }

  /** The weeks that pass hold the grids that pass, and are distinct. */
  lemma KeptPick(ws: seq<Week>, gs: seq<Grid>, f: Filters)
    requires Holds(ws, gs) && Distinct(ws) && ValidFilters(f)
    ensures AllGrids(gs)
    ensures Holds(Pick(ws, Kept(gs, f)), PickGrids(gs, Kept(gs, f)))
    ensures Distinct(Pick(ws, Kept(gs, f)))
  {
    var ks := Kept(gs, f);
    assert Distinct(ks) by {
      forall i, j | 0 <= i < j < |ks| ensures ks[i] != ks[j] {
        assert ks[i] < ks[j];
      }
    }
    PickDistinct(ws, ks);
  }

  /** Sorting the weeks that pass by their keys gives the displayed weeks. */
  lemma DisplayedPick(ws: seq<Week>, gs: seq<Grid>, f: Filters)
    requires AllGrids(gs) && |ws| == |gs| && ValidFilters(f)
    ensures var ks := Kept(gs, f);
      Pick(Pick(ws, ks), SortOrder(KeysOf(PickGrids(gs, ks), f.byHours))) == Pick(ws, Displayed(gs, f))
  {
    var ks := Kept(gs, f);
    assert KeysOf(PickGrids(gs, ks), f.byHours) == KeptKeys(gs, f);
  }
}
