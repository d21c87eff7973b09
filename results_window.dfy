/** The results window: it receives a deep copy of the user's collection,
    turns it into every conflict-free timetable once, and then shows the
    ones that pass the filters, sorted. */
module ResultsWindow {
  import opened Common
  import opened TimeGrid
  import opened Weeks
  import opened Courses
  import opened UserCollections
  import opened Combination
  import opened Ranking
  import opened ResultsEngine
  import opened ResultsFilter

  class ResultsWindowController {
    // the collection received from the main window (null until setCollection)
    var ucol: UserCollection?
    var validTimetables: seq<Week>
    // the items of the result list, top to bottom
    var resultItems: seq<Week>

    /** The timetables are well-formed weeks, each a separate object. */
    ghost predicate Valid()
      reads this
    {
      AllValid(validTimetables) && Distinct(validTimetables)
    }

    constructor ()
      ensures ucol == null && validTimetables == [] && resultItems == []
      ensures Valid()
    {
      ucol := null;
      validTimetables := [];
      resultItems := [];
    }

    /** processUserCollection: one empty week is appended to the list, and
        then each course in turn replaces the list by Step of (copies of) the
        list and the course's options. The result is the engine run on the
        old list plus one empty week; when there is at least one course every
        timetable is a new week named "Week k" by its position. */
    method ProcessUserCollection()
      requires ucol != null && CoursesValid(ucol.courses)
      requires Valid()
      modifies this
      ensures ucol == old(ucol) && resultItems == old(resultItems)
      ensures Valid()
      ensures Holds(validTimetables,
        CombineFrom(old(GridsOf(validTimetables)) + [ZeroGrid()], old(CourseGrids(ucol.courses))))
      ensures |ucol.courses| == 0 ==>
        && |validTimetables| == |old(validTimetables)| + 1
        && validTimetables[..|old(validTimetables)|] == old(validTimetables)
        && fresh(validTimetables[|old(validTimetables)|])
        && validTimetables[|old(validTimetables)|].name == "Week"
      ensures |ucol.courses| > 0 ==> forall k :: 0 <= k < |validTimetables| ==>
        fresh(validTimetables[k]) && validTimetables[k].name == "Week " + NatToString(k + 1)
    {
      ghost var g0, cg := GridsOf(validTimetables), CourseGrids(ucol.courses);
      CourseGridsHold(ucol.courses);
      var empty := new Week();
      assert Holds(validTimetables + [empty], g0 + [ZeroGrid()]);
      var r := RunEngine(validTimetables + [empty], g0 + [ZeroGrid()], ucol.courses, cg);
      validTimetables := r;
      HoldsGridsOf(r, CombineFrom(g0 + [ZeroGrid()], cg));
    }

    /** filterAndUpdateList: the timetables that pass the filters, sorted by
        total hours (hours mode) or total days, replace the result list; in
        hours mode each one is first renamed by its place among those that
        pass and its metrics. When none passes, the list shows two new blank
        weeks carrying the two notices. No cell of any timetable changes. */
    method FilterAndUpdateList(f: Filters)
      requires Valid() && ValidFilters(f)
      modifies this, set k | 0 <= k < |validTimetables| :: validTimetables[k]
      ensures validTimetables == old(validTimetables) && ucol == old(ucol)
      ensures Valid() && Holds(validTimetables, old(GridsOf(validTimetables)))
      ensures Shown(validTimetables, old(GridsOf(validTimetables)), f, resultItems)
      ensures var gs := old(GridsOf(validTimetables));
        f.byHours ==> NamedKept(validTimetables, gs, Kept(gs, f))
      ensures |Displayed(old(GridsOf(validTimetables)), f)| == 0 ==>
        forall k :: 0 <= k < |resultItems| ==> fresh(resultItems[k])
      ensures forall k :: 0 <= k < |validTimetables| && (!f.byHours || k !in Kept(old(GridsOf(validTimetables)), f)) ==>
        validTimetables[k].name == old(validTimetables[k].name)
    {
      ghost var gs := GridsOf(validTimetables);
      var items := ShowResults(validTimetables, f, gs);
      Display(items, gs, f);
    }

    /** The result list now holds `items`; the timetables are not touched. */
    method Display(items: seq<Week>, ghost gs: seq<Grid>, ghost f: Filters)
      requires Holds(validTimetables, gs) && ValidFilters(f)
      requires Shown(validTimetables, gs, f, items)
      requires f.byHours ==> NamedKept(validTimetables, gs, Kept(gs, f))
      modifies this
      ensures resultItems == items
      ensures validTimetables == old(validTimetables) && ucol == old(ucol)
      ensures Holds(validTimetables, gs) && Shown(validTimetables, gs, f, items)
      ensures f.byHours ==> NamedKept(validTimetables, gs, Kept(gs, f))
    {
      resultItems := items;
    }
  }

  /** What the result list shows for timetables `ws` with grids `gs`: the
      displayed ones in display order, or else the two notices. */
  ghost predicate Shown(ws: seq<Week>, gs: seq<Grid>, f: Filters, items: seq<Week>)
    requires AllGrids(gs) && |ws| == |gs| && ValidFilters(f)
    reads items, set w | w in items :: w.weekData
  {
    var ds := Displayed(gs, f);
    && (|ds| > 0 ==> items == Pick(ws, ds))
    && (|ds| == 0 ==> Placeholders(items))
  }

  /** The body of filterAndUpdateList on the list of timetables: the
      filtered, sorted (and in hours mode renamed) list, or the two notices
      on new blank weeks when nothing passes. */
  method ShowResults(ws: seq<Week>, f: Filters, ghost gs: seq<Grid>) returns (items: seq<Week>)
    requires Holds(ws, gs) && Distinct(ws) && ValidFilters(f)
    modifies set k | 0 <= k < |ws| :: ws[k]
    ensures Holds(ws, gs) && Shown(ws, gs, f, items)
    ensures f.byHours ==> NamedKept(ws, gs, Kept(gs, f))
    ensures |Displayed(gs, f)| == 0 ==> forall k :: 0 <= k < |items| ==> fresh(items[k])
    ensures forall k :: 0 <= k < |ws| && (!f.byHours || k !in Kept(gs, f)) ==>
      ws[k].name == old(ws[k].name)
  {
    var sortedList := FilterAndSort(ws, f, gs);
    if |sortedList| == 0 {
      items := Notices();
    } else {
      items := sortedList;
    }
  }

  /** The two notices, each on a new blank week. */
  method Notices() returns (items: seq<Week>)
    ensures Placeholders(items)
    ensures forall k :: 0 <= k < |items| ==> fresh(items[k])
  {
    var w := new Week();
    w.SetName(NoResults);
    var w2 := new Week();
    w2.SetName(CheckFilters);
    items := [w, w2];
  }

  /** The two notices shown when nothing passes the filters, each on a new
      blank week. */
  ghost predicate Placeholders(items: seq<Week>)
    reads items, set w | w in items :: w.weekData
  {
    && |items| == 2
    && items[0].name == NoResults && items[0].Valid() && items[0].Cells() == ZeroGrid()
    && items[1].name == CheckFilters && items[1].Valid() && items[1].Cells() == ZeroGrid()
  }
}
