/** The build tree: the left panel of the main window. It lists the courses
    of the user's collection with their week options, shows the selected
    item on the table (a week for editing, a course as the overlay of all its
    options for viewing), duplicates items, and checks the collection and
    hands a renumbered deep copy of it to the results window. */
module BuildTree {
  import opened Common
  import opened TimeGrid
  import opened Weeks
  import opened Courses
  import opened UserCollections
  import opened Combination
  import opened ResultsEngine
  import opened TableView

  // ---------------------------------------------------------------------
  // The course overlay

  /** One option laid over the grid built so far: each occupied cell of the
      option overwrites the cell with its value plus the option's index; free
      cells of the option leave the cell as it was. */
  function OverlayOne(acc: Grid, g: Grid, count: int): (r: Grid)
    requires IsGrid(acc) && IsGrid(g)
    ensures IsGrid(r)
    ensures forall d, h :: 0 <= d < Days && 0 <= h < Hours ==>
      r[d][h] == if g[d][h] != 0 then g[d][h] + count else acc[d][h]
  {
    seq(Days, d requires 0 <= d < Days =>
      seq(Hours, h requires 0 <= h < Hours => if g[d][h] != 0 then g[d][h] + count else acc[d][h]))
  }

  /** The first `n` options laid over an empty week, in order. */
  function OverlayUpTo(gs: seq<Grid>, n: nat): (r: Grid)
    requires AllGrids(gs) && n <= |gs|
    ensures IsGrid(r)
  {
    if n == 0 then ZeroGrid() else OverlayOne(OverlayUpTo(gs, n - 1), gs[n - 1], n - 1)
  }

  /** The week a selected course is shown as: all its options at once. */
  function Overlay(gs: seq<Grid>): (r: Grid)
    requires AllGrids(gs)
    ensures IsGrid(r)
  {
    OverlayUpTo(gs, |gs|)
  }

  /** Cell by cell, the overlay is 0 where no option is occupied, and
      otherwise the value of the last option occupying the cell plus that
      option's index: a later option hides an earlier one. */
  lemma OverlayCell(gs: seq<Grid>, n: nat, d: int, h: int)
    requires AllGrids(gs) && n <= |gs| && 0 <= d < Days && 0 <= h < Hours
    ensures (forall k :: 0 <= k < n ==> gs[k][d][h] == 0) ==> OverlayUpTo(gs, n)[d][h] == 0
    ensures forall k :: 0 <= k < n && gs[k][d][h] != 0 && (forall j :: k < j < n ==> gs[j][d][h] == 0) ==>
      OverlayUpTo(gs, n)[d][h] == gs[k][d][h] + k
  {
    if forall k :: 0 <= k < n ==> gs[k][d][h] == 0 {
      OverlayCellFree(gs, n, d, h);
    }
    forall k | 0 <= k < n && gs[k][d][h] != 0 && (forall j :: k < j < n ==> gs[j][d][h] == 0)
      ensures OverlayUpTo(gs, n)[d][h] == gs[k][d][h] + k
    {
      OverlayCellLast(gs, n, d, h, k);
    }
  }

  lemma {:induction false} OverlayCellFree(gs: seq<Grid>, n: nat, d: int, h: int)
    requires AllGrids(gs) && n <= |gs| && 0 <= d < Days && 0 <= h < Hours
    requires forall k :: 0 <= k < n ==> gs[k][d][h] == 0
    ensures OverlayUpTo(gs, n)[d][h] == 0
  {
    if n > 0 {
      OverlayCellFree(gs, n - 1, d, h);
    }
  }

  lemma {:induction false} OverlayCellLast(gs: seq<Grid>, n: nat, d: int, h: int, k: int)
    requires AllGrids(gs) && n <= |gs| && 0 <= d < Days && 0 <= h < Hours
    requires 0 <= k < n && gs[k][d][h] != 0
    requires forall j :: k < j < n ==> gs[j][d][h] == 0
    ensures OverlayUpTo(gs, n)[d][h] == gs[k][d][h] + k
  {
    if k < n - 1 {
      OverlayCellLast(gs, n - 1, d, h, k);
    }
  }

  /** Overlaying options with no negative cell gives no negative cell, so the
      table can colour it; an occupied cell of option k shows at least k + 1. */
  lemma {:induction false} OverlayNonNegative(gs: seq<Grid>, n: nat)
    requires AllGrids(gs) && n <= |gs|
    requires forall k :: 0 <= k < |gs| ==> NonNegative(gs[k])
    ensures NonNegative(OverlayUpTo(gs, n))
  {
    if n > 0 {
      OverlayNonNegative(gs, n - 1);
      var prev := OverlayUpTo(gs, n - 1);
      assert forall d, h :: 0 <= d < Days && 0 <= h < Hours ==> prev[d][h] >= 0;
    }
  }

  /** The inner loops of changeActiveWeek for one option `n` with index
      `count`: every occupied cell of `n` is written into `w`. */
  method OverlayOption(w: Week, n: Week, count: int)
    requires w.Valid() && n.Valid() && w.weekData != n.weekData
    modifies w.weekData
    ensures w.Cells() == OverlayOne(old(w.Cells()), n.Cells(), count)
  {
    ghost var acc, g := w.Cells(), n.Cells();
    for i := 0 to Days
      invariant n.Cells() == g
      invariant forall d, h :: 0 <= d < Days && 0 <= h < Hours ==>
        w.weekData[d, h] == if d < i then OverlayOne(acc, g, count)[d][h] else acc[d][h]
    {
      for j := 0 to Hours
        invariant n.Cells() == g
        invariant forall d, h :: 0 <= d < Days && 0 <= h < Hours ==>
          w.weekData[d, h] == if d < i || (d == i && h < j) then OverlayOne(acc, g, count)[d][h] else acc[d][h]
      {
        var v := n.GetOne(i, j);
        if v != 0 {
          w.SetOne(i, j, v + count);
        }
      }
    }
    GridExt(w.Cells(), OverlayOne(acc, g, count));
  }

  /** The temporary week changeActiveWeek builds for a selected course: a new
      week named "Week" holding the overlay of the course's options, the
      options themselves unchanged. */
  method CourseOverlay(c: Course) returns (w: Week)
    requires AllValid(c.weekOptions)
    ensures fresh(w) && fresh(w.weekData) && w.Valid() && w.name == "Week"
    ensures w.Cells() == Overlay(GridsOf(c.weekOptions))
  {
    ghost var gs := GridsOf(c.weekOptions);
    w := new Week();
    var count := 0;
    for k := 0 to |c.weekOptions|
      invariant count == k
      invariant fresh(w) && fresh(w.weekData) && w.Valid() && w.name == "Week"
      invariant Holds(c.weekOptions, gs)
      invariant w.Cells() == OverlayUpTo(gs, k)
    {
      OverlayOption(w, c.weekOptions[k], count);
      count := count + 1;
    }
  }

  // ---------------------------------------------------------------------
  // The empty-week check of viewResults

  /** Option `k` of course `i`, scanned cell by cell: true exactly when every
      cell is 0. The hour loop stops at the first occupied hour of a day; the
      day loop goes on. */
  method ScanWeek(w: Week) returns (emptyWeek: bool)
    requires w.Valid()
    ensures emptyWeek == IsZero(w.Cells())
  {
    ghost var g := w.Cells();
    emptyWeek := true;
    for d := 0 to Days
      invariant emptyWeek == forall d', h :: 0 <= d' < d && 0 <= h < Hours ==> g[d'][h] == 0
    {
      var h := 0;
      while h < Hours
        invariant 0 <= h <= Hours
        invariant emptyWeek == ((forall d', h' :: 0 <= d' < d && 0 <= h' < Hours ==> g[d'][h'] == 0)
                                && forall h' :: 0 <= h' < h ==> g[d][h'] == 0)
      {
        var v := w.GetOne(d, h);
        if v != 0 {
          emptyWeek := false;
          break;
        }
        h := h + 1;
      }
    }
  }

  /** The flag as the nested loops leave it after the first `n` courses: it
      is reset for every option, so it tells only whether the option scanned
      last is empty, and stays true when no option was scanned at all. */
  ghost function LastScannedEmpty(cg: seq<seq<Grid>>, n: nat): bool
    requires WellFormed(cg) && n <= |cg|
  {
    if n == 0 then true
    else AfterCourse(LastScannedEmpty(cg, n - 1), cg[n - 1])
  }

  /** The flag after the options `gs` of one course are scanned, starting
      from `prev`: the verdict on the last option, or `prev` when there is
      none. */
  ghost function AfterCourse(prev: bool, gs: seq<Grid>): bool
    requires AllGrids(gs)
  {
    if |gs| > 0 then IsZero(gs[|gs| - 1]) else prev
  }

  /** What the check is meant to say: some week option contains no class
      time, or there is no option at all (the flag's starting value). */
  ghost predicate SomeOptionEmpty(cg: seq<seq<Grid>>)
    requires WellFormed(cg)
  {
    || (forall i :: 0 <= i < |cg| ==> |cg[i]| == 0)
    || (exists i, k :: 0 <= i < |cg| && 0 <= k < |cg[i]| && IsZero(cg[i][k]))
  }

  /** The emptyWeek loops as written: the result is LastScannedEmpty, the
      verdict on the last option scanned, not on all of them. */
  method EmptyWeekFlagAsWritten(cs: seq<Course>) returns (emptyWeek: bool)
    requires CoursesValid(cs)
    ensures emptyWeek == LastScannedEmpty(CourseGrids(cs), |cs|)
  {
    ghost var cg := CourseGrids(cs);
    CourseGridsHold(cs);
    emptyWeek := ScanCoursesAsWritten(cs, cg);
  }

  /** The outer loop of the check as written, over courses whose options
      hold the grids `cg`. */
  method ScanCoursesAsWritten(cs: seq<Course>, ghost cg: seq<seq<Grid>>) returns (emptyWeek: bool)
    requires CoursesHold(cs, cg)
    ensures emptyWeek == LastScannedEmpty(cg, |cs|)
  {
    emptyWeek := true;
    for i := 0 to |cs|
      invariant emptyWeek == LastScannedEmpty(cg, i)
    {
      emptyWeek := ScanOptionsAsWritten(cs[i].weekOptions, cg[i], emptyWeek);
    }
  }

  /** The inner loop of the check as written: every option of one course is
      scanned and overwrites the flag, so the last option decides it. */
  method ScanOptionsAsWritten(ws: seq<Week>, ghost gs: seq<Grid>, emptyWeek: bool)
    returns (flag: bool)
    requires Holds(ws, gs)
    ensures AllGrids(gs) && flag == AfterCourse(emptyWeek, gs)
  {
    flag := emptyWeek;
    for k := 0 to |ws|
      invariant flag == if k == 0 then emptyWeek else IsZero(gs[k - 1])
    {
      flag := ScanWeek(ws[k]);
    }
  }

  /** The as-written flag never raises a false alarm: when it is set, some
      option is empty or there is none. */
  lemma {:induction false} AsWrittenFlagSound(cg: seq<seq<Grid>>, n: nat)
    requires WellFormed(cg) && n <= |cg|
    requires LastScannedEmpty(cg, n)
    ensures SomeOptionEmpty(cg[..n])
  {
    if n > 0 && |cg[n - 1]| == 0 {
      AsWrittenFlagSound(cg, n - 1);
      assert cg[..n][..n - 1] == cg[..n - 1];
      if forall i :: 0 <= i < n - 1 ==> |cg[i]| == 0 {
        assert forall i :: 0 <= i < n ==> |cg[..n][i]| == 0;
      } else {
        var i, k :| 0 <= i < n - 1 && 0 <= k < |cg[..n - 1][i]| && IsZero(cg[..n - 1][i][k]);
        assert cg[..n][i] == cg[i];
      }
    } else if n > 0 {
      var k := |cg[n - 1]| - 1;
      assert cg[..n][n - 1] == cg[n - 1];
      assert IsZero(cg[..n][n - 1][k]);
    }
  }

  /** An empty option followed by an occupied one: the collection has an
      empty week option, yet the as-written flag is false and the results
      window opens. */
  lemma AsWrittenFlagMissesEarlierEmpty()
    ensures var one := ZeroGrid()[0 := ZeroGrid()[0][0 := 1]];
      var cg := [[ZeroGrid()], [one]];
      WellFormed(cg) && SomeOptionEmpty(cg) && !LastScannedEmpty(cg, |cg|)
  {
    var one := ZeroGrid()[0 := ZeroGrid()[0][0 := 1]];
    var cg := [[ZeroGrid()], [one]];
    assert IsGrid(one);
    assert one[0][0] == 1;
    assert IsZero(cg[0][0]);
  }

  /** The check as intended: every option is scanned and the flag is set
      when any of them is empty (or when there is none). */
  method EmptyWeekFlag(cs: seq<Course>) returns (emptyWeek: bool)
    requires CoursesValid(cs)
    ensures emptyWeek == SomeOptionEmpty(CourseGrids(cs))
  {
    ghost var cg := CourseGrids(cs);
    CourseGridsHold(cs);
    var found := false;
    var anyOption := false;
    for i := 0 to |cs|
      invariant CoursesHold(cs, cg)
      invariant anyOption == exists i' :: 0 <= i' < i && |cg[i']| > 0
      invariant found == exists i', k :: 0 <= i' < i && 0 <= k < |cg[i']| && IsZero(cg[i'][k])
    {
      var blank := ScanOptions(cs[i].weekOptions, cg[i]);
      anyOption := anyOption || |cs[i].weekOptions| > 0;
      found := found || blank;
    }
    emptyWeek := found || !anyOption;
    CoursesHoldGrids(cs, cg);
  }

  /** The inner loop of the corrected check: whether some option of one
      course is empty. */
  method ScanOptions(ws: seq<Week>, ghost gs: seq<Grid>) returns (found: bool)
    requires Holds(ws, gs)
    ensures found == exists k :: 0 <= k < |gs| && IsZero(gs[k])
  {
    found := false;
    for k := 0 to |ws|
      invariant found == exists k' :: 0 <= k' < k && IsZero(gs[k'])
    {
      var blank := ScanWeek(ws[k]);
      found := found || blank;
    }
  }

  // ---------------------------------------------------------------------
  // The renumbered deep copy handed to the results window

  /** The name the copy gives to the option numbered n from 0 across the
      whole collection. */
  function CopyLabel(n: nat): string {
    "Week " + NatToString(n + 1)
  }

  /** Different numbers give different names. */
  lemma CopyLabelInjective(m: nat, n: nat)
    requires m != n
    ensures CopyLabel(m) != CopyLabel(n)
  {
    LabelsDistinct("Week ", m + 1, n + 1);
  }

  /** How many week options the courses before course `i` have. */
  function OptionCount(cg: seq<seq<Grid>>, i: nat): nat
    requires i <= |cg|
  {
    if i == 0 then 0 else OptionCount(cg, i - 1) + |cg[i - 1]|
  }

  /** The weeks `ws` are copies holding the grids `gs`, named by their
      numbers counted from `first` (so each is a separate week, NamedApart). */
  ghost predicate CopyOf(ws: seq<Week>, gs: seq<Grid>, first: nat)
    reads set k | 0 <= k < |ws| :: ws[k], set k | 0 <= k < |ws| :: ws[k].weekData
  {
    && Holds(ws, gs)
    && forall k :: 0 <= k < |ws| ==> ws[k].name == CopyLabel(first + k)
  }

  /** Courses `cs` carry the same names as courses `src`, one for one. */
  predicate SameNames(src: seq<Course>, cs: seq<Course>)
    reads set i | 0 <= i < |src| :: src[i], set i | 0 <= i < |cs| :: cs[i]
  {
    |cs| == |src| && forall i :: 0 <= i < |cs| ==> cs[i].name == src[i].name
  }

  /** Courses `cs` hold, course by course, the option grids `cg` in new
      weeks numbered "Week 1", "Week 2", ... across all courses in order. */
  ghost predicate Renumbered(cs: seq<Course>, cg: seq<seq<Grid>>)
    reads set i | 0 <= i < |cs| :: cs[i]
    reads set i, k | 0 <= i < |cs| && 0 <= k < |cs[i].weekOptions| :: cs[i].weekOptions[k]
    reads set i, k | 0 <= i < |cs| && 0 <= k < |cs[i].weekOptions| :: cs[i].weekOptions[k].weekData
  {
    && |cs| == |cg|
    && forall i {:trigger cs[i]} :: 0 <= i < |cs| ==> CopyOf(cs[i].weekOptions, cg[i], OptionCount(cg, i))
  }

  /** All the lists `xs[0]`, ..., `xs[i-1]` one after another. */
  function Flatten(xs: seq<seq<Grid>>, i: nat): (r: seq<Grid>)
    requires i <= |xs|
    ensures |r| == OptionCount(xs, i)
  {
    if i == 0 then [] else Flatten(xs, i - 1) + xs[i - 1]
  }

  /** Element `k` of list `i` sits at position OptionCount(xs, i) + k of the
      flattened lists. */
  lemma {:induction false} FlattenIndex(xs: seq<seq<Grid>>, n: nat, i: nat, k: nat)
    requires i < n <= |xs| && k < |xs[i]|
    ensures OptionCount(xs, i) + k < OptionCount(xs, n)
    ensures Flatten(xs, n)[OptionCount(xs, i) + k] == xs[i][k]
    decreases n
  {
    if i < n - 1 {
      FlattenIndex(xs, n - 1, i, k);
    }
  }

  /** Renumbered, from the facts the copy loop keeps: the copied weeks of all
      courses in one list, each course taking its slice of it. */
  lemma RenumberedFrom(cs: seq<Course>, cg: seq<seq<Grid>>, flat: seq<Week>)
    requires |cs| == |cg|
    requires CopyOf(flat, Flatten(cg, |cg|), 0) && Sliced(cs, cg, flat)
    ensures Renumbered(cs, cg)
  {
    forall i | 0 <= i < |cs|
      ensures CopyOf(cs[i].weekOptions, cg[i], OptionCount(cg, i))
    {
      RenumberedCourse(cs, cg, flat, i);
    }
  }

  /** Course `i` of the copy holds its grids under the numbers after those
      of the courses before it. */
  lemma RenumberedCourse(cs: seq<Course>, cg: seq<seq<Grid>>, flat: seq<Week>, i: nat)
    requires |cs| == |cg| && i < |cs|
    requires CopyOf(flat, Flatten(cg, |cg|), 0) && Sliced(cs, cg, flat)
    ensures CopyOf(cs[i].weekOptions, cg[i], OptionCount(cg, i))
  {
    var ws, first, all := cs[i].weekOptions, OptionCount(cg, i), Flatten(cg, |cg|);
    assert first + |cg[i]| <= |flat| && ws == flat[first..first + |cg[i]|];
    assert Holds(flat, all);
    forall k | 0 <= k < |ws|
      ensures ws[k].Valid() && ws[k].Cells() == cg[i][k] && ws[k].name == CopyLabel(first + k)
    {
      var j := first + k;
      assert ws[k] == flat[j];
      FlattenIndex(cg, |cg|, i, k);
      assert flat[j].Valid() && flat[j].Cells() == all[j] == cg[i][k];
      assert flat[j].name == CopyLabel(0 + j);
    }
  }

  /** Weeks named by distinct numbers are distinct weeks. */
  lemma NamedApart(ws: seq<Week>, first: nat)
    requires forall k :: 0 <= k < |ws| ==> ws[k].name == CopyLabel(first + k)
    ensures Distinct(ws)
  {
    forall i, j | 0 <= i < j < |ws|
      ensures ws[i] != ws[j]
    {
      CopyLabelInjective(first + i, first + j);
    }
  }

  /** Courses holding the grids `cg` are valid, and `cg` is their CourseGrids. */
  lemma CoursesHoldGrids(cs: seq<Course>, cg: seq<seq<Grid>>)
    requires CoursesHold(cs, cg)
    ensures CoursesValid(cs) && CourseGrids(cs) == cg
  {
    forall i | 0 <= i < |cs|
      ensures AllValid(cs[i].weekOptions) && GridsOf(cs[i].weekOptions) == cg[i]
    {
      HoldsGridsOf(cs[i].weekOptions, cg[i]);
    }
  }

  /** Each course of `made` has as options its slice of the week list
      `flat`: the weeks of course `i` follow those of the courses before. */
  ghost predicate Sliced(made: seq<Course>, cg: seq<seq<Grid>>, flat: seq<Week>)
    requires |made| <= |cg|
    reads set i | 0 <= i < |made| :: made[i]
  {
    forall i {:trigger made[i]} :: 0 <= i < |made| ==>
      OptionCount(cg, i) + |cg[i]| <= |flat| &&
      made[i].weekOptions == flat[OptionCount(cg, i)..OptionCount(cg, i) + |cg[i]|]
  }

  /** Week `k` of copied course `j` sits in the flat list after the weeks
      of the courses before it. */
  lemma SlicedWeek(made: seq<Course>, cg: seq<seq<Grid>>, flat: seq<Week>, j: nat, k: nat)
    requires |made| <= |cg| && Sliced(made, cg, flat)
    requires j < |made| && k < |made[j].weekOptions|
    ensures OptionCount(cg, j) + k < |flat| && made[j].weekOptions[k] == flat[OptionCount(cg, j) + k]
  {
    assert made[j].weekOptions == flat[OptionCount(cg, j)..OptionCount(cg, j) + |cg[j]|];
  }

  /** One more course copied under its own name. */
  lemma SameNamesAppend(src: seq<Course>, i: nat, made: seq<Course>, c: Course)
    requires i < |src| && SameNames(src[..i], made) && c.name == src[i].name
    ensures SameNames(src[..i + 1], made + [c])
  {
    assert src[..i + 1] == src[..i] + [src[i]];
  }

  /** The deep copy after `i` courses: `made` are the copies of the first `i`
      courses of `src`, under their names, and `flat` their weeks in order,
      numbered from 0 and holding the grids of those courses. */
  ghost predicate CopyProgress(src: seq<Course>, cg: seq<seq<Grid>>, i: nat, made: seq<Course>, flat: seq<Week>)
    reads set j | 0 <= j < |src| :: src[j], set j | 0 <= j < |made| :: made[j]
    reads set j | 0 <= j < |flat| :: flat[j], set j | 0 <= j < |flat| :: flat[j].weekData
  {
    && i <= |src| == |cg| && |made| == i && |flat| == OptionCount(cg, i)
    && CopyOf(flat, Flatten(cg, i), 0)
    && SameNames(src[..i], made) && Sliced(made, cg, flat)
  }

  /** Copying course `i` as `c` takes the copy one course further. */
  lemma CopyProgressStep(src: seq<Course>, cg: seq<seq<Grid>>, i: nat, made: seq<Course>, flat: seq<Week>, c: Course)
    requires CopyProgress(src, cg, i, made, flat) && i < |src|
    requires c.name == src[i].name && CopyOf(c.weekOptions, cg[i], |flat|)
    ensures CopyProgress(src, cg, i + 1, made + [c], flat + c.weekOptions)
  {
    CopyOfAppend(flat, Flatten(cg, i), c.weekOptions, cg[i]);
    SlicedAppend(made, cg, flat, c);
    SameNamesAppend(src, i, made, c);
  }

  /** The copy after every course: the same names, and renumbered. */
  lemma CopyDone(src: seq<Course>, cg: seq<seq<Grid>>, made: seq<Course>, flat: seq<Week>)
    requires CoursesHold(src, cg) && CopyProgress(src, cg, |src|, made, flat)
    ensures SameNames(src, made) && Renumbered(made, CourseGrids(src))
  {
    assert src[..|src|] == src;
    RenumberedFrom(made, cg, flat);
    CoursesHoldGrids(src, cg);
  }

  /** One more course copied: its weeks extend the numbered list. */
  lemma CopyOfAppend(ws: seq<Week>, gs: seq<Grid>, ws2: seq<Week>, gs2: seq<Grid>)
    requires CopyOf(ws, gs, 0) && CopyOf(ws2, gs2, |ws|)
    ensures CopyOf(ws + ws2, gs + gs2, 0)
  {
  }

  /** One more course copied: it takes the next slice of the week list. */
  lemma SlicedAppend(made: seq<Course>, cg: seq<seq<Grid>>, flat: seq<Week>, c: Course)
    requires |made| < |cg| && Sliced(made, cg, flat) && |flat| == OptionCount(cg, |made|)
    ensures Sliced(made + [c], cg, flat + c.weekOptions) || |c.weekOptions| != |cg[|made|]|
  {
    if |c.weekOptions| == |cg[|made|]| {
      var made', flat' := made + [c], flat + c.weekOptions;
      forall i | 0 <= i < |made'|
        ensures OptionCount(cg, i) + |cg[i]| <= |flat'|
        ensures made'[i].weekOptions == flat'[OptionCount(cg, i)..OptionCount(cg, i) + |cg[i]|]
      {
        if i < |made| {
          assert made'[i] == made[i];
          assert flat'[OptionCount(cg, i)..OptionCount(cg, i) + |cg[i]|] == flat[OptionCount(cg, i)..OptionCount(cg, i) + |cg[i]|];
        } else {
          assert flat'[|flat|..|flat'|] == c.weekOptions;
        }
      }
    }
  }

  /** The options before course `i` and those of course `i` together come
      no later than the options before any later course. */
  lemma {:induction false} OptionCountGrows(cg: seq<seq<Grid>>, i: nat, j: nat)
    requires i < j <= |cg|
    ensures OptionCount(cg, i) + |cg[i]| <= OptionCount(cg, j)
    decreases j
  {
    if j > i + 1 {
      OptionCountGrows(cg, i, j - 1);
    }
  }

  /** Each option of the collection gets its own number. */
  lemma CopyNumbersDistinct(cg: seq<seq<Grid>>, i: int, k: int, i2: int, k2: int)
    requires 0 <= i < |cg| && 0 <= k < |cg[i]|
    requires 0 <= i2 < |cg| && 0 <= k2 < |cg[i2]|
    requires i != i2 || k != k2
    ensures OptionCount(cg, i) + k != OptionCount(cg, i2) + k2
  {
    if i < i2 {
      OptionCountGrows(cg, i, i2);
    } else if i2 < i {
      OptionCountGrows(cg, i2, i);
    }
  }

  /** No two options of the copy get the same name. */
  lemma RenumberedLabelsDistinct(cs: seq<Course>, cg: seq<seq<Grid>>, i: int, k: int, i2: int, k2: int)
    requires Renumbered(cs, cg)
    requires 0 <= i < |cs| && 0 <= k < |cs[i].weekOptions|
    requires 0 <= i2 < |cs| && 0 <= k2 < |cs[i2].weekOptions|
    requires i != i2 || k != k2
    ensures cs[i].weekOptions[k].name != cs[i2].weekOptions[k2].name
  {
    assert CopyOf(cs[i].weekOptions, cg[i], OptionCount(cg, i));
    assert CopyOf(cs[i2].weekOptions, cg[i2], OptionCount(cg, i2));
    CopyNumbersDistinct(cg, i, k, i2, k2);
    CopyLabelInjective(OptionCount(cg, i) + k, OptionCount(cg, i2) + k2);
  }

  /** The copy holds the same timetable data, so the results window computes
      the same timetables from it as from the original. */
  lemma RenumberedGrids(cs: seq<Course>, cg: seq<seq<Grid>>)
    requires Renumbered(cs, cg)
    ensures CoursesValid(cs)
    ensures CourseGrids(cs) == cg
  {
    forall i | 0 <= i < |cs|
      ensures AllValid(cs[i].weekOptions)
    {
      assert CopyOf(cs[i].weekOptions, cg[i], OptionCount(cg, i));
    }
    forall i | 0 <= i < |cs|
      ensures CourseGrids(cs)[i] == cg[i]
    {
      assert CopyOf(cs[i].weekOptions, cg[i], OptionCount(cg, i));
      HoldsGridsOf(cs[i].weekOptions, cg[i]);
    }
  }

  /** The cell loops of the copy: every cell of `wold` is written into `wcopy`. */
  method CopyCells(wcopy: Week, wold: Week)
    requires wcopy.Valid() && wold.Valid() && wcopy.weekData != wold.weekData
    modifies wcopy.weekData
    ensures wcopy.Cells() == wold.Cells()
  {
    for d := 0 to Days
      invariant forall d', h :: 0 <= d' < d && 0 <= h < Hours ==> wcopy.weekData[d', h] == wold.weekData[d', h]
    {
      for h := 0 to Hours
        invariant forall d', h' :: 0 <= d' < d && 0 <= h' < Hours ==> wcopy.weekData[d', h'] == wold.weekData[d', h']
        invariant forall h' :: 0 <= h' < h ==> wcopy.weekData[d, h'] == wold.weekData[d, h']
      {
        var v := wold.GetOne(d, h);
        wcopy.SetOne(d, h, v);
      }
    }
    GridExt(wcopy.Cells(), wold.Cells());
  }

  /** One week of the copy: a new week named `name` with the cells of `wold`. */
  method CopyWeek(wold: Week, name: string) returns (wcopy: Week)
    requires wold.Valid()
    ensures fresh(wcopy) && wcopy.Valid() && wcopy.name == name
    ensures wcopy.Cells() == wold.Cells()
  {
    wcopy := new Week();
    wcopy.SetName(name);
    CopyCells(wcopy, wold);
  }

  /** One course of the copy: a new course with the same name whose options
      are new weeks "Week first+1", "Week first+2", ... holding the same grids. */
  method CopyCourse(src: Course, first: nat, ghost gs: seq<Grid>) returns (c: Course)
    requires Holds(src.weekOptions, gs)
    ensures fresh(c) && c.name == src.name
    ensures CopyOf(c.weekOptions, gs, first) && Distinct(c.weekOptions)
    ensures forall k :: 0 <= k < |c.weekOptions| ==> fresh(c.weekOptions[k])
  {
    c := new Course();
    c.SetName(src.name);
    ghost var made: seq<Week> := [];
    var validWeekNumber := first;
    for j := 0 to |src.weekOptions|
      invariant validWeekNumber == first + j
      invariant fresh(c) && c.name == src.name && c.weekOptions == made
      invariant Holds(src.weekOptions, gs) && CopyOf(made, gs[..j], first)
      invariant forall k :: 0 <= k < |made| ==> fresh(made[k])
    {
      var wcopy := CopyNextWeek(c, src, validWeekNumber, j, first, gs, made);
      validWeekNumber := validWeekNumber + 1;
      made := made + [wcopy];
    }
    assert gs[..|gs|] == gs;
    NamedApart(c.weekOptions, first);
  }

  /** One pass of the option loop of the copy: option `j` of `src` is
      copied as "Week validWeekNumber+1" and appended to `c`. */
  method CopyNextWeek(c: Course, src: Course, validWeekNumber: nat, j: nat, first: nat,
                      ghost gs: seq<Grid>, ghost made: seq<Week>)
    returns (wcopy: Week)
    requires c != src && Holds(src.weekOptions, gs) && j < |gs| && validWeekNumber == first + j
    requires c.weekOptions == made && CopyOf(made, gs[..j], first)
    modifies c
    ensures fresh(wcopy) && c.name == old(c.name) && c.weekOptions == made + [wcopy]
    ensures Holds(src.weekOptions, gs) && CopyOf(made + [wcopy], gs[..j + 1], first)
  {
    wcopy := CopyWeek(src.weekOptions[j], CopyLabel(validWeekNumber));
    CopyOfSnoc(made, gs, j, first, wcopy);
    c.AddOption(wcopy);
  }

  /** One more week copied: it extends the numbered copies. */
  lemma CopyOfSnoc(made: seq<Week>, gs: seq<Grid>, j: nat, first: nat, w: Week)
    requires j < |gs| && CopyOf(made, gs[..j], first)
    requires w.Valid() && w.Cells() == gs[j] && w.name == CopyLabel(first + j)
    ensures CopyOf(made + [w], gs[..j + 1], first)
  {
    assert gs[..j + 1] == gs[..j] + [gs[j]];
  }

  /** One pass of the course loop of the copy: course `i` is copied, its
      weeks numbered on from `validWeekNumber`, and appended to `copy`; the
      count of weeks copied so far moves on by the course's options. */
  method CopyNextCourse(copy: UserCollection, src: seq<Course>, i: nat, validWeekNumber: nat,
                        ghost cg: seq<seq<Grid>>, ghost made: seq<Course>, ghost flat: seq<Week>, ghost orig: set<Week>)
    returns (next: nat, ghost made': seq<Course>, ghost flat': seq<Week>)
    requires CoursesHold(src, cg) && CopyProgress(src, cg, i, made, flat) && i < |src|
    requires copy.courses == made && validWeekNumber == |flat|
    requires Apart(src, orig, made, flat)
    modifies copy
    ensures copy.courses == made' && next == |flat'|
    ensures next == validWeekNumber + |src[i].weekOptions|
    ensures Apart(src, orig, made', flat')
    ensures CoursesHold(src, cg) && CopyProgress(src, cg, i + 1, made', flat')
  {
    var c;
    c, made', flat' := CopyStep(src, i, validWeekNumber, cg, made, flat);
    copy.AddCourse(c);
    next := validWeekNumber + |src[i].weekOptions|;
  }

  /** The copy of course `i`, before it is added to the collection. */
  method CopyStep(src: seq<Course>, i: nat, validWeekNumber: nat,
                  ghost cg: seq<seq<Grid>>, ghost made: seq<Course>, ghost flat: seq<Week>)
    returns (c: Course, ghost made': seq<Course>, ghost flat': seq<Week>)
    requires CoursesHold(src, cg) && CopyProgress(src, cg, i, made, flat) && i < |src|
    requires validWeekNumber == |flat|
    ensures fresh(c) && made' == made + [c] && |flat'| == validWeekNumber + |src[i].weekOptions|
    ensures flat' == flat + c.weekOptions && fresh(c.weekOptions)
    ensures CoursesHold(src, cg) && CopyProgress(src, cg, i + 1, made', flat')
  {
    c := CopyCourse(src[i], validWeekNumber, cg[i]);
    CopyProgressStep(src, cg, i, made, flat, c);
    made', flat' := made + [c], flat + c.weekOptions;
  }

  /** Every week of every course in `cs`. */
  ghost function AllWeeks(cs: seq<Course>): set<Week>
    reads set j | 0 <= j < |cs| :: cs[j]
  {
    set j, k | 0 <= j < |cs| && 0 <= k < |cs[j].weekOptions| :: cs[j].weekOptions[k]
  }

  /** None of the copied courses `made` is one of the originals `src`, and
      none of the copied weeks `flat` is one of the original weeks `orig`. */
  ghost predicate Apart(src: seq<Course>, orig: set<Week>, made: seq<Course>, flat: seq<Week>)
  {
    && (forall j :: 0 <= j < |made| ==> made[j] !in src)
    && (forall k :: 0 <= k < |flat| ==> flat[k] !in orig)
  }

  /** Copied weeks laid out as `Sliced` says and kept apart from `orig`
      leave every week of the copied courses outside `orig`. */
  lemma CopiedWeeksApart(src: seq<Course>, orig: set<Week>, made: seq<Course>, cg: seq<seq<Grid>>, flat: seq<Week>)
    requires |made| <= |cg| && Sliced(made, cg, flat) && Apart(src, orig, made, flat)
    ensures AllWeeks(made) !! orig
  {
    forall w | w in AllWeeks(made)
      ensures w !in orig
    {
      var j, k :| 0 <= j < |made| && 0 <= k < |made[j].weekOptions| && made[j].weekOptions[k] == w;
      SlicedWeek(made, cg, flat, j, k);
    }
  }

  /** The deep copy viewResults makes: a new collection, renumbered across
      the collection, that shares no course and no week with the original. */
  method DeepCopy(u: UserCollection) returns (copy: UserCollection)
    requires CoursesValid(u.courses)
    ensures fresh(copy) && SameNames(u.courses, copy.courses)
    ensures Renumbered(copy.courses, CourseGrids(u.courses))
    ensures forall c :: c in copy.courses ==> c !in u.courses
    ensures AllWeeks(copy.courses) !! AllWeeks(u.courses)
  {
    ghost var cg := CourseGrids(u.courses);
    ghost var orig := AllWeeks(u.courses);
    CourseGridsHold(u.courses);
    ghost var made, flat;
    copy, made, flat := CopyCourses(u.courses, cg, orig);
    CopyDone(u.courses, cg, made, flat);
    assert AllWeeks(u.courses) == orig;
    CopiedWeeksApart(u.courses, orig, made, cg, flat);
  }

  /** The course loop of the copy, over courses holding the grids `cg`:
      course by course, each copied under its name with its weeks numbered
      on from the weeks of the courses before, into new courses and weeks
      that are none of `src` and none of `orig`. */
  method CopyCourses(src: seq<Course>, ghost cg: seq<seq<Grid>>, ghost orig: set<Week>)
    returns (copy: UserCollection, ghost made: seq<Course>, ghost flat: seq<Week>)
    requires CoursesHold(src, cg)
    ensures fresh(copy) && copy.courses == made
    ensures CopyProgress(src, cg, |src|, made, flat)
    ensures Apart(src, orig, made, flat)
  {
    flat, made := [], [];
    copy := new UserCollection();
    var validWeekNumber := 0;
    for i := 0 to |src|
      invariant validWeekNumber == |flat|
      invariant fresh(copy) && copy.courses == made
      invariant CoursesHold(src, cg) && CopyProgress(src, cg, i, made, flat)
      invariant Apart(src, orig, made, flat)
    {
      validWeekNumber, made, flat := CopyNextCourse(copy, src, i, validWeekNumber, cg, made, flat, orig);
    }
  }

  // ---------------------------------------------------------------------
  // The controller

  /** The item selected in the tree: nothing, a course, or a week under its
      course. */
  datatype Selection = NoSelection | CourseItem(course: Course) | WeekItem(course: Course, week: Week)

  /** What viewResults does: one of its two warnings, or it opens the results
      window with the copy. */
  datatype Outcome = InsufficientCourses | WeekContainsNoData | Opened(copy: UserCollection)

  /** The position of the first `x` at or after `j`, or |xs| if there is none. */
  function FirstIndexFrom<T(==)>(xs: seq<T>, x: T, j: nat): (i: nat)
    requires j <= |xs|
    ensures j <= i <= |xs| && (i < |xs| ==> xs[i] == x)
    ensures forall k :: j <= k < i ==> xs[k] != x
    decreases |xs| - j
  {
    if j == |xs| || xs[j] == x then j else FirstIndexFrom(xs, x, j + 1)
  }

  /** The first occurrence of `x` removed, as Java's List.remove(Object)
      does with reference equality; a list without `x` stays as it is. */
  function RemoveFirst<T(==)>(xs: seq<T>, x: T): (r: seq<T>)
    ensures x !in xs ==> r == xs
    ensures x in xs ==> exists i :: 0 <= i < |xs| && xs[i] == x && x !in xs[..i] && r == xs[..i] + xs[i + 1..]
  {
    var i := FirstIndexFrom(xs, x, 0);
    if i == |xs| then xs
    else
      assert x !in xs[..i] by {
        forall k | 0 <= k < i ensures xs[..i][k] != x { }
      }
      xs[..i] + xs[i + 1..]
  }

  class BuildTreeController {
    // constant here: newCollection and loadCollection, which replace it,
    // are not part of this model
    const ucol: UserCollection
    const table: TableViewController
    // the text of the task label
    var taskLabel: string

    /** The controller of a new main window, given its table and task label. */
    constructor (t: TableViewController, taskText: string)
      ensures fresh(ucol) && ucol.courses == [] && table == t && taskLabel == taskText
    {
      ucol := new UserCollection();
      table := t;
      taskLabel := taskText;
    }

    /** The tree lists the collection: a selected course is one of its
        courses, a selected week one of its course's options. */
    ghost predicate InTree(s: Selection)
      reads ucol, if s.WeekItem? then {s.course} else {}
    {
      match s
      case NoSelection => true
      case CourseItem(c) => c in ucol.courses
      case WeekItem(c, w) => c in ucol.courses && w in c.weekOptions
    }

    /** changeActiveWeek: a selected week goes to the table for editing; a
        selected course is shown for viewing as the overlay of its options
        on a new week; with nothing selected nothing changes. */
    method ChangeActiveWeek(s: Selection)
      requires table.Valid() && InTree(s)
      requires s.WeekItem? ==> s.week.Valid() && NonNegative(s.week.Cells())
      requires s.CourseItem? ==> AllValid(s.course.weekOptions)
      requires s.CourseItem? ==> forall k :: 0 <= k < |s.course.weekOptions| ==> NonNegative(s.course.weekOptions[k].Cells())
      modifies this, table, table.fills
      ensures s.NoSelection? ==>
        && taskLabel == old(taskLabel) && unchanged(table, table.fills)
      ensures s.WeekItem? ==>
        && table.activeWeek == s.week && table.isEditable && table.ShowsActiveWeek()
        && s.week.Cells() == old(s.week.Cells())
        && taskLabel == "Editing: " + Text(s.course.name) + ", " + s.week.name
      ensures s.CourseItem? ==>
        && fresh(table.activeWeek) && !table.isEditable && table.ShowsActiveWeek()
        && table.activeWeek.Cells() == Overlay(old(GridsOf(s.course.weekOptions)))
        && taskLabel == "Viewing: " + Text(s.course.name)
    {
      match s
      case NoSelection =>
      case WeekItem(c, w) =>
        ShowWeek(c, w);
      case CourseItem(c) =>
        ShowCourse(c);
    }

    /** The week branch of changeActiveWeek: week `w` of course `c` becomes
        the table's editable week. */
    method ShowWeek(c: Course, w: Week)
      requires table.Valid() && w.Valid() && NonNegative(w.Cells())
      modifies this, table, table.fills
      ensures table.activeWeek == w && table.isEditable && table.ShowsActiveWeek()
      ensures w.Cells() == old(w.Cells())
      ensures taskLabel == "Editing: " + Text(c.name) + ", " + w.name
    {
      table.SetActiveWeek(w);
      table.SetEditable(true);
      taskLabel := "Editing: " + Text(c.name) + ", " + w.name;
    }

    /** The course branch of changeActiveWeek: the overlay of the options of
        `c`, on a new week, becomes the table's read-only week. */
    method ShowCourse(c: Course)
      requires table.Valid() && AllValid(c.weekOptions)
      requires forall k :: 0 <= k < |c.weekOptions| ==> NonNegative(c.weekOptions[k].Cells())
      modifies this, table, table.fills
      ensures fresh(table.activeWeek) && !table.isEditable && table.ShowsActiveWeek()
      ensures table.activeWeek.Cells() == Overlay(old(GridsOf(c.weekOptions)))
      ensures taskLabel == "Viewing: " + Text(c.name)
    {
      ghost var gs := GridsOf(c.weekOptions);
      var w := CourseOverlay(c);
      OverlayNonNegative(gs, |gs|);
      table.SetActiveWeek(w);
      table.SetEditable(false);
      taskLabel := "Viewing: " + Text(c.name);
    }

    /** viewResults: fewer than two courses, or an empty week option, gives
        a warning; otherwise the results window opens on a renumbered deep
        copy of the collection. */
    method ViewResults() returns (outcome: Outcome)
      requires CoursesValid(ucol.courses)
      ensures outcome.InsufficientCourses? <==> |ucol.courses| <= 1
      ensures outcome.WeekContainsNoData? <==> |ucol.courses| > 1 && SomeOptionEmpty(CourseGrids(ucol.courses))
      ensures outcome.Opened? ==>
        && fresh(outcome.copy) && SameNames(ucol.courses, outcome.copy.courses)
        && Renumbered(outcome.copy.courses, CourseGrids(ucol.courses))
      ensures outcome.Opened? ==> forall c :: c in outcome.copy.courses ==> c !in ucol.courses
      ensures outcome.Opened? ==> AllWeeks(outcome.copy.courses) !! AllWeeks(ucol.courses)
    {
      if |ucol.courses| <= 1 {
        return InsufficientCourses;
      }
      var emptyWeek := EmptyWeekFlag(ucol.courses);
      if emptyWeek {
        return WeekContainsNoData;
      }
      ghost var cg := CourseGrids(ucol.courses);
      var copy := DeepCopy(ucol);
      assert CourseGrids(ucol.courses) == cg;
      outcome := Opened(copy);
    }

    /** duplicateSelectedItem: a selected course is deep-copied, renamed
        "+Copy of <name>" and appended to the collection; a selected week is
        deep-copied, renamed "+Copy of <name>" and appended to its course. */
    method DuplicateSelectedItem(s: Selection)
      requires InTree(s)
      requires s.CourseItem? ==> AllValid(s.course.weekOptions)
      requires s.WeekItem? ==> s.week.Valid()
      modifies ucol, if s.WeekItem? then {s.course} else {}
      ensures s.NoSelection? ==> ucol.courses == old(ucol.courses)
      ensures s.CourseItem? ==>
        && |ucol.courses| == |old(ucol.courses)| + 1
        && ucol.courses[..|old(ucol.courses)|] == old(ucol.courses)
        && var d := ucol.courses[|old(ucol.courses)|];
        && fresh(d) && d.name == Some("+Copy of " + Text(s.course.name))
        && |d.weekOptions| == |s.course.weekOptions|
        && forall k :: 0 <= k < |d.weekOptions| ==>
          && fresh(d.weekOptions[k]) && d.weekOptions[k].Valid()
          && d.weekOptions[k].Cells() == s.course.weekOptions[k].Cells()
          && d.weekOptions[k].name == "+Copy of " + s.course.weekOptions[k].name
      ensures s.WeekItem? ==>
        && ucol.courses == old(ucol.courses) && s.course.name == old(s.course.name)
        && |s.course.weekOptions| == |old(s.course.weekOptions)| + 1
        && s.course.weekOptions[..|old(s.course.weekOptions)|] == old(s.course.weekOptions)
        && var nw := s.course.weekOptions[|old(s.course.weekOptions)|];
        && fresh(nw) && nw.Valid() && nw.Cells() == s.week.Cells()
        && nw.name == "+Copy of " + s.week.name
    {
      match s
      case NoSelection =>
      case CourseItem(c) =>
        var newCourse := c.GetCopy();
        newCourse.SetName(Some("+Copy of " + Text(c.name)));
        ucol.AddCourse(newCourse);
      case WeekItem(c, w) =>
        var newWeek := w.GetCopy();
        newWeek.SetName("+Copy of " + w.name);
        c.AddOption(newWeek);
    }

    /** newWeek: with a course or one of its weeks selected, the course gets
        a new empty week; with nothing selected only a warning is shown. */
    method NewWeek(s: Selection) returns (warned: bool)
      requires InTree(s)
      modifies if s.NoSelection? then {} else {s.course}
      ensures warned <==> s.NoSelection?
      ensures !warned ==>
        && |s.course.weekOptions| == |old(s.course.weekOptions)| + 1
        && s.course.weekOptions[..|old(s.course.weekOptions)|] == old(s.course.weekOptions)
        && s.course.name == old(s.course.name)
        && var w := s.course.weekOptions[|old(s.course.weekOptions)|];
        && fresh(w) && w.Valid() && w.Cells() == ZeroGrid()
        && w.name == "Week " + NatToString(|old(s.course.weekOptions)| + 1)
    {
      if s.NoSelection? {
        return true;
      }
      ucol.NewWeek(s.course);
      warned := false;
    }

    /** removeSelectedItem: a selected course leaves the collection, a
        selected week leaves its course (the first occurrence in each case). */
    method RemoveSelectedItem(s: Selection)
      requires InTree(s)
      modifies ucol, if s.WeekItem? then {s.course} else {}
      ensures s.NoSelection? ==> ucol.courses == old(ucol.courses)
      ensures s.CourseItem? ==> ucol.courses == RemoveFirst(old(ucol.courses), s.course)
      ensures s.WeekItem? ==>
        && ucol.courses == old(ucol.courses) && s.course.name == old(s.course.name)
        && s.course.weekOptions == RemoveFirst(old(s.course.weekOptions), s.week)
    {
      match s
      case NoSelection =>
      case CourseItem(c) =>
        ucol.courses := RemoveFirst(ucol.courses, c);
      case WeekItem(c, w) =>
        c.weekOptions := RemoveFirst(c.weekOptions, w);
    }

    /** renameSelectedItem: the text entered in the dialog (None when it is
        cancelled) becomes the name of the selected course or week. */
    method RenameSelectedItem(s: Selection, entered: Option<string>)
      requires InTree(s)
      modifies if s.NoSelection? then {} else if s.CourseItem? then {s.course} else {s.week}
      ensures entered.None? || s.NoSelection? ==> unchanged(if s.NoSelection? then {} else if s.CourseItem? then {s.course} else {s.week})
      ensures entered.Some? && s.CourseItem? ==> s.course.name == entered && s.course.weekOptions == old(s.course.weekOptions)
      ensures entered.Some? && s.WeekItem? ==> s.week.name == entered.value
    {
      if entered.Some? {
        match s
        case NoSelection =>
        case CourseItem(c) =>
          c.SetName(entered);
        case WeekItem(_, w) =>
          w.SetName(entered.value);
      }
    }
  }
}
