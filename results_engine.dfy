/** The combination engine of the results window on Week objects: the
    loops of processUserCollection, each proved against the functions of
    module Combination on the grids the weeks hold. */
module ResultsEngine {
  import opened Common
  import opened TimeGrid
  import opened Weeks
  import opened Courses
  import opened Combination

  predicate CoursesValid(cs: seq<Course>)
    reads set i | 0 <= i < |cs| :: cs[i]
  {
    forall i :: 0 <= i < |cs| ==> AllValid(cs[i].weekOptions)
  }

  /** The option grids of every course, course by course. */
  ghost function CourseGrids(cs: seq<Course>): (r: seq<seq<Grid>>)
    requires CoursesValid(cs)
    reads set i | 0 <= i < |cs| :: cs[i]
    reads set i, k | 0 <= i < |cs| && 0 <= k < |cs[i].weekOptions| :: cs[i].weekOptions[k].weekData
    ensures |r| == |cs| && WellFormed(r)
    ensures forall i :: 0 <= i < |cs| ==> r[i] == GridsOf(cs[i].weekOptions)
  {
    seq(|cs|, i requires 0 <= i < |cs| && AllValid(cs[i].weekOptions)
                reads set j | 0 <= j < |cs| :: cs[j]
                reads set j, k | 0 <= j < |cs| && 0 <= k < |cs[j].weekOptions| :: cs[j].weekOptions[k].weekData
                => GridsOf(cs[i].weekOptions))
  }

  /** Course i's options hold the grids courses[i], for every course. */
  ghost predicate CoursesHold(cs: seq<Course>, courses: seq<seq<Grid>>)
    reads set i | 0 <= i < |cs| :: cs[i]
    reads set i, k | 0 <= i < |cs| && 0 <= k < |cs[i].weekOptions| :: cs[i].weekOptions[k].weekData
  {
    |cs| == |courses| && forall i :: 0 <= i < |cs| ==> Holds(cs[i].weekOptions, courses[i])
  }

  lemma CourseGridsHold(cs: seq<Course>)
    requires CoursesValid(cs)
    ensures CoursesHold(cs, CourseGrids(cs))
  {
  }

  /** The conflict test of the engine: no hour holds a nonzero value in both
      weeks. Every cell is looked at; there is no early exit. */
  method IsValidPair(option: Week, prev: Week) returns (isValidWeek: bool)
    requires option.Valid() && prev.Valid()
    ensures isValidWeek <==> Disjoint(prev.Cells(), option.Cells())
  {
    ghost var a, b := option.Cells(), prev.Cells();
    isValidWeek := true;
    for d := 0 to Days
      invariant isValidWeek <==>
        forall d', h' :: 0 <= d' < d && 0 <= h' < Hours ==> b[d'][h'] == 0 || a[d'][h'] == 0
    {
      for h := 0 to Hours
        invariant isValidWeek <==>
          && (forall d', h' :: 0 <= d' < d && 0 <= h' < Hours ==> b[d'][h'] == 0 || a[d'][h'] == 0)
          && (forall h' :: 0 <= h' < h ==> b[d][h'] == 0 || a[d][h'] == 0)
      {
        var x := option.GetOne(d, h);
        if x != 0 {
          var y := prev.GetOne(d, h);
          if y != 0 {
            isValidWeek := false;
          }
        }
      }
    }
  }

  /** A new week holding both: the option's occupied cells get `tag`, then
      the earlier timetable's nonzero cells are written over them; last, the
      week is given its name. */
  method BuildMerged(option: Week, prev: Week, tag: int, name: string) returns (m: Week)
    requires option.Valid() && prev.Valid()
    ensures fresh(m) && fresh(m.weekData) && m.Valid() && m.name == name
    ensures m.Cells() == Merge(prev.Cells(), option.Cells(), tag)
  {
    ghost var a, b := option.Cells(), prev.Cells();
    ghost var target := Merge(b, a, tag);
    m := new Week();
    for d := 0 to Days
      invariant fresh(m) && fresh(m.weekData) && m.Valid() && m.name == "Week"
      invariant forall d', h' :: 0 <= d' < Days && 0 <= h' < Hours ==>
        m.weekData[d', h'] == if d' < d then target[d'][h'] else 0
    {
      for h := 0 to Hours
        invariant fresh(m) && fresh(m.weekData) && m.Valid() && m.name == "Week"
        invariant forall d', h' :: 0 <= d' < Days && 0 <= h' < Hours ==>
          m.weekData[d', h'] == if d' < d || (d' == d && h' < h) then target[d'][h'] else 0
      {
        var x := option.GetOne(d, h);
        if x != 0 {
          m.SetOne(d, h, tag);
        }
        var y := prev.GetOne(d, h);
        if y != 0 {
          m.SetOne(d, h, y);
        }
      }
    }
    m.SetName(name);
    GridExt(m.Cells(), target);
  }

  /** The body of the inner loop: one earlier timetable and one option; when
      they do not clash their merge, named by its position, is appended. */
  method AppendIfValid(acc: seq<Week>, ghost ag: seq<Grid>, prev: Week, option: Week, tag: int)
    returns (out: seq<Week>)
    requires Holds(acc, ag) && Distinct(acc) && prev.Valid() && option.Valid()
    ensures Distinct(out) && |out| >= |acc| && out[..|acc|] == acc
    ensures Holds(out, ag +
      (if Disjoint(prev.Cells(), option.Cells()) then [Merge(prev.Cells(), option.Cells(), tag)] else []))
    ensures forall k :: |acc| <= k < |out| ==> fresh(out[k]) && out[k].name == "Week " + NatToString(k + 1)
  {
    out := acc;
    var isValidWeek := IsValidPair(option, prev);
    if isValidWeek {
      var tmpOutputWeek := BuildMerged(option, prev, tag, "Week " + NatToString(|acc| + 1));
      out := acc + [tmpOutputWeek];
    }
  }

  /** The inner loop for one option: every earlier timetable that does not
      clash with it is merged with it, named by its position in the growing
      list, and appended. */
  method AppendPairs(acc: seq<Week>, ghost ag: seq<Grid>, prev: seq<Week>, ghost pg: seq<Grid>,
                     option: Week, tag: int)
    returns (out: seq<Week>)
    requires Holds(acc, ag) && Distinct(acc) && Holds(prev, pg) && option.Valid()
    ensures AllGrids(pg) && Distinct(out) && |out| >= |acc| && out[..|acc|] == acc
    ensures Holds(out, ag + Pairs(pg, option.Cells(), tag))
    ensures forall k :: |acc| <= k < |out| ==> fresh(out[k]) && out[k].name == "Week " + NatToString(k + 1)
  {
    assert AllGrids(pg);
    ghost var og := option.Cells();
    out := acc;
    for previousValid := 0 to |prev|
      invariant Distinct(out) && |out| >= |acc| && out[..|acc|] == acc
      invariant Holds(out, ag + Pairs(pg[..previousValid], og, tag))
      invariant forall k :: |acc| <= k < |out| ==> fresh(out[k]) && out[k].name == "Week " + NatToString(k + 1)
    {
      PairsSnoc(pg, previousValid, og, tag);
      out := AppendIfValid(out, ag + Pairs(pg[..previousValid], og, tag), prev[previousValid], option, tag);
    }
    assert pg[..|prev|] == pg;
  }

  /** The outer loop of one course: for each option in turn, the pairs it
      makes with the earlier timetables, in a list that starts empty. */
  method StepWeeks(prev: seq<Week>, ghost pg: seq<Grid>, options: seq<Week>, ghost og: seq<Grid>, tag: int)
    returns (out: seq<Week>)
    requires Holds(prev, pg) && Holds(options, og)
    ensures AllGrids(pg) && AllGrids(og) && Distinct(out)
    ensures Holds(out, Step(pg, og, tag))
    ensures forall k :: 0 <= k < |out| ==> fresh(out[k]) && out[k].name == "Week " + NatToString(k + 1)
  {
    assert AllGrids(pg) && AllGrids(og);
    out := [];
    for potentialValid := 0 to |options|
      invariant Distinct(out) && Holds(out, Step(pg, og[..potentialValid], tag))
      invariant forall k :: 0 <= k < |out| ==> fresh(out[k]) && out[k].name == "Week " + NatToString(k + 1)
    {
      out := AppendPairs(out, Step(pg, og[..potentialValid], tag), prev, pg, options[potentialValid], tag);
      assert og[..potentialValid + 1][..potentialValid] == og[..potentialValid];
    }
    assert og[..|options|] == og;
  }

  /** The copy loop of processUserCollection: a deep copy of every week. */
  method CopyAll(ws: seq<Week>, ghost gs: seq<Grid>) returns (copies: seq<Week>)
    requires Holds(ws, gs)
    ensures Holds(copies, gs)
    ensures forall k :: 0 <= k < |copies| ==> fresh(copies[k]) && fresh(copies[k].weekData)
  {
    copies := [];
    for t := 0 to |ws|
      invariant Holds(copies, gs[..t])
      invariant forall k :: 0 <= k < |copies| ==> fresh(copies[k]) && fresh(copies[k].weekData)
    {
      var c := ws[t].GetCopy();
      copies := copies + [c];
    }
    assert gs[..|ws|] == gs;
  }

  /** One pass of the course loop: the list is deep-copied, emptied, and
      refilled by the pairs of the copies with the course's options. */
  method CourseStep(ws: seq<Week>, ghost gs: seq<Grid>, options: seq<Week>, ghost og: seq<Grid>, tag: int)
    returns (out: seq<Week>)
    requires Holds(ws, gs) && Holds(options, og)
    ensures AllGrids(gs) && AllGrids(og) && Distinct(out)
    ensures Holds(out, Step(gs, og, tag))
    ensures forall k :: 0 <= k < |out| ==> fresh(out[k]) && out[k].name == "Week " + NatToString(k + 1)
  {
    var tempTimetables := CopyAll(ws, gs);
    out := StepWeeks(tempTimetables, gs, options, og, tag);
  }

  /** The course loop of processUserCollection: for each course in turn the
      list is copied and replaced by the pairs of the copies with the course's
      options. Nothing that exists beforehand is changed. */
  method RunEngine(ws: seq<Week>, ghost start: seq<Grid>, cs: seq<Course>, ghost courses: seq<seq<Grid>>)
    returns (out: seq<Week>)
    requires Holds(ws, start) && Distinct(ws) && CoursesHold(cs, courses)
    ensures AllGrids(start) && WellFormed(courses) && Distinct(out)
    ensures Holds(out, CombineFrom(start, courses))
    ensures |cs| == 0 ==> out == ws
    ensures |cs| > 0 ==> forall k :: 0 <= k < |out| ==>
      fresh(out[k]) && out[k].name == "Week " + NatToString(k + 1)
  {
    assert AllGrids(start);
    assert WellFormed(courses) by {
      forall i, k | 0 <= i < |courses| && 0 <= k < |courses[i]| ensures IsGrid(courses[i][k]) {
        assert Holds(cs[i].weekOptions, courses[i]);
      }
    }
    out := ws;
    for i := 0 to |cs|
      invariant Distinct(out) && Holds(out, CombineFrom(start, courses[..i]))
      invariant i == 0 ==> out == ws
      invariant i > 0 ==> forall k :: 0 <= k < |out| ==>
        fresh(out[k]) && out[k].name == "Week " + NatToString(k + 1)
    {
      assert Holds(cs[i].weekOptions, courses[i]);
      out := CourseStep(out, CombineFrom(start, courses[..i]), cs[i].weekOptions, courses[i], i + 1);
      CombineFromSnoc(start, courses, i);
    }
    assert courses[..|cs|] == courses;
  }

  /** The engine over one more course. */
  lemma CombineFromSnoc(start: seq<Grid>, courses: seq<seq<Grid>>, i: int)
    requires AllGrids(start) && WellFormed(courses) && 0 <= i < |courses|
    ensures CombineFrom(start, courses[..i + 1]) == Step(CombineFrom(start, courses[..i]), courses[i], i + 1)
  {
    assert courses[..i + 1][..i] == courses[..i];
  }

  /** Pairs over one more earlier timetable. */
  lemma PairsSnoc(pg: seq<Grid>, j: int, og: Grid, tag: int)
    requires AllGrids(pg) && IsGrid(og) && 0 <= j < |pg|
    ensures Pairs(pg[..j + 1], og, tag) ==
      Pairs(pg[..j], og, tag) + (if Disjoint(pg[j], og) then [Merge(pg[j], og, tag)] else [])
  {
    assert pg[..j + 1][..j] == pg[..j];
  }
}
