/** Course: a (possibly unset) name and an ordered list of week options. */
module Courses {
  import opened Common
  import opened TimeGrid
  import opened Weeks

  /** Every option of the list is a well-formed 5 x 13 week. */
  predicate AllValid(ws: seq<Week>) {
    forall k :: 0 <= k < |ws| ==> ws[k].Valid()
  }

  /** The weeks hold the grids `gs`, one each, in order. */
  ghost predicate Holds(ws: seq<Week>, gs: seq<Grid>)
    reads set k | 0 <= k < |ws| :: ws[k].weekData
  {
    |ws| == |gs| && forall k :: 0 <= k < |ws| ==> ws[k].Valid() && ws[k].Cells() == gs[k]
  }

  /** The grids a list of weeks holds, in order. */
  ghost function GridsOf(ws: seq<Week>): (gs: seq<Grid>)
    requires AllValid(ws)
    reads set k | 0 <= k < |ws| :: ws[k].weekData
    ensures AllGrids(gs) && Holds(ws, gs)
  {
    seq(|ws|, k requires 0 <= k < |ws| reads set j | 0 <= j < |ws| :: ws[j].weekData => ws[k].Cells())
  }

  /** Holds pins the grids down: they are GridsOf. */
  lemma HoldsGridsOf(ws: seq<Week>, gs: seq<Grid>)
    requires Holds(ws, gs)
    ensures AllValid(ws) && AllGrids(gs) && gs == GridsOf(ws)
  {
  }

  class Course {
    // Java leaves the name null until setName is called
    var name: Option<string>
    var weekOptions: seq<Week>

    constructor ()
      ensures name == None && weekOptions == []
    {
      name := None;
      weekOptions := [];
    }

    method SetName(n: Option<string>)
      modifies this
      ensures name == n && weekOptions == old(weekOptions)
    {
      name := n;
    }

    /** getName; toString returns the very same field. */
    method GetName() returns (n: Option<string>)
      ensures n == name
    {
      n := name;
    }

    /** addOption appends at the end; earlier options stay where they were. */
    method AddOption(w: Week)
      modifies this
      ensures weekOptions == old(weekOptions) + [w]
      ensures name == old(name)
    {
      weekOptions := weekOptions + [w];
    }

    /** replaceOption changes the option at `index` and nothing else; Java's
        ArrayList.set throws for an index outside the list. */
    method ReplaceOption(index: int, w: Week)
      requires 0 <= index < |weekOptions|
      modifies this
      ensures weekOptions == old(weekOptions)[index := w]
      ensures name == old(name)
    {
      weekOptions := weekOptions[index := w];
    }

    /** A deep copy: the same options in the same order, each a fresh week
        with equal cells (named "+Copy of ..." by Week.getCopy); the course
        name is not carried over. */
    method GetCopy() returns (c: Course)
      requires AllValid(weekOptions)
      ensures fresh(c) && c.name == None
      ensures |c.weekOptions| == |weekOptions| && AllValid(c.weekOptions)
      ensures Distinct(c.weekOptions)
      ensures forall k :: 0 <= k < |weekOptions| ==>
        && fresh(c.weekOptions[k]) && fresh(c.weekOptions[k].weekData)
        && c.weekOptions[k].Cells() == weekOptions[k].Cells()
        && c.weekOptions[k].name == "+Copy of " + weekOptions[k].name
    {
      c := new Course();
      for i := 0 to |weekOptions|
        invariant fresh(c) && c.name == None
        invariant |c.weekOptions| == i && AllValid(c.weekOptions) && Distinct(c.weekOptions)
        invariant forall k :: 0 <= k < i ==>
          && fresh(c.weekOptions[k]) && fresh(c.weekOptions[k].weekData)
          && c.weekOptions[k].Cells() == weekOptions[k].Cells()
          && c.weekOptions[k].name == "+Copy of " + weekOptions[k].name
      {
        var weekCopy := weekOptions[i].GetCopy();
        c.AddOption(weekCopy);
      }
    }
  }

  /** The copy is independent storage: writing a cell of a copied option
      leaves every option of the original course as it was. */
  method CopyIsIndependent(original: Course, k: int, day: int, hour: int, v: int) returns (copy: Course)
    requires AllValid(original.weekOptions)
    requires 0 <= k < |original.weekOptions| && 0 <= day < Days && 0 <= hour < Hours
    ensures |copy.weekOptions| == |original.weekOptions| && AllValid(copy.weekOptions)
    ensures copy.weekOptions[k].Cells()[day][hour] == v
    ensures forall j :: 0 <= j < |original.weekOptions| ==>
      original.weekOptions[j].Cells() == old(original.weekOptions[j].Cells())
  {
    copy := original.GetCopy();
    copy.weekOptions[k].SetOne(day, hour, v);
  }
}
