/** The table view: a 5 x 13 grid of rectangles that shows the active week,
    one colour per cell, and lets the user toggle cells of an editable week
    by clicking them. The seven colours are kept as their indices: index 0
    is the grey of a free hour, indices 1..6 the colours of occupied ones. */
module TableView {
  import opened TimeGrid
  import opened Weeks

  // how many colours occupied cells cycle through
  const NumColours: int := 6

  /** An index into the seven colours (grey and six others). */
  newtype Colour = c: int | 0 <= c <= NumColours

  /** The colour index updateRects computes for a cell value, as written:
      values above NumColours are taken modulo NumColours, the others are used
      as they are. A negative value would index outside the colours and is
      excluded. */
  function ColourAsWritten(v: int): (c: int)
    requires v >= 0
    ensures 0 <= c <= NumColours
    ensures v <= NumColours ==> c == v
    ensures v > NumColours ==> c == v % NumColours && c < NumColours
  {
    if v > NumColours then v % NumColours else v
  }

  /** A nonzero value that is a multiple of NumColours above it, such as the
      tag 12, gets the grey of a free hour. */
  lemma ColourAsWrittenHidesTwelve()
    ensures ColourAsWritten(12) == 0
  {
  }

  /** Occupied cells cycle through colours 1..6, so only a free cell is grey;
      the colour agrees with ColourAsWritten everywhere else. */
  function ColourOf(v: int): (c: Colour)
    requires v >= 0
    ensures c == 0 <==> v == 0
    ensures v > 0 ==> (c as int - 1) == (v - 1) % NumColours
    ensures !(v > NumColours && v % NumColours == 0) ==> c as int == ColourAsWritten(v)
  {
    if v == 0 then 0 else ((v - 1) % NumColours + 1) as Colour
  }

  /** The colours the grid should show for a week's cells. */
  function ColoursOf(g: Grid): (r: seq<seq<Colour>>)
    requires IsGrid(g) && NonNegative(g)
    ensures |r| == Days && forall d :: 0 <= d < Days ==> |r[d]| == Hours
    ensures forall d, h :: 0 <= d < Days && 0 <= h < Hours ==> r[d][h] == ColourOf(g[d][h])
  {
    seq(Days, d requires 0 <= d < Days =>
      seq(Hours, h requires 0 <= h < Hours => ColourOf(g[d][h])))
  }

  /** Two colourings are equal when they agree on every rectangle. */
  lemma ColoursExt(a: seq<seq<Colour>>, b: seq<seq<Colour>>)
    requires |a| == |b| == Days
    requires forall d :: 0 <= d < Days ==> |a[d]| == |b[d]| == Hours
    requires forall d, h :: 0 <= d < Days && 0 <= h < Hours ==> a[d][h] == b[d][h]
    ensures a == b
  {
    forall d | 0 <= d < Days ensures a[d] == b[d] {
      assert forall h :: 0 <= h < Hours ==> a[d][h] == b[d][h];
    }
  }

  /** What a click does to a cell of an editable week: 0 becomes 1, any other
      value becomes 0. */
  function Toggle(v: int): (t: int)
    ensures t == 0 || t == 1
    ensures t == 1 <==> v == 0
  {
    if v == 0 then 1 else 0
  }

  /** Two clicks on the same cell give back a cell that held 0 or 1. */
  lemma ToggleTwice(v: int)
    requires v == 0 || v == 1
    ensures Toggle(Toggle(v)) == v
  {
  }

  class TableViewController {
    var isEditable: bool
    var activeWeek: Week?
    // the colour of each rectangle, [day, hour]
    const fills: array2<Colour>

    predicate Valid() {
      fills.Length0 == Days && fills.Length1 == Hours
    }

    ghost function Fills(): (r: seq<seq<Colour>>)
      requires Valid()
      reads fills
      ensures |r| == Days && forall d :: 0 <= d < Days ==> |r[d]| == Hours
      ensures forall d, h :: 0 <= d < Days && 0 <= h < Hours ==> r[d][h] == fills[d, h]
    {
      seq(Days, d requires 0 <= d < Days reads fills =>
        seq(Hours, h requires 0 <= h < Hours reads fills => fills[d, h]))
    }

    /** The rectangles show the active week: each rectangle has the colour of
        its cell. */
    ghost predicate ShowsActiveWeek()
      reads this, fills, if activeWeek == null then {} else {activeWeek.weekData}
    {
      && Valid() && activeWeek != null && activeWeek.Valid()
      && NonNegative(activeWeek.Cells())
      && Fills() == ColoursOf(activeWeek.Cells())
    }

    /** initialize: not editable, no week, every rectangle grey. */
    constructor ()
      ensures Valid() && fresh(fills)
      ensures !isEditable && activeWeek == null
      ensures forall d, h :: 0 <= d < Days && 0 <= h < Hours ==> fills[d, h] == 0
    {
      isEditable := false;
      activeWeek := null;
      fills := new Colour[Days, Hours]((_, _) => 0);
    }

    /** setEditable: only the flag changes. */
    method SetEditable(b: bool)
      modifies this
      ensures isEditable == b && activeWeek == old(activeWeek)
    {
      isEditable := b;
    }

    /** setActiveWeek: `w` becomes the active week and the rectangles are
        repainted from it; the editable flag stays. */
    method SetActiveWeek(w: Week)
      requires Valid() && w.Valid() && NonNegative(w.Cells())
      modifies this, fills
      ensures activeWeek == w && isEditable == old(isEditable)
      ensures w.Cells() == old(w.Cells())
      ensures ShowsActiveWeek()
    {
      activeWeek := w;
      UpdateRects();
    }

    /** resetRects: every rectangle grey. */
    method ResetRects()
      requires Valid()
      modifies fills
      ensures forall d, h :: 0 <= d < Days && 0 <= h < Hours ==> fills[d, h] == 0
    {
      for i := 0 to Days
        invariant forall d, h :: 0 <= d < i && 0 <= h < Hours ==> fills[d, h] == 0
      {
        for j := 0 to Hours
          invariant forall d, h :: 0 <= d < i && 0 <= h < Hours ==> fills[d, h] == 0
          invariant forall h :: 0 <= h < j ==> fills[i, h] == 0
        {
          fills[i, j] := 0;
        }
      }
    }

    /** updateRects: reset, then colour every rectangle from its cell. */
    method UpdateRects()
      requires Valid() && activeWeek != null && activeWeek.Valid() && NonNegative(activeWeek.Cells())
      modifies fills
      ensures ShowsActiveWeek()
    {
      ResetRects();
      var g := activeWeek.Cells();
      for i := 0 to Days
        invariant forall d, h :: 0 <= d < i && 0 <= h < Hours ==> fills[d, h] == ColourOf(g[d][h])
      {
        for j := 0 to Hours
          invariant forall d, h :: 0 <= d < i && 0 <= h < Hours ==> fills[d, h] == ColourOf(g[d][h])
          invariant forall h :: 0 <= h < j ==> fills[i, h] == ColourOf(g[i][h])
        {
          var v := activeWeek.GetOne(i, j);
          fills[i, j] := ColourOf(v);
        }
      }
      ColoursExt(Fills(), ColoursOf(g));
    }

    /** rectClicked on the rectangle of (day, hour): on an editable week the
        cell is toggled and its rectangle recoloured, nothing else changes;
        when editing is off (a week shown for viewing only, or no week yet),
        nothing changes at all. An editable table always shows a week, and
        it still shows it after the click. */
    method RectClicked(day: int, hour: int)
      requires 0 <= day < Days && 0 <= hour < Hours
      requires Valid() && (isEditable ==> ShowsActiveWeek())
      modifies if activeWeek == null then {} else {activeWeek.weekData}, fills
      ensures isEditable ==> ShowsActiveWeek()
      ensures isEditable ==>
        activeWeek.Cells() == old(activeWeek.Cells())[day := old(activeWeek.Cells())[day][hour := Toggle(old(activeWeek.Cells())[day][hour])]]
      ensures !isEditable ==> unchanged(fills) && (activeWeek != null ==> unchanged(activeWeek.weekData))
      ensures old(ShowsActiveWeek()) ==> ShowsActiveWeek()
    {
      if isEditable {
        var v := activeWeek.GetOne(day, hour);
        if v == 0 {
          activeWeek.SetOne(day, hour, 1);
          fills[day, hour] := 1;
        } else {
          activeWeek.SetOne(day, hour, 0);
          fills[day, hour] := 0;
        }
        ColoursExt(Fills(), ColoursOf(activeWeek.Cells()));
      }
    }
  }
}
