/** Week: one weekly grid object. It holds a 5 x 13 array of Integers, which
    is either one course option (1s and 0s) or a whole timetable (course
    tags). Its metrics are the nested scans of the original, proved equal to
    the functions of module TimeGrid. */
module Weeks {
  import opened TimeGrid

  class Week {
    var name: string
    // The array is never replaced (setAll/getAll are not part of this model),
    // so the dimensions are a fact about the object, not about its state.
    const weekData: array2<int>

    predicate Valid() {
      weekData.Length0 == Days && weekData.Length1 == Hours
    }

    /** The grid this week currently holds. */
    ghost function Cells(): (g: Grid)
      requires Valid()
      reads weekData
      ensures IsGrid(g)
      ensures forall d, h :: 0 <= d < Days && 0 <= h < Hours ==> g[d][h] == weekData[d, h]
    {
      seq(Days, d requires 0 <= d < Days reads weekData =>
        seq(Hours, h requires 0 <= h < Hours reads weekData => weekData[d, h]))
    }

    /** A new week is named "Week" and every cell is 0. */
    constructor ()
      ensures Valid() && fresh(weekData)
      ensures name == "Week"
      ensures Cells() == ZeroGrid()
    {
      name := "Week";
      weekData := new int[Days, Hours];
      new;
      for i := 0 to Days
        invariant name == "Week"
        invariant forall d, h :: 0 <= d < i && 0 <= h < Hours ==> weekData[d, h] == 0
      {
        for j := 0 to Hours
          invariant name == "Week"
          invariant forall d, h :: 0 <= d < i && 0 <= h < Hours ==> weekData[d, h] == 0
          invariant forall h :: 0 <= h < j ==> weekData[i, h] == 0
        {
          weekData[i, j] := 0;
        }
      }
      GridExt(Cells(), ZeroGrid());
    }

    method GetName() returns (n: string)
      ensures n == name
    {
      n := name;
    }

    method SetName(n: string)
      modifies this
      ensures name == n
    {
      name := n;
    }

    /** After setOne(d, h, v) the cell (d, h) holds v and no other cell changed. */
    method SetOne(day: int, hour: int, newValue: int)
      requires Valid() && 0 <= day < Days && 0 <= hour < Hours
      modifies weekData
      ensures Cells() == old(Cells())[day := old(Cells())[day][hour := newValue]]
    {
      weekData[day, hour] := newValue;
      GridExt(Cells(), old(Cells())[day := old(Cells())[day][hour := newValue]]);
    }

    method GetOne(day: int, hour: int) returns (v: int)
      requires Valid() && 0 <= day < Days && 0 <= hour < Hours
      ensures v == Cells()[day][hour]
    {
      v := weekData[day, hour];
    }

    /** A deep copy: same cells in fresh storage, named "+Copy of " + name. */
    method GetCopy() returns (w: Week)
      requires Valid()
      ensures fresh(w) && fresh(w.weekData) && w.Valid()
      ensures w.Cells() == Cells()
      ensures w.name == "+Copy of " + name
    {
      w := new Week();
      for d := 0 to Days
        invariant w.Valid() && fresh(w.weekData)
        invariant forall d', h :: 0 <= d' < d && 0 <= h < Hours ==> w.weekData[d', h] == weekData[d', h]
      {
        for h := 0 to Hours
          invariant forall d', h' :: 0 <= d' < d && 0 <= h' < Hours ==> w.weekData[d', h'] == weekData[d', h']
          invariant forall h' :: 0 <= h' < h ==> w.weekData[d, h'] == weekData[d, h']
        {
          w.SetOne(d, h, weekData[d, h]);
        }
      }
      // the original renames the copy on every pass of the inner loop; the
      // last rename is the one that stays
      w.SetName("+Copy of " + name);
      GridExt(w.Cells(), Cells());
    }

    /** The span of one day: the forward scan for the first occupied hour,
        then the backward scan for the last one (shared by getLongestDay and
        getTotalHours, which repeat it inline). */
    method DaySpan(d: int) returns (subtotal: int)
      requires Valid() && 0 <= d < Days
      ensures subtotal == Span(Cells()[d])
    {
      ghost var row := Cells()[d];
      subtotal := 0;
      var sectionStart := 0;
      for h := 0 to Hours
        invariant forall k :: 0 <= k < h ==> row[k] == 0
        invariant sectionStart == 0
      {
        if weekData[d, h] != 0 {
          sectionStart := h;
          break;
        }
      }
      assert sectionStart == FirstFrom(row, 0) || !Occupied(row);
      for h := Hours downto 0
        invariant forall k :: h <= k < Hours ==> row[k] == 0
        invariant subtotal == 0
      {
        if weekData[d, h] != 0 {
          subtotal := subtotal + (h - sectionStart + 1);
          break;
        }
      }
    }

    /** getLongestDay: the largest span over the five days. */
    method GetLongestDay() returns (longest: int)
      requires Valid()
      ensures longest == LongestDay(Cells())
    {
      longest := 0;
      for d := 0 to Days
        invariant longest == MaxSpanUpTo(Cells(), d)
      {
        var subtotal := DaySpan(d);
        if subtotal > longest {
          longest := subtotal;
        }
      }
    }

    /** getTotalHours: the sum of the five spans. */
    method GetTotalHours() returns (totalHours: int)
      requires Valid()
      ensures totalHours == TotalHours(Cells())
    {
      totalHours := 0;
      for d := 0 to Days
        invariant totalHours == SumSpanUpTo(Cells(), d)
      {
        var s := DaySpan(d);
        totalHours := totalHours + s;
      }
    }

    /** getTotalDays: the number of days with a nonzero cell. */
    method GetTotalDays() returns (totalDays: int)
      requires Valid()
      ensures totalDays == TotalDays(Cells())
    {
      totalDays := 0;
      for d := 0 to Days
        invariant totalDays == CountOccupiedUpTo(Cells(), d)
      {
        ghost var row := Cells()[d];
        for h := 0 to Hours
          invariant forall k :: 0 <= k < h ==> row[k] == 0
          invariant totalDays == CountOccupiedUpTo(Cells(), d)
        {
          if weekData[d, h] != 0 {
            totalDays := totalDays + 1;
            break;
          }
        }
      }
    }
  }
}
