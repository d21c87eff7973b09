/** The value behind a Week: a 5-day by 13-hour grid of integer tags (0 =
    free), and the three metrics the results window filters and sorts by.
    Every metric is built from the per-day span: last occupied hour minus
    first occupied hour plus one, idle gaps included. */
module TimeGrid {

  const Days: nat := 5
  const Hours: nat := 13

  type Grid = seq<seq<int>>

  predicate IsGrid(g: Grid) {
    |g| == Days && forall d :: 0 <= d < Days ==> |g[d]| == Hours
  }

  predicate AllGrids(gs: seq<Grid>) {
    forall j :: 0 <= j < |gs| ==> IsGrid(gs[j])
  }

  function ZeroGrid(): (g: Grid)
    ensures IsGrid(g)
    ensures forall d, h :: 0 <= d < Days && 0 <= h < Hours ==> g[d][h] == 0
  {
    seq(Days, _ => seq(Hours, _ => 0))
  }

  predicate IsZero(g: Grid)
    requires IsGrid(g)
  {
    forall d, h :: 0 <= d < Days && 0 <= h < Hours ==> g[d][h] == 0
  }

  predicate NonNegative(g: Grid)
    requires IsGrid(g)
  {
    forall d, h :: 0 <= d < Days && 0 <= h < Hours ==> g[d][h] >= 0
  }

  /** Two grids are equal when they agree on every cell. */
  lemma GridExt(a: Grid, b: Grid)
    requires IsGrid(a) && IsGrid(b)
    requires forall d, h :: 0 <= d < Days && 0 <= h < Hours ==> a[d][h] == b[d][h]
    ensures a == b
  {
    forall d | 0 <= d < Days ensures a[d] == b[d] {
      assert forall h :: 0 <= h < Hours ==> a[d][h] == b[d][h];
    }
  }

  // ---------------------------------------------------------------------
  // One day

  predicate Occupied(row: seq<int>) {
    exists h :: 0 <= h < |row| && row[h] != 0
  }

  /** The forward scan: the first nonzero hour at or after `h`, or |row| if none. */
  function FirstFrom(row: seq<int>, h: nat): (f: nat)
    requires h <= |row|
    ensures h <= f <= |row|
    ensures forall k :: h <= k < f ==> row[k] == 0
    ensures f < |row| ==> row[f] != 0
    decreases |row| - h
  {
    if h == |row| then |row| else if row[h] != 0 then h else FirstFrom(row, h + 1)
  }

  /** The backward scan: the last nonzero hour below `h`, or -1 if none. */
  function LastBelow(row: seq<int>, h: nat): (l: int)
    requires h <= |row|
    ensures -1 <= l < h
    ensures forall k :: l < k < h ==> row[k] == 0
    ensures l >= 0 ==> row[l] != 0
  {
    if h == 0 then -1 else if row[h - 1] != 0 then h - 1 else LastBelow(row, h - 1)
  }

  /** The length of a day: 0 for a free day, else last - first + 1. */
  function Span(row: seq<int>): (s: int)
    ensures 0 <= s <= |row|
    ensures s == 0 <==> !Occupied(row)
  {
    var f := FirstFrom(row, 0);
    if f == |row| then 0 else LastBelow(row, |row|) - f + 1
  }

  /** What a nonzero span measures: the hours from the first to the last
      occupied hour of the day, both included. */
  lemma SpanIsFirstToLast(row: seq<int>, first: nat, last: nat)
    requires first <= last < |row|
    requires row[first] != 0 && row[last] != 0
    requires forall k :: 0 <= k < first ==> row[k] == 0
    requires forall k :: last < k < |row| ==> row[k] == 0
    ensures Span(row) == last - first + 1
  {
    var f := FirstFrom(row, 0);
    var l := LastBelow(row, |row|);
    assert row[first] != 0 && row[last] != 0;
  }

  // ---------------------------------------------------------------------
  // Whole week: running maximum, running sum and running count over days

  function MaxSpanUpTo(g: Grid, n: nat): (m: int)
    requires IsGrid(g) && n <= Days
    ensures 0 <= m <= Hours
    ensures forall d :: 0 <= d < n ==> Span(g[d]) <= m
    ensures n > 0 ==> exists d :: 0 <= d < n && Span(g[d]) == m
    ensures n == 0 ==> m == 0
  {
    if n == 0 then 0
    else
      var prev := MaxSpanUpTo(g, n - 1);
      var s := Span(g[n - 1]);
      if s > prev then s else prev
  }

  function SumSpanUpTo(g: Grid, n: nat): (t: int)
    requires IsGrid(g) && n <= Days
    ensures 0 <= t
  {
    if n == 0 then 0 else SumSpanUpTo(g, n - 1) + Span(g[n - 1])
  }

  function CountOccupiedUpTo(g: Grid, n: nat): (c: int)
    requires IsGrid(g) && n <= Days
    ensures 0 <= c <= n
  {
    if n == 0 then 0 else CountOccupiedUpTo(g, n - 1) + (if Occupied(g[n - 1]) then 1 else 0)
  }

  /** getLongestDay: the largest span of any day. */
  function LongestDay(g: Grid): int
    requires IsGrid(g)
  {
    MaxSpanUpTo(g, Days)
  }

  /** getTotalHours: the sum of the five spans. */
  function TotalHours(g: Grid): int
    requires IsGrid(g)
  {
    SumSpanUpTo(g, Days)
  }

  /** getTotalDays: how many days have a class. */
  function TotalDays(g: Grid): int
    requires IsGrid(g)
  {
    CountOccupiedUpTo(g, Days)
  }

  // ---------------------------------------------------------------------
  // Properties of the metrics

  /** The longest day is the maximum span: no day is longer, one day attains it. */
  lemma LongestDayIsMaximum(g: Grid)
    requires IsGrid(g)
    ensures 0 <= LongestDay(g) <= Hours
    ensures forall d :: 0 <= d < Days ==> Span(g[d]) <= LongestDay(g)
    ensures exists d :: 0 <= d < Days && Span(g[d]) == LongestDay(g)
  {
  }

  lemma {:induction false} SumSpanBounds(g: Grid, n: nat)
    requires IsGrid(g) && n <= Days
    ensures MaxSpanUpTo(g, n) <= SumSpanUpTo(g, n) <= n * MaxSpanUpTo(g, n)
  {
    if n > 0 {
      SumSpanBounds(g, n - 1);
      var m, m', s := MaxSpanUpTo(g, n - 1), MaxSpanUpTo(g, n), Span(g[n - 1]);
      assert SumSpanUpTo(g, n) == SumSpanUpTo(g, n - 1) + s;
      assert m <= m' && s <= m';
      assert (n - 1) * m <= (n - 1) * m' by {
        MulMonotone(n - 1, m, m');
      }
      assert (n - 1) * m' + m' == n * m';
    }
  }

  lemma MulMonotone(k: nat, a: int, b: int)
    requires a <= b
    ensures k * a <= k * b
  {
    assert k * b - k * a == k * (b - a);
  }

  lemma {:induction false} CountBounds(g: Grid, n: nat)
    requires IsGrid(g) && n <= Days
    ensures CountOccupiedUpTo(g, n) <= SumSpanUpTo(g, n)
    ensures 0 <= CountOccupiedUpTo(g, n) <= n
  {
    if n > 0 {
      CountBounds(g, n - 1);
      assert Occupied(g[n - 1]) ==> Span(g[n - 1]) >= 1;
    }
  }

  /** Bounds of getTotalHours and how it relates to the other two metrics. */
  lemma TotalHoursBounds(g: Grid)
    requires IsGrid(g)
    ensures 0 <= TotalHours(g) <= Days * Hours
    ensures LongestDay(g) <= TotalHours(g) <= Days * LongestDay(g)
    ensures TotalDays(g) <= TotalHours(g)
    ensures 0 <= TotalDays(g) <= Days
  {
    SumSpanBounds(g, Days);
    CountBounds(g, Days);
    LongestDayIsMaximum(g);
  }

  lemma {:induction false} CountIsCardinality(g: Grid, n: nat)
    requires IsGrid(g) && n <= Days
    ensures CountOccupiedUpTo(g, n) == |set d | 0 <= d < n && Occupied(g[d])|
  {
    if n > 0 {
      CountIsCardinality(g, n - 1);
      var before := set d | 0 <= d < n - 1 && Occupied(g[d]);
      var now := set d | 0 <= d < n && Occupied(g[d]);
      if Occupied(g[n - 1]) {
        assert now == before + {n - 1};
      } else {
        assert now == before;
      }
    }
  }

  /** getTotalDays counts exactly the days with at least one nonzero cell. */
  lemma TotalDaysIsOccupiedDays(g: Grid)
    requires IsGrid(g)
    ensures TotalDays(g) == |set d | 0 <= d < Days && Occupied(g[d])|
    ensures 0 <= TotalDays(g) <= Days
  {
    CountIsCardinality(g, Days);
    CountBounds(g, Days);
  }

  lemma {:induction false} ZeroUpTo(g: Grid, n: nat)
    requires IsGrid(g) && n <= Days
    ensures SumSpanUpTo(g, n) == 0 <==> forall d :: 0 <= d < n ==> !Occupied(g[d])
    ensures CountOccupiedUpTo(g, n) == 0 <==> forall d :: 0 <= d < n ==> !Occupied(g[d])
  {
    if n > 0 {
      ZeroUpTo(g, n - 1);
      CountBounds(g, n - 1);
    }
  }

  /** All three metrics are 0 exactly when the grid is all zero. */
  lemma MetricsZeroIffEmpty(g: Grid)
    requires IsGrid(g)
    ensures LongestDay(g) == 0 <==> IsZero(g)
    ensures TotalHours(g) == 0 <==> IsZero(g)
    ensures TotalDays(g) == 0 <==> IsZero(g)
  {
    ZeroUpTo(g, Days);
    LongestDayIsMaximum(g);
    assert IsZero(g) <==> forall d :: 0 <= d < Days ==> !Occupied(g[d]) by {
      if !IsZero(g) {
        var d, h :| 0 <= d < Days && 0 <= h < Hours && g[d][h] != 0;
        assert Occupied(g[d]);
      }
    }
  }
}
