/** UserCollection: the user's ordered list of courses, with the editing
    operations that add courses and weeks and the demo-data generator. */
module UserCollections {
  import opened Common
  import opened TimeGrid
  import opened Weeks
  import opened Courses

  // dummy-data constants of the generator
  const GenDaysPerWeek: nat := 1
  const GenHoursPerClass: nat := 3
  const GenOptions: nat := 3
  // the "no day yet" value lastDay starts from
  const NoDay: int := 99

  /** A generated block: `GenHoursPerClass` hours set to 1 from `start` on `day`. */
  predicate IsBlock(day: int, start: int) {
    0 <= day < Days && 0 <= start && start + GenHoursPerClass <= Hours
  }

  function Paint(g: Grid, day: int, start: int): (r: Grid)
    requires IsGrid(g) && IsBlock(day, start)
    ensures IsGrid(r)
  {
    g[day := seq(Hours, h requires 0 <= h < Hours =>
      if start <= h < start + GenHoursPerClass then 1 else g[day][h])]
  }

  /** The grid of one generated option: its blocks painted, in order, on an empty week. */
  function PaintBlocks(days: seq<int>, starts: seq<int>): (r: Grid)
    requires |days| == |starts|
    requires forall b :: 0 <= b < |days| ==> IsBlock(days[b], starts[b])
    ensures IsGrid(r)
  {
    if days == [] then ZeroGrid()
    else
      var n := |days| - 1;
      Paint(PaintBlocks(days[..n], starts[..n]), days[n], starts[n])
  }

  /** A generated option holds only 0s and 1s, and a cell is 1 exactly when
      some block covers it. */
  lemma {:induction false} PaintBlocksCells(days: seq<int>, starts: seq<int>, d: int, h: int)
    requires |days| == |starts|
    requires forall b :: 0 <= b < |days| ==> IsBlock(days[b], starts[b])
    requires 0 <= d < Days && 0 <= h < Hours
    ensures PaintBlocks(days, starts)[d][h] == 0 || PaintBlocks(days, starts)[d][h] == 1
    ensures PaintBlocks(days, starts)[d][h] == 1 <==>
      exists b :: 0 <= b < |days| && days[b] == d && starts[b] <= h < starts[b] + GenHoursPerClass
  {
    if days != [] {
      var n := |days| - 1;
      PaintBlocksCells(days[..n], starts[..n], d, h);
      var covered := exists b :: 0 <= b < n && days[..n][b] == d && starts[..n][b] <= h < starts[..n][b] + GenHoursPerClass;
      if covered {
        var b :| 0 <= b < n && days[..n][b] == d && starts[..n][b] <= h < starts[..n][b] + GenHoursPerClass;
        assert days[b] == d && starts[b] <= h < starts[b] + GenHoursPerClass;
      }
    }
  }

  /** Java's `==` between two String references. The name newWeek compares
      against was just built by concatenation, so it is a new String object
      and is never the same object as a name stored in another week. */
  predicate SameStringObject(stored: string, justBuilt: string) {
    false
  }

  /** The day draws of generate: each in 0..4, and never constant from some
      point on, so the retry loop always ends. */
  ghost predicate DayDraws(dayDraw: nat -> int) {
    && (forall n :: 0 <= dayDraw(n) < Days)
    && forall n: nat :: ChangesAfter(dayDraw, n)
  }

  /** Some later day draw differs from the n-th one. */
  ghost predicate ChangesAfter(dayDraw: nat -> int, n: nat) {
    exists m: nat :: n < m && dayDraw(m) != dayDraw(n)
  }

  /** The start-hour draws of generate: each in 0..9. */
  ghost predicate StartDraws(startDraw: nat -> int) {
    forall n :: 0 <= startDraw(n) < Hours - GenHoursPerClass
  }

  /** No block of an option is on the same day as the block drawn just before it. */
  predicate NoRepeatedDay(ds: seq<int>) {
    forall b :: 0 < b < |ds| ==> ds[b] != ds[b - 1]
  }

  /** The first block of an option is on another day than the last block of
      the option generated before it. */
  predicate StartsOnNewDay(before: seq<int>, after: seq<int>) {
    before == [] || after == [] || after[0] != before[|before| - 1]
  }

  /** The retry loop of generate: draw days from `cursor` on until one differs
      from `lastDay`; every draw passed over equals `lastDay`. */
  method DrawDay(dayDraw: nat -> int, cursor: nat, lastDay: int) returns (day: int, next: nat)
    requires DayDraws(dayDraw)
    ensures cursor < next && day == dayDraw(next - 1) && day != lastDay && 0 <= day < Days
    ensures forall n :: cursor <= n < next - 1 ==> dayDraw(n) == lastDay
  {
    day := dayDraw(cursor);
    next := cursor + 1;
    ghost var m: nat := cursor;
    if day == lastDay {
      assert ChangesAfter(dayDraw, cursor);
      m :| cursor < m && dayDraw(m) != dayDraw(cursor);
    }
    while day == lastDay
      invariant cursor < next && day == dayDraw(next - 1)
      invariant next - 1 <= m && dayDraw(m) != lastDay
      invariant forall n :: cursor <= n < next - 1 ==> dayDraw(n) == lastDay
      decreases m - (next - 1)
    {
      day := dayDraw(next);
      next := next + 1;
    }
  }

  /** The innermost loop of generate: the block's hours become 1. */
  method PaintBlock(w: Week, day: int, start: int)
    requires w.Valid() && IsBlock(day, start)
    modifies w.weekData
    ensures w.Cells() == Paint(old(w.Cells()), day, start)
  {
    ghost var before := w.Cells();
    for k := start to start + GenHoursPerClass
      invariant forall d, h :: 0 <= d < Days && 0 <= h < Hours ==>
        w.Cells()[d][h] == if d == day && start <= h < k then 1 else before[d][h]
    {
      w.SetOne(day, k, 1);
    }
    GridExt(w.Cells(), Paint(before, day, start));
  }

  /** One option of generate: a new week with `ndays` blocks, each on a day
      other than the block drawn just before it (`lastDay` carries over from
      the previous option). */
  method GenerateOption(ndays: nat, dayDraw: nat -> int, startDraw: nat -> int,
                        dayCursor: nat, startCursor: nat, lastDay: int)
    returns (w: Week, dayCursor': nat, startCursor': nat, lastDay': int,
             ghost days: seq<int>, ghost starts: seq<int>)
    requires DayDraws(dayDraw) && StartDraws(startDraw)
    ensures fresh(w) && fresh(w.weekData) && w.Valid() && w.name == "Week"
    ensures |days| == |starts| == ndays
    ensures forall b :: 0 <= b < ndays ==> IsBlock(days[b], starts[b])
    ensures ndays > 0 ==> days[0] != lastDay && lastDay' == days[ndays - 1]
    ensures ndays == 0 ==> lastDay' == lastDay
    ensures NoRepeatedDay(days)
    ensures w.Cells() == PaintBlocks(days, starts)
  {
    w := new Week();
    dayCursor', startCursor', lastDay' := dayCursor, startCursor, lastDay;
    days, starts := [], [];
    for j := 0 to ndays
      invariant fresh(w) && fresh(w.weekData) && w.Valid() && w.name == "Week"
      invariant |days| == |starts| == j
      invariant forall b :: 0 <= b < j ==> IsBlock(days[b], starts[b])
      invariant j > 0 ==> days[0] != lastDay && lastDay' == days[j - 1]
      invariant j == 0 ==> lastDay' == lastDay
      invariant NoRepeatedDay(days)
      invariant w.Cells() == PaintBlocks(days, starts)
    {
      var day;
      day, dayCursor' := DrawDay(dayDraw, dayCursor', lastDay');
      lastDay' := day;
      var startTime := startDraw(startCursor');
      startCursor' := startCursor' + 1;
      PaintBlock(w, day, startTime);
      ghost var prevDays, prevStarts := days, starts;
      days, starts := days + [day], starts + [startTime];
      assert days[..j] == prevDays && starts[..j] == prevStarts;
    }
  }

  class UserCollection {
    var courses: seq<Course>

    constructor ()
      ensures courses == []
    {
      courses := [];
    }

    /** addCourse appends exactly one course; the others are untouched. */
    method AddCourse(c: Course)
      modifies this
      ensures courses == old(courses) + [c]
    {
      courses := courses + [c];
    }

    /** newCourse appends "Course k+1" holding one empty week named "Week 1". */
    method NewCourse()
      modifies this
      ensures |courses| == |old(courses)| + 1 && courses[..|old(courses)|] == old(courses)
      ensures fresh(courses[|old(courses)|])
      ensures courses[|old(courses)|].name == Some("Course " + NatToString(|old(courses)| + 1))
      ensures |courses[|old(courses)|].weekOptions| == 1
      ensures var w := courses[|old(courses)|].weekOptions[0];
        fresh(w) && w.Valid() && w.Cells() == ZeroGrid() && w.name == "Week 1"
    {
      var c := new Course();
      var w := new Week();
      c.SetName(Some("Course " + NatToString(|courses| + 1)));
      c.AddOption(w);
      w.SetName("Week 1");
      courses := courses + [c];
    }

    /** newWeek appends an empty week named "Week n+1" to `c` and leaves c's
        other options unchanged. The duplicate-name check compares String
        references, so it never renames the new week. */
    method NewWeek(c: Course)
      modifies c
      ensures |c.weekOptions| == |old(c.weekOptions)| + 1
      ensures c.weekOptions[..|old(c.weekOptions)|] == old(c.weekOptions)
      ensures c.name == old(c.name)
      ensures var w := c.weekOptions[|old(c.weekOptions)|];
        fresh(w) && w.Valid() && w.Cells() == ZeroGrid()
        && w.name == "Week " + NatToString(|old(c.weekOptions)| + 1)
    {
      var w := new Week();
      w.SetName("Week " + NatToString(|c.weekOptions| + 1));
      var otherName := "Week " + NatToString(|c.weekOptions| + 2);
      for i := 0 to |c.weekOptions|
        invariant c.weekOptions == old(c.weekOptions) && c.name == old(c.name)
        invariant fresh(w) && w.Valid() && w.Cells() == ZeroGrid()
        invariant w.name == "Week " + NatToString(|c.weekOptions| + 1)
      {
        var stored := c.weekOptions[i].name;
        // renamed to "Week n+2" only when the two references are the same object
        w.SetName(if SameStringObject(stored, w.name) then otherName else w.name);
      }
      c.AddOption(w);
    }

    /** generate: appends one course, built by GenerateCourse, named after its
        position. The random draws are parameters: `dayCountDraw` is
        (int)(random*2), `dayDraw(n)` the n-th (int)(random*5) and
        `startDraw(n)` the n-th (int)(random*(13-3)). */
    method Generate(dayCountDraw: int, dayDraw: nat -> int, startDraw: nat -> int)
      returns (ghost days: seq<seq<int>>, ghost starts: seq<seq<int>>)
      requires 0 <= dayCountDraw < 2
      requires DayDraws(dayDraw) && StartDraws(startDraw)
      modifies this
      ensures |courses| == |old(courses)| + 1 && courses[..|old(courses)|] == old(courses)
      ensures GeneratedCourse(courses[|old(courses)|], |old(courses)| + 1,
                              GenDaysPerWeek + dayCountDraw, days, starts)
      ensures fresh(courses[|old(courses)|])
      ensures forall i :: 0 <= i < GenOptions ==> fresh(courses[|old(courses)|].weekOptions[i])
    {
      var c;
      c, days, starts := GenerateCourse(|courses| + 1, GenDaysPerWeek + dayCountDraw, dayDraw, startDraw);
      courses := courses + [c];
    }
  }

  /** What generate promises about the course it builds: named
      "Course <number>", three options "Week 1" .. "Week 3", option i being
      exactly the blocks days[i]/starts[i] painted on an empty week; every
      block is on another day than the block drawn before it, across option
      boundaries too. */
  ghost predicate GeneratedCourse(c: Course, number: nat, ndays: nat,
                                  days: seq<seq<int>>, starts: seq<seq<int>>)
    reads c, c.weekOptions, set i | 0 <= i < |c.weekOptions| :: c.weekOptions[i].weekData
  {
    && c.name == Some("Course " + NatToString(number))
    && |c.weekOptions| == |days| == |starts| == GenOptions
    && (forall i :: 0 <= i < GenOptions ==> GeneratedOption(c.weekOptions[i], i, days[i], starts[i], ndays))
    && (forall i :: 0 < i < GenOptions ==> StartsOnNewDay(days[i - 1], days[i]))
  }

  /** Option i of a generated course: named "Week i+1", holding exactly its
      blocks painted on an empty week. */
  ghost predicate GeneratedOption(w: Week, i: nat, days: seq<int>, starts: seq<int>, ndays: nat)
    reads w, w.weekData
  {
    && OptionBlocks(days, starts, ndays)
    && w.Valid()
    && w.name == "Week " + NatToString(i + 1)
    && w.Cells() == PaintBlocks(days, starts)
  }

  /** The blocks of one option: `ndays` well-placed blocks, no day twice in a row. */
  predicate OptionBlocks(days: seq<int>, starts: seq<int>, ndays: nat) {
    && |days| == |starts| == ndays
    && (forall b :: 0 <= b < ndays ==> IsBlock(days[b], starts[b]))
    && NoRepeatedDay(days)
  }

  /** One pass of generate's outer loop: a generated option, named after its
      position, appended to `c`. */
  method AppendOption(c: Course, ndays: nat, dayDraw: nat -> int, startDraw: nat -> int,
                      dayCursor: nat, startCursor: nat, lastDay: int,
                      ghost daysBefore: seq<seq<int>>, ghost startsBefore: seq<seq<int>>)
    returns (w: Week, dayCursor': nat, startCursor': nat, lastDay': int,
             ghost days: seq<int>, ghost starts: seq<int>)
    requires DayDraws(dayDraw) && StartDraws(startDraw)
    requires OptionsGenerated(c.weekOptions, daysBefore, startsBefore, ndays)
    modifies c
    ensures c.name == old(c.name)
    ensures c.weekOptions == old(c.weekOptions) + [w] && fresh(w)
    ensures OptionsGenerated(c.weekOptions, daysBefore + [days], startsBefore + [starts], ndays)
    ensures |days| == ndays && StartsOnNewDay([lastDay], days)
    ensures lastDay' == LastDay(lastDay, days)
  {
    w, dayCursor', startCursor', lastDay', days, starts :=
      GenerateOption(ndays, dayDraw, startDraw, dayCursor, startCursor, lastDay);
    c.AddOption(w);
    w.SetName("Week " + NatToString(|c.weekOptions|));
    OptionsGeneratedSnoc(c.weekOptions, daysBefore, startsBefore, days, starts, ndays);
  }

  /** The options drawn so far follow each other without repeating a day
      across their boundaries, and `lastDay` is the day of the last block
      drawn (NoDay while none is). */
  predicate Chained(days: seq<seq<int>>, lastDay: int, ndays: nat) {
    && (forall i :: 0 < i < |days| ==> StartsOnNewDay(days[i - 1], days[i]))
    && (|days| > 0 ==> lastDay == LastDay(NoDay, days[|days| - 1]))
    && (ndays == 0 ==> lastDay == NoDay)
  }

  /** An option whose first block avoids `lastDay` keeps the chain going. */
  lemma ChainStep(days: seq<seq<int>>, lastDay: int, ndays: nat, d: seq<int>)
    requires Chained(days, lastDay, ndays) && |d| == ndays && StartsOnNewDay([lastDay], d)
    ensures Chained(days + [d], LastDay(lastDay, d), ndays)
  {
    var days' := days + [d];
    forall i | 0 < i < |days'|
      ensures StartsOnNewDay(days'[i - 1], days'[i])
    {
      if i < |days| {
        assert days'[i - 1] == days[i - 1] && days'[i] == days[i];
      }
    }
  }

  /** The day of the last block drawn: the last of `days`, or `before` when
      the option drew no block. */
  function LastDay(before: int, days: seq<int>): int {
    if days == [] then before else days[|days| - 1]
  }

  /** The body of generate: a course with three generated options; the day
      of the previous block carries over from one option to the next. */
  method GenerateCourse(number: nat, ndays: nat, dayDraw: nat -> int, startDraw: nat -> int)
    returns (c: Course, ghost days: seq<seq<int>>, ghost starts: seq<seq<int>>)
    requires DayDraws(dayDraw) && StartDraws(startDraw)
    ensures fresh(c) && forall i :: 0 <= i < |c.weekOptions| ==> fresh(c.weekOptions[i])
    ensures GeneratedCourse(c, number, ndays, days, starts)
  {
    c := new Course();
    var lastDay := NoDay;
    c.SetName(Some("Course " + NatToString(number)));
    var dayCursor: nat, startCursor: nat := 0, 0;
    days, starts := [], [];
    ghost var made: seq<Week> := [];
    for i := 0 to GenOptions
      invariant fresh(c) && c.name == Some("Course " + NatToString(number))
      invariant c.weekOptions == made && |made| == |days| == |starts| == i
      invariant forall i' :: 0 <= i' < i ==> fresh(made[i'])
      invariant OptionsGenerated(made, days, starts, ndays) && Chained(days, lastDay, ndays)
    {
      ghost var optDays, optStarts;
      var w;
      ghost var before := lastDay;
      w, dayCursor, startCursor, lastDay, optDays, optStarts :=
        AppendOption(c, ndays, dayDraw, startDraw, dayCursor, startCursor, lastDay, days, starts);
      ChainStep(days, before, ndays, optDays);
      days, starts, made := days + [optDays], starts + [optStarts], made + [w];
    }
  }

  /** Every option in `ws` is the generated option of its position. */
  ghost predicate OptionsGenerated(ws: seq<Week>, days: seq<seq<int>>, starts: seq<seq<int>>, ndays: nat)
    reads set i | 0 <= i < |ws| :: ws[i]
    reads set i | 0 <= i < |ws| :: ws[i].weekData
  {
    && |ws| == |days| == |starts|
    && forall i :: 0 <= i < |ws| ==> GeneratedOption(ws[i], i, days[i], starts[i], ndays)
  }

  lemma OptionsGeneratedSnoc(ws: seq<Week>, days: seq<seq<int>>, starts: seq<seq<int>>,
                             d: seq<int>, s: seq<int>, ndays: nat)
    requires |ws| == |days| + 1 == |starts| + 1
    requires OptionsGenerated(ws[..|days|], days, starts, ndays)
    requires GeneratedOption(ws[|days|], |days|, d, s, ndays)
    ensures OptionsGenerated(ws, days + [d], starts + [s], ndays)
  {
    assert forall i :: 0 <= i < |days| ==> ws[..|days|][i] == ws[i];
  }
}
