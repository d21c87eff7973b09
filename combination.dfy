/** The combination engine of the results window as a function on grids.
    Courses are taken in order; every timetable built so far is paired with
    every option of the next course, options in the outer loop and earlier
    timetables in the inner one, and a pair survives only when no hour is
    occupied in both. A surviving pair is merged into a new timetable whose
    newly filled cells carry the course's tag, its position plus one. */
module Combination {
  import opened TimeGrid

  /** Every option of every course is a 5 x 13 grid. */
  predicate WellFormed(courses: seq<seq<Grid>>) {
    forall i, k :: 0 <= i < |courses| && 0 <= k < |courses[i]| ==> IsGrid(courses[i][k])
  }

  /** No hour is occupied in both grids (the conflict test of the engine). */
  predicate Disjoint(a: Grid, b: Grid)
    requires IsGrid(a) && IsGrid(b)
  {
    forall d, h :: 0 <= d < Days && 0 <= h < Hours ==> a[d][h] == 0 || b[d][h] == 0
  }

  /** The merged timetable: the earlier timetable's value where it has one,
      else `tag` where the option is occupied, else 0. */
  function Merge(prev: Grid, opt: Grid, tag: int): (m: Grid)
    requires IsGrid(prev) && IsGrid(opt)
    ensures IsGrid(m)
  {
    seq(Days, d requires 0 <= d < Days =>
      seq(Hours, h requires 0 <= h < Hours =>
        if prev[d][h] != 0 then prev[d][h] else if opt[d][h] != 0 then tag else 0))
  }

  /** The inner loop for one option: the earlier timetables, in order, that
      do not clash with `opt`, each merged with it. */
  function Pairs(prev: seq<Grid>, opt: Grid, tag: int): (r: seq<Grid>)
    requires AllGrids(prev) && IsGrid(opt)
    ensures AllGrids(r)
  {
    if prev == [] then []
    else
      var m := |prev| - 1;
      Pairs(prev[..m], opt, tag) + (if Disjoint(prev[m], opt) then [Merge(prev[m], opt, tag)] else [])
  }

  /** One course: Pairs for each of its options, in option order. */
  function Step(prev: seq<Grid>, options: seq<Grid>, tag: int): (r: seq<Grid>)
    requires AllGrids(prev) && AllGrids(options)
    ensures AllGrids(r)
  {
    if options == [] then []
    else
      var k := |options| - 1;
      Step(prev, options[..k], tag) + Pairs(prev, options[k], tag)
  }

  /** The whole engine, starting from the timetables `start`: course i
      (counting from 0) is folded in with tag i + 1. */
  function CombineFrom(start: seq<Grid>, courses: seq<seq<Grid>>): (r: seq<Grid>)
    requires AllGrids(start) && WellFormed(courses)
    ensures AllGrids(r)
  {
    if courses == [] then start
    else
      var n := |courses| - 1;
      Step(CombineFrom(start, courses[..n]), courses[n], n + 1)
  }

  /** The engine as the results window runs it on a fresh list: from one empty week. */
  function Combine(courses: seq<seq<Grid>>): (r: seq<Grid>)
    requires WellFormed(courses)
    ensures AllGrids(r)
  {
    CombineFrom([ZeroGrid()], courses)
  }

  // ---------------------------------------------------------------------
  // The reference definition: one option chosen per course

  /** `ch[i]` picks one option of course i. */
  predicate IsChoice(courses: seq<seq<Grid>>, ch: seq<int>) {
    |ch| == |courses| && forall i :: 0 <= i < |ch| ==> 0 <= ch[i] < |courses[i]|
  }

  /** The timetable that the chosen options make on top of `base`. */
  function RealizeFrom(base: Grid, courses: seq<seq<Grid>>, ch: seq<int>): (g: Grid)
    requires IsGrid(base) && WellFormed(courses) && IsChoice(courses, ch)
    ensures IsGrid(g)
  {
    if ch == [] then base
    else
      var n := |ch| - 1;
      Merge(RealizeFrom(base, courses[..n], ch[..n]), courses[n][ch[n]], n + 1)
  }

  /** Each chosen option fits into the timetable the earlier choices made. */
  predicate Compatible(base: Grid, courses: seq<seq<Grid>>, ch: seq<int>)
    requires IsGrid(base) && WellFormed(courses) && IsChoice(courses, ch)
  {
    ch == [] ||
      var n := |ch| - 1;
      Compatible(base, courses[..n], ch[..n]) &&
      Disjoint(RealizeFrom(base, courses[..n], ch[..n]), courses[n][ch[n]])
  }

  /** No two chosen options share an hour, and none clashes with `base`. */
  predicate PairwiseDisjoint(base: Grid, courses: seq<seq<Grid>>, ch: seq<int>)
    requires IsGrid(base) && WellFormed(courses) && IsChoice(courses, ch)
  {
    && (forall i :: 0 <= i < |ch| ==> Disjoint(base, courses[i][ch[i]]))
    && (forall i, j :: 0 <= i < j < |ch| ==> Disjoint(courses[i][ch[i]], courses[j][ch[j]]))
  }

  function Product(courses: seq<seq<Grid>>): (p: nat) {
    if courses == [] then 1 else Product(courses[..|courses| - 1]) * |courses[|courses| - 1]|
  }

  // ---------------------------------------------------------------------
  // Membership

  lemma {:induction false} PairsMember(prev: seq<Grid>, opt: Grid, tag: int, g: Grid)
    requires AllGrids(prev) && IsGrid(opt)
    ensures g in Pairs(prev, opt, tag) <==>
      exists j :: 0 <= j < |prev| && Disjoint(prev[j], opt) && g == Merge(prev[j], opt, tag)
  {
    if prev != [] {
      var m := |prev| - 1;
      PairsMember(prev[..m], opt, tag, g);
      if g in Pairs(prev, opt, tag) && g !in Pairs(prev[..m], opt, tag) {
        assert Disjoint(prev[m], opt) && g == Merge(prev[m], opt, tag);
      }
      if exists j :: 0 <= j < |prev| && Disjoint(prev[j], opt) && g == Merge(prev[j], opt, tag) {
        var j :| 0 <= j < |prev| && Disjoint(prev[j], opt) && g == Merge(prev[j], opt, tag);
        if j < m {
          assert prev[..m][j] == prev[j];
        }
      }
    }
  }

  lemma StepMember(prev: seq<Grid>, options: seq<Grid>, tag: int, g: Grid)
    requires AllGrids(prev) && AllGrids(options)
    ensures g in Step(prev, options, tag) <==>
      exists j, k :: 0 <= j < |prev| && 0 <= k < |options| &&
        Disjoint(prev[j], options[k]) && g == Merge(prev[j], options[k], tag)
  {
    if g in Step(prev, options, tag) {
      StepMemberSound(prev, options, tag, g);
    }
    if exists j, k :: 0 <= j < |prev| && 0 <= k < |options| &&
         Disjoint(prev[j], options[k]) && g == Merge(prev[j], options[k], tag) {
      var j, k :| 0 <= j < |prev| && 0 <= k < |options| &&
         Disjoint(prev[j], options[k]) && g == Merge(prev[j], options[k], tag);
      StepMemberComplete(prev, options, tag, g, j, k);
    }
  }

  /** Every timetable of a step merges some earlier timetable with some
      option that does not clash with it. */
  lemma {:induction false} StepMemberSound(prev: seq<Grid>, options: seq<Grid>, tag: int, g: Grid)
    requires AllGrids(prev) && AllGrids(options) && g in Step(prev, options, tag)
    ensures exists j, k :: 0 <= j < |prev| && 0 <= k < |options| &&
                           Disjoint(prev[j], options[k]) && g == Merge(prev[j], options[k], tag)
  {
    if options != [] {
      var n := |options| - 1;
      var front := options[..n];
      if g in Step(prev, front, tag) {
        StepMemberSound(prev, front, tag, g);
        var j, k :| 0 <= j < |prev| && 0 <= k < |front| &&
          Disjoint(prev[j], front[k]) && g == Merge(prev[j], front[k], tag);
        assert front[k] == options[k];
      } else {
        PairsMember(prev, options[n], tag, g);
        var j :| 0 <= j < |prev| && Disjoint(prev[j], options[n]) && g == Merge(prev[j], options[n], tag);
      }
    }
  }

  /** Every earlier timetable merged with an option that does not clash
      with it is a timetable of the step. */
  lemma {:induction false} StepMemberComplete(prev: seq<Grid>, options: seq<Grid>, tag: int, g: Grid, j: int, k: int)
    requires AllGrids(prev) && AllGrids(options)
    requires 0 <= j < |prev| && 0 <= k < |options|
    requires Disjoint(prev[j], options[k]) && g == Merge(prev[j], options[k], tag)
    ensures g in Step(prev, options, tag)
  {
    var n := |options| - 1;
    if k < n {
      var front := options[..n];
      assert front[k] == options[k];
      StepMemberComplete(prev, front, tag, g, j, k);
    } else {
      PairsMember(prev, options[n], tag, g);
    }
  }

  lemma ExtendChoice(courses: seq<seq<Grid>>, ch0: seq<int>, k: int)
    requires courses != [] && IsChoice(courses[..|courses| - 1], ch0)
    requires 0 <= k < |courses[|courses| - 1]|
    ensures IsChoice(courses, ch0 + [k])
    ensures (ch0 + [k])[..|ch0|] == ch0 && (ch0 + [k])[|ch0|] == k
  {
    var n := |courses| - 1;
    assert forall i :: 0 <= i < n ==> courses[..n][i] == courses[i];
  }

  /** Choosing option k of the last course on top of a choice for the others:
      the last option is merged into what the others make, and it has to fit. */
  lemma RealizeExtend(base: Grid, courses: seq<seq<Grid>>, ch0: seq<int>, k: int)
    requires IsGrid(base) && WellFormed(courses)
    requires courses != [] && IsChoice(courses[..|courses| - 1], ch0)
    requires 0 <= k < |courses[|courses| - 1]|
    ensures IsChoice(courses, ch0 + [k])
    ensures var n := |courses| - 1; var before := RealizeFrom(base, courses[..n], ch0);
      && RealizeFrom(base, courses, ch0 + [k]) == Merge(before, courses[n][k], n + 1)
      && (Compatible(base, courses, ch0 + [k]) <==>
            Compatible(base, courses[..n], ch0) && Disjoint(before, courses[n][k]))
  {
    ExtendChoice(courses, ch0, k);
  }

  lemma PrefixChoice(courses: seq<seq<Grid>>, ch: seq<int>)
    requires courses != [] && IsChoice(courses, ch)
    ensures IsChoice(courses[..|courses| - 1], ch[..|ch| - 1])
  {
  }

  /** Every timetable of the engine is a starting timetable with one option
      of each course merged in, none clashing with what came before it. */
  lemma {:induction false} CombineFromSound(start: seq<Grid>, courses: seq<seq<Grid>>, g: Grid)
    requires AllGrids(start) && WellFormed(courses)
    requires g in CombineFrom(start, courses)
    ensures exists j, ch :: 0 <= j < |start| && IsChoice(courses, ch) &&
              Compatible(start[j], courses, ch) && g == RealizeFrom(start[j], courses, ch)
  {
    if courses == [] {
      var j :| 0 <= j < |start| && start[j] == g;
      assert IsChoice(courses, []) && RealizeFrom(start[j], courses, []) == g;
    } else {
      var n := |courses| - 1;
      var prefix := courses[..n];
      var prev := CombineFrom(start, prefix);
      StepMember(prev, courses[n], n + 1, g);
      var jp, k :| 0 <= jp < |prev| && 0 <= k < |courses[n]| &&
        Disjoint(prev[jp], courses[n][k]) && g == Merge(prev[jp], courses[n][k], n + 1);
      CombineFromSound(start, prefix, prev[jp]);
      var j, ch0 :| 0 <= j < |start| && IsChoice(prefix, ch0) &&
        Compatible(start[j], prefix, ch0) && prev[jp] == RealizeFrom(start[j], prefix, ch0);
      RealizeExtend(start[j], courses, ch0, k);
      assert IsChoice(courses, ch0 + [k]) && Compatible(start[j], courses, ch0 + [k]);
    }
  }

  /** Every conflict-free choice of one option per course, on any starting
      timetable, is among the engine's timetables. */
  lemma {:induction false} CombineFromComplete(start: seq<Grid>, courses: seq<seq<Grid>>, j: int, ch: seq<int>)
    requires AllGrids(start) && WellFormed(courses)
    requires 0 <= j < |start| && IsChoice(courses, ch) && Compatible(start[j], courses, ch)
    ensures RealizeFrom(start[j], courses, ch) in CombineFrom(start, courses)
  {
    if courses != [] {
      var n := |courses| - 1;
      var prefix, ch0 := courses[..n], ch[..n];
      var prev := CombineFrom(start, prefix);
      PrefixChoice(courses, ch);
      CombineFromComplete(start, prefix, j, ch0);
      var p := RealizeFrom(start[j], prefix, ch0);
      var jp :| 0 <= jp < |prev| && prev[jp] == p;
      var g := RealizeFrom(start[j], courses, ch);
      StepMember(prev, courses[n], n + 1, g);
      assert Disjoint(prev[jp], courses[n][ch[n]]) && g == Merge(prev[jp], courses[n][ch[n]], n + 1);
    }
  }

  /** The engine is exact: a timetable comes out of it if and only if it is
      some starting timetable with one option of every course merged in, the
      options chosen so that none clashes with what was placed before. */
  lemma CombineFromMember(start: seq<Grid>, courses: seq<seq<Grid>>, g: Grid)
    requires AllGrids(start) && WellFormed(courses)
    ensures g in CombineFrom(start, courses) <==>
      exists j, ch :: 0 <= j < |start| && IsChoice(courses, ch) &&
        Compatible(start[j], courses, ch) && g == RealizeFrom(start[j], courses, ch)
  {
    if g in CombineFrom(start, courses) {
      CombineFromSound(start, courses, g);
    }
    if exists j, ch :: 0 <= j < |start| && IsChoice(courses, ch) &&
         Compatible(start[j], courses, ch) && g == RealizeFrom(start[j], courses, ch) {
      var j, ch :| 0 <= j < |start| && IsChoice(courses, ch) &&
        Compatible(start[j], courses, ch) && g == RealizeFrom(start[j], courses, ch);
      CombineFromComplete(start, courses, j, ch);
    }
  }

  /** From one empty week: the timetables are exactly the conflict-free
      choices of one option per course. */
  lemma CombineMember(courses: seq<seq<Grid>>, g: Grid)
    requires WellFormed(courses)
    ensures g in Combine(courses) <==>
      exists ch :: IsChoice(courses, ch) &&
        Compatible(ZeroGrid(), courses, ch) && g == RealizeFrom(ZeroGrid(), courses, ch)
  {
    CombineFromMember([ZeroGrid()], courses, g);
    if exists ch :: IsChoice(courses, ch) &&
         Compatible(ZeroGrid(), courses, ch) && g == RealizeFrom(ZeroGrid(), courses, ch) {
      var ch :| IsChoice(courses, ch) &&
        Compatible(ZeroGrid(), courses, ch) && g == RealizeFrom(ZeroGrid(), courses, ch);
      assert [ZeroGrid()][0] == ZeroGrid();
    }
  }

  // ---------------------------------------------------------------------
  // What a cell of a timetable means

  /** In a conflict-free timetable a cell keeps the base's value, or holds
      i + 1 when the option chosen for course i occupies it, or is 0 when
      nothing occupies it. */
  lemma {:induction false} RealizeCell(base: Grid, courses: seq<seq<Grid>>, ch: seq<int>, d: int, h: int)
    requires IsGrid(base) && WellFormed(courses) && IsChoice(courses, ch)
    requires Compatible(base, courses, ch)
    requires 0 <= d < Days && 0 <= h < Hours
    ensures base[d][h] != 0 ==> RealizeFrom(base, courses, ch)[d][h] == base[d][h]
    ensures forall i :: 0 <= i < |ch| && courses[i][ch[i]][d][h] != 0 ==>
      RealizeFrom(base, courses, ch)[d][h] == i + 1
    ensures base[d][h] == 0 && (forall i :: 0 <= i < |ch| ==> courses[i][ch[i]][d][h] == 0) ==>
      RealizeFrom(base, courses, ch)[d][h] == 0
  {
    if ch != [] {
      var n := |ch| - 1;
      var prefix, ch0 := courses[..n], ch[..n];
      RealizeCell(base, prefix, ch0, d, h);
      var before := RealizeFrom(base, prefix, ch0);
      var opt := courses[n][ch[n]];
      assert before[d][h] == 0 || opt[d][h] == 0;
      forall i | 0 <= i < n
        ensures prefix[i][ch0[i]][d][h] == courses[i][ch[i]][d][h]
      {
      }
    }
  }

  /** The chosen options fit in one after another exactly when no two of
      them, and none of them and the base, share an hour: the order in which
      the engine meets the courses does not matter to which choices survive. */
  lemma {:induction false} CompatibleIffPairwise(base: Grid, courses: seq<seq<Grid>>, ch: seq<int>)
    requires IsGrid(base) && WellFormed(courses) && IsChoice(courses, ch)
    ensures Compatible(base, courses, ch) <==> PairwiseDisjoint(base, courses, ch)
  {
    if ch != [] {
      var n := |ch| - 1;
      var prefix, ch0 := courses[..n], ch[..n];
      CompatibleIffPairwise(base, prefix, ch0);
      var opt := courses[n][ch[n]];
      assert forall i :: 0 <= i < n ==> prefix[i][ch0[i]] == courses[i][ch[i]];
      if Compatible(base, prefix, ch0) {
        if Disjoint(RealizeFrom(base, prefix, ch0), opt) {
          RealizedDisjointSplits(base, prefix, ch0, opt);
        }
        if Disjoint(base, opt) && forall i :: 0 <= i < n ==> Disjoint(prefix[i][ch0[i]], opt) {
          DisjointRealized(base, prefix, ch0, opt);
        }
      }
    }
  }

  /** A grid clear of a conflict-free timetable is clear of its base and of
      every option chosen for it ... */
  lemma RealizedDisjointSplits(base: Grid, courses: seq<seq<Grid>>, ch: seq<int>, opt: Grid)
    requires IsGrid(base) && WellFormed(courses) && IsChoice(courses, ch) && IsGrid(opt)
    requires Compatible(base, courses, ch) && Disjoint(RealizeFrom(base, courses, ch), opt)
    ensures Disjoint(base, opt)
    ensures forall i :: 0 <= i < |ch| ==> Disjoint(courses[i][ch[i]], opt)
  {
    var before := RealizeFrom(base, courses, ch);
    forall d, h | 0 <= d < Days && 0 <= h < Hours ensures base[d][h] == 0 || opt[d][h] == 0 {
      RealizeCell(base, courses, ch, d, h);
    }
    forall i | 0 <= i < |ch| ensures Disjoint(courses[i][ch[i]], opt) {
      forall d, h | 0 <= d < Days && 0 <= h < Hours
        ensures courses[i][ch[i]][d][h] == 0 || opt[d][h] == 0
      {
        RealizeCell(base, courses, ch, d, h);
        assert before[d][h] == 0 || opt[d][h] == 0;
      }
    }
  }

  /** ... and a grid clear of the base and of every chosen option is clear
      of the timetable they make. */
  lemma DisjointRealized(base: Grid, courses: seq<seq<Grid>>, ch: seq<int>, opt: Grid)
    requires IsGrid(base) && WellFormed(courses) && IsChoice(courses, ch) && IsGrid(opt)
    requires Compatible(base, courses, ch) && Disjoint(base, opt)
    requires forall i :: 0 <= i < |ch| ==> Disjoint(courses[i][ch[i]], opt)
    ensures Disjoint(RealizeFrom(base, courses, ch), opt)
  {
    var before := RealizeFrom(base, courses, ch);
    forall d, h | 0 <= d < Days && 0 <= h < Hours ensures before[d][h] == 0 || opt[d][h] == 0 {
      RealizeCell(base, courses, ch, d, h);
      if opt[d][h] != 0 {
        assert base[d][h] == 0;
        forall i | 0 <= i < |ch| ensures courses[i][ch[i]][d][h] == 0 {
          assert Disjoint(courses[i][ch[i]], opt);
        }
      }
    }
  }

  /** From an empty week, every cell of a timetable is 0 or a course tag 1..n. */
  lemma {:induction false} RealizeTags(base: Grid, courses: seq<seq<Grid>>, ch: seq<int>, bound: int)
    requires IsGrid(base) && WellFormed(courses) && IsChoice(courses, ch)
    requires |ch| <= bound
    requires forall d, h :: 0 <= d < Days && 0 <= h < Hours ==> 0 <= base[d][h] <= bound
    ensures forall d, h :: 0 <= d < Days && 0 <= h < Hours ==>
      0 <= RealizeFrom(base, courses, ch)[d][h] <= bound
  {
    if ch != [] {
      var n := |ch| - 1;
      RealizeTags(base, courses[..n], ch[..n], bound);
      var before := RealizeFrom(base, courses[..n], ch[..n]);
      var g := RealizeFrom(base, courses, ch);
      forall d, h | 0 <= d < Days && 0 <= h < Hours ensures 0 <= g[d][h] <= bound {
        assert 0 <= before[d][h] <= bound;
      }
    }
  }

  lemma CombineTags(courses: seq<seq<Grid>>, g: Grid)
    requires WellFormed(courses) && g in Combine(courses)
    ensures IsGrid(g)
    ensures forall d, h :: 0 <= d < Days && 0 <= h < Hours ==> 0 <= g[d][h] <= |courses|
  {
    CombineMember(courses, g);
    var ch :| IsChoice(courses, ch) &&
      Compatible(ZeroGrid(), courses, ch) && g == RealizeFrom(ZeroGrid(), courses, ch);
    RealizeTags(ZeroGrid(), courses, ch, |courses|);
  }

  // ---------------------------------------------------------------------
  // How many timetables

  lemma {:induction false} PairsLength(prev: seq<Grid>, opt: Grid, tag: int)
    requires AllGrids(prev) && IsGrid(opt)
    ensures |Pairs(prev, opt, tag)| <= |prev|
  {
    if prev != [] {
      PairsLength(prev[..|prev| - 1], opt, tag);
    }
  }

  lemma {:induction false} StepLength(prev: seq<Grid>, options: seq<Grid>, tag: int)
    requires AllGrids(prev) && AllGrids(options)
    ensures |Step(prev, options, tag)| <= |options| * |prev|
  {
    if options != [] {
      var k := |options| - 1;
      StepLength(prev, options[..k], tag);
      PairsLength(prev, options[k], tag);
      assert k * |prev| + |prev| == |options| * |prev|;
    }
  }

  /** At most one timetable per combination of starting timetable and options. */
  lemma {:induction false} CombineFromLength(start: seq<Grid>, courses: seq<seq<Grid>>)
    requires AllGrids(start) && WellFormed(courses)
    ensures |CombineFrom(start, courses)| <= |start| * Product(courses)
  {
    if courses != [] {
      var n := |courses| - 1;
      var prev := CombineFrom(start, courses[..n]);
      CombineFromLength(start, courses[..n]);
      StepLength(prev, courses[n], n + 1);
      var c, p := |courses[n]|, Product(courses[..n]);
      MulMonotone(c, |prev|, |start| * p);
      MulRotate(c, |start|, p);
      assert Product(courses) == p * c;
    }
  }

  /** No option clashes with a starting timetable or with any option of
      another course. */
  predicate Separate(start: seq<Grid>, courses: seq<seq<Grid>>)
    requires AllGrids(start) && WellFormed(courses)
  {
    && (forall j, i, k :: 0 <= j < |start| && 0 <= i < |courses| && 0 <= k < |courses[i]| ==>
          Disjoint(start[j], courses[i][k]))
    && (forall i, i2, k, k2 :: 0 <= i < i2 < |courses| && 0 <= k < |courses[i]| && 0 <= k2 < |courses[i2]| ==>
          Disjoint(courses[i][k], courses[i2][k2]))
  }

  /** When no earlier timetable clashes with `opt`, the inner loop keeps them all. */
  lemma {:induction false} PairsAll(prev: seq<Grid>, opt: Grid, tag: int)
    requires AllGrids(prev) && IsGrid(opt)
    requires forall j :: 0 <= j < |prev| ==> Disjoint(prev[j], opt)
    ensures |Pairs(prev, opt, tag)| == |prev|
  {
    if prev != [] {
      var m := |prev| - 1;
      assert forall j :: 0 <= j < m ==> prev[..m][j] == prev[j];
      PairsAll(prev[..m], opt, tag);
    }
  }

  /** When no pair clashes, one course multiplies the timetables by its options. */
  lemma {:induction false} StepAll(prev: seq<Grid>, options: seq<Grid>, tag: int)
    requires AllGrids(prev) && AllGrids(options)
    requires forall j, k :: 0 <= j < |prev| && 0 <= k < |options| ==> Disjoint(prev[j], options[k])
    ensures |Step(prev, options, tag)| == |options| * |prev|
  {
    if options != [] {
      var k := |options| - 1;
      assert forall k' :: 0 <= k' < k ==> options[..k][k'] == options[k'];
      StepAll(prev, options[..k], tag);
      PairsAll(prev, options[k], tag);
      assert k * |prev| + |prev| == |options| * |prev|;
    }
  }

  /** A timetable the engine built clashes with no option that is free of
      the starting timetables and of every course folded in so far. */
  lemma {:induction false} CombinedDisjoint(start: seq<Grid>, courses: seq<seq<Grid>>, g: Grid, opt: Grid)
    requires AllGrids(start) && WellFormed(courses) && IsGrid(opt)
    requires g in CombineFrom(start, courses)
    requires forall j :: 0 <= j < |start| ==> Disjoint(start[j], opt)
    requires forall i, k :: 0 <= i < |courses| && 0 <= k < |courses[i]| ==> Disjoint(courses[i][k], opt)
    ensures Disjoint(g, opt)
  {
    CombineFromSound(start, courses, g);
    var j, ch :| 0 <= j < |start| && IsChoice(courses, ch) &&
      Compatible(start[j], courses, ch) && g == RealizeFrom(start[j], courses, ch);
    DisjointRealized(start[j], courses, ch, opt);
  }

  /** Without clashes every combination survives: exactly one timetable per
      starting timetable and choice of options. */
  lemma {:induction false} CombineFromExact(start: seq<Grid>, courses: seq<seq<Grid>>)
    requires AllGrids(start) && WellFormed(courses) && Separate(start, courses)
    ensures |CombineFrom(start, courses)| == |start| * Product(courses)
  {
    if courses != [] {
      var n := |courses| - 1;
      var front := courses[..n];
      assert forall i :: 0 <= i < n ==> front[i] == courses[i];
      assert Separate(start, front);
      CombineFromExact(start, front);
      var prev := CombineFrom(start, front);
      forall j, k | 0 <= j < |prev| && 0 <= k < |courses[n]|
        ensures Disjoint(prev[j], courses[n][k])
      {
        CombinedDisjoint(start, front, prev[j], courses[n][k]);
      }
      StepAll(prev, courses[n], n + 1);
      var c, p := |courses[n]|, Product(front);
      MulRotate(c, |start|, p);
      assert Product(courses) == p * c;
    }
  }

  /** From the empty week: when no two options of different courses share an
      hour, there is one timetable per choice of options. */
  lemma CombineExact(courses: seq<seq<Grid>>)
    requires WellFormed(courses)
    requires forall i, i2, k, k2 :: 0 <= i < i2 < |courses| && 0 <= k < |courses[i]| && 0 <= k2 < |courses[i2]| ==>
      Disjoint(courses[i][k], courses[i2][k2])
    ensures |Combine(courses)| == Product(courses)
  {
    assert Separate([ZeroGrid()], courses);
    CombineFromExact([ZeroGrid()], courses);
  }

  lemma MulRotate(a: int, b: int, c: int)
    ensures a * (b * c) == b * (c * a)
  {
  }

  lemma {:induction false} ProductZero(courses: seq<seq<Grid>>, i: int)
    requires 0 <= i < |courses| && courses[i] == []
    ensures Product(courses) == 0
  {
    var n := |courses| - 1;
    if i < n {
      assert courses[..n][i] == [];
      ProductZero(courses[..n], i);
    }
  }

  /** A course without options admits no timetable at all. */
  lemma CourseWithoutOptions(start: seq<Grid>, courses: seq<seq<Grid>>, i: int)
    requires AllGrids(start) && WellFormed(courses)
    requires 0 <= i < |courses| && courses[i] == []
    ensures CombineFrom(start, courses) == []
  {
    CombineFromLength(start, courses);
    ProductZero(courses, i);
  }
}
