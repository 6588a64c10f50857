/** The clipmap vertex grid of src/clipmap.ts: for every level from the requested one down to 0,
    a width x width lattice of points spaced 2^level apart and centred on the origin is inserted
    into a dictionary from points to vertex indices. A point gets the dictionary's size as its
    index when it is first seen; a point already present keeps its index. */
module Clipmap {
  import opened Wrappers
  import opened Powers

  // ---------------------------------------------------------------------------------------------
  // Points and the dictionary

  /** `Math.round`: the nearest integer, halves rounded up. */
  function Round(v: real): (r: int)
    ensures r as real - 0.5 <= v < r as real + 0.5
    ensures v == v.Floor as real ==> r == v.Floor
  {
    (v + 0.5).Floor
  }

  /** A `Point` key; the constructor rounds both coordinates, so keys are integer pairs. The
      dictionary compares keys by their string form, which is a function of (x, y). */
  datatype Point = Point(x: int, y: int)

  function NewPoint(x: real, y: real): Point {
    Point(Round(x), Round(y))
  }

  /** The `Dictionary<Point, number>` the grid is built into. */
  class Dictionary {
    var entries: map<Point, int>

    constructor ()
      ensures entries == map[]
    {
      entries := map[];
    }

    predicate ContainsKey(p: Point)
      reads this
    {
      p in entries
    }

    function Size(): nat
      reads this
    {
      |entries|
    }

    method SetValue(p: Point, v: int)
      modifies this
      ensures entries == old(entries)[p := v]
    {
      entries := entries[p := v];
    }
  }

  // ---------------------------------------------------------------------------------------------
  // The grid of one level

  /** `-Math.floor(width / 2)`; Dafny's `/` by a positive divisor is the floor. */
  function Start(width: int): int {
    -(width / 2)
  }

  /** The point visited at loop position (x, y) of a level. */
  function GridPoint(level: nat, width: int, x: int, y: int): Point {
    Point((x + Start(width)) * Pow2(level), (y + Start(width)) * Pow2(level))
  }

  /** How often each loop of a nest runs: `width` times, or never when it is negative. */
  function Iterations(width: int): nat {
    if width < 0 then 0 else width
  }

  /** The points of row `x` in the order the inner loop visits them. */
  function RowOrder(level: nat, width: int, x: int): seq<Point> {
    seq(Iterations(width), y => GridPoint(level, width, x, y))
  }

  /** The points of the first `n` rows in the order the loop nest visits them. */
  function GridOrder(level: nat, width: int, n: nat): seq<Point> {
    if n == 0 then [] else GridOrder(level, width, n - 1) + RowOrder(level, width, n - 1)
  }

  /** All the points one loop nest of a level visits. */
  function LevelOrder(level: nat, width: int): seq<Point> {
    GridOrder(level, width, Iterations(width))
  }

  /** One step of either loop nest: a point not yet present gets the current size as its index. */
  function AddPoint(m: map<Point, int>, p: Point): map<Point, int> {
    if p in m then m else m[p := |m|]
  }

  /** The dictionary after visiting `ps` in order. */
  function InsertAll(m: map<Point, int>, ps: seq<Point>): map<Point, int> {
    if ps == [] then m else AddPoint(InsertAll(m, ps[..|ps| - 1]), ps[|ps| - 1])
  }

  /** `buildGridHelper` on dictionary contents: the first loop nest of this level, the finer
      levels, the second loop nest of this level. */
  function Build(m: map<Point, int>, level: int, width: int): map<Point, int>
    decreases if level < 0 then 0 else level + 1
  {
    if level < 0 then m
    else
      var order := LevelOrder(level, width);
      InsertAll(Build(InsertAll(m, order), level - 1, width), order)
  }

  /** The points of levels 0 to `level`. */
  function AllLevels(level: int, width: int): set<Point>
    decreases if level < 0 then 0 else level + 1
  {
    if level < 0 then {} else (set p | p in LevelOrder(level, width)) + AllLevels(level - 1, width)
  }

  // ---------------------------------------------------------------------------------------------
  // Invariants of the dictionary

  /** Some point holds index `i`. */
  ghost predicate IndexUsed(m: map<Point, int>, i: int) {
    exists p :: p in m && m[p] == i
  }

  /** The indices in use are exactly 0 .. |m| - 1, each held by one point. */
  ghost predicate Dense(m: map<Point, int>) {
    && (forall p :: p in m ==> 0 <= m[p] < |m|)
    && (forall i :: 0 <= i < |m| ==> IndexUsed(m, i))
    && (forall p, q :: p in m && q in m && p != q ==> m[p] != m[q])
  }

  /** `m2` grows out of `m` by insertions only: no key is lost or overwritten, and every new key
      holds an index from |m| up to, not including, |m2|. */
  ghost predicate Grows(m: map<Point, int>, m2: map<Point, int>) {
    && m.Keys <= m2.Keys
    && |m| <= |m2|
    && (forall p :: p in m ==> m2[p] == m[p])
    && (forall p :: p in m2 && p !in m ==> |m| <= m2[p] < |m2|)
  }

  lemma GrowsTransitive(m0: map<Point, int>, m1: map<Point, int>, m2: map<Point, int>)
    requires Grows(m0, m1) && Grows(m1, m2)
    ensures Grows(m0, m2)
  {
  }

  /** Visiting a sequence of points adds exactly those points as keys. */
  lemma {:induction false} InsertAllKeys(m: map<Point, int>, ps: seq<Point>)
    ensures InsertAll(m, ps).Keys == m.Keys + (set p | p in ps)
  {
    if ps != [] {
      var init, last := ps[..|ps| - 1], ps[|ps| - 1];
      assert ps == init + [last];
      InsertAllKeys(m, init);
    }
  }

  /** Each visit adds at most one entry. */
  lemma {:induction false} InsertAllSize(m: map<Point, int>, ps: seq<Point>)
    ensures |InsertAll(m, ps)| <= |m| + |ps|
  {
    if ps != [] {
      InsertAllSize(m, ps[..|ps| - 1]);
    }
  }

  lemma {:induction false} InsertAllGrows(m: map<Point, int>, ps: seq<Point>)
    ensures Grows(m, InsertAll(m, ps))
  {
    if ps != [] {
      var before := InsertAll(m, ps[..|ps| - 1]);
      var after := AddPoint(before, ps[|ps| - 1]);
      assert InsertAll(m, ps) == after;
      InsertAllGrows(m, ps[..|ps| - 1]);
      assert Grows(before, after);
      GrowsTransitive(m, before, after);
    }
  }

  lemma {:induction false} InsertAllDense(m: map<Point, int>, ps: seq<Point>)
    requires Dense(m)
    ensures Dense(InsertAll(m, ps))
  {
    if ps != [] {
      var before := InsertAll(m, ps[..|ps| - 1]);
      var p := ps[|ps| - 1];
      InsertAllDense(m, ps[..|ps| - 1]);
      if p !in before {
        var after := before[p := |before|];
        forall i | 0 <= i < |after|
          ensures IndexUsed(after, i)
        {
          if i < |before| {
            assert IndexUsed(before, i);
            var q :| q in before && before[q] == i;
            assert q in after && after[q] == i;
          } else {
            assert p in after && after[p] == i;
          }
        }
      }
    }
  }

  /** Visiting points that are all present changes nothing. */
  lemma {:induction false} InsertAllPresent(m: map<Point, int>, ps: seq<Point>)
    requires forall p :: p in ps ==> p in m
    ensures InsertAll(m, ps) == m
  {
    if ps != [] {
      InsertAllPresent(m, ps[..|ps| - 1]);
    }
  }

  /** One loop nest of a level visits at most width^2 points. */
  lemma {:induction false} GridOrderLength(level: nat, width: int, n: nat)
    ensures |GridOrder(level, width, n)| == n * Iterations(width)
  {
    if n > 0 {
      GridOrderLength(level, width, n - 1);
      assert (n - 1) * Iterations(width) + Iterations(width) == n * Iterations(width);
    }
  }

  /** The points one loop nest of a level visits are exactly the width x width lattice spaced
      2^level apart from (start, start) * 2^level. */
  lemma LevelOrderMembers(level: nat, width: int, p: Point)
    ensures p in LevelOrder(level, width) <==>
      exists x, y :: 0 <= x < width && 0 <= y < width && p == GridPoint(level, width, x, y)
  {
    GridOrderMembers(level, width, Iterations(width), p);
  }

  lemma {:induction false} GridOrderMembers(level: nat, width: int, n: nat, p: Point)
    ensures p in GridOrder(level, width, n) <==>
      exists x, y :: 0 <= x < n && 0 <= y < width && p == GridPoint(level, width, x, y)
  {
    if n > 0 {
      GridOrderMembers(level, width, n - 1, p);
      var row := RowOrder(level, width, n - 1);
      if p in row {
        var y :| 0 <= y < |row| && row[y] == p;
        assert 0 <= n - 1 < n && 0 <= y < width && p == GridPoint(level, width, n - 1, y);
      }
      if exists x, y :: 0 <= x < n && 0 <= y < width && p == GridPoint(level, width, x, y) {
        var x, y :| 0 <= x < n && 0 <= y < width && p == GridPoint(level, width, x, y);
        if x == n - 1 {
          assert row[y] == p;
        }
      }
    }
  }

  // Properties of `buildGridHelper`.

  /** It inserts exactly the points of levels 0 to `level`. */
  lemma {:induction false} BuildKeys(m: map<Point, int>, level: int, width: int)
    ensures Build(m, level, width).Keys == m.Keys + AllLevels(level, width)
    decreases if level < 0 then 0 else level + 1
  {
    if level >= 0 {
      var order := LevelOrder(level, width);
      var first := InsertAll(m, order);
      var below := Build(first, level - 1, width);
      assert Build(m, level, width) == InsertAll(below, order);
      InsertAllKeys(m, order);
      BuildKeys(first, level - 1, width);
      InsertAllKeys(below, order);
    }
  }

  /** Every lattice point of every level from 0 to `level` ends up in the dictionary. */
  lemma BuildContainsLattice(m: map<Point, int>, level: int, width: int, l: nat, x: int, y: int)
    requires l <= level && 0 <= x < width && 0 <= y < width
    ensures GridPoint(l, width, x, y) in Build(m, level, width)
  {
    LevelOrderMembers(l, width, GridPoint(l, width, x, y));
    AllLevelsContains(level, width, l, GridPoint(l, width, x, y));
    BuildKeys(m, level, width);
  }

  lemma {:induction false} AllLevelsContains(level: int, width: int, l: nat, p: Point)
    requires l <= level && p in LevelOrder(l, width)
    ensures p in AllLevels(level, width)
    decreases level
  {
    if l < level {
      AllLevelsContains(level - 1, width, l, p);
    }
  }

  /** ... by insertions only, each new point under the next free index, ... */
  lemma {:induction false} BuildGrows(m: map<Point, int>, level: int, width: int)
    ensures Grows(m, Build(m, level, width))
    decreases if level < 0 then 0 else level + 1
  {
    if level >= 0 {
      var order := LevelOrder(level, width);
      var first := InsertAll(m, order);
      var below := Build(first, level - 1, width);
      var after := InsertAll(below, order);
      assert Build(m, level, width) == after;
      InsertAllGrows(m, order);
      BuildGrows(first, level - 1, width);
      GrowsTransitive(m, first, below);
      InsertAllGrows(below, order);
      GrowsTransitive(m, below, after);
    }
  }

  /** ... and dense indices stay dense. */
  lemma {:induction false} BuildDense(m: map<Point, int>, level: int, width: int)
    requires Dense(m)
    ensures Dense(Build(m, level, width))
    decreases if level < 0 then 0 else level + 1
  {
    if level >= 0 {
      var order := LevelOrder(level, width);
      var first := InsertAll(m, order);
      InsertAllDense(m, order);
      BuildDense(first, level - 1, width);
      InsertAllDense(Build(first, level - 1, width), order);
    }
  }

  /** The second loop nest of a level adds nothing: the first one and the levels below already
      inserted all its points. */
  lemma SecondPassAddsNothing(m: map<Point, int>, level: nat, width: int)
    ensures Build(m, level, width) == Build(InsertAll(m, LevelOrder(level, width)), level - 1, width)
  {
    var order := LevelOrder(level, width);
    var first := InsertAll(m, order);
    var below := Build(first, level - 1, width);
    assert Build(m, level, width) == InsertAll(below, order);
    InsertAllKeys(m, order);
    BuildKeys(first, level - 1, width);
    InsertAllPresent(below, order);
  }

  /** The dictionary grows by at most width^2 entries per level. */
  lemma {:induction false} BuildSize(m: map<Point, int>, level: int, width: int)
    ensures level >= 0 ==> |Build(m, level, width)| <= |m| + (level + 1) * (width * width)
    decreases if level < 0 then 0 else level + 1
  {
    if level >= 0 {
      var order := LevelOrder(level, width);
      var first := InsertAll(m, order);
      var square := width * width;
      InsertAllSize(m, order);
      GridOrderLength(level, width, Iterations(width));
      assert Iterations(width) * Iterations(width) <= square;
      assert |first| <= |m| + square;
      BuildSize(first, level - 1, width);
      assert |Build(first, level - 1, width)| <= |first| + level * square;
      SecondPassAddsNothing(m, level, width);
      assert level * square + square == (level + 1) * square;
    }
  }

  /** Coarser first: every point first inserted by this level's first loop nest has a smaller
      index than every point first inserted by the finer levels. */
  lemma CoarserFirst(m: map<Point, int>, level: nat, width: int, p: Point, q: Point)
    requires p in InsertAll(m, LevelOrder(level, width)) && p !in m
    requires q in Build(m, level, width) && q !in InsertAll(m, LevelOrder(level, width))
    ensures p in Build(m, level, width)
    ensures Build(m, level, width)[p] < Build(m, level, width)[q]
  {
    var first := InsertAll(m, LevelOrder(level, width));
    InsertAllGrows(m, LevelOrder(level, width));
    BuildGrows(first, level - 1, width);
    SecondPassAddsNothing(m, level, width);
  }

  // ---------------------------------------------------------------------------------------------
  // The imperative code

  /** The coordinates the loop computes, rounded twice, are the grid point's. */
  lemma RoundedGridPoint(level: nat, width: int, x: int, y: int)
    ensures var cell := Pow2(level);
      NewPoint(Round(((x + Start(width)) * cell) as real) as real, Round(((y + Start(width)) * cell) as real) as real)
        == GridPoint(level, width, x, y)
  {
  }

  /** Visiting one more point of the row is one more `AddPoint`. */
  lemma VisitNext(m: map<Point, int>, row: seq<Point>, y: nat)
    requires y < |row|
    ensures InsertAll(m, row[..y + 1]) == AddPoint(InsertAll(m, row[..y]), row[y])
  {
    assert row[..y + 1][..y] == row[..y];
  }

  /** Visiting `a` and then `b` is visiting `a + b`. */
  lemma {:induction false} InsertAllAppend(m: map<Point, int>, a: seq<Point>, b: seq<Point>)
    ensures InsertAll(InsertAll(m, a), b) == InsertAll(m, a + b)
  {
    if b == [] {
      assert a + b == a;
    } else {
      var init := b[..|b| - 1];
      InsertAllAppend(m, a, init);
      assert (a + b)[..|a + b| - 1] == a + init;
    }
  }

  /** One loop nest of `buildGridHelper`: visits (x, y) row by row and inserts each new point
      under index `verts.size()`. */
  method InsertLevel(verts: Dictionary, level: nat, width: int)
    modifies verts
    ensures verts.entries == InsertAll(old(verts.entries), LevelOrder(level, width))
  {
    var x := 0;
    while x < width
      invariant 0 <= x <= Iterations(width)
      invariant verts.entries == InsertAll(old(verts.entries), GridOrder(level, width, x))
    {
      InsertRow(verts, level, width, x);
      InsertAllAppend(old(verts.entries), GridOrder(level, width, x), RowOrder(level, width, x));
      x := x + 1;
    }
  }

  /** The inner loop of a nest, row `x`. */
  method InsertRow(verts: Dictionary, level: nat, width: int, x: int)
    modifies verts
    ensures verts.entries == InsertAll(old(verts.entries), RowOrder(level, width, x))
  {
    var cellWidth := Pow2(level);
    var start := -(width / 2);
    var y := 0;
    while y < width
      invariant 0 <= y <= Iterations(width)
      invariant verts.entries == InsertAll(old(verts.entries), RowOrder(level, width, x)[..y])
    {
      var vertX := Round(((x + start) * cellWidth) as real);
      var vertY := Round(((y + start) * cellWidth) as real);
      var point := NewPoint(vertX as real, vertY as real);
      RoundedGridPoint(level, width, x, y);
      VisitNext(old(verts.entries), RowOrder(level, width, x), y);
      if !verts.ContainsKey(point) {
        verts.SetValue(point, verts.Size());
      }
      y := y + 1;
    }
    assert RowOrder(level, width, x)[..y] == RowOrder(level, width, x);
  }

  /** `buildGridHelper`: nothing for a negative level (the source returns `undefined`, here
      `None`); otherwise this level, the finer levels, this level again, and `[]`. */
  method BuildGridHelper(level: int, width: int, verts: Dictionary) returns (r: Option<seq<int>>)
    modifies verts
    ensures verts.entries == Build(old(verts.entries), level, width)
    ensures r == if level < 0 then None else Some([])
    decreases if level < 0 then 0 else level + 1
  {
    if level < 0 {
      return None;
    }
    InsertLevel(verts, level, width);
    var _ := BuildGridHelper(level - 1, width, verts);
    InsertLevel(verts, level, width);
    return Some([]);
  }

  /** `buildGrid`: runs the helper on a new, empty dictionary and returns the helper's result;
      the source drops the dictionary, which is returned here as `verts` so it can be described. */
  method BuildGrid(level: int, width: int) returns (r: Option<seq<int>>, verts: Dictionary)
    ensures r == if level < 0 then None else Some([])
    ensures fresh(verts) && verts.entries == Build(map[], level, width)
  {
    verts := new Dictionary();
    r := BuildGridHelper(level, width, verts);
  }

  /** What the built dictionary holds: the points of levels 0 to `level`, indexed 0 .. n - 1. */
  lemma BuildGridContents(level: int, width: int)
    ensures Build(map[], level, width).Keys == AllLevels(level, width)
    ensures Dense(Build(map[], level, width))
  {
    var empty: map<Point, int> := map[];
    BuildKeys(empty, level, width);
    BuildDense(empty, level, width);
  }
}
