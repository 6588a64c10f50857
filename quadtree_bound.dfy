/** Why `getTiles` never runs out of its 10000 scratch vectors: on every level of the quadtree at
    most 3 x 3 nodes lie close enough to the camera to be subdivided, so at most 90 nodes are
    subdivided in all and at most 722 scratch vectors are taken, wherever the camera is. */
module QuadtreeBound {
  import opened Quadtree
  import opened Powers

  /** `IsPow2`, the quadtree's test, holds exactly for the powers `Pow2(k)` counted here. */
  lemma IsPow2Exactly(n: int)
    ensures IsPow2(n) <==> exists k: nat :: n == Pow2(k)
  {
    if IsPow2(n) {
      Pow2OfIsPow2(n);
    }
    if exists k: nat :: n == Pow2(k) {
      var k: nat :| n == Pow2(k);
      IsPow2OfPow2(k);
    }
  }

  lemma {:induction false} IsPow2OfPow2(k: nat)
    ensures IsPow2(Pow2(k))
  {
    if k > 0 {
      IsPow2OfPow2(k - 1);
      assert Pow2(k) / 2 == Pow2(k - 1);
    }
  }

  lemma {:induction false} Pow2OfIsPow2(n: int)
    requires IsPow2(n)
    ensures exists k: nat :: n == Pow2(k)
    decreases if n < 0 then 0 else n
  {
    if n == 1 {
      assert n == Pow2(0);
    } else {
      Pow2OfIsPow2(n / 2);
      var k: nat :| n / 2 == Pow2(k);
      assert n == Pow2(k + 1);
    }
  }

  lemma {:induction false} Pow2Add(a: nat, b: nat)
    ensures Pow2(a + b) == Pow2(a) * Pow2(b)
    decreases a
  {
    if a > 0 {
      Pow2Add(a - 1, b);
      assert Pow2(a + b) == 2 * Pow2(a - 1 + b);
    }
  }

  // ---------------------------------------------------------------------------------------------
  // Counting subdivided nodes.

  /** Number of nodes of `n`'s subtree that fail the leaf test and are replaced by their children. */
  function Subdivided(n: Node, cam: Vec3): nat
    requires n.size >= 1
    decreases n.size
  {
    if IsLeaf(n, cam) then 0
    else
      var c := Children(n);
      1 + Subdivided(c[0], cam) + Subdivided(c[1], cam) + Subdivided(c[2], cam) + Subdivided(c[3], cam)
  }

  /** Every subdivided node takes one vector for its centre and four for its children; every
      emitted node larger than 1 takes one for its centre, and there are 1 + 3 * Subdivided of
      those at most. */
  lemma {:induction false} GetCallsBySubdivided(n: Node, cam: Vec3)
    requires n.size >= 1
    ensures GetCalls(n, cam) <= 1 + 8 * Subdivided(n, cam)
    decreases n.size
  {
    if !IsLeaf(n, cam) {
      var c := Children(n);
      GetCallsBySubdivided(c[0], cam);
      GetCallsBySubdivided(c[1], cam);
      GetCallsBySubdivided(c[2], cam);
      GetCallsBySubdivided(c[3], cam);
    }
  }

  /** Number of subdivided nodes exactly `e` levels below `n` (`n` itself when `e` is 0). */
  function SubdividedAt(n: Node, cam: Vec3, e: nat): nat
    decreases e
  {
    if IsLeaf(n, cam) then 0
    else if e == 0 then 1
    else
      var c := Children(n);
      SubdividedAt(c[0], cam, e - 1) + SubdividedAt(c[1], cam, e - 1)
        + SubdividedAt(c[2], cam, e - 1) + SubdividedAt(c[3], cam, e - 1)
  }

  /** Number of subdivided nodes fewer than `levels` levels below `n`. */
  function SubdividedAbove(n: Node, cam: Vec3, levels: nat): nat
  {
    if levels == 0 then 0 else SubdividedAbove(n, cam, levels - 1) + SubdividedAt(n, cam, levels - 1)
  }

  lemma {:induction false} SubdividedAboveSplit(n: Node, cam: Vec3, levels: nat)
    requires !IsLeaf(n, cam) && levels >= 1
    ensures
      var c := Children(n);
      SubdividedAbove(n, cam, levels) == 1 + SubdividedAbove(c[0], cam, levels - 1) + SubdividedAbove(c[1], cam, levels - 1)
        + SubdividedAbove(c[2], cam, levels - 1) + SubdividedAbove(c[3], cam, levels - 1)
  {
    if levels > 1 {
      SubdividedAboveSplit(n, cam, levels - 1);
    }
  }

  lemma {:induction false} LeafSubdividesNothing(n: Node, cam: Vec3, levels: nat)
    requires IsLeaf(n, cam)
    ensures SubdividedAbove(n, cam, levels) == 0
  {
    if levels > 0 {
      LeafSubdividesNothing(n, cam, levels - 1);
    }
  }

  /** In a node of side 2^E every level up to E - 1 is counted: the nodes E levels down have side
      1 and are never subdivided. */
  lemma {:induction false} SubdividedByLevels(n: Node, cam: Vec3, levels: nat)
    requires n.size == Pow2(levels)
    ensures Subdivided(n, cam) == SubdividedAbove(n, cam, levels)
    decreases levels
  {
    if IsLeaf(n, cam) {
      LeafSubdividesNothing(n, cam, levels);
    } else {
      var c := Children(n);
      assert levels >= 1;
      SubdividedByLevels(c[0], cam, levels - 1);
      SubdividedByLevels(c[1], cam, levels - 1);
      SubdividedByLevels(c[2], cam, levels - 1);
      SubdividedByLevels(c[3], cam, levels - 1);
      SubdividedAboveSplit(n, cam, levels);
    }
  }

  // ---------------------------------------------------------------------------------------------
  // One axis: cells of side `s` near the camera.

  /** The cell [p, p + s) has its centre within `s` of the camera coordinate `c`. */
  predicate Near(p: int, s: int, c: real) {
    var d := p as real + s as real / 2.0 - c;
    -(s as real) <= d <= s as real
  }

  /** Number of the `w` consecutive cells of side `s` starting at `x` that are `Near` `c`. */
  function NearCells(x: int, w: nat, s: int, c: real): nat
  {
    if w == 0 then 0 else NearCells(x, w - 1, s, c) + (if Near(x + (w - 1) * s, s, c) then 1 else 0)
  }

  lemma {:induction false} NearCellsSplit(x: int, w1: nat, w2: nat, s: int, c: real)
    ensures NearCells(x, w1 + w2, s, c) == NearCells(x, w1, s, c) + NearCells(x + w1 * s, w2, s, c)
    decreases w2
  {
    if w2 > 0 {
      NearCellsSplit(x, w1, w2 - 1, s, c);
      assert x + (w1 + w2 - 1) * s == (x + w1 * s) + (w2 - 1) * s;
    }
  }

  /** Two near cells are at most two cells apart. */
  lemma NearClose(x: int, a: int, b: int, s: int, c: real)
    requires s >= 1 && a <= b && Near(x + a * s, s, c) && Near(x + b * s, s, c)
    ensures b - a <= 2
  {
    var pa, pb := x + a * s, x + b * s;
    var gap := pb - pa;
    assert gap as real <= 2.0 * s as real;
    assert gap <= 2 * s;
    var k := b - a;
    assert gap - 2 * s == (k - 2) * s;
    MulAtLeast(k - 2, s);
  }

  /** When no near cell has index below `t`, at most the cells from `t` on are counted. */
  lemma {:induction false} NearCellsFrom(x: int, w: nat, s: int, c: real, t: int)
    requires forall a :: 0 <= a < w && Near(x + a * s, s, c) ==> t <= a
    ensures NearCells(x, w, s, c) <= if w <= t then 0 else w - t
  {
    if w > 0 {
      NearCellsFrom(x, w - 1, s, c, t);
    }
  }

  /** Cells `s` apart fit at most three times in the window of width `2 s` around the camera. */
  lemma {:induction false} NearCellsAtMostThree(x: int, w: nat, s: int, c: real)
    requires s >= 1
    ensures NearCells(x, w, s, c) <= 3
  {
    if w > 0 {
      if Near(x + (w - 1) * s, s, c) {
        forall a | 0 <= a < w && Near(x + a * s, s, c) ensures w - 3 <= a {
          NearClose(x, a, w - 1, s, c);
        }
        NearCellsFrom(x, w, s, c, w - 3);
      } else {
        NearCellsAtMostThree(x, w - 1, s, c);
      }
    }
  }

  // ---------------------------------------------------------------------------------------------
  // One level: subdivided nodes lie in a 3 x 3 window.

  lemma SquareGrows(d: real, s: real)
    requires s > 0.0 && d > s
    ensures d * d > s * s
  {
    assert d * d > s * d;
    assert s * d > s * s;
  }

  lemma SquareBound(d: real, s: real)
    requires s > 0.0 && d * d <= s * s
    ensures -s <= d <= s
  {
    if d > s {
      SquareGrows(d, s);
    } else if d < -s {
      SquareGrows(-d, s);
    }
  }

  /** A subdivided node's centre is within its side of the camera along each axis. */
  lemma SubdividedIsNear(n: Node, cam: Vec3)
    requires n.size >= 1 && !IsLeaf(n, cam)
    ensures Near(n.x, n.size, cam.x) && Near(n.y, n.size, cam.y)
  {
    var m := Centre(n);
    var dx, dy, dz := m.x - cam.x, m.y - cam.y, m.z - cam.z;
    var s := n.size as real;
    assert (n.size * n.size) as real == s * s;
    assert dx * dx + dy * dy + dz * dz <= s * s;
    assert dx * dx >= 0.0 && dy * dy >= 0.0 && dz * dz >= 0.0;
    SquareBound(dx, s);
    SquareBound(dy, s);
  }

  /** The subdivided nodes `e` levels below `n` (side `s` each) are at most the near columns
      times the near rows of `n`'s 2^e x 2^e grid of such nodes. */
  lemma {:induction false} SubdividedAtNear(n: Node, cam: Vec3, e: nat, s: int)
    requires s >= 1 && n.size == s * Pow2(e)
    ensures SubdividedAt(n, cam, e) <= NearCells(n.x, Pow2(e), s, cam.x) * NearCells(n.y, Pow2(e), s, cam.y)
    decreases e
  {
    if IsLeaf(n, cam) {
    } else if e == 0 {
      assert n.size == s;
      OneCellNear(n, cam);
    } else {
      HalfSize(n.size, s, e);
      var c := Children(n);
      forall k | 0 <= k < 4
        ensures SubdividedAt(c[k], cam, e - 1)
          <= NearCells(c[k].x, Pow2(e - 1), s, cam.x) * NearCells(c[k].y, Pow2(e - 1), s, cam.y)
      {
        SubdividedAtNear(c[k], cam, e - 1, s);
      }
      QuartersNear(n, cam, e, s);
    }
  }

  /** A subdivided node is the one near cell of the 1 x 1 grid it forms by itself. */
  lemma OneCellNear(n: Node, cam: Vec3)
    requires n.size >= 1 && !IsLeaf(n, cam)
    ensures NearCells(n.x, 1, n.size, cam.x) == 1 && NearCells(n.y, 1, n.size, cam.y) == 1
  {
    SubdividedIsNear(n, cam);
    assert n.x + 0 * n.size == n.x && n.y + 0 * n.size == n.y;
    assert NearCells(n.x, 0, n.size, cam.x) == 0 && NearCells(n.y, 0, n.size, cam.y) == 0;
  }

  /** The inductive step: the bounds of the four quarters add up to the bound of the node. */
  lemma QuartersNear(n: Node, cam: Vec3, e: nat, s: int)
    requires e >= 1 && !IsLeaf(n, cam)
    requires n.size / 2 == Pow2(e - 1) * s && Pow2(e) == Pow2(e - 1) + Pow2(e - 1)
    requires forall k :: 0 <= k < 4 ==>
      SubdividedAt(Children(n)[k], cam, e - 1)
        <= NearCells(Children(n)[k].x, Pow2(e - 1), s, cam.x) * NearCells(Children(n)[k].y, Pow2(e - 1), s, cam.y)
    ensures SubdividedAt(n, cam, e) <= NearCells(n.x, Pow2(e), s, cam.x) * NearCells(n.y, Pow2(e), s, cam.y)
  {
    var w, h := Pow2(e - 1), n.size / 2;
    var c := Children(n);
    assert c[0].x == n.x && c[1].x == n.x + h && c[0].y == n.y && c[2].y == n.y + h;
    assert c[2].x == n.x && c[3].x == n.x + h && c[1].y == n.y && c[3].y == n.y + h;
    var x0, x1 := NearCells(n.x, w, s, cam.x), NearCells(n.x + h, w, s, cam.x);
    var y0, y1 := NearCells(n.y, w, s, cam.y), NearCells(n.y + h, w, s, cam.y);
    var a0, a1 := SubdividedAt(c[0], cam, e - 1), SubdividedAt(c[1], cam, e - 1);
    var a2, a3 := SubdividedAt(c[2], cam, e - 1), SubdividedAt(c[3], cam, e - 1);
    assert a0 <= x0 * y0 && a1 <= x1 * y0 && a2 <= x0 * y1 && a3 <= x1 * y1;
    assert SubdividedAt(n, cam, e) == a0 + a1 + a2 + a3;
    NearCellsHalves(n.x, w, Pow2(e), h, s, cam.x);
    NearCellsHalves(n.y, w, Pow2(e), h, s, cam.y);
    ProductSplit(a0, a1, a2, a3, x0, x1, y0, y1, NearCells(n.x, Pow2(e), s, cam.x), NearCells(n.y, Pow2(e), s, cam.y));
  }

  /** A row of `ww = 2 w` cells splits into two rows of `w`, the second starting `h = w s` on. */
  lemma NearCellsHalves(x: int, w: nat, ww: nat, h: int, s: int, c: real)
    requires ww == w + w && h == w * s
    ensures NearCells(x, ww, s, c) == NearCells(x, w, s, c) + NearCells(x + h, w, s, c)
  {
    NearCellsSplit(x, w, w, s, c);
  }

  lemma HalfSize(size: int, s: int, e: nat)
    requires e >= 1 && size == s * Pow2(e)
    ensures size / 2 == s * Pow2(e - 1) == Pow2(e - 1) * s
    ensures Pow2(e) == Pow2(e - 1) + Pow2(e - 1)
  {
    assert size == 2 * (s * Pow2(e - 1));
  }

  /** The four quarters' bounds add up to the bound of the whole grid. */
  lemma ProductSplit(a0: nat, a1: nat, a2: nat, a3: nat, x0: nat, x1: nat, y0: nat, y1: nat, xs: nat, ys: nat)
    requires a0 <= x0 * y0 && a1 <= x1 * y0 && a2 <= x0 * y1 && a3 <= x1 * y1
    requires xs == x0 + x1 && ys == y0 + y1
    ensures a0 + a1 + a2 + a3 <= xs * ys
  {
    assert xs * ys == x0 * y0 + x1 * y0 + x0 * y1 + x1 * y1;
  }

  lemma AtMostNine(a: nat, b: nat)
    requires a <= 3 && b <= 3
    ensures a * b <= 9
  {
  }

  /** At most 9 nodes are subdivided on any one level of the quadtree. */
  lemma SubdividedPerLevel(cam: Vec3, e: nat)
    requires e < 10
    ensures SubdividedAt(Root, cam, e) <= 9
  {
    var s := Pow2(10 - e);
    Pow2Add(10 - e, e);
    assert Pow2(10) == 1024;
    SubdividedAtNear(Root, cam, e, s);
    NearCellsAtMostThree(Root.x, Pow2(e), s, cam.x);
    NearCellsAtMostThree(Root.y, Pow2(e), s, cam.y);
    AtMostNine(NearCells(Root.x, Pow2(e), s, cam.x), NearCells(Root.y, Pow2(e), s, cam.y));
  }

  lemma {:induction false} SubdividedAboveRoot(cam: Vec3, levels: nat)
    requires levels <= 10
    ensures SubdividedAbove(Root, cam, levels) <= 9 * levels
  {
    if levels > 0 {
      SubdividedAboveRoot(cam, levels - 1);
      SubdividedPerLevel(cam, levels - 1);
    }
  }

  /** Wherever the camera is, one `getTiles` call takes at most 722 scratch vectors, so it never
      runs past the 10000 the pool holds. */
  lemma GetTilesNeverExhausts(cam: Vec3)
    ensures TotalGetCalls(cam) <= 722 < ScratchSlots
  {
    assert Pow2(10) == 1024;
    SubdividedByLevels(Root, cam, 10);
    SubdividedAboveRoot(cam, 10);
    GetCallsBySubdivided(Root, cam);
  }
}
