/** The level-of-detail quadtree of src/quadtree.ts: the scratch-vector pool, the stack-driven
    leaf selection `getTiles`, and the mesh assignment of `Renderer.update`. */
module Quadtree {
  import opened Wrappers

  /** Side of the root square. */
  const QuadtreeSize: int := 1024
  /** Number of preallocated scratch vectors. */
  const ScratchSlots: int := 10000
  /** Number of meshes the renderer draws leaves with. */
  const MeshCount: int := 300

  datatype Vec3 = Vec3(x: real, y: real, z: real)

  /** A quadtree node: lower-left corner (x, y) and side `size` (the source keeps the size in z). */
  datatype Node = Node(x: int, y: int, size: int)

  /** Reading past the last scratch vector yields `undefined`, and setting it throws. */
  datatype ScratchError = ScratchExhausted

  const Root: Node := Node(0, 0, QuadtreeSize)

  lemma RootIsPow2()
    ensures IsPow2(Root.size)
  {
    assert IsPow2(1) && IsPow2(2) && IsPow2(4) && IsPow2(8) && IsPow2(16) && IsPow2(32);
    assert IsPow2(64) && IsPow2(128) && IsPow2(256) && IsPow2(512) && IsPow2(1024);
  }

  predicate IsPow2(n: int)
    decreases if n < 0 then 0 else n
  {
    n == 1 || (n >= 2 && n % 2 == 0 && IsPow2(n / 2))
  }

  /** The four half-size children, in the order the source pushes them. */
  function Children(n: Node): seq<Node> {
    var h := n.size / 2;
    [Node(n.x, n.y, h), Node(n.x + h, n.y, h), Node(n.x, n.y + h, h), Node(n.x + h, n.y + h, h)]
  }

  function Centre(n: Node): Vec3 {
    Vec3(n.x as real + n.size as real / 2.0, n.y as real + n.size as real / 2.0, 0.0)
  }

  function DistanceSq(a: Vec3, b: Vec3): real {
    (a.x - b.x) * (a.x - b.x) + (a.y - b.y) * (a.y - b.y) + (a.z - b.z) * (a.z - b.z)
  }

  /** Whether `n` is emitted as it is: size 1 without any distance test, otherwise when its centre
      is farther than `size` from the camera (both sides are non-negative, so compared squared). */
  predicate IsLeaf(n: Node, cam: Vec3) {
    n.size == 1 || DistanceSq(Centre(n), cam) > (n.size * n.size) as real
  }

  /** The leaves emitted for the subtree of `n`, in the order the LIFO stack emits them: the
      last-pushed child's subtree first. */
  function Select(n: Node, cam: Vec3): (r: seq<Node>)
    requires n.size >= 1
    ensures 1 <= |r|
    decreases n.size
  {
    if IsLeaf(n, cam) then [n]
    else
      var c := Children(n);
      Select(c[3], cam) + Select(c[2], cam) + Select(c[1], cam) + Select(c[0], cam)
  }

  /** Scratch vectors taken while processing the popped node `n` and its descendants: one for the
      centre of every node of size > 1, four for the children of every subdivided node. */
  function GetCalls(n: Node, cam: Vec3): nat
    requires n.size >= 1
    decreases n.size
  {
    if n.size == 1 then 0
    else if IsLeaf(n, cam) then 1
    else
      var c := Children(n);
      5 + GetCalls(c[0], cam) + GetCalls(c[1], cam) + GetCalls(c[2], cam) + GetCalls(c[3], cam)
  }

  /** Scratch vectors one `getTiles` call takes: the root's, then those of its subtree. */
  function TotalGetCalls(cam: Vec3): nat {
    1 + GetCalls(Root, cam)
  }

  // ---------------------------------------------------------------------------------------------
  // The explicit stack: what remains to be emitted and taken, top of stack last.

  predicate StackNodesValid(st: seq<Node>) {
    forall k :: 0 <= k < |st| ==> st[k].size >= 1
  }

  function SelectStack(st: seq<Node>, cam: Vec3): seq<Node>
    requires StackNodesValid(st)
  {
    if st == [] then [] else Select(st[|st| - 1], cam) + SelectStack(st[..|st| - 1], cam)
  }

  function StackGetCalls(st: seq<Node>, cam: Vec3): nat
    requires StackNodesValid(st)
  {
    if st == [] then 0 else GetCalls(st[|st| - 1], cam) + StackGetCalls(st[..|st| - 1], cam)
  }

  /** Number of nodes of the complete quadtree below a node of side `size`: a popped node either
      leaves the stack or is replaced by four children, so the sum over the stack drops by one. */
  function Weight(size: int): nat
    decreases if size < 0 then 0 else size
  {
    if size <= 1 then 1 else 1 + 4 * Weight(size / 2)
  }

  function StackWeight(st: seq<Node>): nat {
    if st == [] then 0 else Weight(st[|st| - 1].size) + StackWeight(st[..|st| - 1])
  }

  lemma PushOne(st: seq<Node>, n: Node, cam: Vec3)
    requires StackNodesValid(st) && n.size >= 1
    ensures StackNodesValid(st + [n])
    ensures StackGetCalls(st + [n], cam) == GetCalls(n, cam) + StackGetCalls(st, cam)
    ensures StackWeight(st + [n]) == Weight(n.size) + StackWeight(st)
  {
    assert (st + [n])[..|st|] == st;
  }

  lemma PushOneSelect(st: seq<Node>, n: Node, cam: Vec3)
    requires StackNodesValid(st) && n.size >= 1
    ensures StackNodesValid(st + [n])
    ensures SelectStack(st + [n], cam) == Select(n, cam) + SelectStack(st, cam)
  {
    assert (st + [n])[..|st|] == st;
  }

  /** Replacing a subdivided node by its four children keeps what the stack will emit and take. */
  lemma PushChildren(st: seq<Node>, n: Node, cam: Vec3)
    requires StackNodesValid(st) && n.size >= 1 && !IsLeaf(n, cam)
    ensures StackNodesValid(st + Children(n))
    ensures SelectStack(st + Children(n), cam) == Select(n, cam) + SelectStack(st, cam)
    ensures StackGetCalls(st + Children(n), cam) + 5 == GetCalls(n, cam) + StackGetCalls(st, cam)
    ensures StackWeight(st + Children(n)) + 1 == Weight(n.size) + StackWeight(st)
  {
    var c := Children(n);
    var s1 := st + [c[0]];
    var s2 := s1 + [c[1]];
    var s3 := s2 + [c[2]];
    var s4 := s3 + [c[3]];
    assert s4 == st + c;
    PushOne(st, c[0], cam);
    PushOne(s1, c[1], cam);
    PushOne(s2, c[2], cam);
    PushOne(s3, c[3], cam);
    assert GetCalls(n, cam) == 5 + GetCalls(c[0], cam) + GetCalls(c[1], cam) + GetCalls(c[2], cam) + GetCalls(c[3], cam);
    PushChildrenSelect(st, n, cam);
  }

  lemma PushChildrenSelect(st: seq<Node>, n: Node, cam: Vec3)
    requires StackNodesValid(st) && n.size >= 1 && !IsLeaf(n, cam)
    ensures StackNodesValid(st + Children(n))
    ensures SelectStack(st + Children(n), cam) == Select(n, cam) + SelectStack(st, cam)
  {
    var c := Children(n);
    var s1 := st + [c[0]];
    var s2 := s1 + [c[1]];
    var s3 := s2 + [c[2]];
    var s4 := s3 + [c[3]];
    assert s4 == st + c;
    var a0, a1, a2, a3 := Select(c[0], cam), Select(c[1], cam), Select(c[2], cam), Select(c[3], cam);
    var rest := SelectStack(st, cam);
    PushOneSelect(st, c[0], cam);
    assert SelectStack(s1, cam) == a0 + rest;
    PushOneSelect(s1, c[1], cam);
    assert SelectStack(s2, cam) == a1 + (a0 + rest);
    PushOneSelect(s2, c[2], cam);
    assert SelectStack(s3, cam) == a2 + (a1 + (a0 + rest));
    PushOneSelect(s3, c[3], cam);
    assert SelectStack(s4, cam) == a3 + (a2 + (a1 + (a0 + rest)));
    assert Select(n, cam) == a3 + a2 + a1 + a0;
    AppendAssoc(a1, a0, rest);
    AppendAssoc(a2, a1 + a0, rest);
    AppendAssoc(a3, a2 + (a1 + a0), rest);
    AppendAssoc(a2, a1, a0);
    AppendAssoc(a3, a2 + a1, a0);
    AppendAssoc(a3, a2, a1);
  }

  lemma AppendAssoc<T>(a: seq<T>, b: seq<T>, c: seq<T>)
    ensures a + (b + c) == (a + b) + c
  {
  }

  /** Popping the top node `n` of `rest + [n]`: what remains to be emitted and taken splits into
      `n`'s share and the rest's. */
  lemma PopNode(res: seq<Node>, rest: seq<Node>, n: Node, cam: Vec3)
    requires StackNodesValid(rest + [n])
    ensures StackNodesValid(rest) && n.size >= 1
    ensures res + SelectStack(rest + [n], cam) == res + Select(n, cam) + SelectStack(rest, cam)
    ensures StackGetCalls(rest + [n], cam) == GetCalls(n, cam) + StackGetCalls(rest, cam)
    ensures StackWeight(rest + [n]) == Weight(n.size) + StackWeight(rest)
  {
    assert (rest + [n])[|rest|] == n;
    assert forall k :: 0 <= k < |rest| ==> (rest + [n])[k] == rest[k];
    PushOne(rest, n, cam);
    PushOneSelect(rest, n, cam);
  }

  /** A node emitted as it is contributes exactly itself. */
  lemma EmitLeaf(res: seq<Node>, rest: seq<Node>, n: Node, cam: Vec3)
    requires StackNodesValid(rest) && n.size >= 1 && IsLeaf(n, cam)
    ensures res + Select(n, cam) + SelectStack(rest, cam) == (res + [n]) + SelectStack(rest, cam)
  {
  }

  // ---------------------------------------------------------------------------------------------
  // What the selected leaves are: aligned power-of-two squares that tile the node.

  predicate Covers(n: Node, px: int, py: int) {
    n.x <= px < n.x + n.size && n.y <= py < n.y + n.size
  }

  /** Number of squares in `s` that contain the unit cell at (px, py). */
  function CoverCount(s: seq<Node>, px: int, py: int): nat {
    if s == [] then 0 else (if Covers(s[0], px, py) then 1 else 0) + CoverCount(s[1..], px, py)
  }

  lemma {:induction false} CoverCountAppend(a: seq<Node>, b: seq<Node>, px: int, py: int)
    ensures CoverCount(a + b, px, py) == CoverCount(a, px, py) + CoverCount(b, px, py)
  {
    if a == [] {
      assert a + b == b;
    } else {
      assert (a + b)[1..] == a[1..] + b;
      CoverCountAppend(a[1..], b, px, py);
    }
  }

  /** The leaves of a node tile it: every unit cell of the node lies in exactly one leaf, and
      every cell outside it in none. */
  lemma {:induction false} SelectTiles(n: Node, cam: Vec3, px: int, py: int)
    requires IsPow2(n.size)
    ensures CoverCount(Select(n, cam), px, py) == if Covers(n, px, py) then 1 else 0
    decreases n.size
  {
    if IsLeaf(n, cam) {
      assert [n][1..] == [];
    } else {
      var c := Children(n);
      SelectTiles(c[0], cam, px, py);
      SelectTiles(c[1], cam, px, py);
      SelectTiles(c[2], cam, px, py);
      SelectTiles(c[3], cam, px, py);
      var s3, s2, s1, s0 := Select(c[3], cam), Select(c[2], cam), Select(c[1], cam), Select(c[0], cam);
      CoverCountAppend(s3, s2, px, py);
      CoverCountAppend(s3 + s2, s1, px, py);
      CoverCountAppend(s3 + s2 + s1, s0, px, py);
    }
  }

  predicate Aligned(n: Node) {
    n.size >= 1 && n.x % n.size == 0 && n.y % n.size == 0
  }

  predicate Within(l: Node, n: Node) {
    n.x <= l.x && l.x + l.size <= n.x + n.size && n.y <= l.y && l.y + l.size <= n.y + n.size
  }

  lemma MulAtLeast(a: int, s: int)
    requires s >= 1
    ensures a >= 1 ==> a * s >= s
  {
  }

  lemma MultipleMod(h: int, k: int)
    requires h >= 1
    ensures (h * k) % h == 0
  {
    var p := h * k;
    var d, r := p / h, p % h;
    assert p == h * d + r && 0 <= r < h;
    assert h * (k - d) == r;
    MulAtLeast(k - d, h);
    MulAtLeast(d - k, h);
  }

  lemma HalfAligned(v: int, h: int)
    requires h >= 1 && v % (2 * h) == 0
    ensures v % h == 0 && (v + h) % h == 0
  {
    var q := v / (2 * h);
    assert v == (2 * h) * q;
    assert v == h * (2 * q);
    assert v + h == h * (2 * q + 1);
    MultipleMod(h, 2 * q);
    MultipleMod(h, 2 * q + 1);
  }

  /** Every leaf is a power-of-two square inside its node, aligned when the node is. */
  lemma {:induction false} SelectLeavesInside(n: Node, cam: Vec3)
    requires IsPow2(n.size)
    ensures forall l :: l in Select(n, cam) ==>
      IsPow2(l.size) && l.size <= n.size && Within(l, n) && (Aligned(n) ==> Aligned(l))
    decreases n.size
  {
    if !IsLeaf(n, cam) {
      var c := Children(n);
      ChildrenInside(n);
      SelectLeavesInside(c[0], cam);
      SelectLeavesInside(c[1], cam);
      SelectLeavesInside(c[2], cam);
      SelectLeavesInside(c[3], cam);
    }
  }

  /** The children of a power-of-two node larger than 1 are power-of-two squares inside it,
      aligned when it is. */
  lemma ChildrenInside(n: Node)
    requires IsPow2(n.size) && n.size != 1
    ensures forall k :: 0 <= k < 4 ==>
      var ch := Children(n)[k];
      IsPow2(ch.size) && ch.size < n.size && Within(ch, n) && (Aligned(n) ==> Aligned(ch))
  {
    var h := n.size / 2;
    assert n.size == 2 * h && IsPow2(h);
    if Aligned(n) {
      HalfAligned(n.x, h);
      HalfAligned(n.y, h);
    }
  }

  /** Every leaf is an aligned power-of-two square of side 1 to 1024 inside the root square. */
  lemma LeavesAreRootTiles(cam: Vec3)
    ensures forall l :: l in Select(Root, cam) ==>
      && IsPow2(l.size) && 1 <= l.size <= QuadtreeSize
      && l.x % l.size == 0 && l.y % l.size == 0
      && 0 <= l.x && l.x + l.size <= QuadtreeSize && 0 <= l.y && l.y + l.size <= QuadtreeSize
  {
    RootIsPow2();
    assert Aligned(Root);
    SelectLeavesInside(Root, cam);
  }

  /** The leaves cover the root square exactly once. */
  lemma LeavesCoverRoot(cam: Vec3, px: int, py: int)
    ensures CoverCount(Select(Root, cam), px, py) ==
      if 0 <= px < QuadtreeSize && 0 <= py < QuadtreeSize then 1 else 0
  {
    SelectTiles(Root, cam, px, py);
  }

  predicate Disjoint(a: Node, b: Node) {
    a.x + a.size <= b.x || b.x + b.size <= a.x || a.y + a.size <= b.y || b.y + b.size <= a.y
  }

  lemma {:induction false} CoverCountTwo(s: seq<Node>, i: int, j: int, px: int, py: int)
    requires 0 <= i < j < |s| && Covers(s[i], px, py) && Covers(s[j], px, py)
    ensures CoverCount(s, px, py) >= 2
  {
    if i > 0 {
      CoverCountTwo(s[1..], i - 1, j - 1, px, py);
    } else {
      CoverCountOne(s[1..], j - 1, px, py);
    }
  }

  lemma {:induction false} CoverCountOne(s: seq<Node>, j: int, px: int, py: int)
    requires 0 <= j < |s| && Covers(s[j], px, py)
    ensures CoverCount(s, px, py) >= 1
  {
    if j > 0 {
      CoverCountOne(s[1..], j - 1, px, py);
    }
  }

  /** No two leaves overlap. */
  lemma LeavesPairwiseDisjoint(n: Node, cam: Vec3)
    requires IsPow2(n.size)
    ensures forall i, j :: 0 <= i < j < |Select(n, cam)| ==> Disjoint(Select(n, cam)[i], Select(n, cam)[j])
  {
    var s := Select(n, cam);
    SelectLeavesInside(n, cam);
    forall i, j | 0 <= i < j < |s| ensures Disjoint(s[i], s[j]) {
      if !Disjoint(s[i], s[j]) {
        assert s[i] in s && s[j] in s;
        var px := if s[i].x < s[j].x then s[j].x else s[i].x;
        var py := if s[i].y < s[j].y then s[j].y else s[i].y;
        CoverCountTwo(s, i, j, px, py);
        SelectTiles(n, cam, px, py);
        assert false;
      }
    }
  }

  /** The emitted leaves are pairwise distinct. */
  lemma LeavesDistinct(cam: Vec3)
    ensures forall i, j :: 0 <= i < j < |Select(Root, cam)| ==> Select(Root, cam)[i] != Select(Root, cam)[j]
  {
    var s := Select(Root, cam);
    LeavesPairwiseDisjoint(Root, cam);
    SelectLeavesInside(Root, cam);
    forall i, j | 0 <= i < j < |s| ensures s[i] != s[j] {
      assert s[i] in s;
      assert Disjoint(s[i], s[j]);
    }
  }

  /** A node is emitted whole exactly when the source's test says so; otherwise it is replaced by
      strictly smaller leaves (at least its four children's worth). */
  lemma EmittedWhole(n: Node, cam: Vec3)
    requires IsPow2(n.size)
    ensures Select(n, cam) == [n] <==> IsLeaf(n, cam)
    ensures !IsLeaf(n, cam) ==> 4 <= |Select(n, cam)| && forall l :: l in Select(n, cam) ==> l.size < n.size
  {
    if !IsLeaf(n, cam) {
      var c := Children(n);
      SelectLeavesInside(c[0], cam);
      SelectLeavesInside(c[1], cam);
      SelectLeavesInside(c[2], cam);
      SelectLeavesInside(c[3], cam);
    }
  }

  /** With the camera 1000 above the root's centre the root is split once and its children are
      emitted last-pushed first, after ten scratch vectors. */
  lemma OnceSubdividedOrder()
    ensures Select(Root, Vec3(512.0, 512.0, 1000.0)) ==
      [Node(512, 512, 512), Node(0, 512, 512), Node(512, 0, 512), Node(0, 0, 512)]
    ensures TotalGetCalls(Vec3(512.0, 512.0, 1000.0)) == 10
  {
    var cam := Vec3(512.0, 512.0, 1000.0);
    assert !IsLeaf(Root, cam);
    assert IsLeaf(Node(0, 0, 512), cam) && IsLeaf(Node(512, 0, 512), cam);
    assert IsLeaf(Node(0, 512, 512), cam) && IsLeaf(Node(512, 512, 512), cam);
  }

  // ---------------------------------------------------------------------------------------------
  // The module-level scratch-vector pool.

  class VectorCache {
    var tmpVectors: array<Vec3>
    var i: nat

    ghost predicate Valid()
      reads this
    {
      tmpVectors.Length == ScratchSlots
    }

    constructor ()
      ensures Valid() && fresh(tmpVectors) && i == 0
      ensures forall k :: 0 <= k < ScratchSlots ==> tmpVectors[k] == Vec3(0.0, 0.0, 0.0)
    {
      tmpVectors := new Vec3[ScratchSlots](_ => Vec3(0.0, 0.0, 0.0));
      i := 0;
    }

    /** Sets scratch slot `i` to (x, y, z), hands it out and moves to the next slot. */
    method Get(x: real, y: real, z: real) returns (r: Result<Vec3, ScratchError>)
      requires Valid()
      modifies this, tmpVectors
      ensures Valid() && tmpVectors == old(tmpVectors) && i == old(i) + 1
      ensures old(i) < ScratchSlots ==>
        r == Ok(Vec3(x, y, z)) && tmpVectors[..] == old(tmpVectors[..])[old(i) := Vec3(x, y, z)]
      ensures ScratchSlots <= old(i) ==> r == Err(ScratchExhausted) && tmpVectors[..] == old(tmpVectors[..])
    {
      var slot := i;
      i := i + 1;
      if slot < tmpVectors.Length {
        tmpVectors[slot] := Vec3(x, y, z);
        r := Ok(tmpVectors[slot]);
      } else {
        r := Err(ScratchExhausted);
      }
    }

    /** Copies `v` into scratch slot `i`, hands it out and moves to the next slot. */
    method From(v: Vec3) returns (r: Result<Vec3, ScratchError>)
      requires Valid()
      modifies this, tmpVectors
      ensures Valid() && tmpVectors == old(tmpVectors) && i == old(i) + 1
      ensures old(i) < ScratchSlots ==> r == Ok(v) && tmpVectors[..] == old(tmpVectors[..])[old(i) := v]
      ensures ScratchSlots <= old(i) ==> r == Err(ScratchExhausted) && tmpVectors[..] == old(tmpVectors[..])
    {
      var slot := i;
      i := i + 1;
      if slot < tmpVectors.Length {
        tmpVectors[slot] := v;
        r := Ok(tmpVectors[slot]);
      } else {
        r := Err(ScratchExhausted);
      }
    }

    method Reset()
      requires Valid()
      modifies this
      ensures Valid() && tmpVectors == old(tmpVectors) && i == 0
    {
      i := 0;
    }
  }

  /** `getTiles`: takes a scratch vector for the root, then walks the quadtree from it. It fails
      exactly when the call needs more than the 10000 scratch vectors. */
  method GetTiles(cache: VectorCache, cam: Vec3) returns (r: Result<seq<Node>, ScratchError>)
    requires cache.Valid()
    modifies cache, cache.tmpVectors
    ensures cache.Valid() && cache.tmpVectors == old(cache.tmpVectors)
    ensures r.Ok? <==> TotalGetCalls(cam) <= ScratchSlots
    ensures r.Ok? ==> r.value == Select(Root, cam) && cache.i == TotalGetCalls(cam)
    ensures r.Err? ==> cache.i == ScratchSlots + 1
  {
    cache.Reset();
    var rootVector := cache.Get(0.0, 0.0, QuadtreeSize as real);
    r := Descend(cache, cam, Root);
  }

  /** The subdividing branch of the loop: takes a scratch vector for each quarter of `n` and pushes
      the quarters in `Children` order. */
  method PushQuarters(cache: VectorCache, n: Node, stack: seq<Node>) returns (r: Result<seq<Node>, ScratchError>)
    requires cache.Valid() && cache.i <= ScratchSlots
    modifies cache, cache.tmpVectors
    ensures cache.Valid() && cache.tmpVectors == old(cache.tmpVectors)
    ensures r.Ok? <==> old(cache.i) + 4 <= ScratchSlots
    ensures r.Ok? ==> r.value == stack + Children(n) && cache.i == old(cache.i) + 4
    ensures r.Err? ==> cache.i == ScratchSlots + 1
  {
    var h := n.size / 2;
    var st := stack;
    var c0 :- cache.Get(n.x as real, n.y as real, h as real);
    st := st + [Node(n.x, n.y, h)];
    var c1 :- cache.Get((n.x + h) as real, n.y as real, h as real);
    st := st + [Node(n.x + h, n.y, h)];
    var c2 :- cache.Get(n.x as real, (n.y + h) as real, h as real);
    st := st + [Node(n.x, n.y + h, h)];
    var c3 :- cache.Get((n.x + h) as real, (n.y + h) as real, h as real);
    st := st + [Node(n.x + h, n.y + h, h)];
    assert st == stack + Children(n);
    r := Ok(st);
  }

  /** The loop of `getTiles`, from the stack holding only `start`: pop a node; emit it when it
      `IsLeaf`, else push its four children. Every scratch vector taken is counted by `GetCalls`,
      and the walk fails exactly when the pool runs out. */
  method Descend(cache: VectorCache, cam: Vec3, start: Node) returns (r: Result<seq<Node>, ScratchError>)
    requires cache.Valid() && start.size >= 1 && cache.i <= ScratchSlots
    modifies cache, cache.tmpVectors
    ensures cache.Valid() && cache.tmpVectors == old(cache.tmpVectors)
    ensures r.Ok? <==> old(cache.i) + GetCalls(start, cam) <= ScratchSlots
    ensures r.Ok? ==> r.value == Select(start, cam) && cache.i == old(cache.i) + GetCalls(start, cam)
    ensures r.Err? ==> cache.i == ScratchSlots + 1
  {
    var res: seq<Node> := [];
    var stack := [start];
    assert stack == [] + [start];
    PushOne([], start, cam);
    PushOneSelect([], start, cam);
    while |stack| > 0
      invariant cache.Valid() && cache.tmpVectors == old(cache.tmpVectors)
      invariant StackNodesValid(stack)
      invariant res + SelectStack(stack, cam) == Select(start, cam)
      invariant cache.i + StackGetCalls(stack, cam) == old(cache.i) + GetCalls(start, cam)
      invariant cache.i <= ScratchSlots
      decreases StackWeight(stack)
    {
      var n := stack[|stack| - 1];
      stack := stack[..|stack| - 1];
      ghost var rest := stack;
      PopNode(res, rest, n, cam);
      if n.size == 1 {
        EmitLeaf(res, rest, n, cam);
        res := res + [n];
        continue;
      }
      var mid :- cache.Get(n.x as real + n.size as real / 2.0, n.y as real + n.size as real / 2.0, 0.0);
      assert mid == Centre(n);
      if DistanceSq(mid, cam) > (n.size * n.size) as real {
        EmitLeaf(res, rest, n, cam);
        res := res + [n];
        continue;
      }
      assert !IsLeaf(n, cam);
      stack :- PushQuarters(cache, n, stack);
      PushChildren(rest, n, cam);
    }
    assert res + [] == res;
    r := Ok(res);
  }

  // ---------------------------------------------------------------------------------------------
  // The renderer's meshes: the first leaves are drawn, the remaining meshes hidden.

  datatype Mesh = Mesh(position: Vec3, scale: Vec3, color: real, visible: bool)

  /** A fresh mesh: a unit plane at depth -1 with a white material (`new THREE.Color()` is
      0xffffff). */
  const InitialMesh: Mesh := Mesh(Vec3(0.0, 0.0, -1.0), Vec3(1.0, 1.0, 1.0), 16777215.0, true)

  /** The mesh drawing `tile`: centred on it, scaled to its side, shown. */
  function PlacedMesh(tile: Node, color: real): Mesh {
    Mesh(Vec3(tile.x as real + tile.size as real / 2.0, tile.y as real + tile.size as real / 2.0, -1.0),
         Vec3(tile.size as real, tile.size as real, 1.0), color, true)
  }

  /** `colorCache[key] || 0xffffff * Math.random()`: the cached colour unless it is absent or 0. */
  function MeshColor(cache: map<Node, real>, key: Node, random: real): real {
    if key in cache && cache[key] != 0.0 then cache[key] else 16777215.0 * random
  }

  /** The mesh the `j`-th tile is placed on, with the colour the cache gives it at that moment. */
  function PlacedAt(colors0: map<Node, real>, tiles: seq<Node>, random: seq<real>, j: nat): Mesh
    requires j < |tiles| && j < |random|
  {
    PlacedMesh(tiles[j], MeshColor(ColorsAfter(colors0, tiles, random, j), tiles[j], random[j]))
  }

  /** The colour cache after the first `k` tiles are placed, each with the colour the cache gives
      it at that moment. */
  function ColorsAfter(colors0: map<Node, real>, tiles: seq<Node>, random: seq<real>, k: nat): map<Node, real>
    requires k <= |tiles| && k <= |random|
  {
    if k == 0 then colors0
    else
      var c := ColorsAfter(colors0, tiles, random, k - 1);
      c[tiles[k - 1] := MeshColor(c, tiles[k - 1], random[k - 1])]
  }

  /** Placing tiles adds exactly their keys to the colour cache. */
  lemma {:induction false} ColorsAfterKeys(colors0: map<Node, real>, tiles: seq<Node>, random: seq<real>, k: nat)
    requires k <= |tiles| && k <= |random|
    ensures ColorsAfter(colors0, tiles, random, k).Keys == colors0.Keys + (set j | 0 <= j < k :: tiles[j])
  {
    if k > 0 {
      ColorsAfterKeys(colors0, tiles, random, k - 1);
      assert (set j | 0 <= j < k :: tiles[j]) == (set j | 0 <= j < k - 1 :: tiles[j]) + {tiles[k - 1]};
    }
  }

  /** Colours cached under keys no placed tile has are kept. */
  lemma {:induction false} ColorsAfterKept(colors0: map<Node, real>, tiles: seq<Node>, random: seq<real>, k: nat)
    requires k <= |tiles| && k <= |random|
    ensures forall key :: key in colors0 && key !in tiles[..k] ==>
      key in ColorsAfter(colors0, tiles, random, k) && ColorsAfter(colors0, tiles, random, k)[key] == colors0[key]
  {
    if k > 0 {
      ColorsAfterKept(colors0, tiles, random, k - 1);
      assert forall key :: key !in tiles[..k] ==> key !in tiles[..k - 1] && key != tiles[k - 1];
      ColorsAfterKeys(colors0, tiles, random, k - 1);
    }
  }

  /** A tile met for the first time is drawn with the colour the original cache gives it (or
      its random one). */
  lemma ColorAtPlacement(colors0: map<Node, real>, tiles: seq<Node>, random: seq<real>, j: nat)
    requires j < |tiles| && j < |random| && tiles[j] !in tiles[..j]
    ensures MeshColor(ColorsAfter(colors0, tiles, random, j), tiles[j], random[j]) == MeshColor(colors0, tiles[j], random[j])
  {
    ColorsAfterKeys(colors0, tiles, random, j);
    ColorsAfterKept(colors0, tiles, random, j);
    assert tiles[j] !in (set i | 0 <= i < j :: tiles[i]);
  }

  /** With distinct tiles, the colour a tile is drawn with stays cached under it while later
      tiles are placed. */
  lemma {:induction false} ColorStaysCached(colors0: map<Node, real>, tiles: seq<Node>, random: seq<real>, j: nat, k: nat)
    requires j < k <= |tiles| && k <= |random|
    requires forall a, b :: 0 <= a < b < |tiles| ==> tiles[a] != tiles[b]
    ensures tiles[j] in ColorsAfter(colors0, tiles, random, k)
    ensures ColorsAfter(colors0, tiles, random, k)[tiles[j]] == MeshColor(ColorsAfter(colors0, tiles, random, j), tiles[j], random[j])
  {
    if j < k - 1 {
      ColorStaysCached(colors0, tiles, random, j, k - 1);
      assert tiles[j] != tiles[k - 1];
    }
  }

  /** With distinct tiles, the meshes placed one after the other carry the colours of the
      original cache, and the final cache holds each of them. */
  lemma PlacedFirstColors(colors0: map<Node, real>, tiles: seq<Node>, random: seq<real>, k: nat, ms: seq<Mesh>)
    requires k <= |tiles| && k <= |random| && k <= |ms|
    requires forall a, b :: 0 <= a < b < |tiles| ==> tiles[a] != tiles[b]
    requires forall j :: 0 <= j < k ==>
      ms[j] == PlacedAt(colors0, tiles, random, j)
    ensures forall j :: 0 <= j < k ==>
      ms[j] == PlacedMesh(tiles[j], MeshColor(colors0, tiles[j], random[j]))
      && tiles[j] in ColorsAfter(colors0, tiles, random, k)
      && ColorsAfter(colors0, tiles, random, k)[tiles[j]] == ms[j].color
  {
    forall j | 0 <= j < k
      ensures ms[j] == PlacedMesh(tiles[j], MeshColor(colors0, tiles[j], random[j]))
      ensures tiles[j] in ColorsAfter(colors0, tiles, random, k)
      ensures ColorsAfter(colors0, tiles, random, k)[tiles[j]] == ms[j].color
    {
      assert forall i :: 0 <= i < j ==> tiles[..j][i] != tiles[j];
      ColorAtPlacement(colors0, tiles, random, j);
      ColorStaysCached(colors0, tiles, random, j, k);
    }
  }

  /** The meshes and colour cache after drawing `tiles` over `meshes0` and `colors0`: the first
      `min(|tiles|, 300)` tiles are placed in order, each with its cached colour (or its random
      one when the cache holds none or 0) now stored under its key; every other mesh is hidden and
      every other cached colour kept. */
  ghost predicate Drawn(tiles: seq<Node>, random: seq<real>, meshes0: seq<Mesh>, colors0: map<Node, real>,
                        meshes1: seq<Mesh>, colors1: map<Node, real>)
    requires |random| >= MeshCount && |meshes0| == MeshCount
  {
    var k := if |tiles| < MeshCount then |tiles| else MeshCount;
    && |meshes1| == MeshCount
    && colors1.Keys == colors0.Keys + (set j | 0 <= j < k :: tiles[j])
    && (forall j :: 0 <= j < k ==>
          meshes1[j] == PlacedMesh(tiles[j], MeshColor(colors0, tiles[j], random[j]))
          && colors1[tiles[j]] == meshes1[j].color)
    && (forall j :: k <= j < MeshCount ==> meshes1[j] == meshes0[j].(visible := false))
    && (forall key :: key in colors0 && key !in tiles[..k] ==> colors1[key] == colors0[key])
  }

  class Renderer {
    var meshes: array<Mesh>
    var colorCache: map<Node, real>

    ghost predicate Valid()
      reads this
    {
      meshes.Length == MeshCount
    }

    constructor ()
      ensures Valid() && fresh(meshes) && colorCache == map[]
      ensures forall j :: 0 <= j < MeshCount ==> meshes[j] == InitialMesh
    {
      meshes := new Mesh[MeshCount](_ => InitialMesh);
      colorCache := map[];
    }

    /** `update`: selects the leaves, draws the first (at most 300) on meshes 0.. in order and
        hides every other mesh. `random[j]` stands for the random colour drawn for mesh j. */
    method Update(cache: VectorCache, cam: Vec3, random: seq<real>) returns (r: Result<(), ScratchError>)
      requires Valid() && cache.Valid() && |random| >= MeshCount
      modifies this, meshes, cache, cache.tmpVectors
      ensures Valid() && meshes == old(meshes)
      ensures cache.Valid() && cache.tmpVectors == old(cache.tmpVectors)
      ensures r.Ok? <==> TotalGetCalls(cam) <= ScratchSlots
      ensures r.Err? ==> meshes[..] == old(meshes[..]) && colorCache == old(colorCache)
      ensures r.Ok? ==> Drawn(Select(Root, cam), random, old(meshes[..]), old(colorCache), meshes[..], colorCache)
    {
      var tiles :- GetTiles(cache, cam);
      LeavesDistinct(cam);
      Draw(tiles, random);
      r := Ok(());
    }

    /** The loops of `update` over the selected `tiles`: the first `min(|tiles|, 300)` are placed
        on meshes 0.. with a colour kept in the colour cache; the remaining meshes are hidden. */
    method Draw(tiles: seq<Node>, random: seq<real>)
      requires Valid() && |random| >= MeshCount
      requires forall i, j :: 0 <= i < j < |tiles| ==> tiles[i] != tiles[j]
      modifies this, meshes
      ensures Valid() && meshes == old(meshes)
      ensures Drawn(tiles, random, old(meshes[..]), old(colorCache), meshes[..], colorCache)
    {
      var k := PlaceTiles(tiles, random);
      HideFrom(k);
      ColorsAfterKeys(old(colorCache), tiles, random, k);
      ColorsAfterKept(old(colorCache), tiles, random, k);
      PlacedFirstColors(old(colorCache), tiles, random, k, meshes[..]);
    }

    /** The `for` loop of `update`: places the first `min(|tiles|, 300)` tiles on meshes 0.. in
        order, each with the colour the cache gives it at that moment (or its random one), which
        is then cached. */
    method PlaceTiles(tiles: seq<Node>, random: seq<real>) returns (k: nat)
      requires Valid() && |random| >= MeshCount
      modifies this, meshes
      ensures Valid() && meshes == old(meshes)
      ensures k == if |tiles| < MeshCount then |tiles| else MeshCount
      ensures colorCache == ColorsAfter(old(colorCache), tiles, random, k)
      ensures forall j :: 0 <= j < k ==>
        meshes[j] == PlacedAt(old(colorCache), tiles, random, j)
      ensures forall j :: k <= j < meshes.Length ==> meshes[j] == old(meshes[j])
    {
      k := 0;
      while k < |tiles|
        invariant Valid() && meshes == old(meshes)
        invariant 0 <= k <= |tiles| && k <= meshes.Length
        invariant colorCache == ColorsAfter(old(colorCache), tiles, random, k)
        invariant forall j :: 0 <= j < k ==>
          meshes[j] == PlacedAt(old(colorCache), tiles, random, j)
        invariant forall j :: k <= j < meshes.Length ==> meshes[j] == old(meshes[j])
      {
        if k >= meshes.Length {
          break;
        }
        var tile := tiles[k];
        var color := if tile in colorCache && colorCache[tile] != 0.0 then colorCache[tile] else 16777215.0 * random[k];
        assert color == MeshColor(colorCache, tile, random[k]);
        assert ColorsAfter(old(colorCache), tiles, random, k + 1) == colorCache[tile := color];
        colorCache := colorCache[tile := color];
        meshes[k] := PlacedMesh(tile, color);
        assert meshes[k] == PlacedAt(old(colorCache), tiles, random, k);
        k := k + 1;
      }
    }

    /** The `while` loop of `update`: hides every mesh from `k` on. */
    method HideFrom(k: nat)
      requires Valid() && k <= meshes.Length
      modifies meshes
      ensures forall j :: 0 <= j < k ==> meshes[j] == old(meshes[j])
      ensures forall j :: k <= j < meshes.Length ==> meshes[j] == old(meshes[j]).(visible := false)
    {
      var i := k;
      while i < meshes.Length
        invariant k <= i <= meshes.Length
        invariant forall j :: 0 <= j < k ==> meshes[j] == old(meshes[j])
        invariant forall j :: k <= j < i ==> meshes[j] == old(meshes[j]).(visible := false)
        invariant forall j :: i <= j < meshes.Length ==> meshes[j] == old(meshes[j])
      {
        meshes[i] := meshes[i].(visible := false);
        i := i + 1;
      }
    }
  }
}
