/** Facts about the collision quadtree's abstraction: where solid pixels can
    be, how the four quadrants partition a node, how the counter relates to
    the solid set, and how a grid write changes it. */
module TreeLemmas {
  import opened Wrappers
  import opened Geometry
  import opened TreeSpec

  // ---------------------------------------------------------------- sides

  lemma LeafAreaIffSide(w: nat)
    ensures w * w > LEAF_CELLS <==> w > LEAF_SIZE
  {
    if w > LEAF_SIZE {
      assert w * w >= 65 * w >= 65 * 65;
    } else {
      assert w * w <= 64 * w <= 64 * 64;
    }
  }

  // ---------------------------------------------------------------- grids

  /** Every in-bounds cell of a leaf has an index inside the grid. */
  lemma IdxInGrid(w: nat, dx: int, dy: int)
    requires w <= LEAF_SIZE && 0 <= dx < w && 0 <= dy < w
    ensures 0 <= Idx(w, dx, dy) < LEAF_CELLS
  {
    MulLe(0, dy, w);
    MulLe(dy, w - 1, w);
    assert (w - 1) * w + w == w * w;
    MulLe(w, LEAF_SIZE, w);
    MulLe(w, LEAF_SIZE, LEAF_SIZE);
  }

  lemma MulLe(a: int, b: int, w: nat)
    requires a <= b
    ensures a * w <= b * w
  {
    var d := b - a;
    assert b * w == a * w + d * w;
  }

  /** Distinct in-bounds cells have distinct indices. */
  lemma IdxInjective(w: nat, dx: int, dy: int, ex: int, ey: int)
    requires 0 <= dx < w && 0 <= dy && 0 <= ex < w && 0 <= ey
    requires Idx(w, dx, dy) == Idx(w, ex, ey)
    ensures dx == ex && dy == ey
  {
    if dy < ey {
      MulLe(dy + 1, ey, w);
    } else if ey < dy {
      MulLe(ey + 1, dy, w);
    }
  }

  lemma InGridSet(x: int, y: int, w: nat, h: nat, g: seq<bool>, px: int, py: int)
    ensures (px, py) in GridSet(x, y, w, h, g) <==>
            x <= px < x + w && y <= py < y + h && CellSolid(g, w, px - x, py - y)
  {
    if x <= px < x + w && y <= py < y + h && CellSolid(g, w, px - x, py - y) {
      assert (px, py) in GridSet(x, y, w, h, g);
    }
  }

  /** Writing `v` into the cell of pixel `(px, py)` adds it to (or removes it
      from) the grid's solid set and changes nothing else. */
  lemma GridWrite(x: int, y: int, w: nat, g: seq<bool>, px: int, py: int, v: bool)
    requires w <= LEAF_SIZE && |g| == LEAF_CELLS
    requires x <= px < x + w && y <= py < y + w
    ensures 0 <= Idx(w, px - x, py - y) < |g|
    ensures GridSet(x, y, w, w, g[Idx(w, px - x, py - y) := v]) ==
            if v then GridSet(x, y, w, w, g) + {(px, py)} else GridSet(x, y, w, w, g) - {(px, py)}
  {
    var i := Idx(w, px - x, py - y);
    IdxInGrid(w, px - x, py - y);
    var g' := g[i := v];
    forall q: Point
      ensures q in GridSet(x, y, w, w, g') <==>
              if v then q in GridSet(x, y, w, w, g) || q == (px, py)
              else q in GridSet(x, y, w, w, g) && q != (px, py)
    {
      InGridSet(x, y, w, w, g', q.0, q.1);
      InGridSet(x, y, w, w, g, q.0, q.1);
      if x <= q.0 < x + w && y <= q.1 < y + w {
        IdxInGrid(w, q.0 - x, q.1 - y);
        if Idx(w, q.0 - x, q.1 - y) == i {
          IdxInjective(w, q.0 - x, q.1 - y, px - x, py - y);
        }
      }
    }
  }

  /** A grid of all `false` holds no solid pixel. */
  lemma GridEmpty(x: int, y: int, w: nat, h: nat)
    ensures GridSet(x, y, w, h, seq(LEAF_CELLS, _ => false)) == {}
  {
  }

  /** A grid of all `true` makes the whole leaf solid. */
  lemma GridFull(x: int, y: int, w: nat)
    requires w <= LEAF_SIZE
    ensures GridSet(x, y, w, w, seq(LEAF_CELLS, _ => true)) == RectSet(x, y, w, w)
  {
    var g := seq(LEAF_CELLS, _ => true);
    forall q: Point ensures q in GridSet(x, y, w, w, g) <==> q in RectSet(x, y, w, w) {
      InGridSet(x, y, w, w, g, q.0, q.1);
      InRectSet(x, y, w, w, q.0, q.1);
      if x <= q.0 < x + w && y <= q.1 < y + w {
        IdxInGrid(w, q.0 - x, q.1 - y);
      }
    }
  }

  // ---------------------------------------------------------------- quadrants

  ghost function QuadSet(n: CollisionTree, i: int): set<Point>
  {
    RectSet(QuadX(n, i), QuadY(n, i), n.width / 2, n.width / 2)
  }

  lemma InQuadSet(n: CollisionTree, i: int, q: Point)
    ensures q in QuadSet(n, i) <==> InQuad(n, i, q.0, q.1)
  {
    InRectSet(QuadX(n, i), QuadY(n, i), n.width / 2, n.width / 2, q.0, q.1);
  }

  /** The pixel lies in quadrant `i`. */
  predicate InQuad(n: CollisionTree, i: int, px: int, py: int)
  {
    QuadX(n, i) <= px < QuadX(n, i) + n.width / 2 && QuadY(n, i) <= py < QuadY(n, i) + n.width / 2
  }

  /** On an even square node the four quadrants partition its pixels: each
      pixel of the node lies in exactly one of them. */
  lemma QuadPartition(n: CollisionTree, px: int, py: int)
    requires n.width == n.height && n.width % 2 == 0
    ensures Contains(n, px, py) <==> InQuad(n, 0, px, py) || InQuad(n, 1, px, py) ||
                                     InQuad(n, 2, px, py) || InQuad(n, 3, px, py)
    ensures forall i, j :: 0 <= i < j < 4 ==> !(InQuad(n, i, px, py) && InQuad(n, j, px, py))
  {
  }

  lemma QuadSetsDisjoint(n: CollisionTree, i: int, j: int)
    requires n.width == n.height && n.width % 2 == 0
    requires 0 <= i < 4 && 0 <= j < 4 && i != j
    ensures QuadSet(n, i) * QuadSet(n, j) == {}
  {
    forall q | q in QuadSet(n, i) && q in QuadSet(n, j) ensures false {
      InRectSet(QuadX(n, i), QuadY(n, i), n.width / 2, n.width / 2, q.0, q.1);
      InRectSet(QuadX(n, j), QuadY(n, j), n.width / 2, n.width / 2, q.0, q.1);
      QuadPartition(n, q.0, q.1);
      if i < j {
        assert InQuad(n, i, q.0, q.1) && InQuad(n, j, q.0, q.1);
      } else {
        assert InQuad(n, j, q.0, q.1) && InQuad(n, i, q.0, q.1);
      }
    }
  }

  lemma QuadSetsCover(n: CollisionTree)
    requires n.width == n.height && n.width % 2 == 0
    ensures Bounds(n) == QuadSet(n, 0) + QuadSet(n, 1) + QuadSet(n, 2) + QuadSet(n, 3)
  {
    forall q: Point
      ensures q in Bounds(n) <==>
              (q in QuadSet(n, 0) || q in QuadSet(n, 1) || q in QuadSet(n, 2) || q in QuadSet(n, 3))
    {
      InRectSet(n.x, n.y, n.width, n.height, q.0, q.1);
      InQuadSet(n, 0, q);
      InQuadSet(n, 1, q);
      InQuadSet(n, 2, q);
      InQuadSet(n, 3, q);
      QuadPartition(n, q.0, q.1);
    }
  }

  // ---------------------------------------------------------------- children

  /** The solid pixels of a node with children are those of its children. */
  lemma InKids(n: CollisionTree, q: Point)
    requires n.grid.None? && n.children.Quads? && |n.children.kids| == 4
    ensures q in Occupied(n) <==>
            q in Occupied(n.children.kids[0]) || q in Occupied(n.children.kids[1]) ||
            q in Occupied(n.children.kids[2]) || q in Occupied(n.children.kids[3])
  {
  }

  /** A valid node's solid pixels lie inside its bounds. */
  lemma {:induction false} OccupiedInBounds(n: CollisionTree)
    requires Valid(n)
    ensures Occupied(n) <= Bounds(n)
    decreases n
  {
    if n.grid.Some? {
      forall q | q in Occupied(n) ensures q in Bounds(n) {
        InGridSet(n.x, n.y, n.width, n.height, n.grid.value, q.0, q.1);
        InRectSet(n.x, n.y, n.width, n.height, q.0, q.1);
      }
    } else if n.children.Quads? {
      var kids := n.children.kids;
      QuadSetsCover(n);
      forall q | q in Occupied(n) ensures q in Bounds(n) {
        InKids(n, q);
        var i :| 0 <= i < 4 && q in Occupied(kids[i]);
        OccupiedInBounds(kids[i]);
        assert q in QuadSet(n, i);
      }
    }
  }

  /** Four children with disjoint quadrants: the parent's solid count is the
      sum of theirs. */
  lemma KidsCard(n: CollisionTree)
    requires n.grid.None? && n.children.Quads? && Shaped(n)
    ensures |Occupied(n)| == Solid4(n.children.kids)
  {
    var kids := n.children.kids;
    forall i | 0 <= i < 4 ensures Occupied(kids[i]) <= QuadSet(n, i) {
      OccupiedInBounds(kids[i]);
    }
    forall i, j | 0 <= i < 4 && 0 <= j < 4 && i != j
      ensures Occupied(kids[i]) * Occupied(kids[j]) == {}
    {
      QuadSetsDisjoint(n, i, j);
    }
    Card4(Occupied(kids[0]), Occupied(kids[1]), Occupied(kids[2]), Occupied(kids[3]));
  }

  lemma Card4<T>(o0: set<T>, o1: set<T>, o2: set<T>, o3: set<T>)
    requires o0 * o1 == {} && o0 * o2 == {} && o0 * o3 == {}
    requires o1 * o2 == {} && o1 * o3 == {} && o2 * o3 == {}
    ensures |o0 + o1 + o2 + o3| == |o0| + |o1| + |o2| + |o3|
  {
    assert (o0 + o1) * o2 == {};
    assert (o0 + o1 + o2) * o3 == {};
  }

  /** A valid node whose counter reads zero is solid everywhere. */
  lemma FullIsBounds(n: CollisionTree)
    requires Valid(n) && n.freePixels == 0
    ensures Occupied(n) == Bounds(n)
  {
    OccupiedInBounds(n);
    RectCard(n.x, n.y, n.width, n.height);
    SubsetSameCard(Occupied(n), Bounds(n));
  }

  /** A valid node whose counter reads its area holds no solid pixel. */
  lemma FreeIsEmpty(n: CollisionTree)
    requires Valid(n) && n.freePixels == n.width * n.height
    ensures Occupied(n) == {}
  {
  }

  /** Building a node with four valid quadrant children and a counter that
      matches them gives a valid node whose solid set is their union. */
  lemma QuadsValid(n: CollisionTree, kids: seq<CollisionTree>, free: nat)
    requires n.width == n.height && GoodSide(n.width) && LEAF_SIZE < n.width
    requires QuadKids(n, kids)
    requires free + Solid4(kids) == n.width * n.height
    ensures var t := CollisionTree(n.x, n.y, n.width, n.height, free, Quads(kids), None);
            Valid(t) &&
            Occupied(t) == Occupied(kids[0]) + Occupied(kids[1]) + Occupied(kids[2]) + Occupied(kids[3])
  {
    var t := CollisionTree(n.x, n.y, n.width, n.height, free, Quads(kids), None);
    assert Shaped(t);
    KidsCard(t);
  }

  /** The counter of a valid node with children is the sum of what its
      children hold free. */
  lemma KidsCounter(n: CollisionTree)
    requires Valid(n) && n.children.Quads? && |n.children.kids| == 4
    ensures n.freePixels + Solid4(n.children.kids) == n.width * n.height
  {
    KidsCard(n);
  }

  // ---------------------------------------------------------------- fresh nodes

  /** `new` on a good side gives a valid node that holds nothing. */
  lemma NewValid(x: int, y: int, s: nat)
    requires GoodSide(s)
    ensures New(x, y, s, s).width == s
    ensures Valid(New(x, y, s, s)) && Occupied(New(x, y, s, s)) == {}
  {
  }

  /** The children built by `Split` are the four quadrants, valid and empty. */
  lemma SplitValid(n: CollisionTree)
    requires n.width == n.height && GoodSide(n.width) && LEAF_SIZE < n.width
    ensures forall i :: 0 <= i < 4 ==>
              IsQuad(n, i, Split(n)[i]) && Valid(Split(n)[i]) && Occupied(Split(n)[i]) == {}
    ensures Solid4(Split(n)) == 0
  {
    var h := n.width / 2;
    assert GoodSide(h);
    assert RoundUp4(h) == h;
    NewValid(n.x, n.y, h);
    NewValid(n.x + h, n.y, h);
    NewValid(n.x + h, n.y + h, h);
    NewValid(n.x, n.y + h, h);
  }

  /** `clear` on a node with a good square side leaves it valid and empty. */
  lemma ClearValid(n: CollisionTree)
    requires n.width == n.height && GoodSide(n.width)
    ensures Valid(Clear(n)) && Occupied(Clear(n)) == {}
  {
  }

  // ---------------------------------------------------------------- rectangles

  /** The solid pixels of four children, as one set. */
  ghost function Union4(kids: seq<CollisionTree>): set<Point>
    requires |kids| == 4
  {
    Occupied(kids[0]) + Occupied(kids[1]) + Occupied(kids[2]) + Occupied(kids[3])
  }

  /** A pixel of quadrant `i` is solid in the children only if it is solid in
      child `i`. */
  lemma OnlyInOwnQuad(n: CollisionTree, kids: seq<CollisionTree>, i: int, px: int, py: int)
    requires n.width == n.height && n.width % 2 == 0
    requires QuadKids(n, kids)
    requires 0 <= i < 4 && InQuad(n, i, px, py)
    ensures (px, py) in Union4(kids) <==> (px, py) in Occupied(kids[i])
  {
    QuadPartition(n, px, py);
    forall k | 0 <= k < 4 && k != i ensures (px, py) !in Occupied(kids[k]) {
      OccupiedInBounds(kids[k]);
      InRectSet(kids[k].x, kids[k].y, kids[k].width, kids[k].height, px, py);
    }
  }

  /** A rectangle the miss test rejects shares no pixel with the node. */
  lemma MissDisjoint(n: CollisionTree, x: int, y: int, w: nat, h: nat)
    requires Misses(n, x, y, w, h)
    ensures Bounds(n) * RectSet(x, y, w, h) == {}
  {
    forall q | q in Bounds(n) && q in RectSet(x, y, w, h) ensures false {
      InRectSet(n.x, n.y, n.width, n.height, q.0, q.1);
      InRectSet(x, y, w, h, q.0, q.1);
    }
  }

  /** A rectangle that covers the node contains all of its pixels. */
  lemma CoverContains(n: CollisionTree, x: int, y: int, w: nat, h: nat)
    requires Covers(n, x, y, w, h)
    ensures Bounds(n) <= RectSet(x, y, w, h)
  {
    forall q | q in Bounds(n) ensures q in RectSet(x, y, w, h) {
      InRectSet(n.x, n.y, n.width, n.height, q.0, q.1);
      InRectSet(x, y, w, h, q.0, q.1);
    }
  }

  /** The part of the rectangle inside the node is the rectangle between the
      larger starts and the smaller ends (the ranges the source loops over). */
  lemma Clip(n: CollisionTree, x: int, y: int, w: nat, h: nat)
    ensures Bounds(n) * RectSet(x, y, w, h) ==
            RectSet(Max(n.x, x), Max(n.y, y),
                    Min(n.x + n.width, x + w) - Max(n.x, x), Min(n.y + n.height, y + h) - Max(n.y, y))
  {
    var lx, ly := Max(n.x, x), Max(n.y, y);
    var hx, hy := Min(n.x + n.width, x + w), Min(n.y + n.height, y + h);
    forall q: Point
      ensures q in Bounds(n) * RectSet(x, y, w, h) <==> q in RectSet(lx, ly, hx - lx, hy - ly)
    {
      InRectSet(n.x, n.y, n.width, n.height, q.0, q.1);
      InRectSet(x, y, w, h, q.0, q.1);
      InRectSet(lx, ly, hx - lx, hy - ly, q.0, q.1);
    }
  }

  function Max(a: int, b: int): int { if a < b then b else a }
  function Min(a: int, b: int): int { if a < b then a else b }

  /** Adding the pixels `s` to `a` adds as many as `s` has outside `a`. */
  lemma GrowthCount<T>(a: set<T>, s: set<T>)
    ensures |a + s| == |a| + |s - a|
  {
    assert a + s == a + (s - a);
    assert a * (s - a) == {};
  }

  /** Removing the pixels `s` from `a` removes as many as they share. */
  lemma ShrinkCount<T>(a: set<T>, s: set<T>)
    ensures |a - s| == |a| - |a * s|
  {
    assert a == (a - s) + (a * s);
    assert (a - s) * (a * s) == {};
  }

  /** Four quarters of an even square make up its area. */
  lemma QuarterArea(w: nat)
    requires w % 2 == 0
    ensures 4 * ((w / 2) * (w / 2)) == w * w
  {
    var h := w / 2;
    assert w == 2 * h;
  }

  /** A valid node holds at most its area of solid pixels. */
  lemma SolidAtMostArea(n: CollisionTree)
    requires Valid(n)
    ensures |Occupied(n)| <= n.width * n.height
  {
  }

  // ---------------------------------------------------------------- one child replaced

  /** Replacing child `i` by a valid node with its bounds keeps the children
      valid quadrants, and changes their union and count by that child's. */
  lemma ReplaceKid(n: CollisionTree, kids: seq<CollisionTree>, i: int, kid: CollisionTree)
    requires QuadKids(n, kids) && 0 <= i < 4 && IsQuad(n, i, kid) && Valid(kid)
    ensures QuadKids(n, kids[i := kid])
    ensures Solid4(kids[i := kid]) == Solid4(kids) - |Occupied(kids[i])| + |Occupied(kid)|
    ensures forall j :: 0 <= j < 4 && j != i ==> kids[i := kid][j] == kids[j]
  {
    var kids' := kids[i := kid];
    forall k | 0 <= k < 4 ensures IsQuad(n, k, kids'[k]) && Valid(kids'[k]) {
      if k != i {
        assert kids'[k] == kids[k];
      }
    }
    ReplaceKidSolid(kids, i, kid);
  }

  lemma ReplaceKidSolid(kids: seq<CollisionTree>, i: int, kid: CollisionTree)
    requires |kids| == 4 && 0 <= i < 4
    ensures Solid4(kids[i := kid]) == Solid4(kids) - |Occupied(kids[i])| + |Occupied(kid)|
  {
    var kids' := kids[i := kid];
    if i == 0 {
      assert kids'[1] == kids[1] && kids'[2] == kids[2] && kids'[3] == kids[3];
    } else if i == 1 {
      assert kids'[0] == kids[0] && kids'[2] == kids[2] && kids'[3] == kids[3];
    } else if i == 2 {
      assert kids'[0] == kids[0] && kids'[1] == kids[1] && kids'[3] == kids[3];
    } else {
      assert kids'[0] == kids[0] && kids'[1] == kids[1] && kids'[2] == kids[2];
    }
  }

  lemma ReplaceKidUnion(kids: seq<CollisionTree>, i: int, kid: CollisionTree, s: set<Point>)
    requires |kids| == 4 && 0 <= i < 4
    requires Occupied(kid) == Occupied(kids[i]) + s
    ensures Union4(kids[i := kid]) == Union4(kids) + s
  {
  }

  /** What the children loop of `insert` concludes once child `i`, the one
      containing the pixel, has been updated to `kid` with result `e`. */
  lemma KidInserted(n: CollisionTree, kids: seq<CollisionTree>, i: int, kid: CollisionTree,
                    e: Result<bool>, free: int, px: int, py: int)
    requires n.width == n.height && GoodSide(n.width) && LEAF_SIZE < n.width && n.grid.None?
    requires QuadKids(n, kids)
    requires n.freePixels + Solid4(kids) == n.width * n.height
    requires 0 <= i < 4 && InQuad(n, i, px, py) && Contains(kids[i], px, py)
    requires Valid(kid) && SameBox(kid, kids[i])
    requires e.Ok? && (e == Ok(true) <==> (px, py) !in Occupied(kids[i]))
    requires e != Ok(true) ==> kid == kids[i]
    requires Occupied(kid) == Occupied(kids[i]) + {(px, py)}
    requires kid.freePixels == if e == Ok(true) then kids[i].freePixels - 1 else kids[i].freePixels
    requires n.freePixels > 0
    requires free == if e == Ok(true) then n.freePixels - 1 else n.freePixels
    ensures var t := CollisionTree(n.x, n.y, n.width, n.height, free, Quads(kids[i := kid]), None);
            Valid(t) && Occupied(t) == Union4(kids) + {(px, py)} &&
            (e.value <==> (px, py) !in Union4(kids)) &&
            (!e.value ==> t == n.(children := Quads(kids)))
  {
    HalveGoodSide(n.width);
    OnlyInOwnQuad(n, kids, i, px, py);
    ReplaceKid(n, kids, i, kid);
    ReplaceKidUnion(kids, i, kid, {(px, py)});
    QuadsValid(n, kids[i := kid], free);
    if e != Ok(true) {
      assert kids[i := kid] == kids;
    }
  }

  /** A good side above the leaf size halves exactly into a good side. */
  lemma HalveGoodSide(s: nat)
    requires GoodSide(s) && LEAF_SIZE < s
    ensures s % 2 == 0 && s / 2 + s / 2 == s && GoodSide(s / 2)
  {
  }

  /** The children of a valid node are its four valid quadrants, and hold
      its solid pixels. */
  lemma KidsAreQuads(n: CollisionTree)
    requires Valid(n) && n.children.Quads?
    ensures QuadKids(n, n.children.kids) && 0 < n.width
    ensures Occupied(n) == Union4(n.children.kids)
  {
  }

  /** A leaf's grid marks only pixels inside the leaf. */
  lemma GridInBounds(x: int, y: int, w: nat, g: seq<bool>)
    ensures GridSet(x, y, w, w, g) <= RectSet(x, y, w, w)
    ensures |GridSet(x, y, w, w, g)| <= w * w
  {
    forall q | q in GridSet(x, y, w, w, g) ensures q in RectSet(x, y, w, w) {
      InGridSet(x, y, w, w, g, q.0, q.1);
      InRectSet(x, y, w, w, q.0, q.1);
    }
    RectCard(x, y, w, w);
    SubsetCard(GridSet(x, y, w, w, g), RectSet(x, y, w, w));
  }

  /** The grid a leaf works on: its own, or a fresh one of free cells. */
  lemma LeafGrid(n: CollisionTree)
    requires Valid(n) && n.children.NoChildren? && n.width <= LEAF_SIZE
    ensures var g := if n.grid.None? then seq(LEAF_CELLS, _ => false) else n.grid.value;
            |g| == LEAF_CELLS && Occupied(n) == GridSet(n.x, n.y, n.width, n.width, g)
  {
    GridEmpty(n.x, n.y, n.width, n.height);
  }
}
