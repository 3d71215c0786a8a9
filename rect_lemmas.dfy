/** Facts about rectangles against quadtree nodes, used by the rectangle
    operations of the collision tree. */
module RectLemmas {
  import opened Wrappers
  import opened Geometry
  import opened TreeSpec
  import opened TreeLemmas

  // ---------------------------------------------------------------- clipping

  /** Removing the clipped part of a rectangle from a subset of the bounds
      removes the whole rectangle from it. */
  lemma MinusClip<T>(a: set<T>, b: set<T>, r: set<T>)
    requires a <= b
    ensures a - b * r == a - r
  {
  }

  /** Meeting the clipped part of a rectangle, for a subset of the bounds, is
      meeting the whole rectangle. */
  lemma MeetClip<T>(a: set<T>, b: set<T>, r: set<T>)
    requires a <= b
    ensures a * (b * r) == a * r
  {
  }

  /** The rectangle grown by one pixel up and to the left contains it. */
  lemma ExpandContains(x: int, y: int, w: nat, h: nat)
    ensures RectSet(x, y, w, h) <= RectSet(x - 1, y - 1, w + 1, h + 1)
  {
    forall q | q in RectSet(x, y, w, h) ensures q in RectSet(x - 1, y - 1, w + 1, h + 1) {
      InRectSet(x, y, w, h, q.0, q.1);
      InRectSet(x - 1, y - 1, w + 1, h + 1, q.0, q.1);
    }
  }

  /** A rectangle the miss test lets through touches the node: grown by one
      pixel up and to the left, it shares a pixel with it. */
  lemma TouchWitness(n: CollisionTree, x: int, y: int, w: nat, h: nat)
    requires n.width > 0 && n.height > 0 && !Misses(n, x, y, w, h)
    ensures Bounds(n) * RectSet(x - 1, y - 1, w + 1, h + 1) != {}
  {
    var px := if x <= n.x then n.x else x - 1;
    var py := if y <= n.y then n.y else y - 1;
    InRectSet(n.x, n.y, n.width, n.height, px, py);
    InRectSet(x - 1, y - 1, w + 1, h + 1, px, py);
    assert (px, py) in Bounds(n) * RectSet(x - 1, y - 1, w + 1, h + 1);
  }

  /** A rectangle covering a node that holds a solid pixel meets its solid
      pixels, even grown by one pixel up and to the left. */
  lemma CoverTouch(n: CollisionTree, x: int, y: int, w: nat, h: nat)
    requires Valid(n) && Covers(n, x, y, w, h) && n.freePixels < n.width * n.height
    ensures Occupied(n) * RectSet(x - 1, y - 1, w + 1, h + 1) != {}
  {
    OccupiedInBounds(n);
    CoverContains(n, x, y, w, h);
    ExpandContains(x, y, w, h);
    var p :| p in Occupied(n);
    assert p in Occupied(n) * RectSet(x - 1, y - 1, w + 1, h + 1);
  }

  /** A valid node solid on all of its bounds has no free pixel. */
  lemma FullHasNoFree(n: CollisionTree)
    requires Valid(n) && Occupied(n) == Bounds(n)
    ensures n.freePixels == 0
  {
    RectCard(n.x, n.y, n.width, n.height);
  }

  // ---------------------------------------------------------------- children

  /** Intersection distributes over a union of four sets. */
  lemma Distrib4<T>(b: set<T>, b0: set<T>, b1: set<T>, b2: set<T>, b3: set<T>, r: set<T>)
    requires b == b0 + b1 + b2 + b3
    ensures b * r == b0 * r + b1 * r + b2 * r + b3 * r
  {
  }

  /** Four sets each grown by a part: their union grows by the union of the parts. */
  lemma Grow4<T>(a0: set<T>, a1: set<T>, a2: set<T>, a3: set<T>,
                 c0: set<T>, c1: set<T>, c2: set<T>, c3: set<T>,
                 d0: set<T>, d1: set<T>, d2: set<T>, d3: set<T>)
    requires c0 == a0 + d0 && c1 == a1 + d1 && c2 == a2 + d2 && c3 == a3 + d3
    ensures c0 + c1 + c2 + c3 == (a0 + a1 + a2 + a3) + (d0 + d1 + d2 + d3)
  {
  }

  /** Each child grown by its quadrant's part of a rectangle: together they
      grow by the parent's part. */
  lemma KidsGrow(n: CollisionTree, kids: seq<CollisionTree>, ks: seq<CollisionTree>, r: set<Point>)
    requires n.width == n.height && n.width % 2 == 0
    requires |kids| == 4 && |ks| == 4
    requires forall j :: 0 <= j < 4 ==> Occupied(ks[j]) == Occupied(kids[j]) + QuadSet(n, j) * r
    ensures Union4(ks) == Union4(kids) + Bounds(n) * r
  {
    QuadSetsCover(n);
    Distrib4(Bounds(n), QuadSet(n, 0), QuadSet(n, 1), QuadSet(n, 2), QuadSet(n, 3), r);
    Grow4(Occupied(kids[0]), Occupied(kids[1]), Occupied(kids[2]), Occupied(kids[3]),
          Occupied(ks[0]), Occupied(ks[1]), Occupied(ks[2]), Occupied(ks[3]),
          QuadSet(n, 0) * r, QuadSet(n, 1) * r, QuadSet(n, 2) * r, QuadSet(n, 3) * r);
  }

  /** Each child shrunk by a rectangle: together they shrink by it. */
  lemma KidsShrink(kids: seq<CollisionTree>, ks: seq<CollisionTree>, r: set<Point>)
    requires |kids| == 4 && |ks| == 4
    requires forall j :: 0 <= j < 4 ==> Occupied(ks[j]) == Occupied(kids[j]) - r
    ensures Union4(ks) == Union4(kids) - r
  {
  }

  /** Four empty children hold nothing between them. */
  lemma KidsAllEmpty(ks: seq<CollisionTree>)
    requires |ks| == 4 && forall j :: 0 <= j < 4 ==> Occupied(ks[j]) == {}
    ensures Union4(ks) == {} && Solid4(ks) == 0
  {
    assert Occupied(ks[0]) == {} && Occupied(ks[1]) == {} && Occupied(ks[2]) == {} && Occupied(ks[3]) == {};
  }

  /** Four valid quadrant children hold at most the parent's area. */
  lemma KidsAtMostArea(n: CollisionTree, ks: seq<CollisionTree>)
    requires n.width == n.height && GoodSide(n.width) && LEAF_SIZE < n.width && n.grid.None?
    requires QuadKids(n, ks)
    ensures Solid4(ks) <= n.width * n.height
  {
    var t := CollisionTree(n.x, n.y, n.width, n.height, 0, Quads(ks), None);
    assert Shaped(t);
    KidsCard(t);
    HalveGoodSide(n.width);
    QuadSetsCover(n);
    forall j | 0 <= j < 4 ensures Occupied(ks[j]) <= QuadSet(n, j) {
      OccupiedInBounds(ks[j]);
    }
    assert Occupied(t) <= Bounds(n);
    RectCard(n.x, n.y, n.width, n.height);
    SubsetCard(Occupied(t), Bounds(n));
  }

  /** A valid node larger than a leaf has no grid, and the children the
      rectangle insertion works through are valid quadrants holding its
      solid pixels. */
  lemma BigKids(n: CollisionTree)
    requires Valid(n) && LEAF_SIZE < n.width
    ensures n.width == n.height && GoodSide(n.width) && n.grid.None?
    ensures QuadKids(n, KidsOrSplit(n)) && Occupied(n) == Union4(KidsOrSplit(n))
    ensures n.freePixels + Solid4(KidsOrSplit(n)) == n.width * n.height
  {
    if n.children.Quads? {
      KidsAreQuads(n);
      KidsCounter(n);
    } else {
      SplitValid(n);
    }
  }

  // ---------------------------------------------------------------- the children loops

  /** The state of the children loop of `insert_rect` after `i` children:
      those are grown by their part of the rectangle, the rest untouched. */
  ghost predicate KidsInserting(n: CollisionTree, kids: seq<CollisionTree>, ks: seq<CollisionTree>, i: int,
                                x: int, y: int, w: nat, h: nat)
  {
    QuadKids(n, kids) && QuadKids(n, ks) && 0 <= i <= 4 &&
    (forall j :: i <= j < 4 ==> ks[j] == kids[j]) &&
    (forall j :: 0 <= j < i ==> Occupied(ks[j]) == Occupied(kids[j]) + QuadSet(n, j) * RectSet(x, y, w, h))
  }

  /** One step of that loop: child `i` replaced by its grown version. */
  lemma InsertRectKidStep(n: CollisionTree, kids: seq<CollisionTree>, ks: seq<CollisionTree>, i: int,
                          x: int, y: int, w: nat, h: nat, kid: CollisionTree, delta: nat)
    requires 0 <= i < 4 && KidsInserting(n, kids, ks, i, x, y, w, h)
    requires Valid(kid) && SameBox(kid, ks[i])
    requires Occupied(kid) == Occupied(ks[i]) + Bounds(ks[i]) * RectSet(x, y, w, h)
    requires kid.freePixels + delta == ks[i].freePixels
    ensures KidsInserting(n, kids, ks[i := kid], i + 1, x, y, w, h)
    ensures Solid4(ks[i := kid]) == Solid4(ks) + delta
  {
    ReplaceKid(n, ks, i, kid);
    assert ks[i] == kids[i];
  }

  /** The state of the children loop of `remove_rect` after `i` children:
      those are shrunk by the rectangle, the rest untouched; when none of
      them reported itself non-empty, all of them are empty. */
  ghost predicate KidsRemoving(n: CollisionTree, kids: seq<CollisionTree>, ks: seq<CollisionTree>, i: int,
                               x: int, y: int, w: nat, h: nat, keep: bool)
  {
    QuadKids(n, kids) && QuadKids(n, ks) && 0 <= i <= 4 &&
    (forall j :: i <= j < 4 ==> ks[j] == kids[j]) &&
    (forall j :: 0 <= j < i ==> Occupied(ks[j]) == Occupied(kids[j]) - RectSet(x, y, w, h)) &&
    (!keep ==> forall j :: 0 <= j < i ==> Occupied(ks[j]) == {})
  }

  /** One step of that loop: child `i` replaced by its shrunk version. */
  lemma RemoveRectKidStep(n: CollisionTree, kids: seq<CollisionTree>, ks: seq<CollisionTree>, i: int,
                          x: int, y: int, w: nat, h: nat, keep: bool,
                          kid: CollisionTree, empty: bool, delta: nat)
    requires 0 <= i < 4 && KidsRemoving(n, kids, ks, i, x, y, w, h, keep)
    requires Valid(kid) && SameBox(kid, ks[i])
    requires Occupied(kid) == Occupied(ks[i]) - RectSet(x, y, w, h)
    requires empty ==> Occupied(kid) == {}
    requires kid.freePixels == ks[i].freePixels + delta
    ensures KidsRemoving(n, kids, ks[i := kid], i + 1, x, y, w, h, keep || !empty)
    ensures Solid4(ks[i := kid]) + delta == Solid4(ks)
  {
    var ks' := ks[i := kid];
    var r := RectSet(x, y, w, h);
    ReplaceKid(n, ks, i, kid);
    assert ks[i] == kids[i];
    forall j | i + 1 <= j < 4 ensures ks'[j] == kids[j] {
    }
    forall j | 0 <= j < i + 1 ensures Occupied(ks'[j]) == Occupied(kids[j]) - r {
    }
    if !(keep || !empty) {
      forall j | 0 <= j < i + 1 ensures Occupied(ks'[j]) == {} {
      }
    }
  }
}
