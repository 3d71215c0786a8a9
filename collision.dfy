/** The operations of the collision quadtree. Each takes a node and, where
    the source mutates it in place, returns the updated node. */
module Collision {
  import opened Wrappers
  import opened Geometry
  import opened TreeSpec
  import opened TreeLemmas
  import opened RectLemmas
  import Sprites

  // ---------------------------------------------------------------- insert

  /** `insert`: marks one pixel solid. `Err` outside the node, `Ok(true)` if
      the pixel was free, `Ok(false)` (nothing changed) if it was solid. */
  method Insert(n: CollisionTree, px: int, py: int) returns (t: CollisionTree, r: Result<bool>)
    requires Valid(n)
    ensures Valid(t) && SameBox(t, n)
    ensures r.Err? <==> !Contains(n, px, py)
    ensures r == Ok(true) <==> Contains(n, px, py) && (px, py) !in Occupied(n)
    ensures r != Ok(true) ==> t == n
    ensures Occupied(t) == if Contains(n, px, py) then Occupied(n) + {(px, py)} else Occupied(n)
    ensures t.freePixels == if r == Ok(true) then n.freePixels - 1 else n.freePixels
    decreases n.width, 1
  {
    if px < n.x || px >= n.x + n.width || py < n.y || py >= n.y + n.height {
      OccupiedInBounds(n);
      InRectSet(n.x, n.y, n.width, n.height, px, py);
      return n, Err;
    }
    if n.freePixels == 0 {
      FullIsBounds(n);
      InRectSet(n.x, n.y, n.width, n.height, px, py);
      return n, Ok(false);
    }
    if n.children.Quads? {
      KidsCounter(n);
      t, r := InsertIntoKids(n, n.children.kids, px, py);
    } else if n.width * n.height > LEAF_CELLS {
      LeafAreaIffSide(n.width);
      SplitValid(n);
      t, r := InsertIntoKids(n, Split(n), px, py);
    } else {
      LeafAreaIffSide(n.width);
      t, r := InsertIntoLeaf(n, px, py);
    }
  }

  /** The leaf case of `insert`: allocate the grid on first use and set the
      pixel's cell. */
  method InsertIntoLeaf(n: CollisionTree, px: int, py: int) returns (t: CollisionTree, r: Result<bool>)
    requires Valid(n) && n.children.NoChildren? && n.width <= LEAF_SIZE
    requires n.freePixels > 0 && Contains(n, px, py)
    ensures Valid(t) && SameBox(t, n)
    ensures r.Ok? && (r.value <==> (px, py) !in Occupied(n))
    ensures !r.value ==> t == n
    ensures Occupied(t) == Occupied(n) + {(px, py)}
    ensures t.freePixels == if r.value then n.freePixels - 1 else n.freePixels
  {
    var g := if n.grid.None? then seq(LEAF_CELLS, _ => false) else n.grid.value;
    GridEmpty(n.x, n.y, n.width, n.height);
    assert Occupied(n) == GridSet(n.x, n.y, n.width, n.width, g);
    var i := Idx(n.width, px - n.x, py - n.y);
    GridWrite(n.x, n.y, n.width, g, px, py, true);
    InGridSet(n.x, n.y, n.width, n.width, g, px, py);
    if !g[i] {
      t := CollisionTree(n.x, n.y, n.width, n.height, n.freePixels - 1, NoChildren, Some(g[i := true]));
      r := Ok(true);
    } else {
      t := n;
      r := Ok(false);
    }
  }

  /** The children loop of `insert`: find the (first) child containing the
      pixel, insert there, and count a newly solid pixel in the parent. */
  method InsertIntoKids(n: CollisionTree, kids: seq<CollisionTree>, px: int, py: int)
    returns (t: CollisionTree, r: Result<bool>)
    requires n.width == n.height && GoodSide(n.width) && LEAF_SIZE < n.width && n.grid.None?
    requires QuadKids(n, kids)
    requires n.freePixels > 0 && n.freePixels + Solid4(kids) == n.width * n.height
    requires Contains(n, px, py)
    ensures Valid(t) && SameBox(t, n)
    ensures r.Ok? && (r.value <==> (px, py) !in Union4(kids))
    ensures !r.value ==> t == n.(children := Quads(kids))
    ensures Occupied(t) == Union4(kids) + {(px, py)}
    ensures t.freePixels == if r.value then n.freePixels - 1 else n.freePixels
    decreases n.width, 0
  {
    HalveGoodSide(n.width);
    var i := FindQuad(n, kids, px, py);
    var kid, e := Insert(kids[i], px, py);
    var free: nat := if e == Ok(true) then n.freePixels - 1 else n.freePixels;
    KidInserted(n, kids, i, kid, e, free, px, py);
    t := CollisionTree(n.x, n.y, n.width, n.height, free, Quads(kids[i := kid]), None);
    r := e;
  }

  /** The scan over the children: the index of the first child whose bounds
      contain the pixel. */
  method FindQuad(n: CollisionTree, kids: seq<CollisionTree>, px: int, py: int) returns (i: int)
    requires n.width == n.height && n.width % 2 == 0
    requires |kids| == 4 && forall k :: 0 <= k < 4 ==> IsQuad(n, k, kids[k])
    requires Contains(n, px, py)
    ensures 0 <= i < 4 && InQuad(n, i, px, py) && Contains(kids[i], px, py)
  {
    QuadPartition(n, px, py);
    i := 0;
    while !(px >= kids[i].x && px < kids[i].x + kids[i].width &&
            py >= kids[i].y && py < kids[i].y + kids[i].height)
      invariant 0 <= i < 4
      invariant exists j :: i <= j < 4 && InQuad(n, j, px, py)
      decreases 4 - i
    {
      i := i + 1;
    }
  }

  // ---------------------------------------------------------------- point query

  /** `check_point`: whether the pixel is solid; false outside the node. */
  method CheckPoint(n: CollisionTree, px: int, py: int) returns (r: bool)
    requires Valid(n)
    ensures r <==> (px, py) in Occupied(n)
    decreases n.width, 1
  {
    OccupiedInBounds(n);
    InRectSet(n.x, n.y, n.width, n.height, px, py);
    if px < n.x || px >= n.x + n.width || py < n.y || py >= n.y + n.height {
      return false;
    }
    if n.freePixels == 0 {
      FullIsBounds(n);
      return true;
    }
    if n.grid.Some? {
      var g := n.grid.value;
      var i := Idx(n.width, px - n.x, py - n.y);
      IdxInGrid(n.width, px - n.x, py - n.y);
      InGridSet(n.x, n.y, n.width, n.height, g, px, py);
      return g[i];
    } else if n.children.Quads? {
      KidsAreQuads(n);
      r := CheckKids(n, n.children.kids, px, py);
      return r;
    }
    return false;
  }

  /** The children loop of `check_point`: solid in some child. */
  method CheckKids(n: CollisionTree, kids: seq<CollisionTree>, px: int, py: int) returns (r: bool)
    requires 0 < n.width && QuadKids(n, kids)
    ensures r <==> (px, py) in Union4(kids)
    decreases n.width, 0
  {
    var i := 0;
    while i < 4
      invariant 0 <= i <= 4
      invariant forall j :: 0 <= j < i ==> (px, py) !in Occupied(kids[j])
    {
      var b := CheckPoint(kids[i], px, py);
      if b {
        return true;
      }
      i := i + 1;
    }
    return false;
  }

  // ---------------------------------------------------------------- rectangles

  /** `insert_rect`: marks solid the part of the rectangle inside the node and
      reports how many pixels were free there, or `Err` when the miss test
      rejects the rectangle. */
  method InsertRect(n: CollisionTree, x: int, y: int, w: nat, h: nat) returns (t: CollisionTree, r: Result<nat>)
    requires Valid(n)
    ensures Valid(t) && SameBox(t, n)
    ensures r.Err? <==> Misses(n, x, y, w, h)
    ensures r.Err? ==> t == n
    ensures Occupied(t) == Occupied(n) + Bounds(n) * RectSet(x, y, w, h)
    ensures r.Ok? ==> t.freePixels + r.value == n.freePixels
    ensures r.Ok? ==> r.value == |Bounds(n) * RectSet(x, y, w, h) - Occupied(n)|
    decreases n.width, 3
  {
    GrowthCount(Occupied(n), Bounds(n) * RectSet(x, y, w, h));
    if Misses(n, x, y, w, h) {
      MissDisjoint(n, x, y, w, h);
      return n, Err;
    }
    if Covers(n, x, y, w, h) {
      t := InsertCovered(n, x, y, w, h);
      return t, Ok(n.freePixels);
    }
    LeafAreaIffSide(n.width);
    var inserted;
    if n.width * n.height <= LEAF_CELLS {
      t, inserted := InsertRectLeaf(n, x, y, w, h);
    } else {
      BigKids(n);
      t, inserted := InsertRectKids(n, KidsOrSplit(n), x, y, w, h);
    }
    r := Ok(inserted);
  }

  /** The branch of `insert_rect` for a rectangle covering the whole node:
      a leaf gets an all-solid grid, a larger node passes the rectangle to
      each of its children; either way no pixel stays free. */
  method InsertCovered(n: CollisionTree, x: int, y: int, w: nat, h: nat) returns (t: CollisionTree)
    requires Valid(n) && Covers(n, x, y, w, h)
    ensures Valid(t) && SameBox(t, n) && t.freePixels == 0
    ensures Occupied(t) == Bounds(n) == Occupied(n) + Bounds(n) * RectSet(x, y, w, h)
    decreases n.width, 2
  {
    CoverContains(n, x, y, w, h);
    OccupiedInBounds(n);
    LeafAreaIffSide(n.width);
    if n.width * n.height <= LEAF_CELLS {
      GridFull(n.x, n.y, n.width);
      RectCard(n.x, n.y, n.width, n.height);
      t := n.(freePixels := 0, grid := Some(seq(LEAF_CELLS, _ => true)));
    } else {
      BigKids(n);
      var inserted;
      t, inserted := InsertRectKids(n, KidsOrSplit(n), x, y, w, h);
      FullHasNoFree(t);
      t := t.(freePixels := 0);
    }
  }

  /** The children loop of `insert_rect`: the rectangle goes to each child in
      turn, and the parent's counter drops by what they report inserted. */
  method InsertRectKids(n: CollisionTree, kids: seq<CollisionTree>, x: int, y: int, w: nat, h: nat)
    returns (t: CollisionTree, inserted: nat)
    requires n.width == n.height && GoodSide(n.width) && LEAF_SIZE < n.width && n.grid.None?
    requires QuadKids(n, kids) && n.freePixels + Solid4(kids) == n.width * n.height
    ensures Valid(t) && SameBox(t, n)
    ensures Occupied(t) == Union4(kids) + Bounds(n) * RectSet(x, y, w, h)
    ensures t.freePixels + inserted == n.freePixels
    decreases n.width, 1
  {
    var ks := kids;
    var i := 0;
    inserted := 0;
    while i < 4
      invariant KidsInserting(n, kids, ks, i, x, y, w, h)
      invariant Solid4(ks) == Solid4(kids) + inserted
    {
      ks, inserted := InsertRectKid(n, kids, ks, i, inserted, x, y, w, h);
      i := i + 1;
    }
    HalveGoodSide(n.width);
    KidsGrow(n, kids, ks, RectSet(x, y, w, h));
    KidsAtMostArea(n, ks);
    var free := n.freePixels - inserted;
    QuadsValid(n, ks, free);
    t := CollisionTree(n.x, n.y, n.width, n.height, free, Quads(ks), None);
  }

  /** One turn of that loop: child `i` takes the rectangle; a miss adds nothing. */
  method InsertRectKid(n: CollisionTree, ghost kids: seq<CollisionTree>, ks: seq<CollisionTree>, i: int,
                       inserted: nat, x: int, y: int, w: nat, h: nat)
    returns (ks': seq<CollisionTree>, inserted': nat)
    requires 0 < n.width && 0 <= i < 4 && KidsInserting(n, kids, ks, i, x, y, w, h)
    requires Solid4(ks) == Solid4(kids) + inserted
    ensures KidsInserting(n, kids, ks', i + 1, x, y, w, h)
    ensures Solid4(ks') == Solid4(kids) + inserted'
    decreases n.width, 0
  {
    var kid, e := InsertRect(ks[i], x, y, w, h);
    var delta := if e.Ok? then e.value else 0;
    InsertRectKidStep(n, kids, ks, i, x, y, w, h, kid, delta);
    ks' := ks[i := kid];
    inserted' := inserted + delta;
  }

  /** `remove_rect`: frees the part of the rectangle inside the node and
      reports whether the node is left empty and how many pixels it freed.
      On a rectangle covering the whole node, the counter is reset to the
      full area (the corrected branch; see `RemoveCoveredAsWritten`). */
  method RemoveRect(n: CollisionTree, x: int, y: int, w: nat, h: nat)
    returns (t: CollisionTree, empty: bool, removed: nat)
    requires Valid(n)
    ensures Valid(t) && SameBox(t, n)
    ensures Occupied(t) == Occupied(n) - RectSet(x, y, w, h)
    ensures t.freePixels == n.freePixels + removed
    ensures Misses(n, x, y, w, h) ==> t == n && !empty
    ensures Covers(n, x, y, w, h) ==> empty
    ensures empty ==> Occupied(t) == {} && t.children.NoChildren?
    ensures n.grid.Some? && !Misses(n, x, y, w, h) ==> (empty <==> Occupied(t) == {})
    ensures removed == |Occupied(n) * RectSet(x, y, w, h)|
    ensures Covers(n, x, y, w, h) ==> t == Clear(n)
    ensures !Misses(n, x, y, w, h) && n.grid.None? && n.children.NoChildren? ==> empty && removed == 0
    decreases n.width, 2
  {
    OccupiedInBounds(n);
    ShrinkCount(Occupied(n), RectSet(x, y, w, h));
    if Misses(n, x, y, w, h) {
      MissDisjoint(n, x, y, w, h);
      return n, false, 0;
    }
    if Covers(n, x, y, w, h) {
      CoverContains(n, x, y, w, h);
      ClearValid(n);
      return Clear(n), true, n.width * n.height - n.freePixels;
    }
    if n.grid.Some? {
      t, empty, removed := RemoveRectLeaf(n, x, y, w, h);
    } else if n.children.NoChildren? {
      t, empty, removed := n, true, 0;
    } else {
      KidsAreQuads(n);
      KidsCounter(n);
      t, empty, removed := RemoveRectKids(n, n.children.kids, x, y, w, h);
    }
  }

  /** The whole-node branch of `remove_rect` as the source writes it: the
      children and the grid are dropped and the freed count reported, but the
      free counter keeps its old value. */
  function RemoveCoveredAsWritten(n: CollisionTree): (r: (CollisionTree, bool, int))
    ensures SameBox(r.0, n) && r.0.children.NoChildren? && r.0.grid.None?
    ensures r.0.freePixels == n.freePixels && r.1
    ensures Occupied(r.0) == {}
  {
    (n.(children := NoChildren, grid := None), true, n.width * n.height - n.freePixels)
  }

  /** Unless the node was already empty, that branch leaves a node whose
      counter no longer matches its (now empty) storage. */
  lemma RemoveCoveredBreaksCounter(n: CollisionTree)
    requires Valid(n) && Occupied(n) != {}
    ensures !Valid(RemoveCoveredAsWritten(n).0)
    ensures RemoveCoveredAsWritten(n).2 == |Occupied(n)| > 0
  {
  }

  /** A concrete case: a full 64 x 64 leaf at the origin, and the rectangle
      `(-1, -1, 66, 66)` covering it. The as-written branch leaves a node that
      still counts no free pixel, so `check_point` answers solid everywhere,
      while nothing is stored any more. */
  lemma RemoveCoveredCounterexample()
    ensures var n := CollisionTree(0, 0, 64, 64, 0, NoChildren, Some(seq(LEAF_CELLS, _ => true)));
            Valid(n) && Covers(n, -1, -1, 66, 66) &&
            var t := RemoveCoveredAsWritten(n).0;
            !Valid(t) && t.freePixels == 0 && Occupied(t) == {} && Occupied(n) == Bounds(n)
  {
    var n := CollisionTree(0, 0, 64, 64, 0, NoChildren, Some(seq(LEAF_CELLS, _ => true)));
    GridFull(0, 0, 64);
    RectCard(0, 0, 64, 64);
    assert Occupied(n) == Bounds(n);
    RemoveCoveredBreaksCounter(n);
  }

  /** The grid loops of `remove_rect` on a leaf; the leaf reports itself
      empty when its counter is back to the full area. */
  method RemoveRectLeaf(n: CollisionTree, x: int, y: int, w: nat, h: nat)
    returns (t: CollisionTree, empty: bool, removed: nat)
    requires Valid(n) && n.grid.Some?
    ensures Valid(t) && SameBox(t, n) && t.children.NoChildren? && t.grid.Some?
    ensures Occupied(t) == Occupied(n) - RectSet(x, y, w, h)
    ensures t.freePixels == n.freePixels + removed
    ensures empty <==> Occupied(t) == {}
  {
    LeafGrid(n);
    var g';
    g', removed := ClearCells(n.x, n.y, n.width, n.grid.value,
                              Max(n.x, x), Min(n.x + n.width, x + w), Max(n.y, y), Min(n.y + n.height, y + h));
    Clip(n, x, y, w, h);
    OccupiedInBounds(n);
    MinusClip(Occupied(n), Bounds(n), RectSet(x, y, w, h));
    t := CollisionTree(n.x, n.y, n.width, n.height, n.freePixels + removed, NoChildren, Some(g'));
    empty := t.freePixels == n.width * n.height;
  }

  /** The children loop of `remove_rect`: the rectangle goes to each child;
      the children are dropped when every one of them reports itself empty. */
  method RemoveRectKids(n: CollisionTree, kids: seq<CollisionTree>, x: int, y: int, w: nat, h: nat)
    returns (t: CollisionTree, empty: bool, removed: nat)
    requires n.width == n.height && GoodSide(n.width) && LEAF_SIZE < n.width && n.grid.None?
    requires QuadKids(n, kids) && n.freePixels + Solid4(kids) == n.width * n.height
    ensures Valid(t) && SameBox(t, n)
    ensures Occupied(t) == Union4(kids) - RectSet(x, y, w, h)
    ensures t.freePixels == n.freePixels + removed
    ensures empty ==> Occupied(t) == {} && t.children.NoChildren?
    decreases n.width, 1
  {
    var ks := kids;
    var i := 0;
    var keep := false;
    removed := 0;
    while i < 4
      invariant KidsRemoving(n, kids, ks, i, x, y, w, h, keep)
      invariant Solid4(ks) + removed == Solid4(kids)
    {
      ks, keep, removed := RemoveRectKid(n, kids, ks, i, keep, removed, x, y, w, h);
      i := i + 1;
    }
    KidsShrink(kids, ks, RectSet(x, y, w, h));
    var free := n.freePixels + removed;
    if keep {
      QuadsValid(n, ks, free);
      t := CollisionTree(n.x, n.y, n.width, n.height, free, Quads(ks), None);
    } else {
      KidsAllEmpty(ks);
      t := CollisionTree(n.x, n.y, n.width, n.height, free, NoChildren, None);
    }
    empty := !keep;
  }

  /** One turn of that loop: child `i` takes the rectangle; a child that does
      not report itself empty keeps the children. */
  method RemoveRectKid(n: CollisionTree, ghost kids: seq<CollisionTree>, ks: seq<CollisionTree>, i: int,
                       keep: bool, removed: nat, x: int, y: int, w: nat, h: nat)
    returns (ks': seq<CollisionTree>, keep': bool, removed': nat)
    requires 0 < n.width && 0 <= i < 4 && KidsRemoving(n, kids, ks, i, x, y, w, h, keep)
    requires Solid4(ks) + removed == Solid4(kids)
    ensures KidsRemoving(n, kids, ks', i + 1, x, y, w, h, keep')
    ensures Solid4(ks') + removed' == Solid4(kids)
    decreases n.width, 0
  {
    var kid, e, r := RemoveRect(ks[i], x, y, w, h);
    RemoveRectKidStep(n, kids, ks, i, x, y, w, h, keep, kid, e, r);
    ks' := ks[i := kid];
    keep' := keep || !e;
    removed' := removed + r;
  }

  /** `check_rect`: whether the node has a solid pixel in the rectangle. The
      answer is exact on leaves and children alike, except that a node with
      no free pixel answers yes to every rectangle the miss test lets
      through, which may only touch it one pixel beyond its far edges. */
  method CheckRect(n: CollisionTree, x: int, y: int, w: nat, h: nat) returns (r: bool)
    requires Valid(n)
    ensures Misses(n, x, y, w, h) ==> !r
    ensures !Misses(n, x, y, w, h) && n.freePixels == 0 ==> r
    ensures n.freePixels == n.width * n.height ==> !r
    ensures Occupied(n) * RectSet(x, y, w, h) != {} ==> r
    ensures r ==> Occupied(n) * RectSet(x - 1, y - 1, w + 1, h + 1) != {}
    decreases n.width, 2
  {
    OccupiedInBounds(n);
    ExpandContains(x, y, w, h);
    if Misses(n, x, y, w, h) {
      MissDisjoint(n, x, y, w, h);
      return false;
    }
    if n.freePixels == 0 {
      FullIsBounds(n);
      TouchWitness(n, x, y, w, h);
      return true;
    }
    if n.freePixels == n.width * n.height {
      return false;
    }
    if Covers(n, x, y, w, h) {
      CoverTouch(n, x, y, w, h);
      return true;
    }
    if n.grid.Some? {
      LeafGrid(n);
      r := AnyCell(n.x, n.y, n.width, n.grid.value,
                   Max(n.x, x), Min(n.x + n.width, x + w), Max(n.y, y), Min(n.y + n.height, y + h));
      Clip(n, x, y, w, h);
      MeetClip(Occupied(n), Bounds(n), RectSet(x, y, w, h));
    } else if n.children.Quads? {
      KidsAreQuads(n);
      r := CheckRectKids(n, n.children.kids, x, y, w, h);
    } else {
      r := false;
    }
  }

  /** The children loop of `check_rect`: yes as soon as one child says yes. */
  method CheckRectKids(n: CollisionTree, kids: seq<CollisionTree>, x: int, y: int, w: nat, h: nat)
    returns (r: bool)
    requires 0 < n.width && QuadKids(n, kids)
    ensures Union4(kids) * RectSet(x, y, w, h) != {} ==> r
    ensures r ==> Union4(kids) * RectSet(x - 1, y - 1, w + 1, h + 1) != {}
    decreases n.width, 1
  {
    ghost var occ := [Occupied(kids[0]), Occupied(kids[1]), Occupied(kids[2]), Occupied(kids[3])];
    var i := 0;
    while i < 4
      invariant 0 <= i <= 4
      invariant forall j :: 0 <= j < i ==> occ[j] !! RectSet(x, y, w, h)
    {
      var c := CheckRectKid(n, kids, i, x, y, w, h);
      if c {
        return true;
      }
      i := i + 1;
    }
    Disjoint4(occ, RectSet(x, y, w, h));
    return false;
  }

  /** One turn of that loop: what child `i` answers says about all four. */
  method CheckRectKid(n: CollisionTree, kids: seq<CollisionTree>, i: int, x: int, y: int, w: nat, h: nat)
    returns (c: bool)
    requires 0 < n.width && QuadKids(n, kids) && 0 <= i < 4
    ensures !c ==> Occupied(kids[i]) !! RectSet(x, y, w, h)
    ensures c ==> Union4(kids) * RectSet(x - 1, y - 1, w + 1, h + 1) != {}
    decreases n.width, 0
  {
    c := CheckRect(kids[i], x, y, w, h);
    EmptyMeet(Occupied(kids[i]), RectSet(x, y, w, h));
    if c {
      GrowMeet(Occupied(kids[i]), Union4(kids), RectSet(x - 1, y - 1, w + 1, h + 1));
    }
  }

  // ---------------------------------------------------------------- rectangles on a leaf

  // ---------------------------------------------------------------- add_sprite, clear_sprite

  /** `add_sprite`: stamps every solid cell of the collider into the node as
      a `xScale` by `yScale` rectangle with `insert_rect`, whose `Err` for a
      rectangle off the node is dropped. The node gains the part of the
      sprite's footprint that lies inside it. */
  method AddSprite(n: CollisionTree, s: Sprites.Sprite) returns (t: CollisionTree)
    requires Valid(n) && |s.collider| == Sprites.COLLIDER_CELLS
    ensures Valid(t) && SameBox(t, n)
    ensures Occupied(t) == Occupied(n) + Bounds(n) * Sprites.Footprint(s)
  {
    ghost var done := Sprites.StampOrder(s);
    t := n;
    var x := 0;
    while x < Sprites.SPRITE_WIDTH
      invariant 0 <= x <= Sprites.SPRITE_WIDTH && Valid(t) && SameBox(t, n)
      invariant Occupied(t) == Occupied(n) + Bounds(n) * done[x][0]
    {
      var y := 0;
      while y < Sprites.SPRITE_WIDTH
        invariant 0 <= y <= Sprites.SPRITE_WIDTH && Valid(t) && SameBox(t, n)
        invariant Occupied(t) == Occupied(n) + Bounds(n) * done[x][y]
      {
        t := StampCell(t, s, x, y);
        StampUnion(Occupied(n), Bounds(n), done[x][y], Sprites.CellPrint(s, x, y));
        y := y + 1;
      }
      x := x + 1;
    }
  }

  /** One cell of `add_sprite`: the node gains the cell's block. */
  method StampCell(t: CollisionTree, s: Sprites.Sprite, x: int, y: int) returns (t': CollisionTree)
    requires |s.collider| == Sprites.COLLIDER_CELLS && Sprites.InCollider(x, y) && Valid(t)
    ensures Valid(t') && SameBox(t', t)
    ensures Occupied(t') == Occupied(t) + Bounds(t) * Sprites.CellPrint(s, x, y)
  {
    t' := t;
    if s.collider[Sprites.Cell(x, y)] {
      var rx := x * s.xScale + s.locX;
      var ry := y * s.yScale + s.locY;
      var inserted;
      assert Sprites.CellPrint(s, x, y) == RectSet(rx, ry, s.xScale, s.yScale);
      t', inserted := InsertRect(t, rx, ry, s.xScale, s.yScale);
    }
  }

  /** `clear_sprite`: removes every solid cell's rectangle from the node with
      `remove_rect`. The node loses the sprite's footprint. */
  method ClearSprite(n: CollisionTree, s: Sprites.Sprite) returns (t: CollisionTree)
    requires Valid(n) && |s.collider| == Sprites.COLLIDER_CELLS
    ensures Valid(t) && SameBox(t, n)
    ensures Occupied(t) == Occupied(n) - Sprites.Footprint(s)
  {
    ghost var done := Sprites.StampOrder(s);
    t := n;
    var x := 0;
    while x < Sprites.SPRITE_WIDTH
      invariant 0 <= x <= Sprites.SPRITE_WIDTH && Valid(t) && SameBox(t, n)
      invariant Occupied(t) == Occupied(n) - done[x][0]
    {
      var y := 0;
      while y < Sprites.SPRITE_WIDTH
        invariant 0 <= y <= Sprites.SPRITE_WIDTH && Valid(t) && SameBox(t, n)
        invariant Occupied(t) == Occupied(n) - done[x][y]
      {
        t := EraseCell(t, s, x, y);
        EraseUnion(Occupied(n), done[x][y], Sprites.CellPrint(s, x, y));
        y := y + 1;
      }
      x := x + 1;
    }
  }

  /** One cell of `clear_sprite`: the node loses the cell's block. */
  method EraseCell(t: CollisionTree, s: Sprites.Sprite, x: int, y: int) returns (t': CollisionTree)
    requires |s.collider| == Sprites.COLLIDER_CELLS && Sprites.InCollider(x, y) && Valid(t)
    ensures Valid(t') && SameBox(t', t)
    ensures Occupied(t') == Occupied(t) - Sprites.CellPrint(s, x, y)
  {
    t' := t;
    if s.collider[Sprites.Cell(x, y)] {
      var rx := x * s.xScale + s.locX;
      var ry := y * s.yScale + s.locY;
      var empty, removed;
      assert Sprites.CellPrint(s, x, y) == RectSet(rx, ry, s.xScale, s.yScale);
      t', empty, removed := RemoveRect(t, rx, ry, s.xScale, s.yScale);
    }
  }

  /** The grid loops of `insert_rect` on a leaf: set every cell of the part of
      the rectangle inside the leaf, counting the cells that were free. */
  method InsertRectLeaf(n: CollisionTree, x: int, y: int, w: nat, h: nat)
    returns (t: CollisionTree, inserted: nat)
    requires Valid(n) && n.children.NoChildren? && n.width <= LEAF_SIZE
    ensures Valid(t) && SameBox(t, n) && t.children.NoChildren? && t.grid.Some?
    ensures Occupied(t) == Occupied(n) + Bounds(n) * RectSet(x, y, w, h)
    ensures t.freePixels + inserted == n.freePixels
  {
    LeafGrid(n);
    var g := if n.grid.None? then seq(LEAF_CELLS, _ => false) else n.grid.value;
    var g';
    g', inserted := SetCells(n.x, n.y, n.width, g,
                             Max(n.x, x), Min(n.x + n.width, x + w), Max(n.y, y), Min(n.y + n.height, y + h));
    Clip(n, x, y, w, h);
    GridInBounds(n.x, n.y, n.width, g');
    t := CollisionTree(n.x, n.y, n.width, n.height, n.freePixels - inserted, NoChildren, Some(g'));
  }

  /** Sets the cells of `[lx, hx) × [ly, hy)`, a part of the leaf at `(x0, y0)`
      of side `s`, column by column; counts those that were free. */
  method SetCells(x0: int, y0: int, s: nat, g: seq<bool>, lx: int, hx: int, ly: int, hy: int)
    returns (g': seq<bool>, count: nat)
    requires s <= LEAF_SIZE && |g| == LEAF_CELLS
    requires x0 <= lx && hx <= x0 + s && y0 <= ly && hy <= y0 + s
    ensures |g'| == LEAF_CELLS
    ensures GridSet(x0, y0, s, s, g') == GridSet(x0, y0, s, s, g) + RectSet(lx, ly, hx - lx, hy - ly)
    ensures |GridSet(x0, y0, s, s, g')| == |GridSet(x0, y0, s, s, g)| + count
  {
    g', count := g, 0;
    var px := lx;
    EmptyRect(lx, ly, px - lx, hy - ly);
    while px < hx
      invariant lx <= px && (px <= hx || px == lx)
      invariant |g'| == LEAF_CELLS
      invariant GridSet(x0, y0, s, s, g') == GridSet(x0, y0, s, s, g) + RectSet(lx, ly, px - lx, hy - ly)
      invariant |GridSet(x0, y0, s, s, g')| == |GridSet(x0, y0, s, s, g)| + count
    {
      var c;
      g', c := SetColumn(x0, y0, s, g', px, ly, hy);
      count := count + c;
      RectPlusColumn(lx, ly, px, hy);
      px := px + 1;
    }
    if px == lx {
      EmptyRect(lx, ly, px - lx, hy - ly);
      EmptyRect(lx, ly, hx - lx, hy - ly);
    } else {
      assert px == hx;
    }
  }

  /** The inner loop: sets the cells of column `px` from `ly` up to `hy`. */
  method SetColumn(x0: int, y0: int, s: nat, g: seq<bool>, px: int, ly: int, hy: int)
    returns (g': seq<bool>, count: nat)
    requires s <= LEAF_SIZE && |g| == LEAF_CELLS
    requires x0 <= px < x0 + s && y0 <= ly && hy <= y0 + s
    ensures |g'| == LEAF_CELLS
    ensures GridSet(x0, y0, s, s, g') == GridSet(x0, y0, s, s, g) + RectSet(px, ly, 1, hy - ly)
    ensures |GridSet(x0, y0, s, s, g')| == |GridSet(x0, y0, s, s, g)| + count
  {
    g', count := g, 0;
    var py := ly;
    EmptyRect(px, ly, 1, py - ly);
    while py < hy
      invariant ly <= py && (py <= hy || py == ly)
      invariant |g'| == LEAF_CELLS
      invariant GridSet(x0, y0, s, s, g') == GridSet(x0, y0, s, s, g) + RectSet(px, ly, 1, py - ly)
      invariant |GridSet(x0, y0, s, s, g')| == |GridSet(x0, y0, s, s, g)| + count
    {
      g', count := SetCell(x0, y0, s, g, g', count, px, ly, py);
      py := py + 1;
    }
    if py == ly {
      EmptyRect(px, ly, 1, py - ly);
      EmptyRect(px, ly, 1, hy - ly);
    } else {
      assert py == hy;
    }
  }

  /** Clears the cells of `[lx, hx) × [ly, hy)`, a part of the leaf at
      `(x0, y0)` of side `s`, column by column; counts those that were solid. */
  method ClearCells(x0: int, y0: int, s: nat, g: seq<bool>, lx: int, hx: int, ly: int, hy: int)
    returns (g': seq<bool>, count: nat)
    requires s <= LEAF_SIZE && |g| == LEAF_CELLS
    requires x0 <= lx && hx <= x0 + s && y0 <= ly && hy <= y0 + s
    ensures |g'| == LEAF_CELLS
    ensures GridSet(x0, y0, s, s, g') == GridSet(x0, y0, s, s, g) - RectSet(lx, ly, hx - lx, hy - ly)
    ensures |GridSet(x0, y0, s, s, g')| + count == |GridSet(x0, y0, s, s, g)|
  {
    g', count := g, 0;
    var px := lx;
    EmptyRect(lx, ly, px - lx, hy - ly);
    while px < hx
      invariant lx <= px && (px <= hx || px == lx)
      invariant |g'| == LEAF_CELLS
      invariant GridSet(x0, y0, s, s, g') == GridSet(x0, y0, s, s, g) - RectSet(lx, ly, px - lx, hy - ly)
      invariant |GridSet(x0, y0, s, s, g')| + count == |GridSet(x0, y0, s, s, g)|
    {
      var c;
      g', c := ClearColumn(x0, y0, s, g', px, ly, hy);
      count := count + c;
      RectPlusColumn(lx, ly, px, hy);
      px := px + 1;
    }
    if px == lx {
      EmptyRect(lx, ly, px - lx, hy - ly);
      EmptyRect(lx, ly, hx - lx, hy - ly);
    } else {
      assert px == hx;
    }
  }

  /** The inner loop: clears the cells of column `px` from `ly` up to `hy`. */
  method ClearColumn(x0: int, y0: int, s: nat, g: seq<bool>, px: int, ly: int, hy: int)
    returns (g': seq<bool>, count: nat)
    requires s <= LEAF_SIZE && |g| == LEAF_CELLS
    requires x0 <= px < x0 + s && y0 <= ly && hy <= y0 + s
    ensures |g'| == LEAF_CELLS
    ensures GridSet(x0, y0, s, s, g') == GridSet(x0, y0, s, s, g) - RectSet(px, ly, 1, hy - ly)
    ensures |GridSet(x0, y0, s, s, g')| + count == |GridSet(x0, y0, s, s, g)|
  {
    g', count := g, 0;
    var py := ly;
    EmptyRect(px, ly, 1, py - ly);
    while py < hy
      invariant ly <= py && (py <= hy || py == ly)
      invariant |g'| == LEAF_CELLS
      invariant GridSet(x0, y0, s, s, g') == GridSet(x0, y0, s, s, g) - RectSet(px, ly, 1, py - ly)
      invariant |GridSet(x0, y0, s, s, g')| + count == |GridSet(x0, y0, s, s, g)|
    {
      g', count := ClearCell(x0, y0, s, g, g', count, px, ly, py);
      py := py + 1;
    }
    if py == ly {
      EmptyRect(px, ly, 1, py - ly);
      EmptyRect(px, ly, 1, hy - ly);
    } else {
      assert py == hy;
    }
  }

  /** Whether some cell of `[lx, hx) × [ly, hy)`, a part of the leaf at
      `(x0, y0)` of side `s`, is solid; scanned column by column. */
  method AnyCell(x0: int, y0: int, s: nat, g: seq<bool>, lx: int, hx: int, ly: int, hy: int)
    returns (r: bool)
    requires s <= LEAF_SIZE && |g| == LEAF_CELLS
    requires x0 <= lx && hx <= x0 + s && y0 <= ly && hy <= y0 + s
    ensures r <==> GridSet(x0, y0, s, s, g) * RectSet(lx, ly, hx - lx, hy - ly) != {}
  {
    var px := lx;
    EmptyRect(lx, ly, px - lx, hy - ly);
    while px < hx
      invariant lx <= px && (px <= hx || px == lx)
      invariant GridSet(x0, y0, s, s, g) * RectSet(lx, ly, px - lx, hy - ly) == {}
    {
      r := AnyInColumn(x0, y0, s, g, px, ly, hy);
      RectPlusColumn(lx, ly, px, hy);
      if r {
        ColumnInRect(lx, ly, hx, hy, px);
        MeetGrow(GridSet(x0, y0, s, s, g), RectSet(px, ly, 1, hy - ly), RectSet(lx, ly, hx - lx, hy - ly));
        return true;
      }
      MeetUnion(GridSet(x0, y0, s, s, g), RectSet(lx, ly, px - lx, hy - ly), RectSet(px, ly, 1, hy - ly),
                RectSet(lx, ly, px + 1 - lx, hy - ly));
      px := px + 1;
    }
    if px == lx {
      EmptyRect(lx, ly, px - lx, hy - ly);
      EmptyRect(lx, ly, hx - lx, hy - ly);
    } else {
      assert px == hx;
    }
    return false;
  }

  /** The inner loop: whether some cell of column `px` from `ly` up to `hy`
      is solid. */
  method AnyInColumn(x0: int, y0: int, s: nat, g: seq<bool>, px: int, ly: int, hy: int)
    returns (r: bool)
    requires s <= LEAF_SIZE && |g| == LEAF_CELLS
    requires x0 <= px < x0 + s && y0 <= ly && hy <= y0 + s
    ensures r <==> GridSet(x0, y0, s, s, g) * RectSet(px, ly, 1, hy - ly) != {}
  {
    var py := ly;
    EmptyRect(px, ly, 1, py - ly);
    while py < hy
      invariant ly <= py && (py <= hy || py == ly)
      invariant GridSet(x0, y0, s, s, g) * RectSet(px, ly, 1, py - ly) == {}
    {
      IdxInGrid(s, px - x0, py - y0);
      InGridSet(x0, y0, s, s, g, px, py);
      ColumnPlusPoint(px, ly, py);
      MeetStep(GridSet(x0, y0, s, s, g), RectSet(px, ly, 1, py - ly), RectSet(px, ly, 1, py + 1 - ly), (px, py));
      var i := Idx(s, px - x0, py - y0);
      if g[i] {
        ColumnInRect(px, ly, px + 1, hy, px);
        InRectSet(px, ly, 1, hy - ly, px, py);
        return true;
      }
      py := py + 1;
    }
    if py == ly {
      EmptyRect(px, ly, 1, py - ly);
      EmptyRect(px, ly, 1, hy - ly);
    } else {
      assert py == hy;
    }
    return false;
  }

  /** The body of the inner loop of `insert_rect` on a leaf: sets the cell of
      `(px, py)`, counting it if it was free. */
  method SetCell(x0: int, y0: int, s: nat, ghost g0: seq<bool>, g: seq<bool>, count: nat, px: int, ly: int, py: int)
    returns (g': seq<bool>, count': nat)
    requires s <= LEAF_SIZE && |g| == LEAF_CELLS
    requires x0 <= px < x0 + s && y0 <= ly <= py < y0 + s
    requires GridSet(x0, y0, s, s, g) == GridSet(x0, y0, s, s, g0) + RectSet(px, ly, 1, py - ly)
    requires |GridSet(x0, y0, s, s, g)| == |GridSet(x0, y0, s, s, g0)| + count
    ensures |g'| == LEAF_CELLS
    ensures GridSet(x0, y0, s, s, g') == GridSet(x0, y0, s, s, g0) + RectSet(px, ly, 1, py + 1 - ly)
    ensures |GridSet(x0, y0, s, s, g')| == |GridSet(x0, y0, s, s, g0)| + count'
  {
    IdxInGrid(s, px - x0, py - y0);
    var i := Idx(s, px - x0, py - y0);
    GridWrite(x0, y0, s, g, px, py, true);
    InGridSet(x0, y0, s, s, g, px, py);
    ColumnPlusPoint(px, ly, py);
    g', count' := g, count;
    if !g[i] {
      count' := count + 1;
      g' := g[i := true];
    }
    AddStep(GridSet(x0, y0, s, s, g), GridSet(x0, y0, s, s, g'), GridSet(x0, y0, s, s, g0),
            RectSet(px, ly, 1, py - ly), RectSet(px, ly, 1, py + 1 - ly), (px, py), !g[i]);
  }

  /** The body of the inner loop of `remove_rect` on a leaf: clears the cell
      of `(px, py)`, counting it if it was solid. */
  method ClearCell(x0: int, y0: int, s: nat, ghost g0: seq<bool>, g: seq<bool>, count: nat, px: int, ly: int, py: int)
    returns (g': seq<bool>, count': nat)
    requires s <= LEAF_SIZE && |g| == LEAF_CELLS
    requires x0 <= px < x0 + s && y0 <= ly <= py < y0 + s
    requires GridSet(x0, y0, s, s, g) == GridSet(x0, y0, s, s, g0) - RectSet(px, ly, 1, py - ly)
    requires |GridSet(x0, y0, s, s, g)| + count == |GridSet(x0, y0, s, s, g0)|
    ensures |g'| == LEAF_CELLS
    ensures GridSet(x0, y0, s, s, g') == GridSet(x0, y0, s, s, g0) - RectSet(px, ly, 1, py + 1 - ly)
    ensures |GridSet(x0, y0, s, s, g')| + count' == |GridSet(x0, y0, s, s, g0)|
  {
    IdxInGrid(s, px - x0, py - y0);
    var i := Idx(s, px - x0, py - y0);
    GridWrite(x0, y0, s, g, px, py, false);
    InGridSet(x0, y0, s, s, g, px, py);
    ColumnPlusPoint(px, ly, py);
    g', count' := g, count;
    if g[i] {
      count' := count + 1;
      g' := g[i := false];
    }
    RemoveStep(GridSet(x0, y0, s, s, g), GridSet(x0, y0, s, s, g'), GridSet(x0, y0, s, s, g0),
               RectSet(px, ly, 1, py - ly), RectSet(px, ly, 1, py + 1 - ly), (px, py), g[i]);
  }
}
