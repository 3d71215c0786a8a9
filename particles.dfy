/** Settling a particle into the terrain: every pixel of every solid cell's
    block is inserted, one `insert` at a time, into both the collision map
    and the rubble map, and its terrain tile is queued.

    The source does the three writes of one pixel together. They touch
    three separate structures and none reads another, so the model makes
    one pass per structure (`FillSprite` on each map, `QueueFootprint` on
    the queue); the final state is the same. */
module Particles {
  import opened Geometry
  import opened TreeSpec
  import opened Collision
  import opened Sprites
  import opened TileQueue

  /** Node `t` is node `n` with the pixels `a` inserted: it gains the part of
      `a` inside it, and keeps its box. */
  ghost predicate Filled(n: CollisionTree, t: CollisionTree, a: set<Point>)
  {
    Valid(t) && SameBox(t, n) && Occupied(t) == Occupied(n) + Bounds(n) * a
  }

  // ---------------------------------------------------------------- one map

  /** Inserting `a` and then `b` is inserting `a + b`. */
  lemma FilledThen(n: CollisionTree, t: CollisionTree, t': CollisionTree, a: set<Point>, b: set<Point>)
    requires Filled(n, t, a) && Filled(t, t', b)
    ensures Filled(n, t', a + b)
  {
    StampUnion(Occupied(n), Bounds(n), a, b);
  }

  /** `insert` with its result ignored: the node gains the point when it
      lies inside, and is unchanged (the `Err` case) when it does not. */
  method InsertIgnored(n: CollisionTree, px: int, py: int) returns (t: CollisionTree)
    requires Valid(n)
    ensures Filled(n, t, {(px, py)})
  {
    var r;
    t, r := Insert(n, px, py);
    InRectSet(n.x, n.y, n.width, n.height, px, py);
    if Contains(n, px, py) {
      assert Bounds(n) * {(px, py)} == {(px, py)};
    } else {
      assert Bounds(n) * {(px, py)} == {};
    }
  }

  /** The `dy` loop on one map: one column of a cell's block. */
  method FillColumn(n: CollisionTree, x: int, y0: int, h: nat) returns (t: CollisionTree)
    requires Valid(n)
    ensures Filled(n, t, RectSet(x, y0, 1, h))
  {
    t := n;
    EmptyRect(x, y0, 1, 0);
    var dy := 0;
    while dy < h
      invariant 0 <= dy <= h
      invariant Filled(n, t, RectSet(x, y0, 1, dy))
    {
      t := FillColumnStep(n, t, x, y0, dy);
      dy := dy + 1;
    }
  }

  /** One turn of that loop: the column grows by the pixel inserted. */
  method FillColumnStep(n: CollisionTree, t: CollisionTree, x: int, y0: int, dy: nat) returns (t1: CollisionTree)
    requires Filled(n, t, RectSet(x, y0, 1, dy))
    ensures Filled(n, t1, RectSet(x, y0, 1, dy + 1))
  {
    t1 := InsertIgnored(t, x, y0 + dy);
    FilledThen(n, t, t1, RectSet(x, y0, 1, dy), {(x, y0 + dy)});
    ColumnGrow(x, y0, dy);
  }

  /** The `dx` loop on one map: a solid cell's whole block. */
  method FillBlock(n: CollisionTree, x0: int, y0: int, w: nat, h: nat) returns (t: CollisionTree)
    requires Valid(n)
    ensures Filled(n, t, RectSet(x0, y0, w, h))
  {
    t := n;
    EmptyRect(x0, y0, 0, h);
    var dx := 0;
    while dx < w
      invariant 0 <= dx <= w
      invariant Filled(n, t, RectSet(x0, y0, dx, h))
    {
      var t1 := FillColumn(t, x0 + dx, y0, h);
      FilledThen(n, t, t1, RectSet(x0, y0, dx, h), RectSet(x0 + dx, y0, 1, h));
      RectGrow(x0, y0, dx, h);
      t := t1;
      dx := dx + 1;
    }
  }

  /** One cell of the collider on one map: its block when it is solid. */
  method FillCell(n: CollisionTree, s: Sprite, x: int, y: int) returns (t: CollisionTree)
    requires Valid(n) && |s.collider| == COLLIDER_CELLS && InCollider(x, y)
    ensures Filled(n, t, CellPrint(s, x, y))
  {
    t := n;
    if s.collider[Cell(x, y)] {
      var rx := x * s.xScale + s.locX;
      var ry := y * s.yScale + s.locY;
      assert CellPrint(s, x, y) == RectSet(rx, ry, s.xScale, s.yScale);
      t := FillBlock(n, rx, ry, s.xScale, s.yScale);
    }
  }

  /** The collider loops on one map: the map gains the part of the
      particle's footprint inside it. */
  method FillSprite(n: CollisionTree, s: Sprite) returns (t: CollisionTree)
    requires Valid(n) && |s.collider| == COLLIDER_CELLS
    ensures Filled(n, t, Footprint(s))
  {
    ghost var done := StampOrder(s);
    t := n;
    var x := 0;
    while x < SPRITE_WIDTH
      invariant 0 <= x <= SPRITE_WIDTH
      invariant Filled(n, t, done[x][0])
    {
      var y := 0;
      while y < SPRITE_WIDTH
        invariant 0 <= y <= SPRITE_WIDTH
        invariant Filled(n, t, done[x][y])
      {
        var t1 := FillCell(t, s, x, y);
        FilledThen(n, t, t1, done[x][y], CellPrint(s, x, y));
        t := t1;
        y := y + 1;
      }
      x := x + 1;
    }
  }

  // ---------------------------------------------------------------- the tile queue

  /** The collider loops on the tile queue: the terrain tile of every
      footprint pixel is queued. */
  method QueueFootprint(q: set<Tile>, s: Sprite) returns (q': set<Tile>)
    requires |s.collider| == COLLIDER_CELLS
    ensures q' == q + Tiles(TERRAIN, Footprint(s))
  {
    ghost var done := StampOrder(s);
    q' := q;
    TilesNone(TERRAIN);
    var x := 0;
    while x < SPRITE_WIDTH
      invariant 0 <= x <= SPRITE_WIDTH
      invariant q' == q + Tiles(TERRAIN, done[x][0])
    {
      var y := 0;
      while y < SPRITE_WIDTH
        invariant 0 <= y <= SPRITE_WIDTH
        invariant q' == q + Tiles(TERRAIN, done[x][y])
      {
        var q1 := QueueCell(q', s, x, y);
        TilesUnion(TERRAIN, done[x][y], CellPrint(s, x, y));
        q' := q1;
        y := y + 1;
      }
      x := x + 1;
    }
  }

  /** One cell on the tile queue: the tiles of its block when it is solid. */
  method QueueCell(q: set<Tile>, s: Sprite, x: int, y: int) returns (q': set<Tile>)
    requires |s.collider| == COLLIDER_CELLS && InCollider(x, y)
    ensures q' == q + Tiles(TERRAIN, CellPrint(s, x, y))
  {
    if s.collider[Cell(x, y)] {
      var rx := x * s.xScale + s.locX;
      var ry := y * s.yScale + s.locY;
      assert CellPrint(s, x, y) == RectSet(rx, ry, s.xScale, s.yScale);
      q' := QueueBox(q, TERRAIN, rx, ry, s.xScale, s.yScale);
    } else {
      TilesNone(TERRAIN);
      q' := q;
    }
  }
}
