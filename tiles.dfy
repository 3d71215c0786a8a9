/** The tile invalidation queue: world pixels map to `TILE_SIZE` tiles with
    Rust's truncating division, and a queued tile is `(layer, tx, ty)` with
    layer 0 background, 1 terrain, 2 foreground. */
module TileQueue {
  import opened Geometry
  import opened RustInt

  const TILE_SIZE: int := 256
  const BACKGROUND: nat := 0
  const TERRAIN: nat := 1
  const FOREGROUND: nat := 2

  type Tile = (nat, int, int)

  /** `(layer, x / TILE_SIZE, y / TILE_SIZE)` with `i32` division. */
  function TileOf(layer: nat, p: Point): Tile
  {
    (layer, TruncDiv(p.0, TILE_SIZE), TruncDiv(p.1, TILE_SIZE))
  }

  /** The tiles of a set of pixels. */
  ghost function Tiles(layer: nat, a: set<Point>): set<Tile>
  {
    set p | p in a :: TileOf(layer, p)
  }

  /** Pixel `v` lies on tile index `k` exactly when it lies in that tile's
      range. Truncation toward zero makes tile 0 span `(-256, 256)`, twice
      as wide as every other tile; a positive tile spans `[256k, 256k + 256)`
      and a negative one `(256k - 256, 256k]`. */
  lemma TileRange(v: int, k: int)
    ensures TruncDiv(v, TILE_SIZE) == k <==>
              if k == 0 then -TILE_SIZE < v < TILE_SIZE
              else if k > 0 then k * TILE_SIZE <= v < k * TILE_SIZE + TILE_SIZE
              else k * TILE_SIZE - TILE_SIZE < v <= k * TILE_SIZE
  {
    var q := TruncDiv(v, TILE_SIZE);
    if q != k {
      if q < k {
        MulLess(q, k);
      } else {
        MulLess(k, q);
      }
    }
  }

  lemma MulLess(a: int, b: int)
    requires a < b
    ensures a * TILE_SIZE + TILE_SIZE <= b * TILE_SIZE
  {
  }

  lemma InTiles(layer: nat, a: set<Point>, p: Point)
    requires p in a
    ensures TileOf(layer, p) in Tiles(layer, a)
  {
  }

  /** The tiles of a union are the union of the tiles. */
  lemma TilesUnion(layer: nat, a: set<Point>, b: set<Point>)
    ensures Tiles(layer, a + b) == Tiles(layer, a) + Tiles(layer, b)
  {
    forall t | t in Tiles(layer, a + b) ensures t in Tiles(layer, a) + Tiles(layer, b) {
      var p :| p in a + b && TileOf(layer, p) == t;
      if p in a {
        InTiles(layer, a, p);
      } else {
        InTiles(layer, b, p);
      }
    }
    forall t | t in Tiles(layer, a) + Tiles(layer, b) ensures t in Tiles(layer, a + b) {
      if t in Tiles(layer, a) {
        var p :| p in a && TileOf(layer, p) == t;
        InTiles(layer, a + b, p);
      } else {
        var p :| p in b && TileOf(layer, p) == t;
        InTiles(layer, a + b, p);
      }
    }
  }

  lemma TilesNone(layer: nat)
    ensures Tiles(layer, {}) == {}
  {
  }

  lemma TilesOne(layer: nat, p: Point)
    ensures Tiles(layer, {p}) == {TileOf(layer, p)}
  {
    InTiles(layer, {p}, p);
  }

  /** The loops of `add_terrain`, `add_foreground` and `add_background` over
      the sprite's box `[x0, x0 + w) × [y0, y0 + h)`: every pixel's tile on
      the layer is queued. */
  method QueueBox(q: set<Tile>, layer: nat, x0: int, y0: int, w: nat, h: nat) returns (q': set<Tile>)
    ensures q' == q + Tiles(layer, RectSet(x0, y0, w, h))
  {
    q' := q;
    EmptyRect(x0, y0, 0, h);
    TilesNone(layer);
    var x := x0;
    while x < x0 + w
      invariant x0 <= x <= x0 + w
      invariant q' == q + Tiles(layer, RectSet(x0, y0, x - x0, h))
    {
      var qc := QueueColumn(q', layer, x, y0, h);
      RectPlusColumn(x0, y0, x, y0 + h);
      TilesUnion(layer, RectSet(x0, y0, x - x0, h), RectSet(x, y0, 1, h));
      q' := qc;
      x := x + 1;
    }
    assert x - x0 == w;
  }

  /** The inner loop: one column of the box. */
  method QueueColumn(q: set<Tile>, layer: nat, x: int, y0: int, h: nat) returns (q': set<Tile>)
    ensures q' == q + Tiles(layer, RectSet(x, y0, 1, h))
  {
    q' := q;
    EmptyRect(x, y0, 1, 0);
    TilesNone(layer);
    var y := y0;
    while y < y0 + h
      invariant y0 <= y <= y0 + h
      invariant q' == q + Tiles(layer, RectSet(x, y0, 1, y - y0))
    {
      ColumnPlusPoint(x, y0, y);
      TilesUnion(layer, RectSet(x, y0, 1, y - y0), {(x, y)});
      TilesOne(layer, (x, y));
      q' := q' + {TileOf(layer, (x, y))};
      y := y + 1;
    }
    assert y - y0 == h;
  }
}
