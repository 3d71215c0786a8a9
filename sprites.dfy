/** Sprites as the collision code sees them: a 16 x 16 collider of solid
    cells, an integer position, and a scale per axis; the collider flip and
    quarter remaps; and the pixels a sprite stamps into a collision tree. */
module Sprites {
  import opened Wrappers
  import opened Geometry
  import opened RustInt

  const SPRITE_WIDTH: int := 16
  /** `SPRITE_WIDTH * SPRITE_WIDTH`. */
  const COLLIDER_CELLS: int := 256
  const MAX_SCALE: int := 180

  /** `PotionType`: a potion changes the scales by a relative amount, or sets
      either of them. */
  datatype PotionType = Relative(dx: int, dy: int) | Absolute(x: Option<int>, y: Option<int>)

  /** The integer part of a sprite. The position is the one every tree access
      uses, `loc` already cast to `i32`; velocity, colour and the float
      physics state other than the sleep timer are not modelled. */
  datatype Sprite = Sprite(
    isPlayer: bool,
    collider: seq<bool>,
    locX: int, locY: int,
    xScale: nat, yScale: nat,
    groundContact: bool,
    sleepTimer: real,
    potionTimer: Option<real>,
    pendingPotions: seq<PotionType>)

  /** Collider index of the cell `(cx, cy)`. */
  function Cell(cx: int, cy: int): int
  {
    cx + cy * SPRITE_WIDTH
  }

  predicate InCollider(cx: int, cy: int)
  {
    0 <= cx < SPRITE_WIDTH && 0 <= cy < SPRITE_WIDTH
  }

  lemma CellInRange(cx: int, cy: int)
    requires InCollider(cx, cy)
    ensures 0 <= Cell(cx, cy) < COLLIDER_CELLS
  {
  }

  /** Every collider index is the index of exactly one cell. */
  lemma CellOfIndex(i: int)
    requires 0 <= i < COLLIDER_CELLS
    ensures InCollider(i % SPRITE_WIDTH, i / SPRITE_WIDTH)
    ensures i == Cell(i % SPRITE_WIDTH, i / SPRITE_WIDTH)
  {
  }

  /** Distinct cells have distinct indices. */
  lemma CellDistinct(x1: int, y1: int, x2: int, y2: int)
    requires InCollider(x1, y1) && InCollider(x2, y2) && (x1, y1) != (x2, y2)
    ensures Cell(x1, y1) != Cell(x2, y2)
  {
    if y1 < y2 {
      assert Cell(x1, y1) < (y1 + 1) * SPRITE_WIDTH <= Cell(x2, y2);
    } else if y2 < y1 {
      assert Cell(x2, y2) < (y2 + 1) * SPRITE_WIDTH <= Cell(x1, y1);
    }
  }

  // ---------------------------------------------------------------- maybe_flip

  /** `r` is the collider `c` mirrored left to right: cell `(x, y)` of `c`
      is cell `(15 - x, y)` of `r`. */
  ghost predicate IsFlipOf(r: seq<bool>, c: seq<bool>)
  {
    |r| == COLLIDER_CELLS && |c| == COLLIDER_CELLS &&
    forall cx, cy :: InCollider(cx, cy) ==> r[Cell(SPRITE_WIDTH - cx - 1, cy)] == c[Cell(cx, cy)]
  }

  /** `maybe_flip`: with `flip` set, the collider is mirrored into a fresh
      array cell by cell; nothing else changes. */
  method MaybeFlip(s: Sprite, flip: bool) returns (t: Sprite)
    requires |s.collider| == COLLIDER_CELLS
    ensures t == s.(collider := t.collider)
    ensures flip ==> IsFlipOf(t.collider, s.collider)
    ensures !flip ==> t == s
  {
    t := s;
    if flip {
      var collider := FlipCollider(s.collider);
      t := s.(collider := collider);
    }
  }

  /** The two loops of `maybe_flip`. */
  method FlipCollider(c: seq<bool>) returns (r: seq<bool>)
    requires |c| == COLLIDER_CELLS
    ensures IsFlipOf(r, c)
  {
    r := seq(COLLIDER_CELLS, _ => false);
    var x := 0;
    while x < SPRITE_WIDTH
      invariant 0 <= x <= SPRITE_WIDTH && |r| == COLLIDER_CELLS
      invariant forall cx, cy :: 0 <= cx < x && 0 <= cy < SPRITE_WIDTH ==>
                  r[Cell(SPRITE_WIDTH - cx - 1, cy)] == c[Cell(cx, cy)]
    {
      ghost var r0 := r;
      var y := 0;
      while y < SPRITE_WIDTH
        invariant 0 <= y <= SPRITE_WIDTH && |r| == COLLIDER_CELLS
        invariant forall cx, cy :: InCollider(cx, cy) && cx != SPRITE_WIDTH - x - 1 ==>
                    r[Cell(cx, cy)] == r0[Cell(cx, cy)]
        invariant forall cy :: 0 <= cy < y ==> r[Cell(SPRITE_WIDTH - x - 1, cy)] == c[Cell(x, cy)]
      {
        var src := Cell(x, y);
        var dst := Cell(SPRITE_WIDTH - x - 1, y);
        ghost var r1 := r;
        r := r[dst := c[src]];
        forall cx, cy | InCollider(cx, cy) && (cx, cy) != (SPRITE_WIDTH - x - 1, y)
          ensures r[Cell(cx, cy)] == r1[Cell(cx, cy)]
        {
          CellDistinct(cx, cy, SPRITE_WIDTH - x - 1, y);
        }
        y := y + 1;
      }
      forall cx, cy | 0 <= cx < x && 0 <= cy < SPRITE_WIDTH
        ensures r[Cell(SPRITE_WIDTH - cx - 1, cy)] == c[Cell(cx, cy)]
      {
        assert InCollider(SPRITE_WIDTH - cx - 1, cy);
      }
      x := x + 1;
    }
  }

  /** Mirroring is symmetric. */
  lemma FlipSymmetric(r: seq<bool>, c: seq<bool>)
    requires IsFlipOf(r, c)
    ensures IsFlipOf(c, r)
  {
    forall cx, cy | InCollider(cx, cy)
      ensures c[Cell(SPRITE_WIDTH - cx - 1, cy)] == r[Cell(cx, cy)]
    {
      var mx := SPRITE_WIDTH - cx - 1;
      assert InCollider(mx, cy);
      assert SPRITE_WIDTH - mx - 1 == cx;
    }
  }

  /** A collider has one mirror image. */
  lemma FlipUnique(c: seq<bool>, r1: seq<bool>, r2: seq<bool>)
    requires IsFlipOf(r1, c) && IsFlipOf(r2, c)
    ensures r1 == r2
  {
    forall i | 0 <= i < COLLIDER_CELLS ensures r1[i] == r2[i] {
      CellOfIndex(i);
      var cx, cy := SPRITE_WIDTH - i % SPRITE_WIDTH - 1, i / SPRITE_WIDTH;
      assert InCollider(cx, cy);
      assert i == Cell(SPRITE_WIDTH - cx - 1, cy);
    }
  }

  /** Flipping twice gives the original collider back. */
  lemma FlipTwice(c: seq<bool>, r: seq<bool>, r2: seq<bool>)
    requires IsFlipOf(r, c) && IsFlipOf(r2, r)
    ensures r2 == c
  {
    FlipSymmetric(r, c);
    FlipUnique(r, r2, c);
  }

  // ---------------------------------------------------------------- quarter

  /** The offsets of the four quarters, in cells: `SPRITE_WIDTH / 2 - 1`,
      that is 7 and not 8, so the quarters share the middle two columns and
      rows, and the last column and row of the collider feed no quarter. */
  const QUARTER_OFFSETS: seq<(int, int)> := [(0, 0), (7, 0), (0, 7), (7, 7)]

  /** `r` is the quarter of `c` at cell offset `(dx, dy)`, blown up two
      times: cell `(x, y)` of `r` is cell `(x / 2 + dx, y / 2 + dy)` of `c`,
      the `QuarterSource`. */
  ghost predicate IsQuarterOf(r: seq<bool>, c: seq<bool>, dx: int, dy: int)
    requires |c| == COLLIDER_CELLS && 0 <= dx <= 7 && 0 <= dy <= 7
  {
    |r| == COLLIDER_CELLS &&
    forall x, y :: InCollider(x, y) ==> r[Cell(x, y)] == c[QuarterSource(x, y, dx, dy)]
  }

  /** The source cell of cell `(x, y)` of the quarter at offset `(dx, dy)`. */
  function QuarterSource(x: int, y: int, dx: int, dy: int): (i: int)
    requires InCollider(x, y) && 0 <= dx <= 7 && 0 <= dy <= 7
    ensures 0 <= i < COLLIDER_CELLS
  {
    Cell(x / 2 + dx, y / 2 + dy)
  }

  /** The two loops of `quarter` for one offset. */
  method QuarterCollider(c: seq<bool>, dx: int, dy: int) returns (r: seq<bool>)
    requires |c| == COLLIDER_CELLS && 0 <= dx <= 7 && 0 <= dy <= 7
    ensures IsQuarterOf(r, c, dx, dy)
  {
    r := seq(COLLIDER_CELLS, _ => false);
    var x := 0;
    while x < SPRITE_WIDTH
      invariant 0 <= x <= SPRITE_WIDTH && |r| == COLLIDER_CELLS
      invariant forall cx, cy :: 0 <= cx < x && 0 <= cy < SPRITE_WIDTH ==>
                  r[Cell(cx, cy)] == c[QuarterSource(cx, cy, dx, dy)]
    {
      ghost var r0 := r;
      var y := 0;
      while y < SPRITE_WIDTH
        invariant 0 <= y <= SPRITE_WIDTH && |r| == COLLIDER_CELLS
        invariant forall cx, cy :: InCollider(cx, cy) && cx != x ==> r[Cell(cx, cy)] == r0[Cell(cx, cy)]
        invariant forall cy :: 0 <= cy < y ==> r[Cell(x, cy)] == c[QuarterSource(x, cy, dx, dy)]
      {
        var src := QuarterSource(x, y, dx, dy);
        var dst := Cell(x, y);
        ghost var r1 := r;
        r := r[dst := c[src]];
        forall cx, cy | InCollider(cx, cy) && (cx, cy) != (x, y) ensures r[Cell(cx, cy)] == r1[Cell(cx, cy)] {
          CellDistinct(cx, cy, x, y);
        }
        y := y + 1;
      }
      x := x + 1;
    }
  }

  /** `quarter`: four sprites at half the scale, each showing one quarter of
      the collider blown up, placed at the quarter's offset times the old
      scale; everything else is copied. */
  method Quarter(s: Sprite) returns (qs: seq<Sprite>)
    requires |s.collider| == COLLIDER_CELLS
    ensures |qs| == 4
    ensures forall k :: 0 <= k < 4 ==>
              var (dx, dy) := QUARTER_OFFSETS[k];
              qs[k] == s.(collider := qs[k].collider,
                          locX := s.locX + dx * s.xScale, locY := s.locY + dy * s.yScale,
                          xScale := s.xScale / 2, yScale := s.yScale / 2) &&
              IsQuarterOf(qs[k].collider, s.collider, dx, dy)
  {
    qs := [];
    var k := 0;
    while k < 4
      invariant 0 <= k <= 4 && |qs| == k
      invariant forall j :: 0 <= j < k ==>
                  var (dx, dy) := QUARTER_OFFSETS[j];
                  qs[j] == s.(collider := qs[j].collider,
                              locX := s.locX + dx * s.xScale, locY := s.locY + dy * s.yScale,
                              xScale := s.xScale / 2, yScale := s.yScale / 2) &&
                  IsQuarterOf(qs[j].collider, s.collider, dx, dy)
    {
      var (dx, dy) := QUARTER_OFFSETS[k];
      var collider := QuarterCollider(s.collider, dx, dy);
      qs := qs + [s.(collider := collider,
                     locX := s.locX + dx * s.xScale, locY := s.locY + dy * s.yScale,
                     xScale := s.xScale / 2, yScale := s.yScale / 2)];
      k := k + 1;
    }
  }

  // ---------------------------------------------------------------- footprint

  /** The pixel lies in the sprite's box, `16 * xScale` by `16 * yScale` at
      its location. A zero scale leaves the box empty. */
  predicate InSprite(s: Sprite, px: int, py: int)
  {
    s.xScale > 0 && s.yScale > 0 &&
    s.locX <= px < s.locX + SPRITE_WIDTH * s.xScale && s.locY <= py < s.locY + SPRITE_WIDTH * s.yScale
  }

  /** The column of the cell under a pixel of the sprite's box. */
  function SourceColumn(s: Sprite, px: int, py: int): (cx: int)
    requires InSprite(s, px, py)
    ensures 0 <= cx < SPRITE_WIDTH
  {
    ScaledCell(px - s.locX, s.xScale, SPRITE_WIDTH);
    (px - s.locX) / s.xScale
  }

  /** The row of the cell under a pixel of the sprite's box. */
  function SourceRow(s: Sprite, px: int, py: int): (cy: int)
    requires InSprite(s, px, py)
    ensures 0 <= cy < SPRITE_WIDTH
  {
    ScaledCell(py - s.locY, s.yScale, SPRITE_WIDTH);
    (py - s.locY) / s.yScale
  }

  /** The stamping loops visit column by column, each column top to bottom:
      cell `(cx, cy)` comes before the loop position `(x, y)`. */
  predicate Before(cx: int, cy: int, x: int, y: int)
  {
    cx < x || (cx == x && cy < y)
  }

  /** The pixel is stamped by one of the cells the loops visit before
      `(x, y)`: it lies in the sprite's box and the collider cell under it is
      solid. */
  ghost predicate Stamps(s: Sprite, x: int, y: int, px: int, py: int)
    requires |s.collider| == COLLIDER_CELLS
  {
    InSprite(s, px, py) &&
    s.collider[Cell(SourceColumn(s, px, py), SourceRow(s, px, py))] &&
    Before(SourceColumn(s, px, py), SourceRow(s, px, py), x, y)
  }

  /** The pixels stamped by the cells before `(x, y)`. */
  ghost function Stamped(s: Sprite, x: int, y: int): set<Point>
    requires |s.collider| == COLLIDER_CELLS
  {
    set px, py | s.locX <= px < s.locX + SPRITE_WIDTH * s.xScale &&
                 s.locY <= py < s.locY + SPRITE_WIDTH * s.yScale &&
                 Stamps(s, x, y, px, py) :: (px, py)
  }


  /** Every pixel the sprite stamps: those under its solid cells. */
  ghost function Footprint(s: Sprite): set<Point>
    requires |s.collider| == COLLIDER_CELLS
  {
    Stamped(s, SPRITE_WIDTH, 0)
  }

  /** The pixels cell `(cx, cy)` stamps when visited: when it is solid, the
      `xScale` by `yScale` block at the cell's position times the scale,
      offset by the location; nothing when it is empty. */
  ghost function CellPrint(s: Sprite, cx: int, cy: int): set<Point>
    requires |s.collider| == COLLIDER_CELLS && InCollider(cx, cy)
  {
    if s.collider[Cell(cx, cy)] then
      RectSet(cx * s.xScale + s.locX, cy * s.yScale + s.locY, s.xScale, s.yScale)
    else {}
  }

  /** An offset below `k` scale steps lies in one of the first `k` cells. */
  lemma ScaledCell(d: int, scale: nat, k: int)
    requires scale > 0 && 0 <= d < k * scale
    ensures 0 <= d / scale < k
  {
    var q := d / scale;
    if q >= k {
      MulMono(k, q, scale);
    }
  }

  lemma MulMono(a: int, b: int, scale: nat)
    requires a <= b
    ensures a * scale <= b * scale
  {
    assert b * scale == a * scale + (b - a) * scale;
  }

  lemma InStamped(s: Sprite, x: int, y: int, px: int, py: int)
    requires |s.collider| == COLLIDER_CELLS
    ensures (px, py) in Stamped(s, x, y) <==> Stamps(s, x, y, px, py)
  {
    if Stamps(s, x, y, px, py) {
      assert (px, py) in Stamped(s, x, y);
    }
  }

  /** On one axis: a coordinate lies in the span of cell `c` exactly when it
      lies in the sprite's extent and truncating it to a cell gives `c`. */
  lemma AxisCell(loc: int, scale: nat, c: int, p: int)
    requires 0 <= c < SPRITE_WIDTH
    ensures (c * scale + loc <= p < c * scale + loc + scale) <==>
            (scale > 0 && loc <= p < loc + SPRITE_WIDTH * scale && (p - loc) / scale == c)
  {
    if c * scale + loc <= p < c * scale + loc + scale {
      MulMono(c + 1, SPRITE_WIDTH, scale);
      DivUnique(p - loc, scale, c, p - loc - c * scale);
    }
    if scale > 0 && loc <= p < loc + SPRITE_WIDTH * scale && (p - loc) / scale == c {
      assert p - loc == (p - loc) / scale * scale + (p - loc) % scale;
    }
  }

  /** A pixel lies in the block of the cell `(cx, cy)` exactly when it is in
      the sprite's box and that cell is the one under it. */
  lemma UnderCell(s: Sprite, cx: int, cy: int, px: int, py: int)
    requires InCollider(cx, cy)
    ensures (px, py) in RectSet(cx * s.xScale + s.locX, cy * s.yScale + s.locY, s.xScale, s.yScale) <==>
              InSprite(s, px, py) && SourceColumn(s, px, py) == cx && SourceRow(s, px, py) == cy
  {
    InRectSet(cx * s.xScale + s.locX, cy * s.yScale + s.locY, s.xScale, s.yScale, px, py);
    AxisCell(s.locX, s.xScale, cx, px);
    AxisCell(s.locY, s.yScale, cy, py);
  }

  /** Nothing is stamped before the first cell. */
  lemma StampedNone(s: Sprite)
    requires |s.collider| == COLLIDER_CELLS
    ensures Stamped(s, 0, 0) == {}
  {
    forall p | p in Stamped(s, 0, 0) ensures false {
      InStamped(s, 0, 0, p.0, p.1);
    }
  }

  /** Visiting cell `(x, y)` adds its block. */
  lemma StampStep(s: Sprite, x: int, y: int)
    requires |s.collider| == COLLIDER_CELLS && InCollider(x, y)
    ensures Stamped(s, x, y + 1) == Stamped(s, x, y) + CellPrint(s, x, y)
  {
    forall p ensures p in Stamped(s, x, y + 1) <==> p in Stamped(s, x, y) + CellPrint(s, x, y) {
      InStamped(s, x, y + 1, p.0, p.1);
      InStamped(s, x, y, p.0, p.1);
      UnderCell(s, x, y, p.0, p.1);
    }
  }

  /** The end of a column is the start of the next. */
  lemma StampColumn(s: Sprite, x: int)
    requires |s.collider| == COLLIDER_CELLS
    ensures Stamped(s, x, SPRITE_WIDTH) == Stamped(s, x + 1, 0)
  {
    forall p ensures p in Stamped(s, x, SPRITE_WIDTH) <==> p in Stamped(s, x + 1, 0) {
      InStamped(s, x, SPRITE_WIDTH, p.0, p.1);
      InStamped(s, x + 1, 0, p.0, p.1);
    }
  }

  /** The footprint, cell by cell: a pixel is stamped exactly when a solid
      cell's block holds it, and then it is the block of the cell under it. */
  lemma FootprintCells(s: Sprite, px: int, py: int)
    requires |s.collider| == COLLIDER_CELLS
    ensures (px, py) in Footprint(s) ==>
              InSprite(s, px, py) && (px, py) in CellPrint(s, SourceColumn(s, px, py), SourceRow(s, px, py))
    ensures forall cx, cy :: InCollider(cx, cy) && (px, py) in CellPrint(s, cx, cy) ==> (px, py) in Footprint(s)
  {
    InStamped(s, SPRITE_WIDTH, 0, px, py);
    if InSprite(s, px, py) {
      UnderCell(s, SourceColumn(s, px, py), SourceRow(s, px, py), px, py);
    }
    forall cx, cy | InCollider(cx, cy) && (px, py) in CellPrint(s, cx, cy) ensures (px, py) in Footprint(s) {
      UnderCell(s, cx, cy, px, py);
    }
  }

  /** The pixels stamped before each loop position `(x, y)`, as the stamping
      loops see them: nothing at the start, one cell's block more per step,
      the end of a column is the start of the next, and the footprint at the
      end. */
  lemma StampOrder(s: Sprite) returns (done: seq<seq<set<Point>>>)
    requires |s.collider| == COLLIDER_CELLS
    ensures |done| == SPRITE_WIDTH + 1 && forall x :: 0 <= x <= SPRITE_WIDTH ==> |done[x]| == SPRITE_WIDTH + 1
    ensures done[0][0] == {} && done[SPRITE_WIDTH][0] == Footprint(s)
    ensures forall x, y :: InCollider(x, y) ==> done[x][y + 1] == done[x][y] + CellPrint(s, x, y)
    ensures forall x :: 0 <= x < SPRITE_WIDTH ==> done[x][SPRITE_WIDTH] == done[x + 1][0]
  {
    done := seq(SPRITE_WIDTH + 1, x => seq(SPRITE_WIDTH + 1, y => Stamped(s, x, y)));
    StampedNone(s);
    forall x, y | InCollider(x, y) ensures done[x][y + 1] == done[x][y] + CellPrint(s, x, y) {
      StampStep(s, x, y);
    }
    forall x | 0 <= x < SPRITE_WIDTH ensures done[x][SPRITE_WIDTH] == done[x + 1][0] {
      StampColumn(s, x);
    }
  }

  // ---------------------------------------------------------------- scale conversion

  /** `to_scale`: world coordinates to cells of the given scales, with Rust's
      truncating division. */
  function ToScale(x: int, y: int, xScale: nat, yScale: nat): (r: (int, int))
    requires xScale > 0 && yScale > 0
    ensures x >= 0 ==> r.0 * xScale <= x < (r.0 + 1) * xScale
    ensures x < 0 ==> (r.0 - 1) * xScale < x <= r.0 * xScale
    ensures y >= 0 ==> r.1 * yScale <= y < (r.1 + 1) * yScale
    ensures y < 0 ==> (r.1 - 1) * yScale < y <= r.1 * yScale
  {
    (TruncDiv(x, xScale), TruncDiv(y, yScale))
  }

  /** `from_scale`: cells back to world coordinates. */
  function FromScale(x: int, y: int, xScale: nat, yScale: nat): (int, int)
  {
    (x * xScale, y * yScale)
  }

  /** Converting cells to world coordinates and back is the identity. */
  lemma ScaleRoundTrip(x: int, y: int, xScale: nat, yScale: nat)
    requires xScale > 0 && yScale > 0
    ensures var (wx, wy) := FromScale(x, y, xScale, yScale);
            ToScale(wx, wy, xScale, yScale) == (x, y)
  {
    var (wx, wy) := FromScale(x, y, xScale, yScale);
    var r := ToScale(wx, wy, xScale, yScale);
    TruncDivExact(x, xScale);
    TruncDivExact(y, yScale);
  }
}
