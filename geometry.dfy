/** Pixels of the integer plane and the axis-aligned rectangles made of them. */
module Geometry {

  /** A world pixel `(x, y)`. */
  type Point = (int, int)

  /** The pixels of the half-open rectangle `[x, x + w) × [y, y + h)`. */
  ghost function RectSet(x: int, y: int, w: int, h: int): set<Point>
  {
    set px, py | x <= px < x + w && y <= py < y + h :: (px, py)
  }

  lemma InRectSet(x: int, y: int, w: int, h: int, px: int, py: int)
    ensures (px, py) in RectSet(x, y, w, h) <==> x <= px < x + w && y <= py < y + h
  {
    if x <= px < x + w && y <= py < y + h {
      assert (px, py) in RectSet(x, y, w, h);
    }
  }

  /** One row of `w` pixels holds `w` pixels. */
  lemma {:induction false} RowCard(x: int, y: int, w: nat)
    ensures |RectSet(x, y, w, 1)| == w
  {
    if w == 0 {
      assert RectSet(x, y, 0, 1) == {};
    } else {
      RowCard(x, y, w - 1);
      var last := (x + w - 1, y);
      InRectSet(x, y, w, 1, x + w - 1, y);
      InRectSet(x, y, w - 1, 1, x + w - 1, y);
      assert RectSet(x, y, w, 1) == RectSet(x, y, w - 1, 1) + {last};
    }
  }

  /** A `w × h` rectangle holds exactly `w * h` pixels. */
  lemma {:induction false} RectCard(x: int, y: int, w: nat, h: nat)
    ensures |RectSet(x, y, w, h)| == w * h
  {
    if h == 0 {
      assert RectSet(x, y, w, 0) == {};
    } else {
      RectCard(x, y, w, h - 1);
      RowCard(x, y + h - 1, w);
      var upper := RectSet(x, y, w, h - 1);
      var row := RectSet(x, y + h - 1, w, 1);
      forall p: Point
        ensures p in RectSet(x, y, w, h) <==> p in upper || p in row
        ensures !(p in upper && p in row)
      {
        InRectSet(x, y, w, h, p.0, p.1);
        InRectSet(x, y, w, h - 1, p.0, p.1);
        InRectSet(x, y + h - 1, w, 1, p.0, p.1);
      }
      assert RectSet(x, y, w, h) == upper + row;
      assert upper * row == {};
      assert |upper + row| == |upper| + |row|;
      assert w * h == w * (h - 1) + w;
    }
  }

  /** A subset of a finite set with as many elements is the whole set. */
  lemma SubsetSameCard<T>(a: set<T>, b: set<T>)
    requires a <= b && |a| == |b|
    ensures a == b
  {
    assert |b - a| == |b| - |a|;
  }

  /** A subset has at most as many elements. */
  lemma SubsetCard<T>(a: set<T>, b: set<T>)
    requires a <= b
    ensures |a| <= |b|
  {
    assert b == a + (b - a);
  }

  /** A rectangle with no width or no height holds no pixel. */
  lemma EmptyRect(x: int, y: int, w: int, h: int)
    requires w <= 0 || h <= 0
    ensures RectSet(x, y, w, h) == {}
  {
  }

  /** A one-pixel-wide column grows by its next pixel. */
  lemma ColumnPlusPoint(px: int, ly: int, py: int)
    requires ly <= py
    ensures RectSet(px, ly, 1, py + 1 - ly) == RectSet(px, ly, 1, py - ly) + {(px, py)}
  {
    var h0, h1 := py - ly, py + 1 - ly;
    forall q: Point
      ensures q in RectSet(px, ly, 1, h1) <==> q in RectSet(px, ly, 1, h0) || q == (px, py)
    {
      InRectSet(px, ly, 1, h1, q.0, q.1);
      InRectSet(px, ly, 1, h0, q.0, q.1);
    }
  }

  /** A rectangle grows by its next column. */
  lemma RectPlusColumn(lx: int, ly: int, px: int, hy: int)
    requires lx <= px
    ensures RectSet(lx, ly, px + 1 - lx, hy - ly) == RectSet(lx, ly, px - lx, hy - ly) + RectSet(px, ly, 1, hy - ly)
  {
    var w0, w1, h := px - lx, px + 1 - lx, hy - ly;
    forall q: Point
      ensures q in RectSet(lx, ly, w1, h) <==> q in RectSet(lx, ly, w0, h) || q in RectSet(px, ly, 1, h)
    {
      InRectSet(lx, ly, w1, h, q.0, q.1);
      InRectSet(lx, ly, w0, h, q.0, q.1);
      InRectSet(px, ly, 1, h, q.0, q.1);
    }
  }

  /** The same, by heights: an `h`-high column grows by pixel `y + h`. */
  lemma ColumnGrow(x: int, y: int, h: nat)
    ensures RectSet(x, y, 1, h + 1) == RectSet(x, y, 1, h) + {(x, y + h)}
  {
    ColumnPlusPoint(x, y, y + h);
    assert y + h + 1 - y == h + 1 && y + h - y == h;
  }

  /** The same, by widths: a `w`-wide rectangle grows by column `x + w`. */
  lemma RectGrow(x: int, y: int, w: nat, h: int)
    ensures RectSet(x, y, w + 1, h) == RectSet(x, y, w, h) + RectSet(x + w, y, 1, h)
  {
    RectPlusColumn(x, y, x + w, y + h);
    assert x + w + 1 - x == w + 1 && x + w - x == w && y + h - y == h;
  }

  /** One step of a loop that adds the element `p` to a set `a` tracked as
      `b + c`, where `c` grows by `p`: whether or not `p` was new. */
  lemma AddStep<T>(a: set<T>, a': set<T>, b: set<T>, c: set<T>, c': set<T>, p: T, added: bool)
    requires a == b + c && c' == c + {p}
    requires added ==> p !in a && a' == a + {p}
    requires !added ==> p in a && a' == a
    ensures a' == b + c'
    ensures |a'| == |a| + (if added then 1 else 0)
  {
  }

  /** One step of a loop that removes the element `p` from a set `a` tracked
      as `b - c`, where `c` grows by `p`: whether or not `p` was there. */
  lemma RemoveStep<T>(a: set<T>, a': set<T>, b: set<T>, c: set<T>, c': set<T>, p: T, removed: bool)
    requires a == b - c && c' == c + {p}
    requires removed ==> p in a && a' == a - {p}
    requires !removed ==> p !in a && a' == a
    ensures a' == b - c'
    ensures |a'| == |a| - (if removed then 1 else 0)
  {
  }

  /** One step of a search for an element of `a` in a region `c` growing by
      `p`, none found so far. */
  lemma MeetStep<T>(a: set<T>, c: set<T>, c': set<T>, p: T)
    requires a * c == {} && c' == c + {p}
    ensures a * c' == {} <==> p !in a
  {
    if p in a {
      assert p in a * c';
    }
  }

  /** One step of a search for an element of `a` in a region `c` growing by
      a part `d`, none found so far. */
  lemma MeetUnion<T>(a: set<T>, c: set<T>, d: set<T>, c': set<T>)
    requires a * c == {} && c' == c + d
    ensures a * c' == a * d
  {
    assert a * c' == a * c + a * d;
  }

  /** Sets that meet in nothing are disjoint. */
  lemma EmptyMeet<T>(a: set<T>, b: set<T>)
    ensures a * b == {} <==> a !! b
  {
    if a * b == {} {
      forall p | p in a ensures p !in b {
        assert p !in a * b;
      }
    }
  }

  /** An element shared with a part is shared with the whole. */
  lemma MeetGrow<T>(a: set<T>, c: set<T>, d: set<T>)
    requires a * c != {} && c <= d
    ensures a * d != {}
  {
    var p :| p in a * c;
    assert p in a * d;
  }

  /** Four sets each disjoint from `r`: their union meets `r` in nothing. */
  lemma Disjoint4<T>(s: seq<set<T>>, r: set<T>)
    requires |s| == 4 && forall j :: 0 <= j < 4 ==> s[j] !! r
    ensures (s[0] + s[1] + s[2] + s[3]) * r == {}
  {
    assert s[0] !! r && s[1] !! r && s[2] !! r && s[3] !! r;
  }

  /** The same, growing the left-hand set. */
  lemma GrowMeet<T>(c: set<T>, d: set<T>, a: set<T>)
    requires c * a != {} && c <= d
    ensures d * a != {}
  {
    var p :| p in c * a;
    assert p in d * a;
  }

  /** Growing a set by the part of `a` and then of `c` inside `b` is growing
      it by the part of `a + c` inside `b`. */
  lemma StampUnion<T>(o: set<T>, b: set<T>, a: set<T>, c: set<T>)
    ensures (o + b * a) + b * c == o + b * (a + c)
  {
  }

  /** Removing `a` and then `c` is removing `a + c`. */
  lemma EraseUnion<T>(o: set<T>, a: set<T>, c: set<T>)
    ensures (o - a) - c == o - (a + c)
  {
  }

  /** A column of the rectangle's width range lies inside it. */
  lemma ColumnInRect(lx: int, ly: int, hx: int, hy: int, px: int)
    requires lx <= px < hx
    ensures RectSet(px, ly, 1, hy - ly) <= RectSet(lx, ly, hx - lx, hy - ly)
  {
    var w, h := hx - lx, hy - ly;
    forall q | q in RectSet(px, ly, 1, h) ensures q in RectSet(lx, ly, w, h) {
      InRectSet(px, ly, 1, h, q.0, q.1);
      InRectSet(lx, ly, w, h, q.0, q.1);
    }
  }
}
