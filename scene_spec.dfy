/** The value-level part of the scene bookkeeping in `Scene::step_physics`:
    which particles leave the scene and what settles into the terrain, which
    potions and collectables the characters pick up, and the potion tick
    over every character. The `Scene` class applies these to its fields. */
module SceneSpec {
  import opened Wrappers
  import opened Geometry
  import opened TreeSpec
  import opened Sprites
  import opened Potions
  import opened TileQueue
  import opened Particles

  // ---------------------------------------------------------------- retain

  /** `Vec::retain`: the elements `keep` accepts, in their order. */
  function Retain<T(!new)>(xs: seq<T>, keep: T -> bool): (r: seq<T>)
    ensures forall x :: x in r <==> x in xs && keep(x)
    ensures |r| <= |xs|
    decreases |xs|
  {
    if xs == [] then []
    else (if keep(xs[0]) then [xs[0]] else []) + Retain(xs[1..], keep)
  }

  /** Retaining what is all accepted keeps the whole sequence. */
  lemma {:induction false} RetainAll<T(!new)>(xs: seq<T>, keep: T -> bool)
    requires forall i :: 0 <= i < |xs| ==> keep(xs[i])
    ensures Retain(xs, keep) == xs
    decreases |xs|
  {
    if xs != [] {
      RetainAll(xs[1..], keep);
    }
  }

  /** Retaining from a concatenation retains from each part, one after the
      other: together with `RetainOne`, the order and the multiplicity of the
      kept elements are those of the input. */
  lemma {:induction false} RetainAppend<T(!new)>(xs: seq<T>, ys: seq<T>, keep: T -> bool)
    ensures Retain(xs + ys, keep) == Retain(xs, keep) + Retain(ys, keep)
    decreases |xs|
  {
    if xs == [] {
      assert xs + ys == ys;
    } else {
      assert (xs + ys)[0] == xs[0];
      assert (xs + ys)[1..] == xs[1..] + ys;
      RetainAppend(xs[1..], ys, keep);
    }
  }

  /** A single element is kept, once, exactly when `keep` accepts it. */
  lemma RetainOne<T(!new)>(x: T, keep: T -> bool)
    ensures Retain([x], keep) == if keep(x) then [x] else []
  {
    assert [x][1..] == [];
  }

  /** The filter of `ids.retain(|id| !gone.contains(id))`. */
  function Outside(gone: set<nat>): nat -> bool
  {
    id => id !in gone
  }

  /** `ids.retain(|id| !gone.contains(id))`. */
  function DropIds(ids: seq<nat>, gone: set<nat>): (r: seq<nat>)
    ensures forall id :: id in r <==> id in ids && id !in gone
  {
    Retain(ids, Outside(gone))
  }

  /** Dropping keeps the order and the repetitions of the ids that stay. */
  lemma DropIdsOrder(ids: seq<nat>, more: seq<nat>, gone: set<nat>, id: nat)
    ensures DropIds(ids + more, gone) == DropIds(ids, gone) + DropIds(more, gone)
    ensures DropIds([id], gone) == if id in gone then [] else [id]
  {
    RetainAppend(ids, more, Outside(gone));
    RetainOne(id, Outside(gone));
  }

  // ---------------------------------------------------------------- the sprite box

  /** The pixels `add_terrain`, `add_foreground` and `add_background` visit:
      `[loc.x, loc.x + 16·x_scale) × [loc.y, loc.y + 16·y_scale)`. */
  ghost function SpriteBox(s: Sprite): set<Point>
  {
    RectSet(s.locX, s.locY, SPRITE_WIDTH * s.xScale, SPRITE_WIDTH * s.yScale)
  }

  /** Every pixel a sprite stamps lies in its box, so the tiles those loops
      queue cover every tile the stamped pixels touch. */
  lemma FootprintTilesQueued(s: Sprite, layer: nat)
    requires |s.collider| == COLLIDER_CELLS
    ensures Footprint(s) <= SpriteBox(s)
    ensures Tiles(layer, Footprint(s)) <= Tiles(layer, SpriteBox(s))
  {
    forall p | p in Footprint(s)
      ensures p in SpriteBox(s)
    {
      FootprintCells(s, p.0, p.1);
      InRectSet(s.locX, s.locY, SPRITE_WIDTH * s.xScale, SPRITE_WIDTH * s.yScale, p.0, p.1);
    }
    TilesUnion(layer, Footprint(s), SpriteBox(s) - Footprint(s));
    assert Footprint(s) + (SpriteBox(s) - Footprint(s)) == SpriteBox(s);
  }

  // ---------------------------------------------------------------- particles

  /** The `loc.y > 30000.0` despawn test, on the integer position. */
  const DESPAWN_Y: int := 30000
  /** The `sleep_timer > 0.5` settle threshold, in seconds. */
  const SETTLE_SLEEP: real := 0.5

  predicate Despawns(s: Sprite)
  {
    s.locY > DESPAWN_Y
  }

  /** A particle that rests on the ground long enough settles, unless it
      has fallen out of the world first. */
  predicate Settles(s: Sprite)
  {
    !Despawns(s) && s.groundContact && s.sleepTimer > SETTLE_SLEEP
  }

  predicate Leaves(s: Sprite)
  {
    Despawns(s) || Settles(s)
  }

  /** Every id names a sprite with a full collider. */
  ghost predicate Known(ids: seq<nat>, sprites: map<nat, Sprite>)
  {
    forall i :: 0 <= i < |ids| ==> ids[i] in sprites && |sprites[ids[i]].collider| == COLLIDER_CELLS
  }

  /** The pixels the settling particles among `ids` add to the terrain. */
  ghost function SettledPixels(ids: seq<nat>, sprites: map<nat, Sprite>): set<Point>
    requires Known(ids, sprites)
    decreases |ids|
  {
    if ids == [] then {}
    else
      var s := sprites[ids[|ids| - 1]];
      SettledPixels(ids[..|ids| - 1], sprites) + (if Settles(s) then Footprint(s) else {})
  }

  /** A pixel settles exactly when it lies in the footprint of some settling
      particle. */
  lemma {:induction false} InSettledPixels(ids: seq<nat>, sprites: map<nat, Sprite>, p: Point)
    requires Known(ids, sprites)
    ensures p in SettledPixels(ids, sprites) <==>
            exists i :: 0 <= i < |ids| && Settles(sprites[ids[i]]) && p in Footprint(sprites[ids[i]])
    decreases |ids|
  {
    if ids != [] {
      var k := |ids| - 1;
      var front := ids[..k];
      InSettledPixels(front, sprites, p);
      if p in SettledPixels(ids, sprites) {
        if p in SettledPixels(front, sprites) {
          var i :| 0 <= i < |front| && Settles(sprites[front[i]]) && p in Footprint(sprites[front[i]]);
          assert ids[i] == front[i];
        } else {
          assert Settles(sprites[ids[k]]) && p in Footprint(sprites[ids[k]]);
        }
      }
      if exists i :: 0 <= i < |ids| && Settles(sprites[ids[i]]) && p in Footprint(sprites[ids[i]]) {
        var i :| 0 <= i < |ids| && Settles(sprites[ids[i]]) && p in Footprint(sprites[ids[i]]);
        if i < k {
          assert front[i] == ids[i];
        }
      }
    }
  }

  /** The `to_remove` set: the particles that despawn or settle. */
  ghost function Leaving(ids: seq<nat>, sprites: map<nat, Sprite>): set<nat>
  {
    set i | 0 <= i < |ids| && ids[i] in sprites && Leaves(sprites[ids[i]]) :: ids[i]
  }

  /** What one particle settles: its footprint, or nothing. */
  ghost function SettledBy(s: Sprite): set<Point>
    requires |s.collider| == COLLIDER_CELLS
  {
    if Settles(s) then Footprint(s) else {}
  }

  /** The particle loop of `step_physics` on one map: each settling
      particle's footprint is inserted pixel by pixel. */
  method FillAll(n: CollisionTree, ids: seq<nat>, sprites: map<nat, Sprite>) returns (t: CollisionTree)
    requires Valid(n) && Known(ids, sprites)
    ensures Filled(n, t, SettledPixels(ids, sprites))
  {
    t := n;
    var i := 0;
    while i < |ids|
      invariant 0 <= i <= |ids| && Known(ids[..i], sprites)
      invariant Filled(n, t, SettledPixels(ids[..i], sprites))
    {
      var t1 := FillParticle(t, sprites[ids[i]]);
      FilledThen(n, t, t1, SettledPixels(ids[..i], sprites), SettledBy(sprites[ids[i]]));
      SettledPixelsStep(ids, sprites, i);
      t := t1;
      i := i + 1;
    }
    assert ids[..i] == ids;
  }

  /** One particle on one map: a settling particle's footprint goes in. */
  method FillParticle(n: CollisionTree, s: Sprite) returns (t: CollisionTree)
    requires Valid(n) && |s.collider| == COLLIDER_CELLS
    ensures Filled(n, t, SettledBy(s))
  {
    t := n;
    if !Despawns(s) && s.groundContact && s.sleepTimer > SETTLE_SLEEP {
      t := FillSprite(n, s);
    }
  }

  /** The particle loop on the tile queue: the terrain tile of every
      settled pixel is queued. */
  method QueueAll(q: set<Tile>, ids: seq<nat>, sprites: map<nat, Sprite>) returns (q': set<Tile>)
    requires Known(ids, sprites)
    ensures q' == q + Tiles(TERRAIN, SettledPixels(ids, sprites))
  {
    q' := q;
    TilesNone(TERRAIN);
    var i := 0;
    while i < |ids|
      invariant 0 <= i <= |ids| && Known(ids[..i], sprites)
      invariant q' == q + Tiles(TERRAIN, SettledPixels(ids[..i], sprites))
    {
      var s := sprites[ids[i]];
      var q1 := q';
      if !Despawns(s) && s.groundContact && s.sleepTimer > SETTLE_SLEEP {
        q1 := QueueFootprint(q', s);
      } else {
        TilesNone(TERRAIN);
      }
      TilesUnion(TERRAIN, SettledPixels(ids[..i], sprites), SettledBy(s));
      SettledPixelsStep(ids, sprites, i);
      q' := q1;
      i := i + 1;
    }
    assert ids[..i] == ids;
  }

  /** The `to_remove` set the particle loop builds. */
  method CollectLeaving(ids: seq<nat>, sprites: map<nat, Sprite>) returns (gone: set<nat>)
    requires Known(ids, sprites)
    ensures gone == Leaving(ids, sprites)
  {
    gone := {};
    var i := 0;
    while i < |ids|
      invariant 0 <= i <= |ids|
      invariant gone == Leaving(ids[..i], sprites)
    {
      LeavingStep(ids, sprites, i);
      if Despawns(sprites[ids[i]]) || Settles(sprites[ids[i]]) {
        gone := gone + {ids[i]};
      }
      i := i + 1;
    }
    assert ids[..i] == ids;
  }

  lemma SettledPixelsStep(ids: seq<nat>, sprites: map<nat, Sprite>, i: int)
    requires 0 <= i < |ids| && Known(ids, sprites)
    ensures Known(ids[..i], sprites) && Known(ids[..i + 1], sprites)
    ensures SettledPixels(ids[..i + 1], sprites) == SettledPixels(ids[..i], sprites) + SettledBy(sprites[ids[i]])
  {
    assert ids[..i + 1][..i] == ids[..i];
  }

  lemma LeavingStep(ids: seq<nat>, sprites: map<nat, Sprite>, i: int)
    requires 0 <= i < |ids| && ids[i] in sprites
    ensures Leaving(ids[..i + 1], sprites) ==
            Leaving(ids[..i], sprites) + (if Leaves(sprites[ids[i]]) then {ids[i]} else {})
  {
    var a, b := ids[..i + 1], ids[..i];
    forall id | id in Leaving(a, sprites) ensures id in Leaving(b, sprites) + (if Leaves(sprites[ids[i]]) then {ids[i]} else {}) {
      var j :| 0 <= j < |a| && a[j] in sprites && Leaves(sprites[a[j]]) && a[j] == id;
      if j < i {
        assert b[j] == id;
      }
    }
    forall id | id in Leaving(b, sprites) ensures id in Leaving(a, sprites) {
      var j :| 0 <= j < |b| && b[j] in sprites && Leaves(sprites[b[j]]) && b[j] == id;
      assert a[j] == id;
    }
    if Leaves(sprites[ids[i]]) {
      assert a[i] == ids[i];
    }
  }

  // ---------------------------------------------------------------- pickups

  /** A potion of the scene: its sprite id, its type, and whether picking
      it up starts the end sequence. */
  type PotionEntry = (nat, PotionType, bool)

  /** A collectable whose `x_scale` exceeds this ends the game when picked up. */
  const DONE_SCALE: nat := 30

  /** What the pickup loops of `step_physics` gather: the potions consumed,
      the drinks in the order they happen, the collectables collected, the
      `start_end` flag and the `done` flag. */
  datatype Pickups = Pickups(consumed: set<nat>, drinkers: seq<(nat, PotionType)>, collected: set<nat>,
                             startEnd: bool, done: bool)

  /** Every id the pickup loops look up names a sprite. */
  ghost predicate AllPresent(chars: seq<nat>, pots: seq<PotionEntry>, cols: seq<nat>, sprites: map<nat, Sprite>)
  {
    (forall k :: 0 <= k < |chars| ==> chars[k] in sprites) &&
    (forall j :: 0 <= j < |pots| ==> pots[j].0 in sprites) &&
    (forall j :: 0 <= j < |cols| ==> cols[j] in sprites)
  }

  /** One potion against one character: a potion not consumed yet that the
      character overlaps is consumed and drunk by it. */
  function MeetPotion(acc: Pickups, cid: nat, c: Sprite, e: PotionEntry, p: Sprite,
                      overlap: (Sprite, Sprite) -> bool): Pickups
  {
    if e.0 in acc.consumed || !overlap(c, p) then acc
    else acc.(consumed := acc.consumed + {e.0}, drinkers := acc.drinkers + [(cid, e.1)],
              startEnd := acc.startEnd || e.2)
  }

  /** The potion loop for one character. */
  function PotionPass(acc: Pickups, cid: nat, pots: seq<PotionEntry>, sprites: map<nat, Sprite>,
                      overlap: (Sprite, Sprite) -> bool): (r: Pickups)
    requires cid in sprites && forall j :: 0 <= j < |pots| ==> pots[j].0 in sprites
    ensures r.collected == acc.collected && r.done == acc.done
    ensures acc.consumed <= r.consumed && acc.drinkers <= r.drinkers
    ensures |r.drinkers| - |r.consumed| == |acc.drinkers| - |acc.consumed|
    decreases |pots|
  {
    if pots == [] then acc
    else
      var e := pots[|pots| - 1];
      MeetPotion(PotionPass(acc, cid, pots[..|pots| - 1], sprites, overlap), cid, sprites[cid], e, sprites[e.0], overlap)
  }

  /** One collectable against one character: one not collected yet that the
      character overlaps is collected, and ends the game when it is big. */
  function MeetCollectable(acc: Pickups, c: Sprite, id: nat, s: Sprite, overlap: (Sprite, Sprite) -> bool): Pickups
  {
    if id in acc.collected || !overlap(c, s) then acc
    else acc.(collected := acc.collected + {id}, done := acc.done || s.xScale > DONE_SCALE)
  }

  /** The collectable loop for one character. */
  function CollectPass(acc: Pickups, cid: nat, cols: seq<nat>, sprites: map<nat, Sprite>,
                       overlap: (Sprite, Sprite) -> bool): (r: Pickups)
    requires cid in sprites && forall j :: 0 <= j < |cols| ==> cols[j] in sprites
    ensures r.consumed == acc.consumed && r.drinkers == acc.drinkers && r.startEnd == acc.startEnd
    ensures acc.collected <= r.collected && (acc.done ==> r.done)
    decreases |cols|
  {
    if cols == [] then acc
    else
      var id := cols[|cols| - 1];
      MeetCollectable(CollectPass(acc, cid, cols[..|cols| - 1], sprites, overlap), sprites[cid], id, sprites[id], overlap)
  }

  /** The character loop: each character meets the potions, then the
      collectables. */
  function Detect(acc: Pickups, chars: seq<nat>, pots: seq<PotionEntry>, cols: seq<nat>,
                  sprites: map<nat, Sprite>, overlap: (Sprite, Sprite) -> bool): (r: Pickups)
    requires AllPresent(chars, pots, cols, sprites)
    ensures acc.consumed <= r.consumed && acc.drinkers <= r.drinkers && acc.collected <= r.collected
    ensures |r.drinkers| - |r.consumed| == |acc.drinkers| - |acc.consumed|
    decreases |chars|
  {
    if chars == [] then acc
    else
      var cid := chars[|chars| - 1];
      var a := Detect(acc, chars[..|chars| - 1], pots, cols, sprites, overlap);
      CollectPass(PotionPass(a, cid, pots, sprites, overlap), cid, cols, sprites, overlap)
  }

  /** The loops start from nothing picked up and the scene's `done`. */
  function NoPickups(done: bool): Pickups
  {
    Pickups({}, [], {}, false, done)
  }

  /** Potion ids are distinct. */
  predicate DistinctIds(pots: seq<PotionEntry>)
  {
    forall i, j :: 0 <= i < j < |pots| ==> pots[i].0 != pots[j].0
  }

  /** After one character's potion loop, a potion is consumed exactly when
      it was before or the character overlaps it. */
  lemma {:induction false} PotionPassConsumed(acc: Pickups, cid: nat, pots: seq<PotionEntry>, sprites: map<nat, Sprite>,
                                             overlap: (Sprite, Sprite) -> bool, pid: nat)
    requires cid in sprites && forall j :: 0 <= j < |pots| ==> pots[j].0 in sprites
    ensures pid in PotionPass(acc, cid, pots, sprites, overlap).consumed <==>
            pid in acc.consumed ||
            exists j :: 0 <= j < |pots| && pots[j].0 == pid && overlap(sprites[cid], sprites[pots[j].0])
    decreases |pots|
  {
    if pots != [] {
      var k := |pots| - 1;
      var front := pots[..k];
      PotionPassConsumed(acc, cid, front, sprites, overlap, pid);
      if exists j :: 0 <= j < |front| && front[j].0 == pid && overlap(sprites[cid], sprites[front[j].0]) {
        var j :| 0 <= j < |front| && front[j].0 == pid && overlap(sprites[cid], sprites[front[j].0]);
        assert pots[j] == front[j];
      }
      if exists j :: 0 <= j < |pots| && pots[j].0 == pid && overlap(sprites[cid], sprites[pots[j].0]) {
        var j :| 0 <= j < |pots| && pots[j].0 == pid && overlap(sprites[cid], sprites[pots[j].0]);
        if j < k {
          assert front[j] == pots[j];
        }
      }
    }
  }

  /** With distinct potion ids, the character's potion loop raises
      `start_end` exactly when it was raised or the character overlaps a
      not yet consumed potion that starts the end sequence. */
  lemma {:induction false} PotionPassStartEnd(acc: Pickups, cid: nat, pots: seq<PotionEntry>, sprites: map<nat, Sprite>,
                                             overlap: (Sprite, Sprite) -> bool)
    requires cid in sprites && (forall j :: 0 <= j < |pots| ==> pots[j].0 in sprites) && DistinctIds(pots)
    ensures PotionPass(acc, cid, pots, sprites, overlap).startEnd <==>
            acc.startEnd ||
            exists j :: 0 <= j < |pots| && pots[j].2 && pots[j].0 !in acc.consumed && overlap(sprites[cid], sprites[pots[j].0])
    decreases |pots|
  {
    if pots != [] {
      var k := |pots| - 1;
      var front := pots[..k];
      var e := pots[k];
      DistinctPrefix(pots, k);
      PotionPassStartEnd(acc, cid, front, sprites, overlap);
      PotionPassConsumed(acc, cid, front, sprites, overlap, e.0);
      forall j | 0 <= j < |front| ensures front[j].0 != e.0 {
        assert front[j] == pots[j];
      }
      assert e.0 in PotionPass(acc, cid, front, sprites, overlap).consumed <==> e.0 in acc.consumed;
      if exists j :: 0 <= j < |front| && front[j].2 && front[j].0 !in acc.consumed && overlap(sprites[cid], sprites[front[j].0]) {
        var j :| 0 <= j < |front| && front[j].2 && front[j].0 !in acc.consumed && overlap(sprites[cid], sprites[front[j].0]);
        assert pots[j] == front[j];
      }
      if exists j :: 0 <= j < |pots| && pots[j].2 && pots[j].0 !in acc.consumed && overlap(sprites[cid], sprites[pots[j].0]) {
        var j :| 0 <= j < |pots| && pots[j].2 && pots[j].0 !in acc.consumed && overlap(sprites[cid], sprites[pots[j].0]);
        if j < k {
          assert front[j] == pots[j];
        }
      }
    }
  }

  /** The drinks from index `from` on are by character `cid`, each of the
      type of a potion it overlaps. */
  ghost predicate DrinksBy(ds: seq<(nat, PotionType)>, from: int, cid: nat, pots: seq<PotionEntry>,
                           sprites: map<nat, Sprite>, overlap: (Sprite, Sprite) -> bool)
  {
    forall i :: 0 <= from <= i < |ds| ==>
      ds[i].0 == cid && cid in sprites &&
      exists j :: 0 <= j < |pots| && pots[j].1 == ds[i].1 && pots[j].0 in sprites &&
                  overlap(sprites[cid], sprites[pots[j].0])
  }

  /** Every drink the character's potion loop adds is by that character, of
      the type of a potion it overlaps; with distinct potion ids, the drinks
      added are exactly those of the potions unconsumed at the start of the
      loop that it overlaps, in list order. */
  lemma {:induction false} PotionPassDrinks(acc: Pickups, cid: nat, pots: seq<PotionEntry>, sprites: map<nat, Sprite>,
                                           overlap: (Sprite, Sprite) -> bool)
    requires cid in sprites && forall j :: 0 <= j < |pots| ==> pots[j].0 in sprites
    ensures DrinksBy(PotionPass(acc, cid, pots, sprites, overlap).drinkers, |acc.drinkers|, cid, pots, sprites, overlap)
    ensures DistinctIds(pots) ==>
            PotionPass(acc, cid, pots, sprites, overlap).drinkers == acc.drinkers + NewDrinks(cid, pots, acc.consumed, sprites, overlap)
    decreases |pots|
  {
    PotionPassDrinksBy(acc, cid, pots, sprites, overlap);
    if DistinctIds(pots) {
      PotionPassNew(acc, cid, pots, sprites, overlap);
    }
  }

  /** The first half of that: each new drink is by the character, of the
      type of a potion it overlaps. */
  lemma {:induction false} PotionPassDrinksBy(acc: Pickups, cid: nat, pots: seq<PotionEntry>, sprites: map<nat, Sprite>,
                                             overlap: (Sprite, Sprite) -> bool)
    requires cid in sprites && forall j :: 0 <= j < |pots| ==> pots[j].0 in sprites
    ensures DrinksBy(PotionPass(acc, cid, pots, sprites, overlap).drinkers, |acc.drinkers|, cid, pots, sprites, overlap)
    decreases |pots|
  {
    if pots != [] {
      var k := |pots| - 1;
      var front := pots[..k];
      PotionPassDrinksBy(acc, cid, front, sprites, overlap);
      var a := PotionPass(acc, cid, front, sprites, overlap);
      var r := PotionPass(acc, cid, pots, sprites, overlap);
      forall i | 0 <= |acc.drinkers| <= i < |r.drinkers|
        ensures r.drinkers[i].0 == cid &&
                exists j :: 0 <= j < |pots| && pots[j].1 == r.drinkers[i].1 && pots[j].0 in sprites &&
                            overlap(sprites[cid], sprites[pots[j].0])
      {
        if i < |a.drinkers| {
          assert r.drinkers[i] == a.drinkers[i];
          var j :| 0 <= j < |front| && front[j].1 == a.drinkers[i].1 && front[j].0 in sprites &&
                   overlap(sprites[cid], sprites[front[j].0]);
          assert pots[j] == front[j];
        } else {
          assert pots[k].1 == r.drinkers[i].1;
        }
      }
    }
  }

  /** Character `c` overlaps the potion of entry `e`. */
  ghost predicate Overlaps(c: nat, e: PotionEntry, sprites: map<nat, Sprite>, overlap: (Sprite, Sprite) -> bool)
  {
    c in sprites && e.0 in sprites && overlap(sprites[c], sprites[e.0])
  }

  /** The drinks of character `cid` against the potions when those in
      `skip` are gone already: one `(cid, type)` per other potion it
      overlaps, in list order. */
  ghost function NewDrinks(cid: nat, pots: seq<PotionEntry>, skip: set<nat>, sprites: map<nat, Sprite>,
                           overlap: (Sprite, Sprite) -> bool): seq<(nat, PotionType)>
    decreases |pots|
  {
    if pots == [] then []
    else
      var e := pots[|pots| - 1];
      NewDrinks(cid, pots[..|pots| - 1], skip, sprites, overlap) +
      (if e.0 !in skip && Overlaps(cid, e, sprites, overlap) then [(cid, e.1)] else [])
  }

  /** A prefix of a list with distinct ids has distinct ids. */
  lemma DistinctPrefix(pots: seq<PotionEntry>, n: int)
    requires DistinctIds(pots) && 0 <= n <= |pots|
    ensures DistinctIds(pots[..n])
  {
    forall i, j | 0 <= i < j < n ensures pots[..n][i].0 != pots[..n][j].0 {
      assert pots[..n][i] == pots[i] && pots[..n][j] == pots[j];
    }
  }

  /** With distinct ids, a potion the loop reaches has not been consumed by
      the same character earlier in the loop, so the consumed set the loop
      grows acts as the set it started from. */
  lemma {:induction false} PotionPassNew(acc: Pickups, cid: nat, pots: seq<PotionEntry>, sprites: map<nat, Sprite>,
                                        overlap: (Sprite, Sprite) -> bool)
    requires cid in sprites && (forall j :: 0 <= j < |pots| ==> pots[j].0 in sprites) && DistinctIds(pots)
    ensures PotionPass(acc, cid, pots, sprites, overlap).drinkers == acc.drinkers + NewDrinks(cid, pots, acc.consumed, sprites, overlap)
    decreases |pots|
  {
    if pots == [] {
      assert acc.drinkers + [] == acc.drinkers;
    } else {
      var k := |pots| - 1;
      var front := pots[..k];
      var e := pots[k];
      DistinctPrefix(pots, k);
      PotionPassNew(acc, cid, front, sprites, overlap);
      PotionPassConsumed(acc, cid, front, sprites, overlap, e.0);
      forall j | 0 <= j < |front| ensures front[j].0 != e.0 {
        assert front[j] == pots[j];
      }
      var a := PotionPass(acc, cid, front, sprites, overlap);
      assert e.0 in a.consumed <==> e.0 in acc.consumed;
      var tail := if e.0 !in acc.consumed && Overlaps(cid, e, sprites, overlap) then [(cid, e.1)] else [];
      assert NewDrinks(cid, pots, acc.consumed, sprites, overlap) == NewDrinks(cid, front, acc.consumed, sprites, overlap) + tail;
      assert acc.drinkers + (NewDrinks(cid, front, acc.consumed, sprites, overlap) + tail) ==
             (acc.drinkers + NewDrinks(cid, front, acc.consumed, sprites, overlap)) + tail;
    }
  }

  /** After one character's collectable loop, a collectable is collected
      exactly when it was before or the character overlaps it. */
  lemma {:induction false} CollectPassCollected(acc: Pickups, cid: nat, cols: seq<nat>, sprites: map<nat, Sprite>,
                                               overlap: (Sprite, Sprite) -> bool, id: nat)
    requires cid in sprites && forall j :: 0 <= j < |cols| ==> cols[j] in sprites
    ensures id in CollectPass(acc, cid, cols, sprites, overlap).collected <==>
            id in acc.collected ||
            exists j :: 0 <= j < |cols| && cols[j] == id && overlap(sprites[cid], sprites[cols[j]])
    decreases |cols|
  {
    if cols != [] {
      var k := |cols| - 1;
      var front := cols[..k];
      CollectPassCollected(acc, cid, front, sprites, overlap, id);
      if exists j :: 0 <= j < |front| && front[j] == id && overlap(sprites[cid], sprites[front[j]]) {
        var j :| 0 <= j < |front| && front[j] == id && overlap(sprites[cid], sprites[front[j]]);
        assert cols[j] == front[j];
      }
      if exists j :: 0 <= j < |cols| && cols[j] == id && overlap(sprites[cid], sprites[cols[j]]) {
        var j :| 0 <= j < |cols| && cols[j] == id && overlap(sprites[cid], sprites[cols[j]]);
        if j < k {
          assert front[j] == cols[j];
        }
      }
    }
  }

  /** The character's collectable loop sets `done` exactly when it was set
      or the character overlaps a big collectable not collected before. */
  lemma {:induction false} CollectPassDone(acc: Pickups, cid: nat, cols: seq<nat>, sprites: map<nat, Sprite>,
                                          overlap: (Sprite, Sprite) -> bool)
    requires cid in sprites && forall j :: 0 <= j < |cols| ==> cols[j] in sprites
    ensures CollectPass(acc, cid, cols, sprites, overlap).done <==>
            acc.done ||
            exists j :: 0 <= j < |cols| && cols[j] !in acc.collected && overlap(sprites[cid], sprites[cols[j]]) &&
                        sprites[cols[j]].xScale > DONE_SCALE
    decreases |cols|
  {
    if cols != [] {
      var k := |cols| - 1;
      var front := cols[..k];
      var id := cols[k];
      CollectPassDone(acc, cid, front, sprites, overlap);
      CollectPassCollected(acc, cid, front, sprites, overlap, id);
      if id !in acc.collected && exists j :: 0 <= j < |front| && front[j] == id && overlap(sprites[cid], sprites[front[j]]) {
        var j :| 0 <= j < |front| && front[j] == id && overlap(sprites[cid], sprites[front[j]]);
        assert cols[j] == front[j];
      }
      if exists j :: 0 <= j < |front| && front[j] !in acc.collected && overlap(sprites[cid], sprites[front[j]]) &&
                     sprites[front[j]].xScale > DONE_SCALE {
        var j :| 0 <= j < |front| && front[j] !in acc.collected && overlap(sprites[cid], sprites[front[j]]) &&
                 sprites[front[j]].xScale > DONE_SCALE;
        assert cols[j] == front[j];
      }
      if exists j :: 0 <= j < |cols| && cols[j] !in acc.collected && overlap(sprites[cid], sprites[cols[j]]) &&
                     sprites[cols[j]].xScale > DONE_SCALE {
        var j :| 0 <= j < |cols| && cols[j] !in acc.collected && overlap(sprites[cid], sprites[cols[j]]) &&
                 sprites[cols[j]].xScale > DONE_SCALE;
        if j < k {
          assert front[j] == cols[j];
        }
      }
    }
  }

  // ---------------------------------------------------------------- what the pickup loops find

  /** Character `c` overlaps the potion `pid`. */
  ghost predicate MeetsPotion(c: nat, pots: seq<PotionEntry>, pid: nat, sprites: map<nat, Sprite>,
                              overlap: (Sprite, Sprite) -> bool)
  {
    c in sprites &&
    exists j :: 0 <= j < |pots| && pots[j].0 == pid && pots[j].0 in sprites && overlap(sprites[c], sprites[pots[j].0])
  }

  /** A potion is consumed exactly when some character overlaps it. */
  lemma {:induction false} DetectConsumed(chars: seq<nat>, pots: seq<PotionEntry>, cols: seq<nat>, sprites: map<nat, Sprite>,
                                         overlap: (Sprite, Sprite) -> bool, done: bool, pid: nat)
    requires AllPresent(chars, pots, cols, sprites)
    ensures pid in Detect(NoPickups(done), chars, pots, cols, sprites, overlap).consumed <==>
            exists k :: 0 <= k < |chars| && MeetsPotion(chars[k], pots, pid, sprites, overlap)
    decreases |chars|
  {
    if chars != [] {
      var n := |chars| - 1;
      var front := chars[..n];
      var cid := chars[n];
      var a := Detect(NoPickups(done), front, pots, cols, sprites, overlap);
      DetectConsumed(front, pots, cols, sprites, overlap, done, pid);
      PotionPassConsumed(a, cid, pots, sprites, overlap, pid);
      if exists k :: 0 <= k < |front| && MeetsPotion(front[k], pots, pid, sprites, overlap) {
        var k :| 0 <= k < |front| && MeetsPotion(front[k], pots, pid, sprites, overlap);
        assert chars[k] == front[k];
      }
      if exists k :: 0 <= k < |chars| && MeetsPotion(chars[k], pots, pid, sprites, overlap) {
        var k :| 0 <= k < |chars| && MeetsPotion(chars[k], pots, pid, sprites, overlap);
        if k < n {
          assert front[k] == chars[k];
        }
      }
    }
  }

  /** Character `c` overlaps the collectable `id`. */
  ghost predicate MeetsCollectable(c: nat, cols: seq<nat>, id: nat, sprites: map<nat, Sprite>,
                                   overlap: (Sprite, Sprite) -> bool)
  {
    c in sprites &&
    exists j :: 0 <= j < |cols| && cols[j] == id && cols[j] in sprites && overlap(sprites[c], sprites[cols[j]])
  }

  /** A collectable is collected exactly when some character overlaps it. */
  lemma {:induction false} DetectCollected(chars: seq<nat>, pots: seq<PotionEntry>, cols: seq<nat>, sprites: map<nat, Sprite>,
                                          overlap: (Sprite, Sprite) -> bool, done: bool, id: nat)
    requires AllPresent(chars, pots, cols, sprites)
    ensures id in Detect(NoPickups(done), chars, pots, cols, sprites, overlap).collected <==>
            exists k :: 0 <= k < |chars| && MeetsCollectable(chars[k], cols, id, sprites, overlap)
    decreases |chars|
  {
    if chars != [] {
      var n := |chars| - 1;
      var front := chars[..n];
      var cid := chars[n];
      var a := Detect(NoPickups(done), front, pots, cols, sprites, overlap);
      DetectCollected(front, pots, cols, sprites, overlap, done, id);
      CollectPassCollected(PotionPass(a, cid, pots, sprites, overlap), cid, cols, sprites, overlap, id);
      if exists k :: 0 <= k < |front| && MeetsCollectable(front[k], cols, id, sprites, overlap) {
        var k :| 0 <= k < |front| && MeetsCollectable(front[k], cols, id, sprites, overlap);
        assert chars[k] == front[k];
      }
      if exists k :: 0 <= k < |chars| && MeetsCollectable(chars[k], cols, id, sprites, overlap) {
        var k :| 0 <= k < |chars| && MeetsCollectable(chars[k], cols, id, sprites, overlap);
        if k < n {
          assert front[k] == chars[k];
        }
      }
    }
  }

  /** Character `c` overlaps a collectable whose `x_scale` exceeds 30. */
  ghost predicate MeetsBig(c: nat, cols: seq<nat>, sprites: map<nat, Sprite>, overlap: (Sprite, Sprite) -> bool)
  {
    c in sprites &&
    exists j :: 0 <= j < |cols| && cols[j] in sprites && overlap(sprites[c], sprites[cols[j]]) &&
                sprites[cols[j]].xScale > DONE_SCALE
  }

  /** `done` ends up set exactly when it was set or some character
      overlaps a collectable whose `x_scale` exceeds 30. */
  lemma {:induction false} DetectDone(chars: seq<nat>, pots: seq<PotionEntry>, cols: seq<nat>, sprites: map<nat, Sprite>,
                                     overlap: (Sprite, Sprite) -> bool, done: bool)
    requires AllPresent(chars, pots, cols, sprites)
    ensures Detect(NoPickups(done), chars, pots, cols, sprites, overlap).done <==>
            done || exists k :: 0 <= k < |chars| && MeetsBig(chars[k], cols, sprites, overlap)
    decreases |chars|
  {
    if chars != [] {
      var n := |chars| - 1;
      var front := chars[..n];
      var cid := chars[n];
      var a := Detect(NoPickups(done), front, pots, cols, sprites, overlap);
      DetectDone(front, pots, cols, sprites, overlap, done);
      DoneStep(front, cid, pots, cols, sprites, overlap, done);
      if exists k :: 0 <= k < |front| && MeetsBig(front[k], cols, sprites, overlap) {
        var k :| 0 <= k < |front| && MeetsBig(front[k], cols, sprites, overlap);
        assert chars[k] == front[k];
      }
      if exists k :: 0 <= k < |chars| && MeetsBig(chars[k], cols, sprites, overlap) {
        var k :| 0 <= k < |chars| && MeetsBig(chars[k], cols, sprites, overlap);
        if k < n {
          assert front[k] == chars[k];
        }
      }
    }
  }

  /** One more character sets `done` exactly when it meets a big
      collectable, unless `done` was set already. */
  lemma DoneStep(front: seq<nat>, cid: nat, pots: seq<PotionEntry>, cols: seq<nat>, sprites: map<nat, Sprite>,
                 overlap: (Sprite, Sprite) -> bool, done: bool)
    requires AllPresent(front, pots, cols, sprites) && cid in sprites
    requires var a := Detect(NoPickups(done), front, pots, cols, sprites, overlap);
             a.done <==> done || exists k :: 0 <= k < |front| && MeetsBig(front[k], cols, sprites, overlap)
    ensures var a := Detect(NoPickups(done), front, pots, cols, sprites, overlap);
            CollectPass(PotionPass(a, cid, pots, sprites, overlap), cid, cols, sprites, overlap).done <==>
            a.done || MeetsBig(cid, cols, sprites, overlap)
  {
    var a := Detect(NoPickups(done), front, pots, cols, sprites, overlap);
    var b := PotionPass(a, cid, pots, sprites, overlap);
    CollectPassDone(b, cid, cols, sprites, overlap);
    if MeetsBig(cid, cols, sprites, overlap) {
      var j :| 0 <= j < |cols| && cols[j] in sprites && overlap(sprites[cid], sprites[cols[j]]) &&
               sprites[cols[j]].xScale > DONE_SCALE;
      if cols[j] in a.collected {
        DetectCollected(front, pots, cols, sprites, overlap, done, cols[j]);
        var k :| 0 <= k < |front| && MeetsCollectable(front[k], cols, cols[j], sprites, overlap);
        assert MeetsBig(front[k], cols, sprites, overlap);
      }
    }
  }

  /** Character `c` overlaps a potion that starts the end sequence. */
  ghost predicate MeetsEnd(c: nat, pots: seq<PotionEntry>, sprites: map<nat, Sprite>, overlap: (Sprite, Sprite) -> bool)
  {
    c in sprites &&
    exists j :: 0 <= j < |pots| && pots[j].2 && pots[j].0 in sprites && overlap(sprites[c], sprites[pots[j].0])
  }

  /** With distinct potion ids, `start_end` ends up raised exactly when some
      character overlaps a potion that starts the end sequence. */
  lemma {:induction false} DetectStartEnd(chars: seq<nat>, pots: seq<PotionEntry>, cols: seq<nat>, sprites: map<nat, Sprite>,
                                         overlap: (Sprite, Sprite) -> bool, done: bool)
    requires AllPresent(chars, pots, cols, sprites) && DistinctIds(pots)
    ensures Detect(NoPickups(done), chars, pots, cols, sprites, overlap).startEnd <==>
            exists k :: 0 <= k < |chars| && MeetsEnd(chars[k], pots, sprites, overlap)
    decreases |chars|
  {
    if chars != [] {
      var n := |chars| - 1;
      var front := chars[..n];
      var cid := chars[n];
      DetectStartEnd(front, pots, cols, sprites, overlap, done);
      StartEndStep(front, cid, pots, cols, sprites, overlap, done);
      if exists k :: 0 <= k < |front| && MeetsEnd(front[k], pots, sprites, overlap) {
        var k :| 0 <= k < |front| && MeetsEnd(front[k], pots, sprites, overlap);
        assert chars[k] == front[k];
      }
      if exists k :: 0 <= k < |chars| && MeetsEnd(chars[k], pots, sprites, overlap) {
        var k :| 0 <= k < |chars| && MeetsEnd(chars[k], pots, sprites, overlap);
        if k < n {
          assert front[k] == chars[k];
        }
      }
    }
  }

  /** One more character raises `start_end` exactly when it meets a potion
      that starts the end sequence, unless it was raised already. */
  lemma StartEndStep(front: seq<nat>, cid: nat, pots: seq<PotionEntry>, cols: seq<nat>, sprites: map<nat, Sprite>,
                     overlap: (Sprite, Sprite) -> bool, done: bool)
    requires AllPresent(front, pots, cols, sprites) && cid in sprites && DistinctIds(pots)
    requires var a := Detect(NoPickups(done), front, pots, cols, sprites, overlap);
             a.startEnd <==> exists k :: 0 <= k < |front| && MeetsEnd(front[k], pots, sprites, overlap)
    ensures var a := Detect(NoPickups(done), front, pots, cols, sprites, overlap);
            PotionPass(a, cid, pots, sprites, overlap).startEnd <==> a.startEnd || MeetsEnd(cid, pots, sprites, overlap)
  {
    var a := Detect(NoPickups(done), front, pots, cols, sprites, overlap);
    PotionPassStartEnd(a, cid, pots, sprites, overlap);
    if MeetsEnd(cid, pots, sprites, overlap) {
      var j :| 0 <= j < |pots| && pots[j].2 && pots[j].0 in sprites && overlap(sprites[cid], sprites[pots[j].0]);
      if pots[j].0 in a.consumed {
        DetectConsumed(front, pots, cols, sprites, overlap, done, pots[j].0);
        var k :| 0 <= k < |front| && MeetsPotion(front[k], pots, pots[j].0, sprites, overlap);
        var j' :| 0 <= j' < |pots| && pots[j'].0 == pots[j].0 && pots[j'].0 in sprites &&
                  overlap(sprites[front[k]], sprites[pots[j'].0]);
        assert j' == j;
        assert MeetsEnd(front[k], pots, sprites, overlap);
      }
    }
  }

  /** Every drink is by a character, of the type of a potion it overlaps. */
  ghost predicate DrinksIn(ds: seq<(nat, PotionType)>, chars: seq<nat>, pots: seq<PotionEntry>,
                           sprites: map<nat, Sprite>, overlap: (Sprite, Sprite) -> bool)
  {
    forall i :: 0 <= i < |ds| ==> ds[i].0 in chars && DrinksBy(ds[i..i + 1], 0, ds[i].0, pots, sprites, overlap)
  }

  /** The drinks the pickup loops gather are by characters, of overlapped
      potions, and there are as many as potions consumed; with distinct
      potion ids they are exactly the expected drinks. */
  lemma {:induction false} DetectDrinks(chars: seq<nat>, pots: seq<PotionEntry>, cols: seq<nat>, sprites: map<nat, Sprite>,
                                       overlap: (Sprite, Sprite) -> bool, done: bool)
    requires AllPresent(chars, pots, cols, sprites)
    ensures var r := Detect(NoPickups(done), chars, pots, cols, sprites, overlap);
            DrinksIn(r.drinkers, chars, pots, sprites, overlap) && |r.drinkers| == |r.consumed|
    ensures DistinctIds(pots) ==>
            Detect(NoPickups(done), chars, pots, cols, sprites, overlap).drinkers == ExpectedDrinks(chars, pots, sprites, overlap)
    decreases |chars|
  {
    if DistinctIds(pots) {
      DetectDrinksExact(chars, pots, cols, sprites, overlap, done);
    }
    if chars != [] {
      var n := |chars| - 1;
      var front := chars[..n];
      var cid := chars[n];
      var a := Detect(NoPickups(done), front, pots, cols, sprites, overlap);
      var r := Detect(NoPickups(done), chars, pots, cols, sprites, overlap);
      DetectDrinks(front, pots, cols, sprites, overlap, done);
      PotionPassDrinks(a, cid, pots, sprites, overlap);
      forall i | 0 <= i < |r.drinkers|
        ensures r.drinkers[i].0 in chars && DrinksBy(r.drinkers[i..i + 1], 0, r.drinkers[i].0, pots, sprites, overlap)
      {
        if i < |a.drinkers| {
          assert r.drinkers[i] == a.drinkers[i];
          assert r.drinkers[i..i + 1] == a.drinkers[i..i + 1];
          assert r.drinkers[i].0 in front;
        } else {
          assert r.drinkers[i].0 == cid;
          assert r.drinkers[i..i + 1][0] == r.drinkers[i];
        }
      }
    }
  }

  /** `chars[k]` is the first listed character that overlaps the potion `e`. */
  ghost predicate FirstToMeet(chars: seq<nat>, k: int, e: PotionEntry, sprites: map<nat, Sprite>,
                              overlap: (Sprite, Sprite) -> bool)
    requires 0 <= k < |chars|
  {
    Overlaps(chars[k], e, sprites, overlap) && forall i :: 0 <= i < k ==> !Overlaps(chars[i], e, sprites, overlap)
  }

  /** The drinks of `chars[k]`: in list order, the potions it is the first
      character to overlap, each with its type. */
  ghost function FirstDrinks(chars: seq<nat>, k: int, pots: seq<PotionEntry>, sprites: map<nat, Sprite>,
                             overlap: (Sprite, Sprite) -> bool): seq<(nat, PotionType)>
    requires 0 <= k < |chars|
    decreases |pots|
  {
    if pots == [] then []
    else
      var e := pots[|pots| - 1];
      FirstDrinks(chars, k, pots[..|pots| - 1], sprites, overlap) +
      (if FirstToMeet(chars, k, e, sprites, overlap) then [(chars[k], e.1)] else [])
  }

  /** The drink list the pickup loops should build: the characters in list
      order, each with the drinks of the potions it is the first to overlap.
      Every potion someone overlaps is drunk exactly once, by the first such
      character. */
  ghost function ExpectedDrinks(chars: seq<nat>, pots: seq<PotionEntry>, sprites: map<nat, Sprite>,
                                overlap: (Sprite, Sprite) -> bool): seq<(nat, PotionType)>
    decreases |chars|
  {
    if chars == [] then []
    else ExpectedDrinks(chars[..|chars| - 1], pots, sprites, overlap) + FirstDrinks(chars, |chars| - 1, pots, sprites, overlap)
  }

  /** When `skip` holds exactly the potions an earlier character overlaps,
      the drinks of `chars[k]` against it are its first-to-meet drinks. */
  lemma {:induction false} NewDrinksFirst(chars: seq<nat>, k: int, pots: seq<PotionEntry>, skip: set<nat>,
                                         sprites: map<nat, Sprite>, overlap: (Sprite, Sprite) -> bool)
    requires 0 <= k < |chars|
    requires forall j :: 0 <= j < |pots| ==>
               (pots[j].0 in skip <==> exists i :: 0 <= i < k && Overlaps(chars[i], pots[j], sprites, overlap))
    ensures NewDrinks(chars[k], pots, skip, sprites, overlap) == FirstDrinks(chars, k, pots, sprites, overlap)
    decreases |pots|
  {
    if pots != [] {
      var n := |pots| - 1;
      var front := pots[..n];
      forall j | 0 <= j < |front|
        ensures front[j].0 in skip <==> exists i :: 0 <= i < k && Overlaps(chars[i], front[j], sprites, overlap)
      {
        assert front[j] == pots[j];
      }
      NewDrinksFirst(chars, k, front, skip, sprites, overlap);
    }
  }

  /** With distinct potion ids, the loops build exactly the expected drinks. */
  lemma {:induction false} DetectDrinksExact(chars: seq<nat>, pots: seq<PotionEntry>, cols: seq<nat>,
                                            sprites: map<nat, Sprite>, overlap: (Sprite, Sprite) -> bool, done: bool)
    requires AllPresent(chars, pots, cols, sprites) && DistinctIds(pots)
    ensures Detect(NoPickups(done), chars, pots, cols, sprites, overlap).drinkers == ExpectedDrinks(chars, pots, sprites, overlap)
    decreases |chars|
  {
    if chars != [] {
      var n := |chars| - 1;
      var front := chars[..n];
      var cid := chars[n];
      var a := Detect(NoPickups(done), front, pots, cols, sprites, overlap);
      DetectDrinksExact(front, pots, cols, sprites, overlap, done);
      PotionPassNew(a, cid, pots, sprites, overlap);
      forall j | 0 <= j < |pots|
        ensures pots[j].0 in a.consumed <==> exists i :: 0 <= i < n && Overlaps(chars[i], pots[j], sprites, overlap)
      {
        DetectConsumed(front, pots, cols, sprites, overlap, done, pots[j].0);
        if pots[j].0 in a.consumed {
          var i :| 0 <= i < |front| && MeetsPotion(front[i], pots, pots[j].0, sprites, overlap);
          var j' :| 0 <= j' < |pots| && pots[j'].0 == pots[j].0 && pots[j'].0 in sprites &&
                    overlap(sprites[front[i]], sprites[pots[j'].0]);
          assert j' == j;
          assert Overlaps(chars[i], pots[j], sprites, overlap);
        }
        if exists i :: 0 <= i < n && Overlaps(chars[i], pots[j], sprites, overlap) {
          var i :| 0 <= i < n && Overlaps(chars[i], pots[j], sprites, overlap);
          assert MeetsPotion(front[i], pots, pots[j].0, sprites, overlap);
        }
      }
      NewDrinksFirst(chars, n, pots, a.consumed, sprites, overlap);
    }
  }

  /** The ids of a potion list, in order. */
  function PotionIds(pots: seq<PotionEntry>): (r: seq<nat>)
    ensures |r| == |pots| && forall j :: 0 <= j < |pots| ==> r[j] == pots[j].0
  {
    seq(|pots|, j requires 0 <= j < |pots| => pots[j].0)
  }

  /** What the pickup loops take is on the lists they scan. */
  lemma DetectWithin(chars: seq<nat>, pots: seq<PotionEntry>, cols: seq<nat>, sprites: map<nat, Sprite>,
                     overlap: (Sprite, Sprite) -> bool, done: bool)
    requires AllPresent(chars, pots, cols, sprites)
    ensures var r := Detect(NoPickups(done), chars, pots, cols, sprites, overlap);
            (forall id :: id in r.collected ==> id in cols) &&
            (forall id :: id in r.consumed ==> id in PotionIds(pots))
  {
    var r := Detect(NoPickups(done), chars, pots, cols, sprites, overlap);
    forall id | id in r.collected
      ensures id in cols
    {
      DetectCollected(chars, pots, cols, sprites, overlap, done, id);
      var k :| 0 <= k < |chars| && MeetsCollectable(chars[k], cols, id, sprites, overlap);
      var j :| 0 <= j < |cols| && cols[j] == id && cols[j] in sprites && overlap(sprites[chars[k]], sprites[cols[j]]);
    }
    forall id | id in r.consumed
      ensures id in PotionIds(pots)
    {
      DetectConsumed(chars, pots, cols, sprites, overlap, done, id);
      var k :| 0 <= k < |chars| && MeetsPotion(chars[k], pots, id, sprites, overlap);
      var j :| 0 <= j < |pots| && pots[j].0 == id && pots[j].0 in sprites && overlap(sprites[chars[k]], sprites[pots[j].0]);
      assert PotionIds(pots)[j] == id;
    }
  }

  /** The filter of `potions.retain(|(id, _, _)| *id != potion_id)` over
      every consumed id. */
  function Unconsumed(consumed: set<nat>): PotionEntry -> bool
  {
    (e: PotionEntry) => e.0 !in consumed
  }

  /** `potions.retain(|(id, _, _)| *id != potion_id)` for every consumed id. */
  function DropPotions(pots: seq<PotionEntry>, consumed: set<nat>): (r: seq<PotionEntry>)
    ensures forall e :: e in r <==> e in pots && e.0 !in consumed
    ensures DistinctIds(pots) ==> DistinctIds(r)
  {
    RetainDistinct(pots, Unconsumed(consumed));
    Retain(pots, Unconsumed(consumed))
  }

  /** Dropping keeps the order of the potions that stay, which decides the
      order of the drinks in the next pickup pass. */
  lemma DropPotionsOrder(pots: seq<PotionEntry>, more: seq<PotionEntry>, consumed: set<nat>, e: PotionEntry)
    ensures DropPotions(pots + more, consumed) == DropPotions(pots, consumed) + DropPotions(more, consumed)
    ensures DropPotions([e], consumed) == if e.0 in consumed then [] else [e]
  {
    RetainAppend(pots, more, Unconsumed(consumed));
    RetainOne(e, Unconsumed(consumed));
  }

  /** The ids left after dropping are the ids that were not consumed. */
  lemma DropPotionIds(pots: seq<PotionEntry>, consumed: set<nat>, id: nat)
    ensures id in PotionIds(DropPotions(pots, consumed)) <==> id in PotionIds(pots) && id !in consumed
  {
    var r := DropPotions(pots, consumed);
    if id in PotionIds(r) {
      var j :| 0 <= j < |r| && PotionIds(r)[j] == id;
      assert r[j] in pots;
      var i :| 0 <= i < |pots| && pots[i] == r[j];
      assert PotionIds(pots)[i] == id;
    }
    if id in PotionIds(pots) && id !in consumed {
      var i :| 0 <= i < |pots| && PotionIds(pots)[i] == id;
      assert pots[i] in r;
      var j :| 0 <= j < |r| && r[j] == pots[i];
      assert PotionIds(r)[j] == id;
    }
  }

  /** Dropping potions keeps their ids distinct. */
  lemma {:induction false} RetainDistinct(pots: seq<PotionEntry>, keep: PotionEntry -> bool)
    ensures DistinctIds(pots) ==> DistinctIds(Retain(pots, keep))
    decreases |pots|
  {
    if pots != [] && DistinctIds(pots) {
      var tail := pots[1..];
      assert DistinctIds(tail) by {
        forall i, j | 0 <= i < j < |tail| ensures tail[i].0 != tail[j].0 {
          assert tail[i] == pots[i + 1] && tail[j] == pots[j + 1];
        }
      }
      RetainDistinct(tail, keep);
      var rest := Retain(tail, keep);
      forall j | 0 <= j < |rest| ensures rest[j].0 != pots[0].0 {
        assert rest[j] in tail;
        var i :| 0 <= i < |tail| && tail[i] == rest[j];
        assert tail[i] == pots[i + 1];
      }
      if keep(pots[0]) {
        var r := [pots[0]] + rest;
        forall i, j | 0 <= i < j < |r| ensures r[i].0 != r[j].0 {
          assert r[j] == rest[j - 1];
          if 0 < i {
            assert r[i] == rest[i - 1];
          }
        }
      }
    }
  }

  /** `start_end`: every remaining potion becomes `Relative(10, 10)`. */
  function EndRewrite(pots: seq<PotionEntry>): (r: seq<PotionEntry>)
    ensures PotionIds(r) == PotionIds(pots)
    ensures forall j :: 0 <= j < |r| ==> r[j].1 == Relative(10, 10) && r[j].2 == pots[j].2
  {
    seq(|pots|, j requires 0 <= j < |pots| => (pots[j].0, Relative(10, 10), pots[j].2))
  }

  /** The sprites with the given ids, taken out of the table. */
  function Taken(sprites: map<nat, Sprite>, ids: set<nat>): (r: map<nat, Sprite>)
    ensures r.Keys == sprites.Keys * ids
    ensures forall id :: id in r ==> r[id] == sprites[id]
  {
    map id | id in sprites && id in ids :: sprites[id]
  }

  // ---------------------------------------------------------------- the pickup loops

  /** The character, potion and collectable loops of `step_physics`. */
  method DetectPickups(chars: seq<nat>, pots: seq<PotionEntry>, cols: seq<nat>, sprites: map<nat, Sprite>,
                       overlap: (Sprite, Sprite) -> bool, done: bool) returns (r: Pickups)
    requires AllPresent(chars, pots, cols, sprites)
    ensures r == Detect(NoPickups(done), chars, pots, cols, sprites, overlap)
  {
    r := NoPickups(done);
    var k := 0;
    while k < |chars|
      invariant 0 <= k <= |chars|
      invariant r == Detect(NoPickups(done), chars[..k], pots, cols, sprites, overlap)
    {
      var cid := chars[k];
      var b := PotionLoop(r, cid, pots, sprites, overlap);
      r := CollectLoop(b, cid, cols, sprites, overlap);
      assert chars[..k + 1][..k] == chars[..k];
      k := k + 1;
    }
    assert chars[..k] == chars;
  }

  /** The potion loop for one character. */
  method PotionLoop(acc: Pickups, cid: nat, pots: seq<PotionEntry>, sprites: map<nat, Sprite>,
                    overlap: (Sprite, Sprite) -> bool) returns (r: Pickups)
    requires cid in sprites && forall j :: 0 <= j < |pots| ==> pots[j].0 in sprites
    ensures r == PotionPass(acc, cid, pots, sprites, overlap)
  {
    var consumed, drinkers, startEnd := acc.consumed, acc.drinkers, acc.startEnd;
    var j := 0;
    while j < |pots|
      invariant 0 <= j <= |pots|
      invariant acc.(consumed := consumed, drinkers := drinkers, startEnd := startEnd) ==
                PotionPass(acc, cid, pots[..j], sprites, overlap)
    {
      var e := pots[j];
      if e.0 !in consumed && overlap(sprites[cid], sprites[e.0]) {
        consumed := consumed + {e.0};
        drinkers := drinkers + [(cid, e.1)];
        startEnd := startEnd || e.2;
      }
      assert pots[..j + 1][..j] == pots[..j];
      j := j + 1;
    }
    assert pots[..j] == pots;
    r := acc.(consumed := consumed, drinkers := drinkers, startEnd := startEnd);
  }

  /** The collectable loop for one character. */
  method CollectLoop(acc: Pickups, cid: nat, cols: seq<nat>, sprites: map<nat, Sprite>,
                     overlap: (Sprite, Sprite) -> bool) returns (r: Pickups)
    requires cid in sprites && forall j :: 0 <= j < |cols| ==> cols[j] in sprites
    ensures r == CollectPass(acc, cid, cols, sprites, overlap)
  {
    var collected, done := acc.collected, acc.done;
    var j := 0;
    while j < |cols|
      invariant 0 <= j <= |cols|
      invariant acc.(collected := collected, done := done) == CollectPass(acc, cid, cols[..j], sprites, overlap)
    {
      var id := cols[j];
      if id !in collected && overlap(sprites[cid], sprites[id]) {
        if sprites[id].xScale > DONE_SCALE {
          done := true;
        }
        collected := collected + {id};
      }
      assert cols[..j + 1][..j] == cols[..j];
      j := j + 1;
    }
    assert cols[..j] == cols;
    r := acc.(collected := collected, done := done);
  }

  // ---------------------------------------------------------------- drinking

  /** The drinks applied in order, each to its character's sprite. */
  function DrinkAll(sprites: map<nat, Sprite>, ds: seq<(nat, PotionType)>): (r: map<nat, Sprite>)
    requires forall i :: 0 <= i < |ds| ==> ds[i].0 in sprites
    ensures r.Keys == sprites.Keys
    decreases |ds|
  {
    if ds == [] then sprites
    else
      var d := ds[|ds| - 1];
      var before := DrinkAll(sprites, ds[..|ds| - 1]);
      before[d.0 := Drink(before[d.0], d.1)]
  }

  /** The potion types drunk by character `c`, in order. */
  function DrunkBy(ds: seq<(nat, PotionType)>, c: nat): seq<PotionType>
    decreases |ds|
  {
    if ds == [] then []
    else DrunkBy(ds[..|ds| - 1], c) + (if ds[|ds| - 1].0 == c then [ds[|ds| - 1].1] else [])
  }

  /** After the drinks, each character has queued the types it drank, in
      order, behind what it had pending; one that drank has a running
      countdown; nothing but the countdown and the queue changes. */
  lemma {:induction false} DrinkAllQueues(sprites: map<nat, Sprite>, ds: seq<(nat, PotionType)>, c: nat)
    requires (forall i :: 0 <= i < |ds| ==> ds[i].0 in sprites) && c in sprites
    ensures var t := DrinkAll(sprites, ds)[c];
            t == sprites[c].(potionTimer := t.potionTimer, pendingPotions := t.pendingPotions) &&
            t.pendingPotions == sprites[c].pendingPotions + DrunkBy(ds, c) &&
            (DrunkBy(ds, c) != [] ==> t.potionTimer.Some? && t.potionTimer.value > 0.0) &&
            (DrunkBy(ds, c) == [] ==> t.potionTimer == sprites[c].potionTimer)
    decreases |ds|
  {
    if ds != [] {
      DrinkAllQueues(sprites, ds[..|ds| - 1], c);
    }
  }

  /** The loop over `drinkers`. */
  method DrinkLoop(sprites: map<nat, Sprite>, ds: seq<(nat, PotionType)>) returns (r: map<nat, Sprite>)
    requires forall i :: 0 <= i < |ds| ==> ds[i].0 in sprites
    ensures r == DrinkAll(sprites, ds)
  {
    r := sprites;
    var i := 0;
    while i < |ds|
      invariant 0 <= i <= |ds|
      invariant r == DrinkAll(sprites, ds[..i])
    {
      var (sid, pt) := ds[i];
      r := r[sid := Drink(r[sid], pt)];
      assert ds[..i + 1][..i] == ds[..i];
      i := i + 1;
    }
    assert ds[..i] == ds;
  }

  // ---------------------------------------------------------------- the countdown over all characters

  /** `Potions.Tick` for each character in turn, threading the final flag. */
  function TickAll(sprites: map<nat, Sprite>, chars: seq<nat>, dt: real, endSequence: bool, final: bool)
    : (r: (map<nat, Sprite>, bool))
    requires forall k :: 0 <= k < |chars| ==> chars[k] in sprites
    ensures r.0.Keys == sprites.Keys
    ensures final ==> r.1
    decreases |chars|
  {
    if chars == [] then (sprites, final)
    else
      var c := chars[|chars| - 1];
      var (before, f) := TickAll(sprites, chars[..|chars| - 1], dt, endSequence, final);
      var (t, f') := TickSpec(before[c], dt, endSequence, f);
      TickLatch(before[c], dt, endSequence, f);
      (before[c := t], f')
  }

  /** The tick never changes a collider. */
  lemma {:induction false} TickAllColliders(sprites: map<nat, Sprite>, chars: seq<nat>, dt: real, endSequence: bool,
                                            final: bool, id: nat)
    requires (forall k :: 0 <= k < |chars| ==> chars[k] in sprites) && id in sprites
    ensures TickAll(sprites, chars, dt, endSequence, final).0[id].collider == sprites[id].collider
    decreases |chars|
  {
    if chars != [] {
      var front := chars[..|chars| - 1];
      TickAllColliders(sprites, front, dt, endSequence, final, id);
      var (before, f) := TickAll(sprites, front, dt, endSequence, final);
      var c := chars[|chars| - 1];
      if Fires(before[c], dt, f) {
        TickApplies(before[c], dt, endSequence, f);
      } else {
        TickWaits(before[c], dt, endSequence, f);
      }
    }
  }

  /** Sprites that are not characters are left alone by the tick. */
  lemma {:induction false} TickAllOthers(sprites: map<nat, Sprite>, chars: seq<nat>, dt: real, endSequence: bool,
                                         final: bool, id: nat)
    requires (forall k :: 0 <= k < |chars| ==> chars[k] in sprites) && id in sprites && id !in chars
    ensures TickAll(sprites, chars, dt, endSequence, final).0[id] == sprites[id]
    decreases |chars|
  {
    if chars != [] {
      assert id !in chars[..|chars| - 1];
      TickAllOthers(sprites, chars[..|chars| - 1], dt, endSequence, final, id);
    }
  }

  /** Once the end sequence has started, a character whose countdown runs
      out in this tick raises the final flag, and it stays raised. */
  lemma {:induction false} TickAllFinal(sprites: map<nat, Sprite>, chars: seq<nat>, dt: real, endSequence: bool,
                                        final: bool, k: int)
    requires (forall i :: 0 <= i < |chars| ==> chars[i] in sprites)
    requires 0 <= k < |chars| && endSequence && Fires(sprites[chars[k]], dt, false)
    requires forall i :: 0 <= i < |chars| && i != k ==> chars[i] != chars[k]
    ensures TickAll(sprites, chars, dt, endSequence, final).1
    decreases |chars|
  {
    var n := |chars| - 1;
    var front := chars[..n];
    var (before, f) := TickAll(sprites, front, dt, endSequence, final);
    if k < n {
      TickAllFinal(sprites, front, dt, endSequence, final, k);
    } else {
      TickAllOthers(sprites, front, dt, endSequence, final, chars[k]);
      TickLatch(before[chars[k]], dt, endSequence, f);
    }
  }

  /** The loop over the characters. */
  method TickLoop(sprites: map<nat, Sprite>, chars: seq<nat>, dt: real, endSequence: bool, final: bool)
    returns (r: map<nat, Sprite>, final': bool)
    requires forall k :: 0 <= k < |chars| ==> chars[k] in sprites
    ensures (r, final') == TickAll(sprites, chars, dt, endSequence, final)
  {
    r, final' := sprites, final;
    var i := 0;
    while i < |chars|
      invariant 0 <= i <= |chars|
      invariant (r, final') == TickAll(sprites, chars[..i], dt, endSequence, final)
    {
      var c := chars[i];
      var t;
      t, final' := Tick(r[c], dt, endSequence, final');
      r := r[c := t];
      assert chars[..i + 1][..i] == chars[..i];
      i := i + 1;
    }
    assert chars[..i] == chars;
  }
}
