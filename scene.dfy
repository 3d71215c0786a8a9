/** The `Scene`: the sprite table and its role lists, the four collision
    maps, the tile invalidation queue, and the score and end-of-game flags,
    with the operations that add things to it and the bookkeeping part of
    `step_physics`. */
module World {
  import opened Geometry
  import opened TreeSpec
  import opened TreeLemmas
  import Collision
  import opened Sprites
  import opened Potions
  import opened TileQueue
  import opened Particles
  import opened SceneSpec

  /** The corner and side `Scene::new` gives every map. */
  const WORLD_MIN: int := -10000
  const WORLD_WIDTH: nat := 40000

  /** The side `Scene::new` uses is not one on which the quadtree halves
      exactly: 40000 halves to 2500, which is not a multiple of 8. */
  lemma {:induction false} WorldSideUneven()
    ensures RoundUp4(WORLD_WIDTH) == WORLD_WIDTH
    ensures !GoodSide(RoundUp4(WORLD_WIDTH))
  {
    assert !GoodSide(2500);
    assert GoodSide(5000) == GoodSide(2500);
    assert GoodSide(10000) == GoodSide(5000);
    assert GoodSide(20000) == GoodSide(10000);
    assert GoodSide(40000) == GoodSide(20000);
  }

  /** A collision map of the scene: a valid quadtree. */
  type ValidTree = t: CollisionTree | TreeSpec.Valid(t) witness New(0, 0, LEAF_SIZE, LEAF_SIZE)

  /** No id is on both lists. */
  ghost predicate Apart(a: seq<nat>, b: seq<nat>)
  {
    forall id :: id in a ==> id !in b
  }

  /** Every id on a role list names a sprite. */
  ghost predicate Listed(ids: seq<nat>, sprites: map<nat, Sprite>)
  {
    forall id :: id in ids ==> id in sprites
  }

  /** No id is listed twice. */
  ghost predicate Distinct(ids: seq<nat>)
  {
    forall i, j :: 0 <= i < j < |ids| ==> ids[i] != ids[j]
  }

  /** Every sprite has an id below `next_id` and a full collider; the role
      lists name sprites, no sprite has two roles, and no character or
      potion is listed twice. */
  ghost predicate Roles(sprites: map<nat, Sprite>, potions: seq<PotionEntry>, characters: seq<nat>,
                        particles: seq<nat>, collectables: seq<nat>, nextId: nat)
  {
    (forall id :: id in sprites ==> id < nextId && |sprites[id].collider| == COLLIDER_CELLS) &&
    Listed(characters, sprites) && Listed(particles, sprites) && Listed(collectables, sprites) &&
    Listed(PotionIds(potions), sprites) &&
    DistinctIds(potions) && Distinct(characters) &&
    Apart(characters, particles) && Apart(characters, collectables) && Apart(characters, PotionIds(potions)) &&
    Apart(particles, collectables) && Apart(particles, PotionIds(potions)) &&
    Apart(collectables, PotionIds(potions))
  }

  /** Dropping particles from the table and their list keeps the roles
      consistent. */
  lemma SettleRoles(sprites: map<nat, Sprite>, potions: seq<PotionEntry>, characters: seq<nat>,
                    particles: seq<nat>, collectables: seq<nat>, nextId: nat, gone: set<nat>)
    requires Roles(sprites, potions, characters, particles, collectables, nextId)
    requires forall id :: id in gone ==> id in particles
    ensures Roles(sprites - gone, potions, characters, DropIds(particles, gone), collectables, nextId)
  {
  }

  /** Removing consumed potions from the table and the potion list keeps
      the roles consistent, whether or not the rest are rewritten. */
  lemma ConsumedRoles(sprites: map<nat, Sprite>, potions: seq<PotionEntry>, characters: seq<nat>,
                      particles: seq<nat>, collectables: seq<nat>, nextId: nat,
                      consumed: set<nat>, rewrite: bool)
    requires Roles(sprites, potions, characters, particles, collectables, nextId)
    requires forall id :: id in consumed ==> id in PotionIds(potions)
    ensures var kept := DropPotions(potions, consumed);
            Roles(sprites - consumed, if rewrite then EndRewrite(kept) else kept,
                  characters, particles, collectables, nextId)
  {
    var kept := DropPotions(potions, consumed);
    var pots := if rewrite then EndRewrite(kept) else kept;
    assert PotionIds(pots) == PotionIds(kept);
    forall id | id in PotionIds(kept)
      ensures id in PotionIds(potions) && id !in consumed
    {
      DropPotionIds(potions, consumed, id);
    }
  }

  /** Removing collected collectables from the table and their list keeps
      the roles consistent. */
  lemma CollectedRoles(sprites: map<nat, Sprite>, potions: seq<PotionEntry>, characters: seq<nat>,
                       particles: seq<nat>, collectables: seq<nat>, nextId: nat, collected: set<nat>)
    requires Roles(sprites, potions, characters, particles, collectables, nextId)
    requires forall id :: id in collected ==> id in collectables
    ensures Roles(sprites - collected, potions, characters, particles, DropIds(collectables, collected), nextId)
  {
  }

  /** In a scene whose roles are consistent, once the end sequence has
      started, the tick over the characters raises the final flag as soon as
      one character's countdown runs out, whatever the others do. */
  lemma EndTickFinal(sprites: map<nat, Sprite>, potions: seq<PotionEntry>, characters: seq<nat>,
                     particles: seq<nat>, collectables: seq<nat>, nextId: nat, dt: real, final: bool, k: int)
    requires Roles(sprites, potions, characters, particles, collectables, nextId)
    requires 0 <= k < |characters| && characters[k] in sprites && Fires(sprites[characters[k]], dt, false)
    ensures forall i :: 0 <= i < |characters| ==> characters[i] in sprites
    ensures TickAll(sprites, characters, dt, true, final).1
  {
    assert forall i :: 0 <= i < |characters| ==> characters[i] in characters;
    TickAllFinal(sprites, characters, dt, true, final, k);
  }

  /** The drinks only touch countdowns and queues, so they keep the roles. */
  lemma DrinkRoles(sprites: map<nat, Sprite>, potions: seq<PotionEntry>, characters: seq<nat>,
                   particles: seq<nat>, collectables: seq<nat>, nextId: nat, ds: seq<(nat, PotionType)>)
    requires Roles(sprites, potions, characters, particles, collectables, nextId)
    requires forall i :: 0 <= i < |ds| ==> ds[i].0 in sprites
    ensures Roles(DrinkAll(sprites, ds), potions, characters, particles, collectables, nextId)
  {
    var after := DrinkAll(sprites, ds);
    forall id | id in after
      ensures id < nextId && |after[id].collider| == COLLIDER_CELLS
    {
      DrinkAllQueues(sprites, ds, id);
    }
  }

  /** The drinkers are characters, so neither consumed nor collected; the
      collected sprites are still in the table after the consumed potions
      leave it, one per id. */
  lemma PickupSurvivors(sprites: map<nat, Sprite>, potions: seq<PotionEntry>, characters: seq<nat>,
                        particles: seq<nat>, collectables: seq<nat>, nextId: nat, r: Pickups)
    requires Roles(sprites, potions, characters, particles, collectables, nextId)
    requires forall id :: id in r.collected ==> id in collectables
    requires forall id :: id in r.consumed ==> id in PotionIds(potions)
    requires forall i :: 0 <= i < |r.drinkers| ==> r.drinkers[i].0 in characters
    ensures forall i :: 0 <= i < |r.drinkers| ==> r.drinkers[i].0 in sprites - r.consumed - r.collected
    ensures Taken(sprites - r.consumed, r.collected) == Taken(sprites, r.collected)
    ensures |Taken(sprites, r.collected)| == |r.collected|
  {
    assert Taken(sprites, r.collected).Keys == r.collected;
  }

  /** The removals and drinks of the pickup pass, on the scene's values. */
  method ApplyPickups(sprites: map<nat, Sprite>, potions: seq<PotionEntry>, characters: seq<nat>,
                      particles: seq<nat>, collectables: seq<nat>, nextId: nat,
                      overlap: (Sprite, Sprite) -> bool, done: bool, r: Pickups)
    returns (sprites': map<nat, Sprite>, potions': seq<PotionEntry>, collectables': seq<nat>, taken: map<nat, Sprite>)
    requires Roles(sprites, potions, characters, particles, collectables, nextId)
    requires AllPresent(characters, potions, collectables, sprites)
    requires r == Detect(NoPickups(done), characters, potions, collectables, sprites, overlap)
    ensures Roles(sprites', potions', characters, particles, collectables', nextId)
    ensures potions' == (if r.startEnd then EndRewrite(DropPotions(potions, r.consumed))
                         else DropPotions(potions, r.consumed))
    ensures collectables' == DropIds(collectables, r.collected)
    ensures taken == Taken(sprites, r.collected) && |taken| == |r.collected|
    ensures forall i :: 0 <= i < |r.drinkers| ==> r.drinkers[i].0 in sprites - r.consumed - r.collected
    ensures sprites' == DrinkAll(sprites - r.consumed - r.collected, r.drinkers)
  {
    assert (forall i :: 0 <= i < |r.drinkers| ==> r.drinkers[i].0 in characters) &&
           (forall id :: id in r.collected ==> id in collectables) &&
           (forall id :: id in r.consumed ==> id in PotionIds(potions)) by {
      DetectWithin(characters, potions, collectables, sprites, overlap, done);
      DetectDrinks(characters, potions, collectables, sprites, overlap, done);
    }
    PickupSurvivors(sprites, potions, characters, particles, collectables, nextId, r);
    potions' := DropPotions(potions, r.consumed);
    if r.startEnd {
      potions' := EndRewrite(potions');
    }
    var left := sprites - r.consumed;
    ConsumedRoles(sprites, potions, characters, particles, collectables, nextId, r.consumed, r.startEnd);
    taken := Taken(left, r.collected);
    collectables' := DropIds(collectables, r.collected);
    CollectedRoles(left, potions', characters, particles, collectables, nextId, r.collected);
    left := left - r.collected;
    DrinkRoles(left, potions', characters, particles, collectables', nextId, r.drinkers);
    sprites' := DrinkLoop(left, r.drinkers);
  }

  class Scene {
    var sprites: map<nat, Sprite>
    var potions: seq<PotionEntry>
    var characters: seq<nat>
    var particles: seq<nat>
    var collectables: seq<nat>
    var collected: map<nat, Sprite>
    var collisionMap: ValidTree
    var rubbleMap: ValidTree
    var foregroundMap: ValidTree
    var backgroundMap: ValidTree
    var nextId: nat
    var tileQueue: set<Tile>
    var score: nat
    var finalPotionTriggered: bool
    var endSequenceTriggered: bool
    var done: bool

    /** The scene invariant: the sprite table and role lists are
        consistent (the maps are valid by their type). */
    ghost predicate Valid()
      reads this`sprites, this`potions, this`characters, this`particles, this`collectables, this`nextId
    {
      Roles(sprites, potions, characters, particles, collectables, nextId)
    }

    /** `Scene::new` with the world square as a parameter: four empty maps
        over `[worldMin, worldMin + worldWidth)²`, nothing else. */
    constructor(worldMin: int, worldWidth: nat)
      requires GoodSide(RoundUp4(worldWidth))
      ensures Valid()
      ensures collisionMap == New(worldMin, worldMin, worldWidth, worldWidth) && Occupied(collisionMap) == {}
      ensures rubbleMap == collisionMap && foregroundMap == collisionMap && backgroundMap == collisionMap
      ensures sprites == map[] && potions == [] && characters == [] && particles == [] && collectables == []
      ensures collected == map[] && nextId == 0 && tileQueue == {} && score == 0
      ensures !finalPotionTriggered && !endSequenceTriggered && !done
    {
      var side := RoundUp4(worldWidth);
      assert RoundUp4(side) == side;
      NewValid(worldMin, worldMin, side);
      var map0 := New(worldMin, worldMin, worldWidth, worldWidth);
      sprites, potions, characters, particles, collectables := map[], [], [], [], [];
      collected, nextId, tileQueue, score := map[], 0, {}, 0;
      collisionMap, rubbleMap, foregroundMap, backgroundMap := map0, map0, map0, map0;
      finalPotionTriggered, endSequenceTriggered, done := false, false, false;
    }

    // -------------------------------------------------------------- adding sprites

    /** `add_sprite`: the sprite is stored under a fresh id. */
    method AddSprite(sprite: Sprite) returns (id: nat)
      requires Valid() && |sprite.collider| == COLLIDER_CELLS
      modifies this`sprites, this`nextId
      ensures Valid()
      ensures id == old(nextId) && nextId == id + 1 && id !in old(sprites)
      ensures sprites == old(sprites)[id := sprite]
    {
      id := nextId;
      nextId := nextId + 1;
      sprites := sprites[id := sprite];
    }

    /** `add_collectable`. */
    method AddCollectable(sprite: Sprite) returns (id: nat)
      requires Valid() && |sprite.collider| == COLLIDER_CELLS
      modifies this`sprites, this`nextId, this`collectables
      ensures Valid()
      ensures id == old(nextId) && nextId == id + 1 && id !in old(sprites)
      ensures sprites == old(sprites)[id := sprite] && collectables == old(collectables) + [id]
    {
      id := AddSprite(sprite);
      collectables := collectables + [id];
    }

    /** `add_potion`. */
    method AddPotion(sprite: Sprite, potionType: PotionType, startEnd: bool) returns (id: nat)
      requires Valid() && |sprite.collider| == COLLIDER_CELLS
      modifies this`sprites, this`nextId, this`potions
      ensures Valid()
      ensures id == old(nextId) && nextId == id + 1 && id !in old(sprites)
      ensures sprites == old(sprites)[id := sprite] && potions == old(potions) + [(id, potionType, startEnd)]
    {
      id := AddSprite(sprite);
      ghost var ids := PotionIds(potions);
      potions := potions + [(id, potionType, startEnd)];
      assert PotionIds(potions) == ids + [id];
    }

    /** `add_particle`. */
    method AddParticle(sprite: Sprite) returns (id: nat)
      requires Valid() && |sprite.collider| == COLLIDER_CELLS
      modifies this`sprites, this`nextId, this`particles
      ensures Valid()
      ensures id == old(nextId) && nextId == id + 1 && id !in old(sprites)
      ensures sprites == old(sprites)[id := sprite] && particles == old(particles) + [id]
    {
      id := AddSprite(sprite);
      particles := particles + [id];
    }

    /** `add_character`. */
    method AddCharacter(sprite: Sprite) returns (id: nat)
      requires Valid() && |sprite.collider| == COLLIDER_CELLS
      modifies this`sprites, this`nextId, this`characters
      ensures Valid()
      ensures id == old(nextId) && nextId == id + 1 && id !in old(sprites)
      ensures sprites == old(sprites)[id := sprite] && characters == old(characters) + [id]
    {
      id := AddSprite(sprite);
      characters := characters + [id];
    }

    // -------------------------------------------------------------- static layers

    /** `add_terrain`: the collision map gains the sprite's footprint inside
        it, and the terrain tile of every pixel of the sprite's box is
        queued. */
    method AddTerrain(sprite: Sprite)
      requires Valid() && |sprite.collider| == COLLIDER_CELLS
      modifies this`collisionMap, this`tileQueue
      ensures Valid()
      ensures SameBox(collisionMap, old(collisionMap))
      ensures Occupied(collisionMap) == old(Occupied(collisionMap)) + Bounds(old(collisionMap)) * Footprint(sprite)
      ensures tileQueue == old(tileQueue) + Tiles(TERRAIN, SpriteBox(sprite))
    {
      collisionMap := Collision.AddSprite(collisionMap, sprite);
      tileQueue := QueueBox(tileQueue, TERRAIN, sprite.locX, sprite.locY,
                            SPRITE_WIDTH * sprite.xScale, SPRITE_WIDTH * sprite.yScale);
    }

    /** `clear_terrain`: the collision map loses the sprite's footprint; no
        tile is queued. */
    method ClearTerrain(sprite: Sprite)
      requires Valid() && |sprite.collider| == COLLIDER_CELLS
      modifies this`collisionMap
      ensures Valid()
      ensures SameBox(collisionMap, old(collisionMap))
      ensures Occupied(collisionMap) == old(Occupied(collisionMap)) - Footprint(sprite)
    {
      collisionMap := Collision.ClearSprite(collisionMap, sprite);
    }

    /** `add_foreground`: as `add_terrain`, on the foreground map and layer. */
    method AddForeground(sprite: Sprite)
      requires Valid() && |sprite.collider| == COLLIDER_CELLS
      modifies this`foregroundMap, this`tileQueue
      ensures Valid()
      ensures SameBox(foregroundMap, old(foregroundMap))
      ensures Occupied(foregroundMap) == old(Occupied(foregroundMap)) + Bounds(old(foregroundMap)) * Footprint(sprite)
      ensures tileQueue == old(tileQueue) + Tiles(FOREGROUND, SpriteBox(sprite))
    {
      foregroundMap := Collision.AddSprite(foregroundMap, sprite);
      tileQueue := QueueBox(tileQueue, FOREGROUND, sprite.locX, sprite.locY,
                            SPRITE_WIDTH * sprite.xScale, SPRITE_WIDTH * sprite.yScale);
    }

    /** `add_background`: as `add_terrain`, on the background map and layer. */
    method AddBackground(sprite: Sprite)
      requires Valid() && |sprite.collider| == COLLIDER_CELLS
      modifies this`backgroundMap, this`tileQueue
      ensures Valid()
      ensures SameBox(backgroundMap, old(backgroundMap))
      ensures Occupied(backgroundMap) == old(Occupied(backgroundMap)) + Bounds(old(backgroundMap)) * Footprint(sprite)
      ensures tileQueue == old(tileQueue) + Tiles(BACKGROUND, SpriteBox(sprite))
    {
      backgroundMap := Collision.AddSprite(backgroundMap, sprite);
      tileQueue := QueueBox(tileQueue, BACKGROUND, sprite.locX, sprite.locY,
                            SPRITE_WIDTH * sprite.xScale, SPRITE_WIDTH * sprite.yScale);
    }

    // -------------------------------------------------------------- step_physics bookkeeping

    /** The particle pass: particles below the despawn line vanish; resting
        ones are stamped into the collision and rubble maps, their terrain
        tiles are queued, and they vanish too. */
    method SettleParticles()
      requires Valid()
      modifies this`collisionMap, this`rubbleMap, this`tileQueue, this`particles, this`sprites
      ensures Valid()
      ensures Known(old(particles), old(sprites))
      ensures Filled(old(collisionMap), collisionMap, SettledPixels(old(particles), old(sprites)))
      ensures Filled(old(rubbleMap), rubbleMap, SettledPixels(old(particles), old(sprites)))
      ensures tileQueue == old(tileQueue) + Tiles(TERRAIN, SettledPixels(old(particles), old(sprites)))
      ensures particles == DropIds(old(particles), Leaving(old(particles), old(sprites)))
      ensures sprites == old(sprites) - Leaving(old(particles), old(sprites))
    {
      KnownParticles();
      var collision := FillAll(collisionMap, particles, sprites);
      var rubble := FillAll(rubbleMap, particles, sprites);
      var queue := QueueAll(tileQueue, particles, sprites);
      var gone := CollectLeaving(particles, sprites);
      SettleRoles(sprites, potions, characters, particles, collectables, nextId, gone);
      InstallSettled(collision, rubble, queue, DropIds(particles, gone), sprites - gone);
    }

    /** Stores the outcome of the particle pass. */
    method InstallSettled(collisionMap': ValidTree, rubbleMap': ValidTree, tileQueue': set<Tile>,
                          particles': seq<nat>, sprites': map<nat, Sprite>)
      requires Roles(sprites', potions, characters, particles', collectables, nextId)
      modifies this`collisionMap, this`rubbleMap, this`tileQueue, this`particles, this`sprites
      ensures Valid()
      ensures collisionMap == collisionMap' && rubbleMap == rubbleMap' && tileQueue == tileQueue'
      ensures particles == particles' && sprites == sprites'
    {
      collisionMap, rubbleMap, tileQueue := collisionMap', rubbleMap', tileQueue';
      particles, sprites := particles', sprites';
    }

    /** Every particle is a sprite with a full collider. */
    lemma KnownParticles()
      requires Valid()
      ensures Known(particles, sprites)
    {
      forall i | 0 <= i < |particles| ensures particles[i] in sprites {
        assert particles[i] in particles;
      }
    }

    /** What the pickup loops find in the current state. */
    ghost function Found(overlap: (Sprite, Sprite) -> bool): Pickups
      requires Valid()
      reads this
    {
      assert AllPresent(characters, potions, collectables, sprites) by {
        assert forall k :: 0 <= k < |characters| ==> characters[k] in characters;
        assert forall j :: 0 <= j < |collectables| ==> collectables[j] in collectables;
        assert forall j :: 0 <= j < |potions| ==> PotionIds(potions)[j] in PotionIds(potions);
      }
      Detect(NoPickups(done), characters, potions, collectables, sprites, overlap)
    }

    /** The pickup pass: consumed potions vanish; a `start_end` potion starts
        the end sequence and turns every remaining potion into
        `Relative(10, 10)`; collected collectables move to `collected`, one
        point each; the drinks are queued on their characters. */
    method Pickups(overlap: (Sprite, Sprite) -> bool)
      requires Valid()
      modifies this`potions, this`sprites, this`endSequenceTriggered, this`collectables, this`collected, this`score, this`done
      ensures Valid()
      ensures var r := old(Found(overlap));
              potions == (if r.startEnd then EndRewrite(DropPotions(old(potions), r.consumed))
                          else DropPotions(old(potions), r.consumed)) &&
              endSequenceTriggered == (old(endSequenceTriggered) || r.startEnd) &&
              collectables == DropIds(old(collectables), r.collected) &&
              collected == old(collected) + Taken(old(sprites), r.collected) &&
              |Taken(old(sprites), r.collected)| == |r.collected| &&
              score == old(score) + |r.collected| &&
              done == r.done &&
              (forall i :: 0 <= i < |r.drinkers| ==> r.drinkers[i].0 in old(sprites) - r.consumed - r.collected) &&
              sprites == DrinkAll(old(sprites) - r.consumed - r.collected, r.drinkers)
    {
      var r := DetectPickups(characters, potions, collectables, sprites, overlap, done);
      var sprites', potions', collectables', taken := ApplyPickups(sprites, potions, characters, particles, collectables, nextId, overlap, done, r);
      Install(sprites', potions', collectables', endSequenceTriggered || r.startEnd,
              collected + taken, score + |r.collected|, r.done);
    }

    /** Stores the outcome of the pickup pass. */
    method Install(sprites': map<nat, Sprite>, potions': seq<PotionEntry>, collectables': seq<nat>,
                   endSequenceTriggered': bool, collected': map<nat, Sprite>, score': nat, done': bool)
      requires Roles(sprites', potions', characters, particles, collectables', nextId)
      modifies this`potions, this`sprites, this`endSequenceTriggered, this`collectables, this`collected, this`score, this`done
      ensures Valid()
      ensures sprites == sprites' && potions == potions' && collectables == collectables'
      ensures endSequenceTriggered == endSequenceTriggered' && collected == collected'
      ensures score == score' && done == done'
    {
      sprites, potions, collectables := sprites', potions', collectables';
      endSequenceTriggered, collected, score, done := endSequenceTriggered', collected', score', done';
    }

    /** The potion countdown over every character, in list order. */
    method TickCharacters(dt: real)
      requires Valid()
      modifies this`sprites, this`finalPotionTriggered
      ensures Valid()
      ensures (sprites, finalPotionTriggered) ==
              old(TickAll(sprites, characters, dt, endSequenceTriggered, finalPotionTriggered))
    {
      assert forall k :: 0 <= k < |characters| ==> characters[k] in characters;
      ghost var sprites0 := sprites;
      sprites, finalPotionTriggered := TickLoop(sprites, characters, dt, endSequenceTriggered, finalPotionTriggered);
      forall id | id in sprites
        ensures |sprites[id].collider| == COLLIDER_CELLS
      {
        TickAllColliders(sprites0, characters, dt, endSequenceTriggered, old(finalPotionTriggered), id);
      }
    }
  }
}
