# pixel-imperfect: the collision quadtree, the potion controller and the scene bookkeeping

This project models, in Dafny, the integer core of the game `pixel-imperfect`
(`src/main.rs`). It proves properties of that model.

- **The collision quadtree** (`CollisionTree`).
  - Each node covers a square of pixels and keeps a `free_pixels` counter.
  - A node holds either four quadrant children or a dense 64×64 grid of solid
    flags, or neither.
  - The tree is the recursive datatype `TreeSpec.CollisionTree`.
  - `TreeSpec.Occupied` gives the set of solid pixels it stands for, and
    `TreeSpec.Valid` is its invariant: counters agree with the solid set,
    children are the four quadrants of their parent, and grids only sit on
    leaves.
  - Each operation of the tree is a method in module `Collision`. It takes a
    node and returns the updated node, the loops over grid cells and over
    children being `while` loops with invariants.
  - Every operation is proved against `Occupied` and the counter.
- **Sprite helpers** (module `Sprites`):
  - the horizontal collider flip `maybe_flip`;
  - the collider remap of `quarter`;
  - `to_scale` / `from_scale`, with Rust's truncating division written out in
    module `RustInt`;
  - the set of pixels a sprite stamps into a tree.
- **The scale-change controller** (module `Potions`):
  - the `PotionType` fold;
  - the delta and the clamping;
  - the pickup that arms the countdown;
  - the per-tick countdown with the `final_potion_triggered` latch.
- **Scene bookkeeping**.
  - Module `SceneSpec` holds the loops of `step_physics` as methods proved
    against functions of their inputs:
    - the particle pass, which despawns particles or settles them into terrain;
    - the pickup loops over characters, potions and collectables;
    - the drinks;
    - the countdown pass.
  - Module `World` holds the class `Scene`. It keeps the fields of the Rust
    struct and has one method per operation.
    - Its invariant `Valid` says the role lists (characters, particles,
      collectables, potions) name sprites, that no sprite has two roles, that
      no character or potion is listed twice, and that every id is below
      `next_id`.
    - The four maps are valid quadtrees by their type.
  - The tile invalidation queue is a set of `(layer, tx, ty)` tiles (module
    `TileQueue`), with the tile index computed by truncating division.

Positions are integers: the source casts `loc` to `i32` at every tree access.
The countdown is a `real`. The `overlap` test between two sprites is a
parameter.

## Model

| member | source | states |
|---|---|---|
| TreeSpec.RoundUp4 | src/main.rs:290-291 | the side is rounded up to the least multiple of 4 that is not below it |
| TreeSpec.New | src/main.rs:289-301 | a new node keeps its corner, rounds both sides up to a multiple of 4, has every pixel free and has neither grid nor children |
| TreeSpec.Clear | src/main.rs:303-307 | `clear` keeps the bounds, resets the counter to the full area and drops children and grid |
| TreeLemmas.NewValid | src/main.rs:289-301 | a new node on a good side is a valid tree with no solid pixel; a good side is a positive multiple of 4 that, while above 64, is a multiple of 8 whose half is again good (every multiple of 4 up to 64, 72, 40·2^k and 64·2^k among them) |
| TreeLemmas.ClearValid | src/main.rs:303-307 | a cleared valid node is valid and holds no solid pixel |
| TreeLemmas.LeafAreaIffSide | src/main.rs:335 | the area test `width*height > 64*64` on a square node is the same as `width > 64`, so grid and children never share a node |
| TreeLemmas.SplitValid | src/main.rs:336-356 | the four children built on a split are the four quadrants, valid and empty (the fourth child's height `width/2` equals its width on a square node) |
| Collision.Insert | src/main.rs:309-387 | `Err` exactly for a point outside the node; `Ok(true)` exactly when the point was free, which adds it to the solid set and takes one off the counter; otherwise the node is unchanged; the result stays valid |
| Collision.InsertIntoLeaf | src/main.rs:370-382 | on a leaf, the grid cell of the point is set, and the answer is whether it was free |
| Collision.InsertIntoKids | src/main.rs:320-369 | on a split node, the insert goes to the one child holding the point, and the parent's counter drops exactly when the child's does |
| Collision.FindQuad | src/main.rs:321-326 | the child the loop stops at is the quadrant that contains the point |
| Collision.CheckPoint | src/main.rs:417-443 | the answer is true exactly when the point is solid, so false outside the node and true right after an `Ok(true)` insert of it |
| Collision.CheckKids | src/main.rs:434-440 | the children loop answers whether some child has the point solid |
| Collision.InsertRect | src/main.rs:445-558 | `Err` exactly when the miss test holds, leaving the node unchanged; otherwise `Ok(n)` with n the number of previously free pixels of the node inside the rectangle, the counter drops by exactly n, and the solid set gains that intersection |
| Collision.InsertCovered | src/main.rs:460-500 | a rectangle overhanging the whole node fills it: the counter becomes 0 and the solid set becomes the node's bounds |
| Collision.InsertRectLeaf | src/main.rs:502-521 | on a leaf the grid loop sets every clipped cell and counts the cells that were free |
| Collision.InsertRectKids | src/main.rs:522-556 | on a split node the rectangle goes to every child, and the counts the children report add up to the parent's change |
| Collision.RemoveRect | src/main.rs:560-615 | the solid set loses the rectangle and `removed` counts the solid pixels it held, by which the counter grows; a missed rectangle changes nothing and reports not empty; a fresh node reports `(true, 0)`; an empty report means no solid pixel and no children; a covered node is cleared (see Findings) |
| Collision.RemoveRectLeaf | src/main.rs:577-594 | on a leaf the grid loop clears the clipped cells, counts the solid ones, and the leaf is empty exactly when no solid pixel is left |
| Collision.RemoveRectKids | src/main.rs:595-613 | on a split node the children are dropped only when each reports itself empty, and the removed counts add up |
| Collision.RemoveCoveredAsWritten | src/main.rs:568-576 | the full-cover branch as written drops the storage and reports the solid count, but keeps the old counter |
| Collision.RemoveCoveredBreaksCounter | src/main.rs:568-576 | for every valid node with a solid pixel, that branch leaves a node whose counter disagrees with its empty storage |
| Collision.RemoveCoveredCounterexample | src/main.rs:568-576 | a full 64×64 leaf and the rectangle (-1, -1, 66, 66): the result still counts no free pixel although it stores nothing, so it is not a valid node |
| Collision.CheckRect | src/main.rs:617-661 | false on a missed rectangle and on a node with every pixel free; true on a node with no free pixel that the miss test lets through; true whenever the rectangle holds a solid pixel; a true answer has a solid pixel in the rectangle grown by one pixel to the left and top, which is the slack the `>` in the miss test allows |
| Collision.CheckRectKids | src/main.rs:652-658 | the children loop has no false negatives and no positives beyond that slack |
| Collision.AnyCell | src/main.rs:640-650 | the grid loop answers whether some cell of the clipped rectangle is solid |
| Collision.SetCells | src/main.rs:508-519 | the grid loop sets the cells of the clipped rectangle and counts those that were clear |
| Collision.ClearCells | src/main.rs:579-590 | the grid loop clears the cells of the clipped rectangle and counts those that were solid |
| Collision.AddSprite | src/main.rs:389-402 | `add_sprite` makes the sprite's footprint (each solid collider cell scaled to an `x_scale`×`y_scale` block at `loc`) solid inside the node and nothing else |
| Collision.ClearSprite | src/main.rs:404-415 | `clear_sprite` removes the sprite's footprint from the solid set and keeps the tree valid; it calls the corrected `remove_rect` (`Collision.RemoveRect`, see Findings), so a covered node is cleared rather than left with its old counter |
| Sprites.MaybeFlip | src/main.rs:136-150 | with `flip` the collider is mirrored left to right and nothing else changes; without it the sprite is returned as is |
| Sprites.FlipCollider | src/main.rs:137-146 | the loop writes cell `(15 - x, y)` from cell `(x, y)` for every cell |
| Sprites.FlipTwice | src/main.rs:136-150 | flipping twice restores the collider |
| Sprites.FlipUnique | src/main.rs:137-146 | the mirror image of a collider is unique |
| Sprites.QuarterCollider | src/main.rs:179-186 | each new cell `(x, y)` is old cell `(x/2 + dx, y/2 + dy)` |
| Sprites.Quarter | src/main.rs:152-207 | four sprites at offsets (0,0), (7,0), (0,7), (7,7); each has its location moved by offset times scale, its scales halved, its collider remapped, and every other field copied |
| Sprites.FootprintCells | src/main.rs:389-402 | a pixel is stamped exactly when it lies under a solid collider cell's block |
| Sprites.StampOrder | src/main.rs:390-401 | the stamping loops over x then y visit every cell once and together stamp the whole footprint |
| Sprites.ToScale | src/main.rs:699-703 | division truncates toward zero: for non-negative coordinates the result is the floor, for negative ones the ceiling |
| Sprites.ScaleRoundTrip | src/main.rs:699-709 | `to_scale(from_scale(x, y, sx, sy), sx, sy) == (x, y)` for positive scales |
| RustInt.TruncDiv | src/main.rs:700-701 | Rust's `/` on `i32`: the remainder takes the sign of the dividend |
| RustInt.Clamp | src/main.rs:1146-1159 | `max(lo).min(hi)` stays in `[lo, hi]` and is the identity inside it |
| Potions.FoldAppend | src/main.rs:1120-1135 | the fold of pending potions is a left fold: folding `ps + qs` folds `ps` first |
| Potions.AllRelative | src/main.rs:1122-1125 | with relative potions only, the target is the scale plus the per-axis sums |
| Potions.LastSetXWins | src/main.rs:1126-1129 | the x target is the last absolute x value plus the relative x changes after it |
| Potions.LastSetYWins | src/main.rs:1130-1132 | the same on the y axis |
| Potions.NoSetX | src/main.rs:1120-1135 | with no absolute x value the x target is the scale plus the relative sums |
| Potions.NoSetY | src/main.rs:1120-1135 | the same on the y axis |
| Potions.AxesIndependent | src/main.rs:1120-1135 | the x target does not depend on the starting y scale, nor the y target on the starting x |
| Potions.DrainPending | src/main.rs:1118-1135 | the drain loop computes the left fold of the queue from the current scales |
| Potions.Rescale | src/main.rs:1154-1159 | a new scale is always within `[1, 180]` |
| Potions.LandsOnTarget | src/main.rs:1140-1159 | before the final potion, the delta (`target.max(0).min(180) - scale`) moves each scale onto the target clamped to `[1, 180]`, whatever the current scale |
| Potions.FinalGrows | src/main.rs:1140-1159 | after it, the delta is never `(0, 0)`, ignores the target, and grows each scale by 20 up to 180 |
| Potions.Drink | src/main.rs:1099-1106 | a pickup appends the potion to the queue and leaves the countdown running; it arms the countdown at 1.0 when it is absent or has run out; nothing else changes |
| Potions.Tick | src/main.rs:1108-1164 | the loop body for one character computes `Potions.TickSpec`: the countdown step, the drain, the latch, the delta, the clamped rescale and the re-anchoring of `loc` |
| Potions.TickLatch | src/main.rs:1112-1138 | the final flag never clears; it is set when the queue is applied during the end sequence, and unchanged when the countdown is still running |
| Potions.TickWaits | src/main.rs:1110-1114 | while the countdown runs and the final flag is clear, only the countdown moves, by `-dt` |
| Potions.TickApplies | src/main.rs:1115-1164 | when it fires, the queue is drained even if the delta is (0, 0); the countdown is dropped exactly below -1; scales land on the clamped target, or grow by 20 once the final flag is set; the collider does not change; a `(0, 0)` delta leaves scales and location alone; any other delta moves `loc.x` by half the width change, keeping the horizontal centre, and `loc.y` by the height change plus 8, raising the bottom edge by 8 |
| TileQueue.TileRange | src/main.rs:804-806 | a tile index is the truncating division by 256: index 0 covers `(-256, 256)`, and every other index covers 256 pixels on its side |
| TileQueue.QueueBox | src/main.rs:796-808 | the tile loop queues the tile of every pixel of the box |
| TileQueue.TilesUnion | src/main.rs:796-808 | the tiles of a union are the union of the tiles |
| SceneSpec.Retain | src/main.rs:1046-1047 | `retain` keeps exactly the accepted elements |
| SceneSpec.RetainAppend | src/main.rs:1046-1047 | retaining from `xs + ys` is retaining from `xs` then from `ys`, so the kept elements keep their order and their repetitions |
| SceneSpec.RetainOne | src/main.rs:1046-1047 | a single element is kept, once, exactly when it is accepted |
| SceneSpec.DropIds | src/main.rs:1046 | the id list keeps exactly the ids not in the removed set |
| SceneSpec.DropIdsOrder | src/main.rs:1046 | dropping ids from a concatenation drops from each part in turn, and a single id stays exactly when it is not removed: the kept ids keep their order |
| SceneSpec.FootprintTilesQueued | src/main.rs:794-809 | the stamped footprint lies in the sprite's box, so its tiles are among those queued |
| SceneSpec.InSettledPixels | src/main.rs:1015-1043 | a pixel is settled exactly when some particle that settles stamps it |
| SceneSpec.FillAll | src/main.rs:1008-1045 | the particle loop makes every settled pixel inside a map solid, keeps the map valid and changes nothing else |
| SceneSpec.QueueAll | src/main.rs:1031-1039 | the particle loop queues the terrain tile of every settled pixel |
| Particles.InsertIgnored | src/main.rs:1029-1030 | `insert` with its result ignored: the map gains the pixel when it lies inside, stays unchanged when it does not, and stays valid |
| Particles.FillColumn | src/main.rs:1022-1030 | the `dy` loop makes the pixels of one block column inside the map solid |
| Particles.FillBlock | src/main.rs:1021-1030 | the `dx` and `dy` loops make the part of one cell's `x_scale`×`y_scale` block inside the map solid |
| Particles.FillCell | src/main.rs:1019-1030 | one collider cell adds its block when it is solid and nothing when it is not |
| Particles.FillSprite | src/main.rs:1017-1043 | the collider loops make the part of the particle's footprint inside the map solid, and nothing else |
| Particles.QueueFootprint | src/main.rs:1017-1043 | the collider loops queue the terrain tile (layer 1) of every footprint pixel |
| Particles.QueueCell | src/main.rs:1019-1039 | one collider cell queues the tiles of its block when it is solid |
| SceneSpec.CollectLeaving | src/main.rs:1008-1045 | the loop collects exactly the particles that despawn below y = 30000 or rest on the ground |
| SceneSpec.PotionPassConsumed | src/main.rs:1055-1066 | after one character's potion loop, a potion is consumed exactly when it was already consumed or it overlaps the character |
| SceneSpec.PotionPassStartEnd | src/main.rs:1055-1066 | `start_end` is set exactly when the character meets an end potion that no earlier character consumed |
| SceneSpec.PotionPassDrinks | src/main.rs:1060-1064 | each new drink pairs the character with the type of a potion it overlaps; with distinct potion ids, the new drinks are, in list order, exactly one `(character, type)` per potion not consumed before the loop that the character overlaps |
| SceneSpec.PotionPassNew | src/main.rs:1055-1066 | with distinct potion ids, a potion the loop reaches was not consumed earlier in the same loop, so the drinks are those of the potions unconsumed at its start that the character overlaps, in list order |
| SceneSpec.CollectPassCollected | src/main.rs:1067-1080 | a collectable is collected exactly when already collected or overlapping the character |
| SceneSpec.CollectPassDone | src/main.rs:1072-1077 | `done` is set exactly when the character meets an uncollected collectable with `x_scale > 30` |
| SceneSpec.DetectConsumed | src/main.rs:1054-1081 | over all characters, a potion is consumed exactly when some character overlaps it |
| SceneSpec.DetectCollected | src/main.rs:1054-1081 | a collectable is collected exactly when some character overlaps it |
| SceneSpec.DetectDone | src/main.rs:1054-1081 | `done` is set exactly when it was set before or some character meets a collectable larger than scale 30 |
| SceneSpec.DetectStartEnd | src/main.rs:1054-1081 | `start_end` is set exactly when some character meets an end potion still unconsumed |
| SceneSpec.DetectDrinks | src/main.rs:1054-1081 | there is one drink per consumed potion, each pairing a character with the type of a potion it overlaps; with distinct potion ids the drink list is exactly `ExpectedDrinks`: characters in list order, each drinking, in potion order, every potion it is the first listed character to overlap, so each overlapped potion is drunk once, by that character, with its own type |
| SceneSpec.NewDrinksFirst | src/main.rs:1054-1066 | when the consumed set holds exactly the potions an earlier character overlaps, a character's drinks are the potions it is the first to overlap |
| SceneSpec.DetectDrinksExact | src/main.rs:1054-1081 | with distinct potion ids, the pickup loops build exactly `ExpectedDrinks` |
| SceneSpec.DetectWithin | src/main.rs:1054-1081 | only listed potions are consumed and only listed collectables are collected |
| SceneSpec.DetectPickups | src/main.rs:1054-1081 | the nested loops compute the detection function |
| SceneSpec.DropPotions | src/main.rs:1082-1086 | the potion list keeps exactly the unconsumed entries, and ids stay distinct |
| SceneSpec.DropPotionsOrder | src/main.rs:1082-1086 | dropping potions from a concatenation drops from each part in turn, and a single entry stays exactly when its id is not consumed: the kept potions keep their order, which decides the order of later drinks |
| SceneSpec.DropPotionIds | src/main.rs:1082-1086 | an id stays in the potion list exactly when it was there and was not consumed |
| SceneSpec.EndRewrite | src/main.rs:1087-1092 | every remaining potion becomes `Relative(10, 10)`, keeping its id and end flag |
| SceneSpec.Taken | src/main.rs:1093-1098 | the collected sprites are the table's entries for exactly those ids |
| SceneSpec.DrinkAllQueues | src/main.rs:1099-1106 | after the drinks, each sprite's queue gains exactly the potions drunk by it, in order; a sprite that drank has a running countdown; others keep theirs |
| SceneSpec.DrinkLoop | src/main.rs:1099-1106 | the drinks loop computes that function |
| SceneSpec.TickAllColliders | src/main.rs:1108-1159 | the countdown pass never changes a collider |
| SceneSpec.TickAllOthers | src/main.rs:1108-1159 | sprites that are not characters are untouched |
| SceneSpec.TickAllFinal | src/main.rs:1136-1138 | during the end sequence, a character listed once whose countdown fires sets the final flag |
| World.EndTickFinal | src/main.rs:1108-1138 | in a scene whose roles hold (characters listed once), once the end sequence has started, the pass over the characters raises the final flag as soon as one character's countdown runs out |
| SceneSpec.TickLoop | src/main.rs:1108-1159 | the loop over characters applies one tick to each in list order |
| World.WorldSideUneven | src/main.rs:713-714 | the world side 40000 is not a good side, because halving it reaches 2500, which is above 64 and not a multiple of 8 |
| World.Scene.constructor | src/main.rs:712-761 | four empty maps over the world square and empty lists, id counter, score and flags |
| World.Scene.AddSprite | src/main.rs:763-768 | the sprite is stored under `next_id`, which was unused, and `next_id` grows by one |
| World.Scene.AddCollectable | src/main.rs:770-774 | the same, and the id is appended to the collectables |
| World.Scene.AddPotion | src/main.rs:776-780 | the same, and `(id, type, start_end)` is appended to the potions |
| World.Scene.AddParticle | src/main.rs:782-786 | the same, and the id is appended to the particles |
| World.Scene.AddCharacter | src/main.rs:788-792 | the same, and the id is appended to the characters |
| World.Scene.AddTerrain | src/main.rs:794-810 | the collision map gains the footprint inside it, and every terrain tile of the sprite's box is queued (layer 1) |
| World.Scene.ClearTerrain | src/main.rs:812-824 | the collision map loses the footprint through the corrected `remove_rect` (see Findings); the queue is untouched |
| World.Scene.AddForeground | src/main.rs:826-842 | the foreground map gains the footprint, and the box's tiles are queued on layer 2 |
| World.Scene.AddBackground | src/main.rs:844-860 | the background map gains the footprint, and the box's tiles are queued on layer 0 |
| World.Scene.SettleParticles | src/main.rs:1007-1047 | the collision and rubble maps both gain every settled pixel; their terrain tiles are queued; the despawned and settled particles leave the list and the sprite table |
| World.Scene.Pickups | src/main.rs:1050-1106 | consumed potions leave the list and the table; `start_end` raises the end flag and rewrites the rest; collected collectables move to `collected`, one point each; `done` is updated; each drinker gets its drink; the invariant is kept |
| World.ApplyPickups | src/main.rs:1082-1106 | the removals and drinks keep every role list consistent with the table |
| World.Scene.TickCharacters | src/main.rs:1108-1159 | the countdown pass over the characters, keeping the invariant |

## Left out

- Rendering is left out: `Sprite::image`, `Scene::draw`, the tile cache contents and the cache warmer. So is `sprite_cache`. These are graphics.
- `tile_cache` is left out. It is only invalidated alongside the queue, and `clear_terrain` only touches it.
- The tile queue is an `IndexSet`, modelled as a set. Its insertion order is not modelled.
- Sprite sheet loading, map parsing, input, timers, the camera and the app loop are left out. They are I/O.
- The float physics sweep is left out: gravity, friction, the sleep timer and distance culling. It is `f32` arithmetic.
  - Its outcomes enter as sprite fields: `groundContact`, and `sleepTimer` as a `real`.
- The player's corner-escape vote is left out. It runs inside that float sweep.
- `Sprite::overlap` is a parameter of the pickup pass. It relies on float rectangles.
- Carving is left out: the radius test, the debris velocities and the 300-particle cap. It is float geometry.
- Potions.TickSpec: the re-anchoring moves the integer location by the integer amounts `8·Δx_scale` and `16·Δy_scale + 8`. The source subtracts them from the `f32` `loc` and casts at each use, so the two differ when `loc` is negative and fractional. The carving that follows a growth step is left out (see above).
- Sprites.Quarter: the location is moved on the integer location by `7·scale`. The source adds in `f32` and casts at each use, so for a negative fractional `loc.x` (-0.5, scale 1) the source gives 6 and the model 7.
- The `i32`/`u32` widths are left out. Coordinates, counters and the score are unbounded integers, so overflow is not modelled.
- World.Scene.constructor: `Scene::new` builds its maps with side 40000, which never halves to a 64-pixel leaf (see `World.WorldSideUneven`).
  - On such a side the children overlap and the counter invariant does not hold.
  - So the constructor takes the world side as a parameter and requires a good side (see `TreeLemmas.NewValid`).
- The quadtree operations require a valid tree: a square node whose side is a good side, that is a positive multiple of 4 that halves exactly, through multiples of 8, down to at most 64. `CollisionTree::new` also accepts other sizes, which the model does not cover.
- Collision.RemoveCoveredAsWritten: only the full-cover branch of `remove_rect` is modelled as written. The recursion, and so `clear_sprite` and `clear_terrain`, use the corrected branch; the as-written recursion, whose stale counter then makes `check_point` (main.rs:425-426) answer solid where nothing is stored, is not modelled.
- World.Scene.SettleParticles: the source does the collision map, the rubble map and the queue in one pass over each pixel. The model does each structure in its own pass, which reaches the same final state.
- The despawn test `loc.y > 30000.0` is made on the integer `locY`.
- World.Scene.Pickups: the source's loops over the `consumed` and `collected` hash sets are modelled as set-based retains. Their iteration order does not change the result.

## Findings

| source | as written | input that shows it | evidently intended | confidence | as-written member | corrected member |
|---|---|---|---|---|---|---|
| src/main.rs:568-576 | the full-cover branch of `remove_rect` drops children and grid but keeps `free_pixels` | a full 64×64 leaf at (0, 0) with `free_pixels == 0`, and `remove_rect(-1, -1, 66, 66)`: the node keeps `free_pixels == 0` with neither grid nor children, so its counter disagrees with its storage and it is no longer valid (proved); `check_point` tests `free_pixels == 0` first (main.rs:425-426), so it would then answer solid across the node, which the proof does not cover | reset `free_pixels` to the full area, as `clear` does | not executed | Collision.RemoveCoveredCounterexample | Collision.RemoveRect |
