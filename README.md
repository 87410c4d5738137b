# Soar: cave generator, player and coins in Dafny

Soar is a side-scrolling arcade game. A player flies through a procedurally
generated cave, collects coins and must not touch the cave walls. This
project models the game logic that works on integer rectangles and lists:

- **`pylib.dfy` (`PyLib`).** The Python built-ins the game leans on:
  - `int(a / b)`, which truncates toward zero;
  - `round` of a quotient, with ties to even;
  - list slicing, with negative and clamped bounds;
  - `list.remove`, which deletes the first equal entry;
  - `random.randint` and `random.choice`, whose randomness arrives as an
    injected choice index.
- **`rects.dfy` (`Rects`).** The part of pygame's `Rect` the game uses:
  - `colliderect`, a strict overlap;
  - `collidepoint`, half-open;
  - `move`;
  - `inflate`, with C division;
  - the edge setters.
- **`background.dfy` (`Background`).** `background.py`:
  - the star field `Starscape._generate`;
  - `CavePiece`;
  - the corridor generator `Cave`: construction, scrolling, retiring the
    oldest piece, extending with a new piece, and the wall-hit test on the
    player's four corners.
- **`game.dfy` (`Game`).** `main.py`:
  - the `Player`: its angle with rollover, axis-separated move-and-snap
    against walls, and the decaying trail;
  - `Coin`;
  - `CoinManager`: scrolling, pickup, retirement and spawning of coins.

`Cave`, `Starscape`, `Player` and `CoinManager` are classes whose methods
change their fields. The entities inside their lists are values: pieces,
stars, coins and trail rectangles. Each method is proved against a
specification function of its old state:
- the corridor's construction against `Prefill`, and its operations
  against `NewPiece`, `Shifted`, `AfterDelete` and `AfterSpawn`;
- the wall-hit test against `WallHit`;
- the trail loop against `TailPass` and `TailStep`;
- the coin loop against `CoinPass` and `CoinStep`.

Lemmas then prove what the game relies on about those functions:
- the corridor stays contiguous, shaped and smooth;
- the angle stays in range;
- a snap leaves the player touching the wall;
- the trail stays sized;
- every coin is kept, picked up or retired, exactly once.

Angles are integer hundredths of pi, so the source's `0.5` is `50`. The
steps are `-1` for gravity and clockwise turns and `+2` for anticlockwise
turns, and a full turn is `200`.

In a few places the code behaves differently from what a reader of the
game would expect; the model follows the code:

- **Angle range.** A half-open angle range `[0, 2)` would be the natural
  reading of the rollover. The code resets an angle at or below 0 to
  exactly 2, so the closed range `[0, 2]` is what holds (`Rollover`).
- **Skipped entries.** One would expect every trail rectangle and every
  coin to be translated each tick. The code removes entries from the list
  it is iterating, so the entry that follows a removed one is skipped: it
  is neither moved nor examined on that tick. The model reproduces the skip
  (`TailStep`, `TailPass`, `CoinStep`, `CoinPass`).
- **Empty lists.** Retiring from an empty piece list is not a no-op. The
  code indexes `pieces[0]` and `pieces[-1]`, which raises.
  The model returns `Err(IndexError)` (`Cave.CheckDelete`, `Cave.CheckSpawn`,
  `Cave.Update`, `CoinManager.Spawn`).
- **Smoothness.** One-step smoothness of the top row holds when a piece is
  spawned (`NewPieceSteps`). It is not an invariant of the list: after a
  vertical scroll, truncating `y / size` toward zero can put two neighbours'
  rows two apart (`ScrollCanSeparateRows`). The invariant kept across
  scrolling is therefore stated in pixels (`Follows`).
- **Coin height range.** A coin's `y` includes the piece's bottom edge,
  because `randint` is inclusive (`SpawnedCoin`).

## Model

| member | source | states |
|---|---|---|
| PyLib.TruncDiv | background.py:102 | `int(a / b)` for a positive divisor: the quotient truncated toward zero, bracketed from below for `a >= 0` and from above for `a < 0` |
| PyLib.TruncDivOfMultiple | background.py:107 | `int(size * g / size)` gives back `g`, so a piece's gap in cells is recovered exactly from its height |
| PyLib.RoundHalfEven | background.py:57 | `round(n / d)` lies within half a divisor of `n / d`, and ties go to the even neighbour |
| PyLib.RandInt | background.py:94 | `randint(lo, hi)` always lies in the closed range `[lo, hi]` |
| PyLib.RandIntOnto | background.py:94 | every value of `[lo, hi]` is produced by some choice index, so no outcome of `randint` is lost |
| PyLib.Choice | background.py:27 | `random.choice(s)` returns a member of `s` |
| PyLib.SliceIndex | background.py:123 | a non-negative slice bound `i` denotes position `min(i, n)`; a negative one counts from the end, `n + i`, and is clamped to 0 when it reaches past the start |
| PyLib.Slice | background.py:123 | `s[lo:hi]` for any integer bounds: the bounds are resolved by `SliceIndex` and the slice is empty when they cross. `SliceOfNonNegative` gives its value for non-negative bounds |
| PyLib.SliceOfNonNegative | background.py:123 | a slice with non-negative bounds is empty when it starts past the end, the plain subsequence when in range, and the suffix when it runs past the end |
| PyLib.FirstIndex | main.py:96 | `list.remove(x)` deletes the position of the first entry equal to `x`, and no earlier entry equals `x` |
| Rects.Rect.Inflate | main.py:94 | `inflate(dx, dy)` changes the width by `dx` and the height by `dy` and keeps the centre in place up to half a pixel in each axis (the corner moves by half the change, with C division) |
| Rects.Rect.CollideRect | main.py:80 | `colliderect` as a strict overlap of the two interiors. `SharedEdgeDoesNotCollide`, `CoinManager.CheckDeleteOffScreen` and `PickupScenario` state its cases |
| Rects.Rect.CollidePoint | background.py:124-131 | `collidepoint` as half-open containment, the left and top edges in, the right and bottom edges out. `PrefixCoveredAt`, `ShortCaveHits` and `CornersInsideGapDoNotHit` rely on it |
| Rects.Rect.Move | main.py:75-76 | `move` and `move_ip` translate and keep the size. `AxisMovesKeepSize` and `ShiftKeepsWellFormed` state what follows from it |
| Rects.Rect.WithRight | main.py:82 | setting `right` puts the right edge on the value and keeps `y`, width and height |
| Rects.Rect.WithLeft | main.py:84 | setting `left` puts the left edge on the value and keeps the size. `SnapLeavesWall` states the snap it performs |
| Rects.Rect.WithBottom | main.py:86 | setting `bottom` puts the bottom edge on the value and keeps `x`, width and height |
| Rects.Rect.WithTop | main.py:88 | setting `top` puts the top edge on the value and keeps the size. `SnapLeavesWall` states the snap it performs |
| Rects.SharedEdgeDoesNotCollide | main.py:80 | rectangles that only share an edge do not collide |
| Background.MakeStar | background.py:25-32 | a star is a white square of size 2, 3 or 4 whose corner lies within the boundary's width and height, ends included |
| Background.CavePiece.Move | background.py:45-46 | rebinding the piece's rectangle to its translated copy; the colour is kept. `ShiftKeepsWellFormed` and `Cave.Move` state what follows from it |
| Background.Starscape.constructor | background.py:17-20 | builds exactly 350 stars, the i-th made from the i-th draw |
| Background.Starscape.Generate | background.py:22-33 | `_generate` replaces the stars with one star per draw, in order |
| Background.MakeConfig | background.py:54-64 | the constructor's attributes: `scale` as two rounded quotients, gap limits 10 and `rows - 2`, piece difference 1. `Cave.constructor` proves the configuration valid whenever `rows >= 12` |
| Background.GapSize | background.py:107 | `int(height / size)`, the gap in cells. `TruncDivOfMultiple` recovers the gap exactly from a piece's height, and `NewPieceShape` states it lies within the limits |
| Background.TopRow | background.py:102 | `int(y / size)`, the row of the top edge, truncated toward zero. `NewPieceSteps` states the row step at spawn time and `ScrollCanSeparateRows` what scrolling does to it |
| Background.Clamp | background.py:110-113 | the clamped gap lies in `[gap_minimum, gap_maximum]` and is unchanged when already inside |
| Background.ClampTowards | background.py:110-113 | clamping never moves a value farther from any point inside the range |
| Background.Difference | background.py:103-104 | the row step, after the random sign, is at most `piece_difference` in size |
| Background.NewPiece | background.py:91-118 | `spawn_cave`'s new piece: the first centred at the boundary's right edge, later ones one row step from the previous piece with a clamped gap. `NewPieceShape`, `FirstPieceCentred` and `NewPieceSteps` pin it down |
| Background.NewPieceShape | background.py:91-118 | every spawned piece is `size` wide, `size * gap` tall with the gap in `[gap_minimum, gap_maximum]`, in the cave colour, and starts at the previous piece's right edge (the first at the boundary's right edge) |
| Background.FirstPieceCentred | background.py:92-96 | the first piece is vertically centred: the walls above and below it differ by at most one pixel |
| Background.NewPieceSteps | background.py:99-113 | a later piece's top edge is on the cell grid, its row is within `piece_difference` of the previous row, and when the previous gap is within the limits the gap moves by no more than the row does (unchanged row, unchanged gap) |
| Background.NewPieceFollows | background.py:99-117 | a spawned piece follows the previous one: contiguous, gap within one cell, top edge within two cells |
| Background.AppendKeepsWellFormed | background.py:91-118 | appending a spawned piece keeps the corridor contiguous, shaped and smooth |
| Background.PrefillRound | background.py:68-70 | one round of the constructor's loop: spawn, then shift every piece one column left. `PrefillRoundKeeps` and `PrefillRoundRows` state what it keeps |
| Background.Prefill | background.py:67-70 | the pieces the constructor leaves, one round per draw in order. `PrefillShape` and `PrefillFirstCentred` pin it down |
| Background.AppendKeepsRowSteps | background.py:99-113 | spawning keeps every piece but the first on the cell grid, one row step from its neighbour, with a gap that moves by no more than the row |
| Background.HorizontalShiftKeepsRows | background.py:68-70 | a horizontal shift keeps every top edge and height, so the row smoothness holds after it |
| Background.PrefillRoundKeeps | background.py:67-70 | one constructor round adds one piece and keeps the corridor well formed and tiled in columns ending at the boundary's right edge |
| Background.PrefillRoundRows | background.py:67-70 | one constructor round keeps the row smoothness and keeps the first piece's top edge and height |
| Background.PrefillShape | background.py:67-70 | after construction there is one piece per draw; the corridor is well formed, tiled, and row-smooth (grid-aligned top edges, neighbouring rows at most `piece_difference` apart); the oldest piece has the top edge and height of the first spawn |
| Background.PrefillFirstCentred | background.py:92-96 | right after construction the oldest piece is the centred first spawn: the walls above and below it differ by at most one pixel |
| Background.ShiftKeepsWellFormed | background.py:79-81 | translating every piece by one vector keeps the corridor well formed |
| Background.Shifted | background.py:79-81 | `move`: every piece translated by the same vector, in order. `ShiftKeepsWellFormed` and `HorizontalShiftKeepsRows` state what it keeps, and `Cave.Move` is proved equal to it |
| Background.ScrollCanSeparateRows | background.py:102 | two well-formed neighbours one row apart, scrolled up by 15 pixels with size 20, stay well formed but their truncated rows end up two apart |
| Background.AfterDelete | background.py:83-85 | `check_delete` on a non-empty list. `DeleteKeepsWellFormed` states that it removes exactly the oldest piece when that piece has left the boundary, else nothing, and `Cave.CheckDelete` is proved equal to it |
| Background.DeleteKeepsWellFormed | background.py:83-85 | retirement drops exactly the first piece when it no longer overlaps the boundary, else nothing; the rest keep their order and the corridor stays well formed |
| Background.AfterSpawn | background.py:87-89 | `check_spawn` on a non-empty list: one `NewPiece` appended exactly when the newest piece overlaps the boundary. `AppendKeepsWellFormed` keeps the corridor well formed across it, and `Cave.CheckSpawn` is proved equal to it |
| Background.Band | background.py:123 | the inspected pieces `pieces[int(cols * 0.3):int(cols * 0.6)]`. `ShortCaveHits` states the empty band, and `Cave.CheckWallHit` scans exactly it |
| Background.Corners | background.py:124-131 | the player's `topleft`, `topright`, `bottomleft` and `bottomright`, in that order. `WallHit` and `ScanCorners` use them, and `CornersInsideGapDoNotHit` states when all four are covered |
| Background.ShortCaveHits | background.py:120-134 | a cave no longer than the band's start yields an empty band, and the test then reports a hit |
| Background.UncoveredCornerHits | background.py:124-133 | a top-left corner contained in no inspected piece is a hit |
| Background.WallHit | background.py:120-134 | the reference for the wall-hit test: some corner of the player lies in no piece of the band. `ScanCorners` is proved equal to it, and `ShortCaveHits`, `UncoveredCornerHits` and `CornersInsideGapDoNotHit` state its cases |
| Background.CornersInsideGapDoNotHit | background.py:120-134 | no hit when inspected pieces contain both left corners and both right corners in their gaps |
| Background.ScanCorners | background.py:121-134 | the corner scan over the band reports a hit exactly when some corner of the player lies in no piece of the band |
| Background.PrefixCoveredAt | background.py:123-131 | after the first `n` pieces a corner's mark is set exactly when one of those pieces contains the corner |
| Background.PrefixCoveredAll | background.py:123-131 | after the whole band a corner's mark is set exactly when some piece of the band contains it |
| Background.Cave.constructor | background.py:53-70 | builds exactly `round(width / size)` pieces, the i-th at x `right - (n - i) * size`; the pieces are exactly `Prefill` of the first `n` draws, and the corridor is well formed |
| Background.Cave.Build | background.py:67-70 | the constructor's loop of spawn-then-shift-left leaves exactly `Prefill` of the first `length` draws: one piece per round, tiled in columns ending at the boundary's right edge, and the corridor well formed |
| Background.TiledRound | background.py:68-70 | a piece spawned at the tiling's right end followed by a shift of one column left gives a tiling again |
| Background.Cave.SpawnCave | background.py:91-118 | appends exactly the piece `NewPiece` describes and keeps the corridor well formed |
| Background.Cave.Move | background.py:79-81 | every piece is translated by the movement, the order is kept and the corridor stays well formed |
| Background.Cave.CheckDelete | background.py:83-85 | on a non-empty list retires at most the oldest piece as `AfterDelete` says; on an empty list raises `IndexError` and changes nothing |
| Background.Cave.CheckSpawn | background.py:87-89 | on a non-empty list appends one piece exactly when the newest overlaps the boundary; on an empty list raises `IndexError` |
| Background.Cave.CheckWallHit | background.py:120-134 | returns true exactly when some corner of the player lies in no piece of `pieces[int(0.3 cols):int(0.6 cols)]` |
| Background.Cave.Update | background.py:72-77 | scroll, retire, extend, then the wall-hit test on the new list; raises `IndexError` exactly when the list is or becomes empty |
| Game.Rollover | main.py:57-62 | the angle after rollover lies in `[0, 2]`; it is unchanged exactly when strictly inside, reset to 2 at or below 0, and to 0 at or above 2 |
| Game.TurnStaysInRange | main.py:46-55 | from `[0, 2]` a clockwise or anticlockwise step stays in `[0, 2]` and, away from the limits, moves by exactly the step |
| Game.RolloverResets | main.py:50-62 | 1.99 + 0.02 becomes 0, not the 0.01 a modular wrap would give; 0.01 - 0.01 becomes 2 |
| Game.SnapAll | main.py:79-88 | the wall loop of `move_single_axis`: snap against each wall in list order. `SnapAllKeepsShape` and `SnapAllAbutsWall` pin it down |
| Game.AxisMoves | main.py:64-69 | `move`'s two axis moves, each only when non-zero. `AxisMovesKeepSize` pins it down |
| Game.Snap | main.py:80-88 | one wall of `move_single_axis`: on overlap, the leading edge is set to the wall's facing edge. `SnapLeavesWall` states that the player then touches the wall without overlapping it |
| Game.SnapLeavesWall | main.py:80-88 | after a one-axis snap the player no longer overlaps that wall, and its leading edge lies on the wall's facing edge |
| Game.SnapAllKeepsShape | main.py:73-88 | moving along one axis keeps width and height and never changes the other axis |
| Game.SnapAllAbutsWall | main.py:79-88 | after the wall loop the player is where the move put it, or its leading edge lies on the facing edge of one of the walls |
| Game.AxisMovesKeepSize | main.py:64-69 | `move` keeps the player's size, and a zero move leaves the rectangle unchanged |
| Game.TailStep | main.py:91-96 | the closed form of the trail loop: each entry decayed and kept if still sized, and the entry after a removed one passed over unchanged. `TailStepSized`, `TailStepEntries` and `TailStepWithoutRemoval` pin it down |
| Game.Decayed | main.py:93-94 | `move_ip` then `inflate_ip(-decay, -decay)`: the entry shrinks by `decay` in each axis and stays centred on its translated position up to half a pixel |
| Game.TailPass | main.py:91-96 | the trail loop as it runs on the list it mutates, the iterator moving on after every visit. `TailPassShrinks` and `TailPassIsTailStep` pin it down |
| Game.TailStepSized | main.py:90-96 | the trail loop never lengthens the trail, and a trail of sized entries stays sized |
| Game.TailStepEntries | main.py:91-96 | each remaining entry is either a visited entry, translated, shrunk and still sized, or the entry right after a removed one, left unchanged |
| Game.TailStepWithoutRemoval | main.py:91-96 | when no entry falls below the decay, every entry is translated and shrunk, in order |
| Game.TailVisit | main.py:91-96 | one visit translates and shrinks the entry in place and removes the first equal entry when it is too small, so the trail never grows |
| Game.TailPassAfterKeep | main.py:91-96 | a visit that keeps the entry just after a settled prefix replaces it by its decayed copy and moves the iterator past it |
| Game.TailPassAfterDrop | main.py:91-96 | a visit that removes the entry just after a settled prefix, none of whose entries equals the decayed copy, deletes the visited entry itself and moves the iterator past the entry behind it |
| Game.TailPassShrinks | main.py:91-96 | the loop over the mutated list never lengthens it |
| Game.TailPassIsTailStep | main.py:91-96 | on a trail of sized entries, removing the first equal entry always removes the one just visited, so the loop yields `TailStep` with its skip |
| Game.TailPassFromStart | main.py:91-96 | the whole loop from the first entry of a sized trail yields `TailStep` |
| Game.TrailAfterPass | main.py:90-98 | after the loop and the append the trail is at most one longer, equals `TailStep` on a sized trail, and is sized again when the player is |
| Game.Player.constructor | main.py:24-32 | a player starts at angle 0.5, speed 10, an empty trail and decay 1 |
| Game.Player.Update | main.py:34-41 | `update` leaves the rectangle in place, applies one gravity step, returns the displacement, and the trail becomes the loop's result (`TailPass`) for the negated displacement with the player's rectangle appended; on a sized trail that is `TailStep`'s result |
| Game.Player.ApplyGravity | main.py:43-44 | one clockwise step of 0.01 with rollover |
| Game.Player.MoveClockwise | main.py:46-48 | the angle becomes the rollover of angle plus amount |
| Game.Player.MoveAnticlockwise | main.py:50-52 | the angle becomes the rollover of angle plus amount |
| Game.Player.MoveAngle | main.py:54-55 | the angle grows by the amount, nothing else changes |
| Game.Player.RolloverAngle | main.py:57-62 | the angle becomes its rollover |
| Game.Player.Move | main.py:64-71 | x axis first, then y axis, each only when non-zero, then one gravity step; the trail invariant is kept |
| Game.Player.MoveSingleAxis | main.py:73-88 | translates, then snaps against each wall in list order (later walls override earlier ones) |
| Game.Player.UpdateTail | main.py:90-98 | the trail becomes the loop's result plus a copy of the player's rectangle, grows by at most one, equals `TailStep` (with the skip) when all old entries are sized, and stays sized whenever the player is |
| Game.Player.DecayTail | main.py:91-96 | the `for` loop over the mutated trail leaves exactly what `TailPass` describes |
| Game.Player.VisitTail | main.py:93-96 | one loop body: the entry at the iterator is translated and shrunk in place, and the first equal entry is removed when it is too small |
| Game.Coin.Move | main.py:112-113 | rebinding the coin's rectangle to its translated copy. `CoinStepWithoutRemoval` and `CoinStepKept` state what the pass does with it |
| Game.Coin.CheckCollide | main.py:115-118 | a strict overlap of the coin with the player. `PickupScenario` states a case |
| Game.CoinStep | main.py:133-141 | the closed form of the coin loop: kept coins, pickups and retirements, with the coin after a removed one passed over unmoved. `CoinStepConserves`, `CoinStepKept` and `CoinStepWithoutRemoval` pin it down |
| Game.CoinPass | main.py:133-141 | the coin loop as it runs on the list it mutates. `CoinPassIsCoinStep` connects it to `CoinStep` |
| Game.CoinPassIsCoinStep | main.py:133-141 | the loop over the mutated list, removing the visited coin and advancing the iterator, yields `CoinStep` with its skip |
| Game.CoinStepConserves | main.py:133-141 | every coin is exactly one of kept, picked up or retired |
| Game.CoinStepKept | main.py:133-141 | a remaining coin comes from some position `k` of the old list: it is that coin moved, still overlapping the boundary and missing the player, or that coin unmoved because the coin at `k - 1`, once moved, was picked up or had left the boundary |
| Game.CoinStepWithoutRemoval | main.py:133-141 | when no coin is picked up or leaves the screen, all are moved and kept in order and the score is zero |
| Game.PickupScenario | main.py:133-138 | a coin lying exactly over the player is counted once and removed |
| Game.SpawnedCoin | main.py:160-165 | a spawned coin sits at the newest piece's x with `y` in `[piece.top, piece.bottom]`, one cell square, in coin colour |
| Game.CoinManager.constructor | main.py:125-128 | starts with no coins and the given boundary |
| Game.CoinManager.CheckDelete | main.py:153-155 | truthy exactly when the coin no longer overlaps the boundary. `CheckDeleteOffScreen` states its two cases |
| Game.CoinManager.CheckDeleteOffScreen | main.py:153-155 | a coin fully past the left edge is retired; a coin of positive size inside the boundary is not |
| Game.CoinManager.MoveCoins | main.py:133-141 | the coins become the survivors of the pass and the returned score is the number of pickups |
| Game.CoinManager.Update | main.py:130-146 | the score is the number of coins picked up, the survivors are kept, a spawned coin is appended when spawning, the count grows by at most one, and spawning from an empty cave raises `IndexError` |
| Game.CoinManager.Spawn | main.py:160-166 | appends exactly one coin as `SpawnedCoin` describes, or raises `IndexError` on an empty cave |

## Left out

- Drawing is not modelled, because it is rendering: every `draw` method, the window, the event loop, key input, printing and screenshots in `main()`.
- The `sin`/`cos` displacement in `Player.update` is not modelled, because it is floating-point numerics. The displacement is an integer input vector instead.
- The float `distance` is not modelled, for the same reason.
- The angle is exact in hundredths of pi, so float drift is not modelled: adding 0.02 and -0.01 to the float angle can leave it near 6e-17 rather than 0, where the code's `<= 0` test misses a reset that the model performs.
- The random source (`random.randint`, `random.choice`, `random.random`) is replaced by injected choice indices. `RandIntOnto` shows they reach every value.
- The coin spawn chance of 0.02 is not modelled. Its outcome is a boolean input.
- The band fractions `0.3` and `0.6` are modelled as `cols * 3 / 10` and `cols * 6 / 10` with truncation. The float products could round differently for very large `cols`.
- The first piece's half-row `round(leftover) / 2` is modelled as `y = leftover * size / 2` truncated toward zero. This is exact when `size` is even, as it is in the game (20).
- pygame's truncation of float coordinates is not modelled. Trail moves by a float displacement and rectangles made from floats become integer moves.
- `Player.vector` is not modelled, because nothing reads it.
- `Player.update`'s unused `objects` argument is kept but has no effect, as in the code.
- Background.Cave.constructor: requires `rows >= 12`. With fewer rows and at least one column the first `randint(gap_minimum, gap_maximum)` raises `ValueError`; with fewer rows and no columns the code builds an empty cave. Neither case is modelled.
- Background.Cave.constructor: requires `size > 0`. With `size == 0` the code raises `ZeroDivisionError`, and that error path is not modelled.
- Background.Cave.constructor: requires at least one draw per column, because the model's random draws are injected.
- Background.Starscape.constructor: requires a boundary of non-negative size, which `randint(0, width)` needs, and exactly 350 injected draws.
- Background.Cave.CheckWallHit: takes the player's rectangle rather than the player object. It reads only `player.rect`.
- Game.Player.MoveSingleAxis: takes the walls as rectangles. The code reads `wall.rect` from each object.
- pygame stores a `Rect`'s coordinates as C ints, while the model's coordinates are unbounded integers. The top row of a piece is never clamped, so a long vertical drift of the cave would leave pygame's range; that overflow is not modelled.
- Pieces, stars, coins and trail rectangles are modelled as values, not shared objects. Nothing outside their owning list holds a reference to them, so aliasing is not captured.
- Game.Player.UpdateTail: is characterised exactly only by `TailPass`. The closed form `TailStep` is proved only when every old entry is sized. That always holds while the player's rectangle is sized (`Player.Valid`).
- The expectation that a 50 by 50 trail rectangle is discarded within 50 ticks is not proved. The skip can delay an entry's decay, so the bound is a property of long runs of ticks that the model does not state.
- Coins are removed by identity in the code, since `Coin` defines no equality. Every spawn creates a new object, so removal by identity is removal at the current index, and that is how the model removes coins.
- The game loop in `main()` is not modelled. It ties the player's displacement to `Cave.update` and `CoinManager.update`.
