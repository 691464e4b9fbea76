# NinjaFruit game-state model

This project models the frame-by-frame game state of the text-mode NinjaFruit game
(`game.c`). The state is a fixed table of 20 object slots plus an integer score. Each
slot holds a position, a falling speed, an on-screen flag, a type (four fruits or a
bomb) and a sliced flag. Three passes change the state in place:

- a slice at a point marks the objects it hits, then adds a point per fruit and takes
  ten off per bomb;
- a physics step moves every on-screen object down by its speed and takes it off
  screen once it is below the bottom edge; each unsliced fruit lost like this costs a
  point;
- a spawn pass fills the first free slot whose random draw fires.

The main loop also counts the on-screen slots.

The model has three modules:

- `Objects` (`objects.dfy`) holds the slot record, the game's constants, and what each
  pass does to one slot.
- `Rules` (`rules.dfy`) holds each pass over the whole table as a function of the
  table's contents, the counts that drive the score, and lemmas about them.
- `NinjaFruit` (`game.dfy`) holds the class `Game`. It keeps the table as an
  `array<GameObject>` and the score as a field. Its methods run the source's loops in
  place, and each is proved against the matching `Rules` function.

The class invariant `Valid` says the table has 20 slots and that every on-screen slot
is within the screen:

- `0 <= x < 800`;
- `0 <= y <= 600`;
- `2 <= velocity <= 6`.

Start-up, slicing, the physics step and spawning all keep this invariant.

The C flags `active` and `sliced` are modelled as `bool`, because the code only ever
stores 0 or 1 in them and only tests whether they are set. Calls to `rand()` become
parameters. `SpawnStep` takes `rolls[i]`, the value drawn when free slot `i` is
tested, and a `SpawnDraws` record holding the draws that follow a firing test: x, then
speed, then the bomb test, then the fruit kind. All of these are `nat`, since `rand()`
never returns a negative number, so Dafny's `%` agrees with C's here.

`game.h` declares a deadlock-detector record and functions (game.h:86-98,
game.h:161-166), but `game.c` has no code for them, so the detector is not modelled.

## Model

| member | source | states |
|---|---|---|
| `Objects.FruitOfOrdinal` | game.c:21-28 | a fruit ordinal below FRUIT_TYPES becomes the enumerator with that value, and that enumerator is never BOMB |
| `Objects.Spawned` | game.c:101-115 | a freshly spawned slot is active, at y = 0 and unsliced, with 0 <= x < SCREEN_WIDTH and 2 <= velocity <= 6; it is a bomb exactly when the bomb draw is divisible by BOMB_CHANCE, and otherwise a fruit with ordinal below FRUIT_TYPES |
| `Objects.DistanceFitsInt32` | game.c:142-146 | for an on-screen object and an on-screen slice point, the squared distance is non-negative and below 2^31, so C's `int` arithmetic does not overflow there |
| `Rules.ActiveCountIsSlotCount` | game.c:346-355 | counting the on-screen slots one by one gives the size of the set of on-screen slot indices |
| `Rules.SliceAll` | game.c:137-148 | after a slice, a slot is sliced exactly when it was already sliced or it was active, unsliced and strictly within squared distance 900; every other field of every slot is unchanged |
| `Rules.NoHitsScoreNothing` | game.c:139-159 | when a slice hits no slot, it counts no fruit and no bomb, so the score does not move |
| `Rules.SliceAgainChangesNothing` | game.c:137-162 | slicing a second time at the same point changes no slot and hits no fruit and no bomb, so the score is unchanged |
| `Rules.FruitHitsIsSlotCount` | game.c:146-157 | the fruit-hit count equals the size of the set of slots holding a fruit the slice hits |
| `Rules.BombHitsIsSlotCount` | game.c:146-153 | the bomb-hit count equals the size of the set of slots holding a bomb the slice hits |
| `Rules.HitsSplitByKind` | game.c:146-158 | fruit hits plus bomb hits equals the size of the set of slots hit, so every hit is scored exactly once |
| `Rules.UpdateAll` | game.c:172-182 | a physics step adds exactly its velocity to the y of every slot active at entry, and that slot stays active exactly when the new y <= SCREEN_HEIGHT; x, velocity, type and sliced never change, and slots inactive at entry are untouched |
| `Rules.UpdateRemovesLeaving` | game.c:174-182 | after a physics step the on-screen count is the old count minus the number of objects that fell past the bottom edge, so no slot comes on screen |
| `Rules.MissedCountIsSlotCount` | game.c:180-188 | the missed-fruit count equals the size of the set of slots holding an unsliced fruit that leaves the screen |
| `Rules.MissedAmongLeaving` | game.c:180-188 | only objects that leave the screen cost a point; when every leaving object is a bomb or already sliced, the penalty is zero |
| `Rules.FirstFiring` | game.c:94-99 | the slot chosen is free, its draw is divisible by 30, and no lower slot is both free and firing; when no slot is chosen, no slot is both free and firing |
| `Rules.SpawnPass` | game.c:94-117 | a spawn pass changes a slot exactly when it is the lowest free slot whose draw fires, and that slot becomes the freshly spawned object; every other slot is kept |
| `Rules.SpawnFillsAtMostOne` | game.c:94-117 | any two slots changed by a spawn pass are the same slot |
| `Rules.SpawnActiveCount` | game.c:94-117 | a spawn pass raises the on-screen count by exactly one when some free slot fires, and otherwise leaves it unchanged |
| `NinjaFruit.Game.constructor` | game.c:57-69 | the game starts with 20 slots, all inactive, zero on screen, and a score of zero |
| `NinjaFruit.Game.HandleSlice` | game.c:133-165 | the table becomes `SliceAll` of the old table; the score rises by one per fruit hit and falls by ten per bomb hit; the class invariant is kept |
| `NinjaFruit.Game.UpdateGame` | game.c:168-195 | the table becomes `UpdateAll` of the old table; the score falls by one per unsliced fruit taken off screen; the class invariant is kept |
| `NinjaFruit.Game.SpawnStep` | game.c:91-123 | the table becomes `SpawnPass` of the old table for the given draws, the score is untouched, and the class invariant is kept |
| `NinjaFruit.Game.CountActive` | game.c:346-355 | the count returned equals the number of active slots, both as `ActiveCount` and as the size of the set of active slot indices |

## Left out

- The mutex, the spawner thread, the `while (running)` loops and `usleep` (game.c:88-127, game.c:331-360) exist only for concurrency and pacing. Each pass is modelled as one atomic sequential step.
- `rand()` and `srand()` (game.c:63, game.c:99-114, game.c:285-286, game.c:337) are not modelled. Their results are method parameters.
- `simulatePlayerInput` (game.c:283-288) only draws a random point and calls `handleSlice`. `HandleSlice` takes any point.
- `signalHandler`, `saveScore`, `processSpawner` and `checkPowerUps` (game.c:198-315) do signal handling, file I/O, `fork`/`pipe`/`fcntl`/`read`/`write` and printing only.
- The `pipe` call and the signal installation in `initGame` (game.c:72-79) are operating-system setup. They are not modelled.
- All `printf` output is left out.
- The declarations in game.h are left out: the SDL window, renderer and audio types, the floating-point `GameObject`/`SlicePiece` of a later version, the leaderboard and the drawing prototypes. They are presentation and floating point, with no bodies.
- The deadlock detector (game.h:86-98, game.h:161-166) is only declared, with no bodies, so its behaviour cannot be taken from the code.
- C `int` overflow is not modelled: fields and the score are unbounded integers. `DistanceFitsInt32` shows that the squared distance cannot overflow for on-screen points under the class invariant, and for on-screen objects `y + velocity` is at most 606. A score that drifts past the 32-bit range after billions of events is not captured.
