# Alien Invasion: the game-state bookkeeping, in Dafny

This project models the controller of a small arcade shooter, the
`AlienInvasion` class of `alien_invasion.py`, with the pygame drawing, event
polling and process exit removed. What remains is an integer state machine:

- the **bullet group**, capped at `bullets_allowed` live bullets, pruned of
  bullets whose bottom edge has left the top of the screen;
- the **alien fleet**, laid out as a grid by `_create_fleet` / `_create_alien`,
  dropped and turned around by `_change_fleet_direction`;
- the **score**, raised by `_check_bullet_alien_collisions`, which also clears
  the bullets and rebuilds the fleet once every alien is gone;
- the **game-over** checks of `_update_aliens` / `_check_aliens_bottom`;
- the ship's **movement flags**, set and cleared by the key handlers.

Files and modules:

- `layout.dfy`, module `Layout`: the fleet geometry as functions (`ColumnCount`,
  `RowCount`, `Placement`, `Row`, `Grid`, `FleetLayout`) and lemmas on its size,
  row-major order, bounds and distinct positions.
- `groups.dfy`, module `Groups`: the group operations as functions. `Survivors`
  is the pruning filter. `Without` removes members by index. `WellFormedHits` and
  `HitAliens` give the shape of a `groupcollide` result.
- `game.dfy`, module `Invasion`: the class `AlienInvasion`. Its fields are the
  bullets, aliens, score, fleet direction, movement flags, game-over flag and a
  count of speed increases. Each method of `alien_invasion.py` in scope is a
  method here, with loops where the Python code loops. The methods that touch
  the fleet or the groups are proved against the functions of `Layout` and
  `Groups`; the key handlers, firing and the fleet drop state their new fields
  directly. `Valid()` is the class invariant. It holds the bullet cap,
  the ±1 fleet direction and a score that is a non-negative multiple of 10.

`Layout.ReachedBottom` (the test of alien_invasion.py:92) and `Groups.HitAliens`
(the aliens a `groupcollide` result destroys) are definitions: they have no row
of their own below, and the rows of `CheckAliensBottom`, `UpdateAliens`,
`FreshFleetClearOfBottom`, `DropKeepsBottom`, `CheckBulletAlienCollisions`,
`HitAliensInRange`, `HitAliensSplit` and `HitBulletsAtMostHitAliens` are stated
with them.

Inputs the model takes from its caller, because the code that produces them is
not part of this model:

- the bottom edge of a new bullet (`Bullet(self)` places it at the ship);
- each bullet's bottom after its own `update()`;
- each alien's x after its own `update()`;
- what `check_edges()` says of each alien;
- the dictionary `groupcollide` returns, as a map from a hit bullet's index to
  the set of indices of the aliens it destroyed;
- whether `spritecollideany(ship, aliens)` found an overlap.

Two points of arithmetic worth knowing:

- For example, an 800 x 600 screen with 40 x 40 aliens and a 60-pixel ship gives
  `(800 - 80) // 80 = 9` columns and `(600 - 120 - 60) // 80 = 5` rows, so 45
  aliens (`Layout.ExampleFleetSize`).
- The comment at alien_invasion.py:73 promises 10 points for every destroyed
  alien, but the score grows by `10 * len(collisions)`. The collision dictionary
  has one key per hit *bullet*, so this is 10 per bullet that hit something.
  The model follows the code. `Groups.HitBulletsAtMostHitAliens` proves the two
  agree exactly when every hit bullet destroyed one alien, and that the score is
  lower as soon as one bullet destroyed two or more.

## Model

| member | source | states |
|---|---|---|
| `Layout.ColumnCount` | alien_invasion.py:98-99 | the column count is the largest `n` with `2w·n <= W - 2w` (Python floor division by a positive divisor) |
| `Layout.RowCount` | alien_invasion.py:101-103 | the row count is the largest `n` with `2h·n <= H - 3h - shipH` |
| `Layout.Placement` | alien_invasion.py:112-114 | the position of column `n`, row `r` gives back `n` and `r` (`(x - w) // 2w == n`, `(y - h) // 2h == r`), so distinct cells never share a position |
| `Layout.RowAt` | alien_invasion.py:106-114 | the inner loop's row of `cols` aliens has `cols` members and its `n`-th sits at column `n` of that row |
| `Layout.GridSize` | alien_invasion.py:105-107 | the nested loops add exactly `cols * rows` aliens |
| `Layout.GridAt` | alien_invasion.py:105-114 | row-major order: the alien of column `n`, row `r` is element `r * cols + n`, at `(w + 2w·n, h + 2h·r)` |
| `Layout.GridBounds` | alien_invasion.py:109-114 | every alien of a grid keeps a one-alien margin left and top, right edge `<= 2w·cols`, bottom edge `<= 2h·rows` |
| `Layout.RowIncreasing` | alien_invasion.py:112-113 | within a row the aliens stand strictly left to right |
| `Layout.GridDistinct` | alien_invasion.py:105-114 | no two aliens of a grid share a position |
| `Layout.FleetLayout` | alien_invasion.py:95-107 | the fleet has `max(0, nx) * max(0, nr)` aliens; a non-positive count gives an empty `range` |
| `Layout.ExampleFleetSize` | alien_invasion.py:95-107 | 800 x 600 screen, 40 x 40 aliens, 60-pixel ship: 9 columns, 5 rows, 45 aliens |
| `Layout.FleetBounds` | alien_invasion.py:95-114 | every alien of a fresh fleet has right edge `<= W - 2w` and bottom edge `<= H - 3h - shipH`, with a one-alien margin left and top |
| `Layout.FleetPlacement` | alien_invasion.py:105-114 | the alien of column `n`, row `r` of a fresh fleet is element `r·nx + n`, at `(w + 2w·n, h + 2h·r)` |
| `Layout.FleetDistinct` | alien_invasion.py:105-114 | the positions of a fresh fleet are pairwise distinct |
| `Layout.DropKeepsBottom` | alien_invasion.py:117-119 | the fleet only moves down: after a drop of `fleet_drop_speed >= 0` (x free to change), an alien that met the bottom test of line 92 still meets it |
| `Layout.FreshFleetClearOfBottom` | alien_invasion.py:90-114 | no alien of a freshly built fleet meets the bottom-of-screen game-over test |
| `Groups.Survivors` | alien_invasion.py:65-67 | pruning never lengthens the group and leaves only bullets with bottom `> 0` |
| `Groups.SurvivorsAppend` | alien_invasion.py:65-67 | pruning keeps order: pruning `front + back` is pruning `front` followed by pruning `back` |
| `Groups.SurvivorsCount` | alien_invasion.py:65-67 | pruning is exact: each bottom `> 0` keeps its multiplicity, each bottom `<= 0` disappears |
| `Groups.SurvivorsKeepsAll` | alien_invasion.py:65-67 | a group with every bottom `> 0` is left unchanged |
| `Groups.SurvivorsIdempotent` | alien_invasion.py:65-67 | pruning twice is pruning once |
| `Groups.Without` | alien_invasion.py:71 | removing the hit members never lengthens a group |
| `Groups.WithoutSize` | alien_invasion.py:71 | removing `k` distinct in-range members leaves `|s| - k` |
| `Groups.WithoutMembers` | alien_invasion.py:71 | a member survives removal iff it occurs at an index that was not hit |
| `Groups.HitAliensInRange` | alien_invasion.py:71 | `groupcollide` reports at most as many hit bullets as there are bullets and destroys at most as many aliens as there are, each an index of the alien group |
| `Groups.HitBulletsAtMostHitAliens` | alien_invasion.py:71-74 | `len(collisions)` (hit bullets) is at most the number of aliens destroyed; equal to it iff each hit bullet destroyed exactly one alien; strictly less once a bullet destroyed two or more |
| `Groups.HitAliensSplit` | alien_invasion.py:71 | the aliens destroyed split disjointly by the bullet that destroyed them |
| `Invasion.AlienInvasion.constructor` | alien_invasion.py:18-24 | a new game has no bullets, a fresh fleet, score 0, both flags down, not over |
| `Invasion.AlienInvasion.KeyDown` | alien_invasion.py:44-50 | right raises `movingRight`, left raises `movingLeft`, space fires under the cap, any other key changes nothing |
| `Invasion.AlienInvasion.KeyUp` | alien_invasion.py:52-56 | right lowers `movingRight`, left lowers `movingLeft`, any other key changes nothing; no key fires |
| `Invasion.AlienInvasion.FireBullet` | alien_invasion.py:58-61 | one bullet is added iff fewer than `bulletsAllowed` are live; otherwise the group is unchanged; the cap is kept |
| `Invasion.AlienInvasion.PruneBullets` | alien_invasion.py:65-67 | the in-place removal loop leaves exactly `Survivors` of the old group; nothing else changes |
| `Invasion.AlienInvasion.UpdateBullets` | alien_invasion.py:63-68 | advance, prune, then collision handling, with the combined new bullets, aliens, score and speed count |
| `Invasion.AlienInvasion.CheckBulletAlienCollisions` | alien_invasion.py:70-78 | score `+= 10 * len(collisions)`; hit bullets and aliens removed; if no alien remains, bullets emptied, one speed increase, fresh fleet; otherwise neither |
| `Invasion.AlienInvasion.CreateAlien` | alien_invasion.py:109-115 | appends one alien at `(w + 2w·n, h + 2h·r)` |
| `Invasion.AlienInvasion.CreateFleet` | alien_invasion.py:95-107 | the nested loops append exactly `FleetLayout` to the alien group |
| `Invasion.AlienInvasion.ChangeFleetDirection` | alien_invasion.py:117-120 | every alien's y grows by exactly `fleet_drop_speed`, every x is kept, the direction is negated |
| `Invasion.AlienInvasion.UpdateAliens` | alien_invasion.py:80-88 | one drop-and-flip iff some alien is at an edge, however many are (the `break`); game over iff ship hit or an alien reached the bottom; with a non-negative drop speed, an alien already at the bottom is still there afterwards (`DropKeepsBottom`) |
| `Invasion.AlienInvasion.CheckAliensBottom` | alien_invasion.py:90-93 | game over is set iff some alien's bottom edge is `>=` the screen height |

## Left out

- Rendering, the background image and fonts (`_update_screen`, `_display_score`, the drawing in `_game_over`). They are side effects on the screen with no result to state.
- Event polling, the quit event, `sys.exit` and `pygame.time.wait`. Game over is the `gameOver` flag. The endless `run_game` loop is not modelled; each of its steps is a method.
- Invasion.AlienInvasion.UpdateAliens: in `alien_invasion.py`, `_game_over()` ends the process at once, so nothing after it runs. The model sets the flag and finishes the frame. The checks that would have run later only set the same flag again.
- Invasion.AlienInvasion.CheckAliensBottom: the Python code exits at the first alien at the bottom. The model scans the rest too, which changes nothing but the flag.
- The rectangle-overlap tests of `groupcollide` and `spritecollideany`. They are library code, so their results are caller inputs.
- Every entity's own `update()`, `Alien.check_edges`, the ship's float position and movement, and the float speeds of the settings. They live in files outside this model, and their results are caller inputs.
- `settings.increase_speed()`: the speeds it changes are not modelled. Only the number of calls is counted, in `speedIncreases`. The fleet drop speed is taken to be fixed.
- Bullets are modelled by their bottom edge only. Their x and size play no part in the logic modelled.
- Sprite groups are modelled as sequences in insertion order, with members named by index, not by object identity.
- Sprite sizes must be positive: `alien_width` and `alien_height` are divisors in `_create_fleet`, and the ship height is at least 0. `bullets_allowed` is a natural number.
