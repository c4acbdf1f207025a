# Space Scavenger, modelled in Dafny

Space Scavenger (`lab2/main.py`) is a small arcade game. A ship at the bottom of an 800x600
screen moves left and right with the arrow keys and fires bullets with Space. Asteroids fall at
a speed that grows every 3 seconds. Falling energy crystals add one point each when the ship
collects them. An asteroid that reaches the ship ends the game. At the end of a session the
final score may enter a top-3 board kept for the life of the process.

The model covers the game's logic:

- **Rects.dfy**: the integer rectangles and game objects (`GameObject`, lines 54-57), overlap,
  point containment, clamping into the screen, and removal from a list.
- **TopScores.dfy**: the board `top_scores` (line 29) as class `ScoreBoard`, and what
  `game_over_cleanup` (lines 203-208) does to it, as functions with lemmas.
- **Buttons.dfy**: the menu button's hover and click logic (`Button.handle_event`, lines 46-51)
  as class `Button`.
- **Frame.dfy**: the game state as a value, one frame of `Game.update` (lines 120-162) as the
  composition of its phases, and the key handling of `Game.run` (lines 190-197). The lemmas here
  state what a frame and an event promise.
- **SpaceGame.dfy**: class `Game`, whose fields change in place. `Update` runs the phases with
  one method each, using a loop per list. `HandleEvent`, `HandleEvents` and `GameOverCleanup`
  complete the class. The frame and event methods are proved to leave the fields in the state
  that the `Frame` functions compute. When the bullet pass raises, `Update` only reports it.
  `GameOverCleanup` is proved to leave the board as `TopScores.Cleanup` computes, keeping the
  board's invariant.

Modelling decisions:

- **Speed.** Asteroid speed is kept in half-pixel steps: it starts at 2 (speed 1) and rises
  by 1 (0.5 pixel) per raise. Moving an asteroid sets `y` to `y + speed` truncated toward zero,
  which is how a float is turned into a rectangle coordinate.
- **Time.** The clock is a `real` parameter.
- **Inputs from outside.** The held arrow keys and the results of the two random spawn trials
  are parameters of a frame, bundled in `Controls`.
- **The bullet pass can fail.** The source can raise `ValueError` in the bullet pass. The model
  makes this an explicit outcome: `Raised`, or `true` from `Game.Update`.
- **Speed growth.** The speed after T seconds is not exactly 1 + 0.5·floor(T/3). A raise resets
  the timer to the frame's own time, not to the 3-second mark. The invariant `Frame.Valid`
  states the bound the code does keep: each half-pixel step needs 3 more seconds since the
  start.

## Model

| member | source | states |
|---|---|---|
| Rects.NewObject | lab2/main.py:54-57 | a game object has the given position and size, and speed 0 by default |
| Rects.Collides | lab2/main.py:138 | `colliderect`: the two rectangles share interior area on both axes, so touching edges do not collide; used by FirstHit, StrikesIff and CaughtCountsCatches |
| Rects.ContainsPoint | lab2/main.py:48 | `collidepoint`: the half-open rectangle holds the point; used by Buttons.HoverIsLastMotion |
| Rects.ClampAxis | lab2/main.py:131 | a segment that fits lands inside the range, keeps its place when already inside, and otherwise moves to the nearer edge |
| Rects.ClampInto | lab2/main.py:131 | `clamp_ip` keeps the size, puts a fitting rectangle inside the area, and leaves a rectangle already inside unchanged |
| Rects.RemoveAt | lab2/main.py:136-140 | removing the element at index k shortens the list by one and keeps every other element in order |
| TopScores.ScoreBoard.constructor | lab2/main.py:29 | the board starts as [0, 0, 0], which is a well-formed board: three entries, descending, none negative |
| TopScores.Cleanup | lab2/main.py:203-208 | `game_over_cleanup` on a board and a final score; its meaning is given by CleanupIgnoresLowScore, CleanupReplacesMin, CleanupGrowsShortBoard and CleanupKeepsBoard |
| TopScores.CleanupKeepsBoard | lab2/main.py:203-208 | a cleanup turns a well-formed board (three entries, descending, none negative) into a well-formed board |
| TopScores.Min | lab2/main.py:204 | `min` is an element of the list and at most every element |
| TopScores.Insert | lab2/main.py:206 | inserting into a descending list keeps it descending and adds exactly that one element |
| TopScores.SortDescending | lab2/main.py:206 | `sort(reverse=True)` gives a descending permutation of the list |
| TopScores.SortedDescUnique | lab2/main.py:206 | two descending lists with the same elements are equal, so any correct sort gives the same board |
| TopScores.SortIsUnique | lab2/main.py:206 | every descending arrangement of a list is what SortDescending gives |
| TopScores.CleanupIgnoresLowScore | lab2/main.py:203-204 | a score that does not beat the minimum, a tie included, leaves the board unchanged |
| TopScores.CleanupReplacesMin | lab2/main.py:203-208 | on a full board, a qualifying score replaces one copy of the minimum; the board stays descending and has 3 entries |
| TopScores.CleanupGrowsShortBoard | lab2/main.py:203-208 | on a board shorter than 3, a qualifying score is added and nothing is dropped |
| TopScores.Replay | lab2/main.py:203-208 | every board reached from [0, 0, 0] by cleanups has exactly 3 entries |
| TopScores.ReplayInvariant | lab2/main.py:203-208 | every board reached from [0, 0, 0] is descending with no negative entry |
| TopScores.CleanupScenarioLow | lab2/main.py:203-208 | 5 on [10, 8, 6] leaves [10, 8, 6] |
| TopScores.CleanupScenarioHigh | lab2/main.py:203-208 | 12 on [10, 8, 6] gives [12, 10, 8] |
| Buttons.Button.constructor | lab2/main.py:33-37 | a new button has the given rectangle and text and is not hovered |
| Buttons.NextHover | lab2/main.py:47-48 | the hover flag after one event; its meaning over a run of events is Buttons.HoverIsLastMotion |
| Buttons.Reports | lab2/main.py:49-51 | whether `handle_event` returns True; its meaning over a run of events is Buttons.ClickNeedsPointerOnButton |
| Buttons.Button.HandleEvent | lab2/main.py:46-51 | pointer motion sets the hover flag to whether the pointer is on the button; a press reports a click exactly when the button was hovered; nothing else changes the flag |
| Buttons.LastMotion | lab2/main.py:47-48 | the index of the last pointer motion: a motion, with no motion after it |
| Buttons.HoverIsLastMotion | lab2/main.py:46-48 | after any run of events, the hover flag is whether the last motion's point is on the button, or the initial flag when there was no motion |
| Buttons.ClickNeedsPointerOnButton | lab2/main.py:46-51 | a button that starts unhovered reports a click only on a press, and only when the last motion before it put the pointer on the button |
| Frame.Initial | lab2/main.py:109-118 | the state `Game.__init__` sets up, started at a given time; its meaning is Frame.InitialIsValid |
| Frame.InitialIsValid | lab2/main.py:109-118 | a new game has a 50x50 ship at (400, 500), speed 1, score 0, and is not over; it satisfies the frame invariant |
| Frame.ShipPhase | lab2/main.py:129-131 | the ship-move phase on the whole state: only the ship changes, as Frame.MoveShip gives |
| Frame.MoveShip | lab2/main.py:130-131 | the ship after the move and the clamp; its meaning is Frame.ShipColumn, Frame.ShipRow and Frame.ShipOnScreen |
| Frame.ShipColumn | lab2/main.py:130-131 | the ship moves 5 pixels toward the held key (none when both or neither are held), stopping at x = 0 and x = 750 |
| Frame.ShipRow | lab2/main.py:130-131 | the ship's row and size never change |
| Frame.ShipOnScreen | lab2/main.py:130-131 | after every move the ship lies inside the screen |
| Frame.Lift | lab2/main.py:134 | a bullet after `rect.y -= 7`; used by every bullet-pass lemma |
| Frame.OffTop | lab2/main.py:135 | `rect.bottom < 0`: the moved bullet has left through the top; its role is fixed by Frame.BulletTurn and BulletPassRaises |
| Frame.BulletPhase | lab2/main.py:133-141 | the bullet pass on the whole state: Raised when the pass raises, otherwise only bullets and asteroids change, as Frame.BulletPass gives |
| Frame.FirstHit | lab2/main.py:137-141 | the index of the first asteroid a bullet overlaps: none before it overlaps, and it overlaps unless it is the end of the list |
| Frame.FirstHitIsFirst | lab2/main.py:137-141 | FirstHit is the only index with that property |
| Frame.BulletPass | lab2/main.py:133-141 | the bullet pass as written, which may raise; its meaning is Frame.BulletPassAgrees, BulletPassShape, BulletPassWithoutContact, OneBulletTakesFirstHit and BulletPassRaises |
| Frame.BulletPassFixed | lab2/main.py:133-141 | the bullet pass with a bullet that left the top skipped; its meaning is Frame.BulletPassFixedShape, BulletPassFixedClears, BulletTurn and QuietBulletSurvives |
| Frame.BulletPassAgrees | lab2/main.py:133-141 | whenever the bullet pass as written completes, it gives the same bullets and asteroids as the corrected pass |
| Frame.BulletPassFixedShape | lab2/main.py:133-141 | the corrected pass keeps an in-order selection of the moved on-screen bullets and of the asteroids; each asteroid removed goes with exactly one bullet removed |
| Frame.BulletPassFixedClears | lab2/main.py:133-141 | after the corrected pass no surviving bullet overlaps any remaining asteroid |
| Frame.BulletPassShape | lab2/main.py:133-141 | the same selection, counting and clearance facts hold for the as-written pass whenever it completes, and an on-screen bullet is removed only when it overlapped one of the asteroids |
| Frame.BulletPassFixedSplit | lab2/main.py:133-141 | the pass over a list is the pass over its first i bullets followed by the pass over the rest, against the asteroids the first part left |
| Frame.BulletTurn | lab2/main.py:134-141 | bullet i survives exactly when it is still on screen and overlaps none of the asteroids the earlier bullets left; otherwise it removes the first asteroid it overlaps (none when it left the top); the survivors so far are a prefix of the final survivors. By BulletPassAgrees this is also the as-written pass whenever it completes |
| Frame.QuietBulletSurvives | lab2/main.py:134-141 | an on-screen bullet that overlaps none of the asteroids present at the start of the pass survives it |
| Frame.BulletPassWithoutContact | lab2/main.py:133-141 | when no moved bullet overlaps any asteroid, the pass completes, keeps every asteroid, and keeps exactly the on-screen bullets |
| Frame.OneBulletTakesFirstHit | lab2/main.py:137-141 | an on-screen bullet that overlaps some asteroid removes the first such asteroid in list order, no other, and is removed itself |
| Frame.BulletPassRaises | lab2/main.py:135-140 | a valid state exists in which a frame raises ValueError (see Findings) |
| Frame.TruncHalf | lab2/main.py:144 | half of an integer truncated toward zero, bounded on both sides for either sign |
| Frame.Descend | lab2/main.py:144 | an asteroid after `rect.y += asteroid_speed`: the speed is held in half-pixel steps and the new y is the exact sum truncated toward zero (Frame.TruncHalf), which is how the float sum is assumed to be stored in the integer rectangle |
| Frame.PastBottom | lab2/main.py:145 | `rect.top > 600`: the object has left through the bottom, checked for asteroids here and for crystals at line 153; its role is fixed by Frame.AsteroidPassCount and CrystalPassCount |
| Frame.AsteroidPhase | lab2/main.py:143-149 | the asteroid pass on the whole state: the asteroids become Frame.AsteroidsAfter and the game ends when Frame.Strikes holds |
| Frame.AsteroidsAfter | lab2/main.py:143-146 | the asteroids left by the asteroid pass; its meaning is Frame.AsteroidPassShape and OnScreenAsteroidStays |
| Frame.Strikes | lab2/main.py:147-148 | whether the asteroid pass ends the game; its meaning is Frame.StrikesIff |
| Frame.AsteroidPassSelects | lab2/main.py:143-146 | the asteroids left are an in-order selection of the moved asteroids |
| Frame.AsteroidPassCount | lab2/main.py:143-146 | no remaining asteroid is past the bottom, and the number removed is the number moved past the bottom |
| Frame.AsteroidPassShape | lab2/main.py:143-146 | both facts above together: only asteroids moved past the bottom are removed |
| Frame.OnScreenAsteroidStays | lab2/main.py:145-148 | every moved asteroid still on screen stays in the list, including one that hits the ship |
| Frame.StrikesIff | lab2/main.py:147-148 | the game ends in this pass exactly when some moved asteroid still on screen overlaps the ship |
| Frame.Drop | lab2/main.py:152 | a crystal after `rect.y += 2` |
| Frame.CrystalPhase | lab2/main.py:151-157 | the crystal pass on the whole state: the crystals become Frame.CrystalsAfter and the score rises by Frame.Caught |
| Frame.CrystalsAfter | lab2/main.py:151-157 | the crystals left by the crystal pass; its meaning is Frame.CrystalPassShape |
| Frame.Caught | lab2/main.py:155-157 | the points the crystal pass adds; its meaning is Frame.CaughtCountsCatches and CrystalPassCount |
| Frame.CaughtCountsCatches | lab2/main.py:155-157 | the score rises by exactly the number of moved crystals still on screen that overlap the ship |
| Frame.CrystalPassSelects | lab2/main.py:151-157 | the crystals left are an in-order selection of the moved crystals, none past the bottom or touching the ship |
| Frame.CrystalPassCount | lab2/main.py:151-157 | every crystal is exactly one of: kept, collected, or lost past the bottom |
| Frame.CrystalPassShape | lab2/main.py:151-157 | the selection and count facts of the crystal pass together |
| Frame.SpeedPhase | lab2/main.py:124-127 | the speed-up; its meaning is the speed clause of Frame.StepKeepsValid |
| Frame.SpawnPhase | lab2/main.py:159-162 | the spawn trials: each list gains the spawned object at its end, or nothing without a spawn; its meaning is the list clauses of Frame.StepOutcome |
| Frame.NewAsteroid | lab2/main.py:160 | a new asteroid at row -50, `30 + score // 10` square; stated in Frame.StepOutcome |
| Frame.NewCrystal | lab2/main.py:162 | a new 20x20 crystal at row -30; stated in Frame.StepOutcome |
| Frame.Step | lab2/main.py:120-162 | one frame of `update`, or Raised; its meaning is Frame.StepAfterGameOver, StepKeepsValid, StepOutcome and BulletPassRaises |
| Frame.StepAfterGameOver | lab2/main.py:121-122 | a frame after game over changes nothing |
| Frame.StepKeepsValid | lab2/main.py:120-162 | a completed frame keeps the ship inside the screen, never lowers the score, and raises the speed by one half-pixel step exactly when 3 seconds have passed since the last raise |
| Frame.StepOutcome | lab2/main.py:120-162 | in a completed frame: the ship follows the keys with y unchanged; the bullets are the bullet pass's survivors; the score rises by the crystals collected; the game ends exactly when an on-screen asteroid hits the ship; the asteroid list is the asteroid pass's survivors followed by the spawned asteroid, if any, and the crystal list likewise; a spawned asteroid sits at row -50 sized `30 + score // 10` by the new score, a spawned crystal at row -30 and 20x20; the raise timer moves to the frame's time exactly on a raise, and the start time is kept |
| Frame.NewBullet | lab2/main.py:197 | the bullet Space fires, at (centerx - 2, top), 4x10; stated in Frame.KeyHandling |
| Frame.OnEvent | lab2/main.py:191-197 | one event of the loop in `run`; its meaning is Frame.KeyHandling |
| Frame.OnEvents | lab2/main.py:190-197 | the events of one frame, stopping at the first that ends the session; its meaning is Frame.EventsOnlyShoot |
| Frame.KeyHandling | lab2/main.py:190-197 | a close request, or a key while the game is over, ends the session with no change; otherwise Space appends exactly one 4x10 bullet at (ship x + 23, ship top), centred on the ship; every other event changes nothing |
| Frame.EventsOnlyShoot | lab2/main.py:190-197 | a frame's events only append bullets fired from the ship; the session ends exactly when some event ends it; when it does not end, one bullet is added per Space press |
| SpaceGame.FirstCollision | lab2/main.py:137-141 | the scan over the asteroids stops at the first overlap, and its index is FirstHit |
| SpaceGame.Game.constructor | lab2/main.py:109-118 | a new game's fields are the initial state, which satisfies the invariant |
| SpaceGame.Game.Update | lab2/main.py:120-162 | one frame leaves the fields in the state Step gives, or reports the ValueError exactly when Step raises; the invariant is kept |
| SpaceGame.Game.SpeedUp | lab2/main.py:124-127 | after 3 seconds since the last raise, the speed rises by half a pixel and the raise time becomes now; nothing else changes |
| SpaceGame.Game.Steer | lab2/main.py:129-131 | the ship moves as MoveShip says; nothing else changes |
| SpaceGame.Game.UpdateBullets | lab2/main.py:133-141 | the loop over a copy of the bullet list leaves bullets and asteroids as the bullet pass gives, or reports the ValueError exactly when the pass raises |
| SpaceGame.Game.UpdateBullet | lab2/main.py:134-141 | one bullet's turn keeps the loop invariant: the list is the bullets kept so far followed by those not yet visited, and the rest of the pass gives the same result |
| SpaceGame.Game.UpdateAsteroids | lab2/main.py:143-149 | the loop over a copy of the asteroid list leaves the asteroids and game-over flag as the asteroid pass gives |
| SpaceGame.Game.UpdateAsteroid | lab2/main.py:144-149 | one asteroid's turn keeps the loop invariant relating the list and the flag to the pass over the asteroids visited so far |
| SpaceGame.Game.UpdateCrystals | lab2/main.py:151-157 | the loop over a copy of the crystal list leaves the crystals and score as the crystal pass gives |
| SpaceGame.Game.UpdateCrystal | lab2/main.py:152-157 | one crystal's turn keeps the loop invariant relating the list and the score to the pass over the crystals visited so far |
| SpaceGame.Game.SpawnObjects | lab2/main.py:159-162 | a spawn trial that succeeds appends the new asteroid or crystal; nothing else changes |
| SpaceGame.Game.HandleEvent | lab2/main.py:191-197 | one event changes the fields and ends the session exactly as OnEvent says |
| SpaceGame.Game.HandleEvents | lab2/main.py:190-197 | the event loop handles events in order until one ends the session, exactly as OnEvents says |
| SpaceGame.Game.GameOverCleanup | lab2/main.py:203-208 | the board is left as Cleanup gives for the game's score, and stays well-formed: three entries, descending, none negative |

## Left out

- Rendering, fonts, images, music and the collision sound (line 149): they have no effect on the
  game state.
- `Menu` and `main` (lines 60-105, 211 onward) are outside this model: the window loop, the
  frame clock `CLOCK.tick(60)` and the menu drawing. The menu button's logic is modelled.
- The clock `time.time()`, the key state `pygame.key.get_pressed()`, the event queue and the
  random draws come from outside. They are parameters. The spawn probabilities 0.05 and 0.01,
  and the ranges of the x draws, are not modelled: any spawn decision and any x is allowed.
- Float speed: it is kept exactly in half-pixel steps. Moving an asteroid truncates toward
  zero. This conversion of a float coordinate is assumed; the library that does it is not part
  of this model.
- pygame's `Rect` behaviour is restated from its documented meaning, not from its code: strict
  overlap, half-open point containment, `clamp_ip`. A clamped rectangle larger than the area is
  centred, which no rectangle of this game reaches.
- Object identity: `list.remove(obj)` removes by identity. The model removes by index, which
  is the object's position in the list at that moment.
- SpaceGame.Game.Update: when the bullet pass raises, the fields are left part-way through the
  frame. The contract only says that it raised, because in the source the exception ends the
  program.
- Speed growth: no closed formula in T holds; Frame.StepKeepsValid states what the code does.

## Findings

| source | as written | input that shows it | evidently intended | confidence | as-written member | corrected member |
|---|---|---|---|---|---|---|
| lab2/main.py:135-140 | a bullet removed for leaving the top is still checked against the asteroids; when it overlaps one, `bullets.remove(bullet)` runs a second time and raises ValueError, ending the program | score 0, speed 1, the ship at (400, 500) since the start; a bullet fired from it 72 frames ago is at (423, -4, 4, 10); an asteroid spawned at x = 410 ten frames ago is at (410, -40, 30, 30). After moving, the bullet spans y -11 to -1, so it is off the top, yet it still overlaps the asteroid spanning y -40 to -10 | a bullet that left the top is discarded and checked no further | not executed | Frame.BulletPassRaises | Frame.BulletPassFixedShape |

`Frame.Step` and `SpaceGame.Game.Update` model the code as written, failure included.
`Frame.BulletPassAgrees` shows that in every frame that completes, the bullet pass equals the
corrected pass. So the frame lemmas (`Frame.BulletPassShape`, `Frame.StepOutcome`) are proved
through the corrected pass's properties: `Frame.BulletPassFixedShape` and
`Frame.BulletPassFixedClears`.
