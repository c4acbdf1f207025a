/** The Game object (lab2/main.py:108-162, 188-208): its fields change in place frame by frame
    and event by event. Each method is proved to leave the fields in the state that the
    functions of module Frame give. */
module SpaceGame {
  import opened Rects
  import opened Events
  import opened Frame
  import opened TopScores

  /** The scan `for asteroid in self.asteroids[:]: if bullet.rect.colliderect(...)`, stopped at
      the first overlap: the index of the first target that r overlaps, or |targets| when none does. */
  method FirstCollision(r: Rect, targets: seq<GameObject>) returns (j: nat)
    ensures j <= |targets|
    ensures forall m :: 0 <= m < j ==> !Collides(r, targets[m].rect)
    ensures j < |targets| ==> Collides(r, targets[j].rect)
    ensures j == FirstHit(r, targets)
  {
    j := 0;
    while j < |targets| && !Collides(r, targets[j].rect)
      invariant 0 <= j <= |targets|
      invariant forall m :: 0 <= m < j ==> !Collides(r, targets[m].rect)
    {
      j := j + 1;
    }
    FirstHitIsFirst(r, targets, j);
  }

  class Game {
    var ship: GameObject
    var asteroids: seq<GameObject>
    var crystals: seq<GameObject>
    var bullets: seq<GameObject>
    var score: nat
    var gameOver: bool
    var speedHalves: nat
    var startTime: real
    var lastSpeedIncrease: real

    /** The fields as one value. */
    function Snapshot(): State
      reads this
    {
      State(ship, bullets, asteroids, crystals, score, gameOver, speedHalves, startTime, lastSpeedIncrease)
    }

    ghost predicate Valid()
      reads this
    {
      Frame.Valid(Snapshot())
    }

    /** `Game()` at clock time now. */
    constructor (now: real)
      ensures Snapshot() == Initial(now) && Valid()
    {
      ship := NewObject(SHIP_START_X, SHIP_START_Y, SHIP_SIZE, SHIP_SIZE);
      asteroids := [];
      crystals := [];
      bullets := [];
      score := 0;
      gameOver := false;
      speedHalves := INITIAL_SPEED_HALVES;
      startTime := now;
      lastSpeedIncrease := now;
    }

    /** `update`: one frame. Reports true when the bullet pass raises ValueError; the fields are
        then left part-way through the frame. */
    method Update(c: Controls) returns (raised: bool)
      requires Valid()
      modifies this
      ensures Step(old(Snapshot()), c) == if raised then Raised else Stepped(Snapshot())
      ensures !raised ==> Valid()
    {
      if gameOver {
        return false;
      }
      ghost var start := Snapshot();
      SpeedUp(c.now);
      Steer(c.rightHeld, c.leftHeld);
      raised := UpdateBullets();
      if raised {
        return;
      }
      UpdateAsteroids();
      UpdateCrystals();
      SpawnObjects(c);
      StepKeepsValid(start, c);
    }

    /** The speed-up at the start of a frame (lab2/main.py:124-127). */
    method SpeedUp(now: real)
      modifies this`speedHalves, this`lastSpeedIncrease
      ensures Snapshot() == SpeedPhase(old(Snapshot()), now)
    {
      if now - lastSpeedIncrease >= SPEED_INCREASE_INTERVAL {
        speedHalves := speedHalves + SPEED_INCREASE_HALVES;
        lastSpeedIncrease := now;
      }
    }

    /** The ship follows the held arrow keys and is clamped to the screen (lab2/main.py:129-131). */
    method Steer(right: bool, left: bool)
      modifies this`ship
      ensures Snapshot() == ShipPhase(old(Snapshot()), right, left)
    {
      ship := ship.(rect := ship.rect.(x := ship.rect.x + KeyStep(right) - KeyStep(left)));
      ship := ship.(rect := ClampInto(ship.rect, SCREEN));
    }

    /** The bullet pass over a copy of the bullet list (lab2/main.py:133-141). */
    method UpdateBullets() returns (raised: bool)
      modifies this`bullets, this`asteroids
      ensures BulletPhase(old(Snapshot())) == if raised then Raised else Stepped(Snapshot())
    {
      var snapshot := bullets;
      ghost var initial := asteroids;
      var kept: seq<GameObject> := [];
      var i := 0;
      while i < |snapshot|
        invariant 0 <= i <= |snapshot|
        invariant bullets == kept + snapshot[i..]
        invariant BulletPass(snapshot, initial) == Prefix(kept, BulletPass(snapshot[i..], asteroids))
      {
        kept, raised := UpdateBullet(snapshot, i, kept, initial);
        if raised {
          return;
        }
        i := i + 1;
      }
      assert bullets == kept;
      return false;
    }

    /** The body of the bullet loop for bullet i of the copy: it moves up, is removed when it
        left the top, and then takes the first asteroid it overlaps, removing itself again, which
        raises ValueError when it is already gone. kept are the bullets left ahead of it. */
    method UpdateBullet(snapshot: seq<GameObject>, i: nat, kept: seq<GameObject>, ghost initial: seq<GameObject>)
      returns (next: seq<GameObject>, raised: bool)
      requires i < |snapshot| && bullets == kept + snapshot[i..]
      requires BulletPass(snapshot, initial) == Prefix(kept, BulletPass(snapshot[i..], asteroids))
      modifies this`bullets, this`asteroids
      ensures raised ==> BulletPass(snapshot, initial) == RemoveMissing
      ensures !raised ==> bullets == next + snapshot[i + 1..]
      ensures !raised ==> BulletPass(snapshot, initial) == Prefix(next, BulletPass(snapshot[i + 1..], asteroids))
    {
      BulletPassFrom(snapshot, i, asteroids);
      var rest := snapshot[i + 1..];
      var bullet := Lift(snapshot[i]);
      // the bullet is moved where it stands in the list
      bullets := kept + [bullet] + rest;
      var offTop := OffTop(bullet);
      if offTop {
        bullets := kept + rest;
      }
      var j := FirstCollision(bullet.rect, asteroids);
      raised := false;
      next := kept;
      if j < |asteroids| {
        asteroids := RemoveAt(asteroids, j);
        if offTop {
          return next, true;
        }
        bullets := kept + rest;
        PrefixJoin(kept, [], BulletPass(rest, asteroids));
        assert kept + [] == kept;
      } else if offTop {
        PrefixJoin(kept, [], BulletPass(rest, asteroids));
        assert kept + [] == kept;
      } else {
        PrefixJoin(kept, [bullet], BulletPass(rest, asteroids));
        next := kept + [bullet];
      }
    }

    /** The asteroid pass over a copy of the asteroid list (lab2/main.py:143-149). */
    method UpdateAsteroids()
      modifies this`asteroids, this`gameOver
      ensures Snapshot() == AsteroidPhase(old(Snapshot()))
    {
      var snapshot := asteroids;
      var kept: seq<GameObject> := [];
      var i := 0;
      while i < |snapshot|
        invariant 0 <= i <= |snapshot|
        invariant kept == AsteroidsAfter(snapshot[..i], speedHalves)
        invariant asteroids == kept + snapshot[i..]
        invariant gameOver == (old(gameOver) || Strikes(snapshot[..i], speedHalves, ship.rect))
      {
        kept := UpdateAsteroid(snapshot, i, kept, old(gameOver));
        i := i + 1;
      }
      WholePrefix(snapshot);
    }

    /** The body of the asteroid loop for asteroid i of the copy: it moves down by the current
        speed, is removed past the bottom, and otherwise ends the game when it overlaps the ship.
        kept are the asteroids left ahead of it. */
    method UpdateAsteroid(snapshot: seq<GameObject>, i: nat, kept: seq<GameObject>, ghost wasOver: bool)
      returns (next: seq<GameObject>)
      requires i < |snapshot| && asteroids == kept + snapshot[i..]
      requires kept == AsteroidsAfter(snapshot[..i], speedHalves)
      requires gameOver == (wasOver || Strikes(snapshot[..i], speedHalves, ship.rect))
      modifies this`asteroids, this`gameOver
      ensures next == AsteroidsAfter(snapshot[..i + 1], speedHalves)
      ensures asteroids == next + snapshot[i + 1..]
      ensures gameOver == (wasOver || Strikes(snapshot[..i + 1], speedHalves, ship.rect))
    {
      AsteroidsAfterStep(snapshot, i, speedHalves, ship.rect);
      var rest := snapshot[i + 1..];
      var asteroid := Descend(snapshot[i], speedHalves);
      // the asteroid is moved where it stands in the list
      asteroids := kept + [asteroid] + rest;
      next := kept;
      if PastBottom(asteroid) {
        asteroids := kept + rest;
      } else {
        if Collides(asteroid.rect, ship.rect) {
          gameOver := true;
        }
        next := kept + [asteroid];
      }
    }

    /** The crystal pass over a copy of the crystal list (lab2/main.py:151-157). */
    method UpdateCrystals()
      modifies this`crystals, this`score
      ensures Snapshot() == CrystalPhase(old(Snapshot()))
    {
      var snapshot := crystals;
      var kept: seq<GameObject> := [];
      var i := 0;
      while i < |snapshot|
        invariant 0 <= i <= |snapshot|
        invariant kept == CrystalsAfter(snapshot[..i], ship.rect)
        invariant crystals == kept + snapshot[i..]
        invariant score == old(score) + Caught(snapshot[..i], ship.rect)
      {
        kept := UpdateCrystal(snapshot, i, kept, old(score));
        i := i + 1;
      }
      WholePrefix(snapshot);
    }

    /** The body of the crystal loop for crystal i of the copy: it moves down by 2, is removed
        past the bottom, and is removed for one point when it overlaps the ship. kept are the
        crystals left ahead of it. */
    method UpdateCrystal(snapshot: seq<GameObject>, i: nat, kept: seq<GameObject>, ghost base: nat)
      returns (next: seq<GameObject>)
      requires i < |snapshot| && crystals == kept + snapshot[i..]
      requires kept == CrystalsAfter(snapshot[..i], ship.rect)
      requires score == base + Caught(snapshot[..i], ship.rect)
      modifies this`crystals, this`score
      ensures next == CrystalsAfter(snapshot[..i + 1], ship.rect)
      ensures crystals == next + snapshot[i + 1..]
      ensures score == base + Caught(snapshot[..i + 1], ship.rect)
    {
      CrystalsAfterStep(snapshot, i, ship.rect);
      var rest := snapshot[i + 1..];
      var crystal := Drop(snapshot[i]);
      // the crystal is moved where it stands in the list
      crystals := kept + [crystal] + rest;
      next := kept;
      if PastBottom(crystal) {
        crystals := kept + rest;
      } else if Collides(crystal.rect, ship.rect) {
        crystals := kept + rest;
        score := score + 1;
      } else {
        next := kept + [crystal];
      }
    }

    /** The two spawn trials at the end of a frame (lab2/main.py:159-162). */
    method SpawnObjects(c: Controls)
      modifies this`asteroids, this`crystals
      ensures Snapshot() == SpawnPhase(old(Snapshot()), c)
    {
      match c.asteroidSpawn {
        case SpawnAt(x) => asteroids := asteroids + [NewAsteroid(x, score)];
        case NoSpawn =>
      }
      match c.crystalSpawn {
        case SpawnAt(x) => crystals := crystals + [NewCrystal(x)];
        case NoSpawn =>
      }
    }

    /** One event of the loop in `run` (lab2/main.py:190-197); ended is true when `run`
        returns False. */
    method HandleEvent(e: Event) returns (ended: bool)
      modifies this`bullets
      ensures OnEvent(old(Snapshot()), e) == EventOutcome(ended, Snapshot())
    {
      if e.Quit? {
        return true;
      }
      if e.KeyDown? {
        if gameOver {
          return true;
        } else if e.key == Space {
          bullets := bullets + [NewBullet(ship.rect)];
        }
      }
      return false;
    }

    /** The events of one pass of the loop in `run`, handled in order until one ends the
        session (lab2/main.py:190-197). */
    method HandleEvents(events: seq<Event>) returns (ended: bool)
      modifies this`bullets
      ensures OnEvents(old(Snapshot()), events) == EventOutcome(ended, Snapshot())
    {
      var i := 0;
      while i < |events|
        invariant 0 <= i <= |events|
        invariant OnEvents(old(Snapshot()), events) == OnEvents(Snapshot(), events[i..])
      {
        assert events[i..][1..] == events[i + 1..];
        ended := HandleEvent(events[i]);
        if ended {
          return;
        }
        i := i + 1;
      }
      return false;
    }

    /** `game_over_cleanup` (lab2/main.py:203-208) on the score board. */
    method GameOverCleanup(board: ScoreBoard)
      requires board.Valid()
      modifies board
      ensures board.Valid()
      ensures board.topScores == Cleanup(old(board.topScores), score)
    {
      CleanupKeepsBoard(board.topScores, score);
      if score > Min(board.topScores) {
        board.topScores := board.topScores + [score];
        board.topScores := SortDescending(board.topScores);
        if |board.topScores| > BOARD_SIZE {
          board.topScores := board.topScores[..|board.topScores| - 1];
        }
      }
    }
  }
}
