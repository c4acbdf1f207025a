/** One frame of the game and one input event, as functions of the game state
    (lab2/main.py:108-162, 190-197). The class in SpaceGame.dfy changes its fields step by step
    and is proved to end in the state these functions give; the lemmas here state what a frame
    promises. Asteroid speed is kept in half-pixel steps per frame (2 is the initial speed of 1). */
module Frame {
  import opened Rects
  import opened Events

  const SPEED_INCREASE_INTERVAL: real := 3.0
  const INITIAL_SPEED_HALVES: nat := 2
  const SPEED_INCREASE_HALVES: nat := 1
  const SHIP_START_X: int := 400
  const SHIP_START_Y: int := 500
  const SHIP_SIZE: nat := 50
  const SHIP_STEP: int := 5
  const BULLET_STEP: int := 7
  const BULLET_W: nat := 4
  const BULLET_H: nat := 10
  const CRYSTAL_STEP: int := 2
  const CRYSTAL_SIZE: nat := 20
  const CRYSTAL_SPAWN_Y: int := -30
  const ASTEROID_BASE_SIZE: nat := 30
  const ASTEROID_SPAWN_Y: int := -50

  /** The fields of a Game. */
  datatype State = State(
    ship: GameObject,
    bullets: seq<GameObject>,
    asteroids: seq<GameObject>,
    crystals: seq<GameObject>,
    score: nat,
    gameOver: bool,
    speedHalves: nat,
    startTime: real,
    lastSpeedIncrease: real)

  /** A fresh game started at time now. */
  function Initial(now: real): State {
    State(NewObject(SHIP_START_X, SHIP_START_Y, SHIP_SIZE, SHIP_SIZE), [], [], [], 0, false,
          INITIAL_SPEED_HALVES, now, now)
  }

  /** What every frame keeps: a 50x50 ship inside the screen, a speed no lower than the initial
      one, and at most one half-pixel speed step per 3 seconds since the start. */
  predicate Valid(s: State) {
    && s.ship.rect.w == SHIP_SIZE && s.ship.rect.h == SHIP_SIZE
    && Inside(s.ship.rect, SCREEN)
    && s.speedHalves >= INITIAL_SPEED_HALVES
    && SPEED_INCREASE_INTERVAL * (s.speedHalves - INITIAL_SPEED_HALVES) as real
       <= s.lastSpeedIncrease - s.startTime
  }

  lemma InitialIsValid(now: real)
    ensures Valid(Initial(now))
    ensures Initial(now).ship.rect == Rect(400, 500, 50, 50)
    ensures Initial(now).speedHalves == 2 && !Initial(now).gameOver && Initial(now).score == 0
  {
  }

  /** The outcome of a spawn trial: no spawn, or a spawn at horizontal position x (drawn by
      `randint(0, 770)` for an asteroid and `randint(0, 780)` for a crystal). */
  datatype Spawn = NoSpawn | SpawnAt(x: int)

  /** What a frame reads from outside: the clock, the arrow keys held, and the random choices. */
  datatype Controls = Controls(
    now: real,
    rightHeld: bool,
    leftHeld: bool,
    asteroidSpawn: Spawn,
    crystalSpawn: Spawn)

  // ---------------------------------------------------------------- ship

  /** `keys[K]` as the number 0 or 1, as the contracts state the ship move. */
  function KeyValue(held: bool): int { if held then 1 else 0 }

  /** `keys[K] * 5`: the share of one arrow key in the ship's horizontal move. It is written out
      so that MoveShip needs no product with a named constant, which the solver treats as
      nonlinear; ShipColumn restates the move with KeyValue. */
  function KeyStep(held: bool): int { if held then SHIP_STEP else 0 }

  /** `x += (right - left) * 5` followed by `clamp_ip` to the screen. */
  function MoveShip(ship: GameObject, right: bool, left: bool): GameObject {
    var dx := KeyStep(right) - KeyStep(left);
    ship.(rect := ClampInto(ship.rect.(x := ship.rect.x + dx), SCREEN))
  }

  /** The ship moves by 5 in the held direction and stops at the screen edges. */
  lemma ShipColumn(ship: GameObject, right: bool, left: bool)
    requires ship.rect.w == SHIP_SIZE
    ensures var want := ship.rect.x + 5 * (KeyValue(right) - KeyValue(left));
      MoveShip(ship, right, left).rect.x == (if want < 0 then 0 else if want > 750 then 750 else want)
  {
  }

  /** A ship that fits the screen's height keeps its row and its size. */
  lemma ShipRow(ship: GameObject, right: bool, left: bool)
    requires ship.rect.h == SHIP_SIZE && 0 <= ship.rect.y && ship.rect.Bottom() <= SCREEN_HEIGHT
    ensures MoveShip(ship, right, left).rect.y == ship.rect.y
    ensures MoveShip(ship, right, left).rect.w == ship.rect.w
    ensures MoveShip(ship, right, left).rect.h == SHIP_SIZE
  {
  }

  /** A 50x50 ship ends every move inside the screen. */
  lemma ShipOnScreen(ship: GameObject, right: bool, left: bool)
    requires ship.rect.w == SHIP_SIZE && ship.rect.h == SHIP_SIZE
    ensures Inside(MoveShip(ship, right, left).rect, SCREEN)
  {
  }

  // ---------------------------------------------------------------- bullets

  /** A bullet after `rect.y -= 7`. */
  function Lift(b: GameObject): GameObject {
    b.(rect := b.rect.(y := b.rect.y - BULLET_STEP))
  }

  /** `rect.bottom < 0`: the bullet has left through the top. */
  predicate OffTop(b: GameObject) {
    b.rect.Bottom() < 0
  }

  /** The index of the first asteroid that r overlaps, or |asteroids| when there is none. */
  function FirstHit(r: Rect, asteroids: seq<GameObject>): (k: nat)
    ensures k <= |asteroids|
    ensures forall j :: 0 <= j < k ==> !Collides(r, asteroids[j].rect)
    ensures k < |asteroids| ==> Collides(r, asteroids[k].rect)
    decreases |asteroids|
  {
    if asteroids == [] then 0
    else if Collides(r, asteroids[0].rect) then 0
    else 1 + FirstHit(r, asteroids[1..])
  }

  /** FirstHit is the one index with no overlap before it and an overlap at it (or the end). */
  lemma {:induction false} FirstHitIsFirst(r: Rect, asteroids: seq<GameObject>, j: nat)
    requires j <= |asteroids|
    requires forall m :: 0 <= m < j ==> !Collides(r, asteroids[m].rect)
    requires j < |asteroids| ==> Collides(r, asteroids[j].rect)
    ensures FirstHit(r, asteroids) == j
    decreases |asteroids|
  {
    if asteroids != [] && j > 0 {
      assert !Collides(r, asteroids[0].rect);
      FirstHitIsFirst(r, asteroids[1..], j - 1);
    }
  }

  /** The bullets and asteroids left after the bullet pass. */
  datatype Volley = Volley(bullets: seq<GameObject>, asteroids: seq<GameObject>)

  /** The bullet pass either completes, or raises ValueError: `bullets.remove(bullet)` on a
      bullet that was already removed for leaving the top. */
  datatype BulletResult = Resolved(volley: Volley) | RemoveMissing

  function Prefix(kept: seq<GameObject>, r: BulletResult): BulletResult {
    match r
    case RemoveMissing => RemoveMissing
    case Resolved(v) => Resolved(Volley(kept + v.bullets, v.asteroids))
  }

  /** The bullet pass as the source writes it (lab2/main.py:133-141): each bullet in turn is
      moved up; one that left the top is removed, and it is still checked against the remaining
      asteroids; the first asteroid it overlaps is removed together with the bullet. */
  function BulletPass(bullets: seq<GameObject>, asteroids: seq<GameObject>): BulletResult
    decreases |bullets|
  {
    if bullets == [] then Resolved(Volley([], asteroids))
    else
      var b := Lift(bullets[0]);
      var k := FirstHit(b.rect, asteroids);
      if k < |asteroids| && OffTop(b) then RemoveMissing
      else
        var left := if k < |asteroids| then RemoveAt(asteroids, k) else asteroids;
        var kept := if OffTop(b) || k < |asteroids| then [] else [b];
        Prefix(kept, BulletPass(bullets[1..], left))
  }

  /** The pass over bullets[i..] takes bullet i first. */
  lemma BulletPassFrom(bullets: seq<GameObject>, i: nat, asteroids: seq<GameObject>)
    requires i < |bullets|
    ensures var b := Lift(bullets[i]);
      var k := FirstHit(b.rect, asteroids);
      BulletPass(bullets[i..], asteroids) ==
        if k < |asteroids| && OffTop(b) then RemoveMissing
        else Prefix(if OffTop(b) || k < |asteroids| then [] else [b],
                    BulletPass(bullets[i + 1..], if k < |asteroids| then RemoveAt(asteroids, k) else asteroids))
  {
    assert bullets[i..][0] == bullets[i] && bullets[i..][1..] == bullets[i + 1..];
  }

  lemma PrefixJoin(kept: seq<GameObject>, more: seq<GameObject>, r: BulletResult)
    ensures Prefix(kept, Prefix(more, r)) == Prefix(kept + more, r)
  {
    if r.Resolved? {
      assert kept + (more + r.volley.bullets) == (kept + more) + r.volley.bullets;
    }
  }

  /** The bullet pass with a bullet that left the top skipped before the asteroid scan. */
  function BulletPassFixed(bullets: seq<GameObject>, asteroids: seq<GameObject>): Volley
    decreases |bullets|
  {
    if bullets == [] then Volley([], asteroids)
    else
      var b := Lift(bullets[0]);
      var k := FirstHit(b.rect, asteroids);
      if OffTop(b) then BulletPassFixed(bullets[1..], asteroids)
      else if k < |asteroids| then BulletPassFixed(bullets[1..], RemoveAt(asteroids, k))
      else
        var v := BulletPassFixed(bullets[1..], asteroids);
        Volley([b] + v.bullets, v.asteroids)
  }

  /** The moved bullets that are still on screen, in order. */
  function Visible(bullets: seq<GameObject>): seq<GameObject>
    decreases |bullets|
  {
    if bullets == [] then []
    else
      var b := Lift(bullets[0]);
      (if OffTop(b) then [] else [b]) + Visible(bullets[1..])
  }

  /** Whenever the as-written pass completes, it agrees with the corrected one. */
  lemma {:induction false} BulletPassAgrees(bullets: seq<GameObject>, asteroids: seq<GameObject>)
    ensures BulletPass(bullets, asteroids).Resolved? ==>
      BulletPass(bullets, asteroids).volley == BulletPassFixed(bullets, asteroids)
    decreases |bullets|
  {
    if bullets != [] {
      var b := Lift(bullets[0]);
      var k := FirstHit(b.rect, asteroids);
      if k < |asteroids| {
        BulletPassAgrees(bullets[1..], RemoveAt(asteroids, k));
      } else {
        BulletPassAgrees(bullets[1..], asteroids);
      }
    }
  }

  /** The corrected pass never fails. Survivors are an in-order selection of the on-screen moved
      bullets, the asteroids left are an in-order selection of the asteroids, and each asteroid
      removed goes with exactly one on-screen bullet removed. */
  lemma {:induction false} BulletPassFixedShape(bullets: seq<GameObject>, asteroids: seq<GameObject>)
    ensures var v := BulletPassFixed(bullets, asteroids);
      && IsSubseq(v.bullets, Visible(bullets))
      && IsSubseq(v.asteroids, asteroids)
      && |asteroids| - |v.asteroids| == |Visible(bullets)| - |v.bullets|
    decreases |bullets|
  {
    var v := BulletPassFixed(bullets, asteroids);
    if bullets == [] {
      SubseqRefl(asteroids);
    } else {
      var b := Lift(bullets[0]);
      var k := FirstHit(b.rect, asteroids);
      var rest := bullets[1..];
      if OffTop(b) {
        BulletPassFixedShape(rest, asteroids);
        assert Visible(bullets) == Visible(rest);
      } else if k < |asteroids| {
        var left := RemoveAt(asteroids, k);
        BulletPassFixedShape(rest, left);
        assert Visible(bullets) == [b] + Visible(rest);
        SubseqCons(v.bullets, Visible(rest), b);
        RemoveAtSubseq(asteroids, k);
        SubseqTrans(v.asteroids, left, asteroids);
      } else {
        var w := BulletPassFixed(rest, asteroids);
        BulletPassFixedShape(rest, asteroids);
        assert Visible(bullets) == [b] + Visible(rest);
        SubseqCons(w.bullets, Visible(rest), b);
      }
    }
  }

  /** After the corrected pass no surviving bullet overlaps any asteroid left: a bullet survives
      only when nothing overlapped it at its turn, and later bullets only remove asteroids. */
  lemma {:induction false} BulletPassFixedClears(bullets: seq<GameObject>, asteroids: seq<GameObject>)
    ensures var v := BulletPassFixed(bullets, asteroids);
      forall b, a :: b in v.bullets && a in v.asteroids ==> !Collides(b.rect, a.rect)
    decreases |bullets|
  {
    if bullets != [] {
      var b := Lift(bullets[0]);
      var k := FirstHit(b.rect, asteroids);
      var rest := bullets[1..];
      if OffTop(b) {
        BulletPassFixedClears(rest, asteroids);
      } else if k < |asteroids| {
        BulletPassFixedClears(rest, RemoveAt(asteroids, k));
      } else {
        var w := BulletPassFixed(rest, asteroids);
        BulletPassFixedClears(rest, asteroids);
        BulletPassFixedShape(rest, asteroids);
        forall a | a in w.asteroids
          ensures !Collides(b.rect, a.rect)
        {
          SubseqMember(w.asteroids, asteroids, a);
          var j :| 0 <= j < |asteroids| && asteroids[j] == a;
        }
      }
    }
  }

  /** The corrected pass over bullets is the pass over its first i bullets followed by the pass
      over the rest, run against the asteroids the first part left. */
  predicate SplitsAt(bullets: seq<GameObject>, asteroids: seq<GameObject>, i: nat)
    requires i <= |bullets|
  {
    var front := BulletPassFixed(bullets[..i], asteroids);
    var back := BulletPassFixed(bullets[i..], front.asteroids);
    BulletPassFixed(bullets, asteroids) == Volley(front.bullets + back.bullets, back.asteroids)
  }

  /** The asteroids the first bullet of a non-empty list leaves to the others. */
  function LeftAfterFirst(bullets: seq<GameObject>, asteroids: seq<GameObject>): seq<GameObject>
    requires bullets != []
  {
    var b := Lift(bullets[0]);
    var k := FirstHit(b.rect, asteroids);
    if OffTop(b) || k == |asteroids| then asteroids else RemoveAt(asteroids, k)
  }

  /** The corrected pass splits at every index. */
  lemma {:induction false} BulletPassFixedSplit(bullets: seq<GameObject>, asteroids: seq<GameObject>, i: nat)
    requires i <= |bullets|
    ensures SplitsAt(bullets, asteroids, i)
    decreases i
  {
    if i == 0 {
      assert bullets[..0] == [] && bullets[0..] == bullets;
    } else {
      BulletPassFixedSplit(bullets[1..], LeftAfterFirst(bullets, asteroids), i - 1);
      SplitStep(bullets, asteroids, i);
    }
    assert SplitsAt(bullets, asteroids, i);
  }

  /** The inductive step of BulletPassFixedSplit: the split of the tail, after the first bullet's
      turn, gives the split of the whole list. */
  lemma SplitStep(bullets: seq<GameObject>, asteroids: seq<GameObject>, i: nat)
    requires 0 < i <= |bullets|
    requires SplitsAt(bullets[1..], LeftAfterFirst(bullets, asteroids), i - 1)
    ensures SplitsAt(bullets, asteroids, i)
  {
    var rest := bullets[1..];
    var start := bullets[..i];
    assert start[0] == bullets[0] && start[1..] == rest[..i - 1];
    assert rest[i - 1..] == bullets[i..];
    var b := Lift(bullets[0]);
    if OffTop(b) || FirstHit(b.rect, asteroids) < |asteroids| {
      SplitStepDropped(bullets, asteroids, i);
    } else {
      SplitStepKept(bullets, asteroids, i);
    }
  }

  /** SplitStep when the first bullet does not survive its turn. */
  lemma SplitStepDropped(bullets: seq<GameObject>, asteroids: seq<GameObject>, i: nat)
    requires 0 < i <= |bullets|
    requires bullets[..i][0] == bullets[0] && bullets[..i][1..] == bullets[1..][..i - 1]
    requires bullets[1..][i - 1..] == bullets[i..]
    requires var b := Lift(bullets[0]); OffTop(b) || FirstHit(b.rect, asteroids) < |asteroids|
    requires SplitsAt(bullets[1..], LeftAfterFirst(bullets, asteroids), i - 1)
    ensures SplitsAt(bullets, asteroids, i)
  {
    var left := LeftAfterFirst(bullets, asteroids);
    assert BulletPassFixed(bullets, asteroids) == BulletPassFixed(bullets[1..], left);
    assert BulletPassFixed(bullets[..i], asteroids) == BulletPassFixed(bullets[1..][..i - 1], left);
  }

  /** SplitStep when the first bullet survives its turn. */
  lemma SplitStepKept(bullets: seq<GameObject>, asteroids: seq<GameObject>, i: nat)
    requires 0 < i <= |bullets|
    requires bullets[..i][0] == bullets[0] && bullets[..i][1..] == bullets[1..][..i - 1]
    requires bullets[1..][i - 1..] == bullets[i..]
    requires var b := Lift(bullets[0]); !OffTop(b) && FirstHit(b.rect, asteroids) == |asteroids|
    requires SplitsAt(bullets[1..], asteroids, i - 1)
    ensures SplitsAt(bullets, asteroids, i)
  {
    var b := Lift(bullets[0]);
    var front := BulletPassFixed(bullets[1..][..i - 1], asteroids);
    var back := BulletPassFixed(bullets[i..], front.asteroids);
    KeptFirst(bullets, asteroids);
    KeptFirst(bullets[..i], asteroids);
    KeptThenSplit(b, BulletPassFixed(bullets[1..], asteroids), front, back);
  }

  /** The corrected pass over a list whose first bullet survives its turn. */
  lemma KeptFirst(bullets: seq<GameObject>, asteroids: seq<GameObject>)
    requires bullets != []
    requires var b := Lift(bullets[0]); !OffTop(b) && FirstHit(b.rect, asteroids) == |asteroids|
    ensures var v := BulletPassFixed(bullets[1..], asteroids);
      BulletPassFixed(bullets, asteroids) == Volley([Lift(bullets[0])] + v.bullets, v.asteroids)
  {
  }

  /** Putting a surviving bullet in front of a split volley. */
  lemma KeptThenSplit(b: GameObject, whole: Volley, front: Volley, back: Volley)
    requires whole == Volley(front.bullets + back.bullets, back.asteroids)
    ensures Volley([b] + whole.bullets, whole.asteroids)
      == Volley(([b] + front.bullets) + back.bullets, back.asteroids)
  {
    assert ([b] + front.bullets) + back.bullets == [b] + (front.bullets + back.bullets);
  }

  /** Bullet i's turn: after the bullets before it, it survives exactly when it is still on screen
      and overlaps none of the asteroids those bullets left; otherwise it takes the first
      asteroid it overlaps, or nothing when it left the top. */
  lemma BulletTurn(bullets: seq<GameObject>, asteroids: seq<GameObject>, i: nat)
    requires i < |bullets|
    ensures var front := BulletPassFixed(bullets[..i], asteroids);
      var b := Lift(bullets[i]);
      var k := FirstHit(b.rect, front.asteroids);
      var quiet := !OffTop(b) && k == |front.asteroids|;
      var after := BulletPassFixed(bullets[..i + 1], asteroids);
      && after.bullets == front.bullets + (if quiet then [b] else [])
      && after.asteroids == (if OffTop(b) || quiet then front.asteroids else RemoveAt(front.asteroids, k))
      && after.bullets <= BulletPassFixed(bullets, asteroids).bullets
  {
    var upto := bullets[..i + 1];
    BulletPassFixedSplit(upto, asteroids, i);
    assert upto[..i] == bullets[..i] && upto[i..] == [bullets[i]] && [bullets[i]][1..] == [];
    var front := BulletPassFixed(bullets[..i], asteroids);
    var single := BulletPassFixed([bullets[i]], front.asteroids);
    SingleBullet(bullets[i], front.asteroids);
    assert BulletPassFixed(upto, asteroids) == Volley(front.bullets + single.bullets, single.asteroids);
    BulletPassFixedSplit(bullets, asteroids, i + 1);
    var rest := BulletPassFixed(bullets[i + 1..], BulletPassFixed(upto, asteroids).asteroids);
    assert BulletPassFixed(bullets, asteroids).bullets == BulletPassFixed(upto, asteroids).bullets + rest.bullets;
  }

  /** The corrected pass over a single bullet. */
  lemma SingleBullet(bullet: GameObject, asteroids: seq<GameObject>)
    ensures var b := Lift(bullet);
      var k := FirstHit(b.rect, asteroids);
      var quiet := !OffTop(b) && k == |asteroids|;
      BulletPassFixed([bullet], asteroids)
        == Volley(if quiet then [b] else [],
                  if OffTop(b) || quiet then asteroids else RemoveAt(asteroids, k))
  {
    assert [bullet][1..] == [];
  }

  /** An on-screen bullet that overlaps none of the asteroids at the start of the pass survives it:
      the bullets before it only remove asteroids. Survival is stated by value, so an equal twin
      (two Space presses in one frame) could also meet it; BulletTurn states it by position. */
  lemma {:induction false} QuietBulletSurvives(bullets: seq<GameObject>, asteroids: seq<GameObject>, i: nat)
    requires i < |bullets| && !OffTop(Lift(bullets[i]))
    requires forall j :: 0 <= j < |asteroids| ==> !Collides(Lift(bullets[i]).rect, asteroids[j].rect)
    ensures Lift(bullets[i]) in BulletPassFixed(bullets, asteroids).bullets
    decreases i
  {
    var b := Lift(bullets[0]);
    var k := FirstHit(b.rect, asteroids);
    var rest := bullets[1..];
    if i == 0 {
      assert k == |asteroids|;
    } else {
      var left := if OffTop(b) || k == |asteroids| then asteroids else RemoveAt(asteroids, k);
      assert rest[i - 1] == bullets[i];
      if left != asteroids {
        RemoveAtSubseq(asteroids, k);
        forall j | 0 <= j < |left|
          ensures !Collides(Lift(rest[i - 1]).rect, left[j].rect)
        {
          SubseqMember(left, asteroids, left[j]);
        }
      }
      QuietBulletSurvives(rest, left, i - 1);
    }
  }

  /** The same shape and the same clearance for the as-written pass whenever it completes, and an
      on-screen bullet is removed only when it overlapped one of the asteroids. The last clause
      tests membership by value, which an equal twin could meet; BulletTurn is exact by position. */
  lemma BulletPassShape(bullets: seq<GameObject>, asteroids: seq<GameObject>)
    requires BulletPass(bullets, asteroids).Resolved?
    ensures var v := BulletPass(bullets, asteroids).volley;
      && IsSubseq(v.bullets, Visible(bullets))
      && IsSubseq(v.asteroids, asteroids)
      && |asteroids| - |v.asteroids| == |Visible(bullets)| - |v.bullets|
      && (forall b, a :: b in v.bullets && a in v.asteroids ==> !Collides(b.rect, a.rect))
      && forall i :: 0 <= i < |bullets| && !OffTop(Lift(bullets[i])) && Lift(bullets[i]) !in v.bullets ==>
           exists j :: 0 <= j < |asteroids| && Collides(Lift(bullets[i]).rect, asteroids[j].rect)
  {
    BulletPassAgrees(bullets, asteroids);
    BulletPassFixedShape(bullets, asteroids);
    BulletPassFixedClears(bullets, asteroids);
    var v := BulletPass(bullets, asteroids).volley;
    forall i | 0 <= i < |bullets| && !OffTop(Lift(bullets[i])) && Lift(bullets[i]) !in v.bullets
      ensures exists j :: 0 <= j < |asteroids| && Collides(Lift(bullets[i]).rect, asteroids[j].rect)
    {
      if forall j :: 0 <= j < |asteroids| ==> !Collides(Lift(bullets[i]).rect, asteroids[j].rect) {
        QuietBulletSurvives(bullets, asteroids, i);
      }
    }
  }

  /** No moved bullet overlaps any asteroid. */
  predicate NoContact(bullets: seq<GameObject>, asteroids: seq<GameObject>) {
    forall i, j :: 0 <= i < |bullets| && 0 <= j < |asteroids| ==>
      !Collides(Lift(bullets[i]).rect, asteroids[j].rect)
  }

  /** Without any overlap, the pass completes, keeps every asteroid, and keeps exactly the moved
      bullets that are still on screen. */
  lemma {:induction false} BulletPassWithoutContact(bullets: seq<GameObject>, asteroids: seq<GameObject>)
    requires NoContact(bullets, asteroids)
    ensures BulletPass(bullets, asteroids) == Resolved(Volley(Visible(bullets), asteroids))
    decreases |bullets|
  {
    if bullets != [] {
      var b := Lift(bullets[0]);
      assert FirstHit(b.rect, asteroids) == |asteroids| by {
        assert forall j :: 0 <= j < |asteroids| ==> !Collides(b.rect, asteroids[j].rect);
      }
      var rest := bullets[1..];
      assert NoContact(rest, asteroids) by {
        forall i, j | 0 <= i < |rest| && 0 <= j < |asteroids|
          ensures !Collides(Lift(rest[i]).rect, asteroids[j].rect)
        {
          assert rest[i] == bullets[i + 1];
        }
      }
      BulletPassWithoutContact(rest, asteroids);
    }
  }

  /** A single on-screen bullet that overlaps some asteroid is removed together with the first
      such asteroid in list order, and with no other. */
  lemma OneBulletTakesFirstHit(b: GameObject, asteroids: seq<GameObject>, j: nat)
    requires !OffTop(Lift(b)) && j < |asteroids| && Collides(Lift(b).rect, asteroids[j].rect)
    ensures exists k :: (
      && 0 <= k <= j
      && Collides(Lift(b).rect, asteroids[k].rect)
      && (forall i :: 0 <= i < k ==> !Collides(Lift(b).rect, asteroids[i].rect))
      && BulletPass([b], asteroids) == Resolved(Volley([], asteroids[..k] + asteroids[k + 1..])))
  {
    var k := FirstHit(Lift(b).rect, asteroids);
    assert [b][1..] == [];
    assert BulletPass([b], asteroids) == Resolved(Volley([], RemoveAt(asteroids, k)));
  }

  // ---------------------------------------------------------------- asteroids

  /** `int(v / 2)`: truncation toward zero of half an integer. */
  function TruncHalf(n: int): (r: int)
    ensures n >= 0 ==> 0 <= 2 * r <= n < 2 * r + 2
    ensures n < 0 ==> 2 * r - 2 < n <= 2 * r <= 0
  {
    if n >= 0 then n / 2 else -((-n) / 2)
  }

  /** An asteroid after `rect.y += asteroid_speed`, with the speed in half-pixel steps. */
  function Descend(a: GameObject, halves: nat): GameObject {
    a.(rect := a.rect.(y := TruncHalf(2 * a.rect.y + halves)))
  }

  /** `rect.top > 600`: the object has left through the bottom. */
  predicate PastBottom(o: GameObject) {
    o.rect.y > SCREEN_HEIGHT
  }

  /** Every asteroid moved down by the current speed. */
  function Fall(s: seq<GameObject>, halves: nat): (r: seq<GameObject>)
    ensures |r| == |s| && forall i :: 0 <= i < |s| ==> r[i] == Descend(s[i], halves)
  {
    seq(|s|, i requires 0 <= i < |s| => Descend(s[i], halves))
  }

  /** The asteroid pass (lab2/main.py:143-149): the moved asteroids that are not past the bottom. */
  function AsteroidsAfter(s: seq<GameObject>, halves: nat): seq<GameObject>
    decreases |s|
  {
    if s == [] then []
    else
      var n := |s| - 1;
      var a := Descend(s[n], halves);
      AsteroidsAfter(s[..n], halves) + (if PastBottom(a) then [] else [a])
  }

  /** One more asteroid processed by the pass. */
  lemma AsteroidsAfterStep(s: seq<GameObject>, i: nat, halves: nat, ship: Rect)
    requires i < |s|
    ensures var a := Descend(s[i], halves);
      PastBottom(a) ==> AsteroidsAfter(s[..i + 1], halves) == AsteroidsAfter(s[..i], halves)
    ensures var a := Descend(s[i], halves);
      !PastBottom(a) ==> AsteroidsAfter(s[..i + 1], halves) == AsteroidsAfter(s[..i], halves) + [a]
    ensures var a := Descend(s[i], halves);
      Strikes(s[..i + 1], halves, ship) ==
        (Strikes(s[..i], halves, ship) || (!PastBottom(a) && Collides(a.rect, ship)))
  {
    assert s[..i + 1][..i] == s[..i];
  }

  /** Some moved asteroid still on screen overlaps the ship: `game_over` is set. */
  predicate Strikes(s: seq<GameObject>, halves: nat, ship: Rect)
    decreases |s|
  {
    if s == [] then false
    else
      var n := |s| - 1;
      var a := Descend(s[n], halves);
      Strikes(s[..n], halves, ship) || (!PastBottom(a) && Collides(a.rect, ship))
  }

  /** The indices of the asteroids that the pass moves past the bottom. */
  function Sunk(s: seq<GameObject>, halves: nat): set<int> {
    set i | 0 <= i < |s| && PastBottom(Descend(s[i], halves))
  }

  lemma SunkSplit(s: seq<GameObject>, halves: nat)
    requires s != []
    ensures var n := |s| - 1;
      Sunk(s, halves) == Sunk(s[..n], halves) + (if PastBottom(Descend(s[n], halves)) then {n} else {})
  {
    var n := |s| - 1;
    assert forall i :: 0 <= i < n ==> s[..n][i] == s[i];
  }

  /** The asteroids left are an in-order selection of the moved asteroids. */
  lemma {:induction false} AsteroidPassSelects(s: seq<GameObject>, halves: nat)
    ensures IsSubseq(AsteroidsAfter(s, halves), Fall(s, halves))
    decreases |s|
  {
    if s != [] {
      var n := |s| - 1;
      var a := Descend(s[n], halves);
      var front := AsteroidsAfter(s[..n], halves);
      AsteroidPassSelects(s[..n], halves);
      assert Fall(s, halves) == Fall(s[..n], halves) + [a];
      SubseqSnoc(front, Fall(s[..n], halves), a);
      if PastBottom(a) {
        assert AsteroidsAfter(s, halves) == front;
      } else {
        assert AsteroidsAfter(s, halves) == front + [a];
      }
    }
  }

  /** No asteroid left is past the bottom, and exactly the ones moved past it are gone: an
      asteroid that hits the ship stays in the list. */
  lemma {:induction false} AsteroidPassCount(s: seq<GameObject>, halves: nat)
    ensures var r := AsteroidsAfter(s, halves);
      && (forall i :: 0 <= i < |r| ==> !PastBottom(r[i]))
      && |r| == |s| - |Sunk(s, halves)|
    decreases |s|
  {
    if s == [] {
      assert Sunk(s, halves) == {};
    } else {
      var n := |s| - 1;
      AsteroidPassCount(s[..n], halves);
      SunkSplit(s, halves);
      assert n !in Sunk(s[..n], halves);
    }
  }

  /** The asteroid pass removes exactly the asteroids moved past the bottom, keeping order. */
  lemma AsteroidPassShape(s: seq<GameObject>, halves: nat)
    ensures var r := AsteroidsAfter(s, halves);
      && IsSubseq(r, Fall(s, halves))
      && (forall i :: 0 <= i < |r| ==> !PastBottom(r[i]))
      && |r| == |s| - |Sunk(s, halves)|
  {
    AsteroidPassSelects(s, halves);
    AsteroidPassCount(s, halves);
  }

  /** Every asteroid still on screen after moving is kept, in particular one that hits the ship. */
  lemma {:induction false} OnScreenAsteroidStays(s: seq<GameObject>, halves: nat, i: nat)
    requires i < |s| && !PastBottom(Descend(s[i], halves))
    ensures Descend(s[i], halves) in AsteroidsAfter(s, halves)
    decreases |s|
  {
    var n := |s| - 1;
    if i < n {
      assert s[..n][i] == s[i];
      OnScreenAsteroidStays(s[..n], halves, i);
    }
  }

  /** The game ends exactly when some moved asteroid that is still on screen overlaps the ship. */
  lemma {:induction false} StrikesIff(s: seq<GameObject>, halves: nat, ship: Rect)
    ensures Strikes(s, halves, ship) <==>
      exists i :: 0 <= i < |s| && !PastBottom(Descend(s[i], halves)) && Collides(Descend(s[i], halves).rect, ship)
    decreases |s|
  {
    if s != [] {
      var n := |s| - 1;
      StrikesIff(s[..n], halves, ship);
      assert forall i :: 0 <= i < n ==> s[..n][i] == s[i];
    }
  }

  // ---------------------------------------------------------------- crystals

  /** A crystal after `rect.y += 2`. */
  function Drop(c: GameObject): GameObject {
    c.(rect := c.rect.(y := c.rect.y + CRYSTAL_STEP))
  }

  /** A moved crystal still on screen that overlaps the ship is collected. */
  predicate Catches(c: GameObject, ship: Rect) {
    !PastBottom(Drop(c)) && Collides(Drop(c).rect, ship)
  }

  function Drift(s: seq<GameObject>): (r: seq<GameObject>)
    ensures |r| == |s| && forall i :: 0 <= i < |s| ==> r[i] == Drop(s[i])
  {
    seq(|s|, i requires 0 <= i < |s| => Drop(s[i]))
  }

  /** The crystal pass (lab2/main.py:151-157): the moved crystals neither past the bottom nor
      touching the ship. */
  function CrystalsAfter(s: seq<GameObject>, ship: Rect): seq<GameObject>
    decreases |s|
  {
    if s == [] then []
    else
      var n := |s| - 1;
      var c := Drop(s[n]);
      CrystalsAfter(s[..n], ship) + (if PastBottom(c) || Collides(c.rect, ship) then [] else [c])
  }

  /** One more crystal processed by the pass. */
  lemma CrystalsAfterStep(s: seq<GameObject>, i: nat, ship: Rect)
    requires i < |s|
    ensures var c := Drop(s[i]);
      PastBottom(c) || Collides(c.rect, ship) ==> CrystalsAfter(s[..i + 1], ship) == CrystalsAfter(s[..i], ship)
    ensures var c := Drop(s[i]);
      !(PastBottom(c) || Collides(c.rect, ship)) ==>
        CrystalsAfter(s[..i + 1], ship) == CrystalsAfter(s[..i], ship) + [c]
    ensures Caught(s[..i + 1], ship) == Caught(s[..i], ship) + (if Catches(s[i], ship) then 1 else 0)
  {
    assert s[..i + 1][..i] == s[..i];
  }

  /** The points the crystal pass adds to the score. */
  function Caught(s: seq<GameObject>, ship: Rect): nat
    decreases |s|
  {
    if s == [] then 0
    else
      var n := |s| - 1;
      Caught(s[..n], ship) + (if Catches(s[n], ship) then 1 else 0)
  }

  function CatchIndices(s: seq<GameObject>, ship: Rect): set<int> {
    set i | 0 <= i < |s| && Catches(s[i], ship)
  }

  function LostIndices(s: seq<GameObject>): set<int> {
    set i | 0 <= i < |s| && PastBottom(Drop(s[i]))
  }

  /** The score grows by exactly the number of crystals that reach the ship on screen. */
  lemma {:induction false} CaughtCountsCatches(s: seq<GameObject>, ship: Rect)
    ensures Caught(s, ship) == |CatchIndices(s, ship)|
    decreases |s|
  {
    if s == [] {
      assert CatchIndices(s, ship) == {};
    } else {
      var n := |s| - 1;
      CaughtCountsCatches(s[..n], ship);
      assert forall i :: 0 <= i < n ==> s[..n][i] == s[i];
      assert CatchIndices(s, ship) ==
        CatchIndices(s[..n], ship) + (if Catches(s[n], ship) then {n} else {});
      assert n !in CatchIndices(s[..n], ship);
    }
  }

  /** The crystals left are an in-order selection of the moved crystals, none of them past the
      bottom or touching the ship. */
  lemma {:induction false} CrystalPassSelects(s: seq<GameObject>, ship: Rect)
    ensures var r := CrystalsAfter(s, ship);
      && IsSubseq(r, Drift(s))
      && (forall i :: 0 <= i < |r| ==> !PastBottom(r[i]) && !Collides(r[i].rect, ship))
    decreases |s|
  {
    if s != [] {
      var n := |s| - 1;
      var c := Drop(s[n]);
      var front := CrystalsAfter(s[..n], ship);
      CrystalPassSelects(s[..n], ship);
      assert Drift(s) == Drift(s[..n]) + [c];
      SubseqSnoc(front, Drift(s[..n]), c);
      if PastBottom(c) || Collides(c.rect, ship) {
        assert CrystalsAfter(s, ship) == front;
      } else {
        assert CrystalsAfter(s, ship) == front + [c];
      }
    }
  }

  /** Every crystal is either kept, collected or lost past the bottom. */
  lemma {:induction false} CrystalPassCount(s: seq<GameObject>, ship: Rect)
    ensures |CrystalsAfter(s, ship)| + Caught(s, ship) + |LostIndices(s)| == |s|
    decreases |s|
  {
    if s == [] {
      assert LostIndices(s) == {};
    } else {
      var n := |s| - 1;
      CrystalPassCount(s[..n], ship);
      assert forall i :: 0 <= i < n ==> s[..n][i] == s[i];
      assert LostIndices(s) == LostIndices(s[..n]) + (if PastBottom(Drop(s[n])) then {n} else {});
      assert n !in LostIndices(s[..n]);
    }
  }

  /** The crystal pass keeps an in-order selection of the moved crystals, none past the bottom
      or touching the ship, and every crystal is either kept, collected or lost. */
  lemma CrystalPassShape(s: seq<GameObject>, ship: Rect)
    ensures var r := CrystalsAfter(s, ship);
      && IsSubseq(r, Drift(s))
      && (forall i :: 0 <= i < |r| ==> !PastBottom(r[i]) && !Collides(r[i].rect, ship))
      && |r| + Caught(s, ship) + |LostIndices(s)| == |s|
  {
    CrystalPassSelects(s, ship);
    CrystalPassCount(s, ship);
  }

  // ---------------------------------------------------------------- spawns and the frame

  /** `GameObject(x, -50, 30 + score // 10, 30 + score // 10)`. */
  function NewAsteroid(x: int, score: nat): GameObject {
    NewObject(x, ASTEROID_SPAWN_Y, ASTEROID_BASE_SIZE + score / 10, ASTEROID_BASE_SIZE + score / 10)
  }

  /** `GameObject(x, -30, 20, 20)`. */
  function NewCrystal(x: int): GameObject {
    NewObject(x, CRYSTAL_SPAWN_Y, CRYSTAL_SIZE, CRYSTAL_SIZE)
  }

  /** The asteroid a spawn trial adds, if any. */
  function SpawnedAsteroid(choice: Spawn, score: nat): seq<GameObject> {
    match choice
    case NoSpawn => []
    case SpawnAt(x) => [NewAsteroid(x, score)]
  }

  /** The crystal a spawn trial adds, if any. */
  function SpawnedCrystal(choice: Spawn): seq<GameObject> {
    match choice
    case NoSpawn => []
    case SpawnAt(x) => [NewCrystal(x)]
  }

  datatype StepResult = Stepped(next: State) | Raised

  /** The speed-up (lab2/main.py:124-127): half a pixel more per frame, and the clock of the
      last raise moved to now, once 3 seconds have passed since the last raise. */
  function SpeedPhase(s: State, now: real): State {
    if now - s.lastSpeedIncrease >= SPEED_INCREASE_INTERVAL
    then s.(speedHalves := s.speedHalves + SPEED_INCREASE_HALVES, lastSpeedIncrease := now)
    else s
  }

  /** The ship move (lab2/main.py:129-131). */
  function ShipPhase(s: State, right: bool, left: bool): State {
    s.(ship := MoveShip(s.ship, right, left))
  }

  /** The bullet pass (lab2/main.py:133-141), which may raise. */
  function BulletPhase(s: State): StepResult {
    match BulletPass(s.bullets, s.asteroids)
    case RemoveMissing => Raised
    case Resolved(v) => Stepped(s.(bullets := v.bullets, asteroids := v.asteroids))
  }

  /** The asteroid pass (lab2/main.py:143-149). */
  function AsteroidPhase(s: State): State {
    s.(asteroids := AsteroidsAfter(s.asteroids, s.speedHalves),
       gameOver := s.gameOver || Strikes(s.asteroids, s.speedHalves, s.ship.rect))
  }

  /** The crystal pass (lab2/main.py:151-157). */
  function CrystalPhase(s: State): State {
    s.(crystals := CrystalsAfter(s.crystals, s.ship.rect),
       score := s.score + Caught(s.crystals, s.ship.rect))
  }

  /** The spawn trials (lab2/main.py:159-162); the asteroid is sized by the score just reached. */
  function SpawnPhase(s: State, c: Controls): State {
    s.(asteroids := s.asteroids + SpawnedAsteroid(c.asteroidSpawn, s.score),
       crystals := s.crystals + SpawnedCrystal(c.crystalSpawn))
  }

  /** `Game.update` (lab2/main.py:120-162): nothing while the game is over, else the phases in
      source order. */
  function Step(s: State, c: Controls): StepResult {
    if s.gameOver then Stepped(s)
    else
      match BulletPhase(ShipPhase(SpeedPhase(s, c.now), c.rightHeld, c.leftHeld))
      case Raised => Raised
      case Stepped(t) => Stepped(SpawnPhase(CrystalPhase(AsteroidPhase(t)), c))
  }

  /** A frame after the game is over changes nothing at all. */
  lemma StepAfterGameOver(s: State, c: Controls)
    requires s.gameOver
    ensures Step(s, c) == Stepped(s)
  {
  }

  /** A frame keeps the ship inside the screen, never lowers the score or the speed, and raises
      the speed by one half-pixel step exactly when 3 seconds have passed since the last raise. */
  lemma {:induction false} StepKeepsValid(s: State, c: Controls)
    requires Valid(s) && Step(s, c).Stepped?
    ensures Valid(Step(s, c).next)
    ensures Step(s, c).next.score >= s.score
    ensures !s.gameOver ==>
      Step(s, c).next.speedHalves ==
        s.speedHalves + (if c.now - s.lastSpeedIncrease >= 3.0 then 1 else 0)
  {
    if !s.gameOver {
      ShipRow(s.ship, c.rightHeld, c.leftHeld);
      ShipOnScreen(s.ship, c.rightHeld, c.leftHeld);
    }
  }

  /** In a frame that completes: the ship follows the held keys, the bullets and asteroids come
      out of the bullet pass, the score rises by the crystals collected, the game ends exactly when
      an on-screen asteroid reaches the ship, the asteroid and crystal lists are the survivors of
      their passes followed by what the spawn trials add (an asteroid at its spawn row sized by
      the new score, a 20x20 crystal), and the raise timer moves to now exactly on a raise. */
  lemma {:induction false} StepOutcome(s: State, c: Controls)
    requires Valid(s) && !s.gameOver && Step(s, c).Stepped?
    ensures BulletPass(s.bullets, s.asteroids).Resolved?
    ensures var t := Step(s, c).next;
      var v := BulletPass(s.bullets, s.asteroids).volley;
      var want := s.ship.rect.x + 5 * (KeyValue(c.rightHeld) - KeyValue(c.leftHeld));
      && t.ship.rect.x == (if want < 0 then 0 else if want > 750 then 750 else want)
      && t.ship.rect.y == s.ship.rect.y
      && t.bullets == v.bullets
      && t.score == s.score + |CatchIndices(s.crystals, t.ship.rect)|
      && (t.gameOver <==> exists i :: (
            && 0 <= i < |v.asteroids|
            && !PastBottom(Descend(v.asteroids[i], t.speedHalves))
            && Collides(Descend(v.asteroids[i], t.speedHalves).rect, t.ship.rect)))
      && (c.asteroidSpawn.SpawnAt? ==> (
            t.asteroids[|t.asteroids| - 1].rect ==
            Rect(c.asteroidSpawn.x, -50, 30 + t.score / 10, 30 + t.score / 10)))
      && (c.crystalSpawn.SpawnAt? ==> (
            t.crystals[|t.crystals| - 1].rect == Rect(c.crystalSpawn.x, -30, 20, 20)))
    ensures var t := Step(s, c).next;
      var v := BulletPass(s.bullets, s.asteroids).volley;
      && t.asteroids == AsteroidsAfter(v.asteroids, t.speedHalves) + SpawnedAsteroid(c.asteroidSpawn, t.score)
      && t.crystals == CrystalsAfter(s.crystals, t.ship.rect) + SpawnedCrystal(c.crystalSpawn)
      && t.lastSpeedIncrease == (if c.now - s.lastSpeedIncrease >= 3.0 then c.now else s.lastSpeedIncrease)
      && t.startTime == s.startTime
  {
    var t := Step(s, c).next;
    ShipColumn(s.ship, c.rightHeld, c.leftHeld);
    ShipRow(s.ship, c.rightHeld, c.leftHeld);
    var v := BulletPass(s.bullets, s.asteroids).volley;
    CaughtCountsCatches(s.crystals, t.ship.rect);
    StrikesIff(v.asteroids, t.speedHalves, t.ship.rect);
  }

  /** The bullet pass as written raises ValueError in a frame that play reaches. The ship never
      moved from (400, 500); a bullet fired from it 72 frames ago is at (423, -4) and leaves the
      top this frame, while an asteroid spawned at x = 410 ten frames ago at speed 1 is at y = -40
      and still overlaps the moved bullet. */
  lemma BulletPassRaises()
    ensures var s := State(NewObject(400, 500, 50, 50), [NewObject(423, -4, 4, 10)],
                           [NewObject(410, -40, 30, 30)], [], 0, false, 2, 0.0, 0.0);
      Valid(s) && Step(s, Controls(0.0, false, false, NoSpawn, NoSpawn)) == Raised
  {
    var b := Lift(NewObject(423, -4, 4, 10));
    assert b.rect == Rect(423, -11, 4, 10);
    assert OffTop(b);
    assert FirstHit(b.rect, [NewObject(410, -40, 30, 30)]) == 0;
    assert BulletPass([NewObject(423, -4, 4, 10)], [NewObject(410, -40, 30, 30)]) == RemoveMissing;
  }

  // ---------------------------------------------------------------- key events

  /** `GameObject(ship.rect.centerx - 2, ship.rect.top, 4, 10)`. */
  function NewBullet(ship: Rect): GameObject {
    NewObject(ship.CenterX() - 2, ship.y, BULLET_W, BULLET_H)
  }

  /** Whether the session ends, and the state after one event (lab2/main.py:190-197). */
  datatype EventOutcome = EventOutcome(ended: bool, state: State)

  function OnEvent(s: State, e: Event): EventOutcome {
    if e.Quit? then EventOutcome(true, s)
    else if e.KeyDown? then
      if s.gameOver then EventOutcome(true, s)
      else if e.key == Space then EventOutcome(false, s.(bullets := s.bullets + [NewBullet(s.ship.rect)]))
      else EventOutcome(false, s)
    else EventOutcome(false, s)
  }

  /** A key while the game is over ends the session and shoots nothing; Space otherwise adds
      exactly one 4x10 bullet centred on the ship's top edge; any other event changes nothing. */
  lemma KeyHandling(s: State, e: Event)
    requires Valid(s)
    ensures var r := OnEvent(s, e);
      && (r.ended <==> e.Quit? || (e.KeyDown? && s.gameOver))
      && (e.KeyDown? && s.gameOver ==> r.state == s)
      && (e.KeyDown? && !s.gameOver && e.key == Space ==>
            && r.state == s.(bullets := s.bullets + [r.state.bullets[|s.bullets|]])
            && r.state.bullets[|s.bullets|].rect == Rect(s.ship.rect.x + 23, s.ship.rect.y, 4, 10)
            && r.state.bullets[|s.bullets|].rect.CenterX() == s.ship.rect.CenterX())
      && (!(e.KeyDown? && e.key == Space) ==> r.state == s)
  {
  }

  /** The events of one frame handled in order, stopping at the first that ends the session
      (the `for event in pygame.event.get()` loop of lab2/main.py:190-197). */
  function OnEvents(s: State, events: seq<Event>): EventOutcome
    decreases |events|
  {
    if events == [] then EventOutcome(false, s)
    else
      var r := OnEvent(s, events[0]);
      if r.ended then r else OnEvents(r.state, events[1..])
  }

  /** The number of Space presses in a run of events. */
  function Presses(events: seq<Event>): nat
    decreases |events|
  {
    if events == [] then 0
    else (if events[0] == KeyDown(Space) then 1 else 0) + Presses(events[1..])
  }

  /** Some event of the run ends the session: a window close, or a key while the game is over. */
  predicate Ends(gameOver: bool, events: seq<Event>) {
    exists i :: 0 <= i < |events| && (events[i].Quit? || (events[i].KeyDown? && gameOver))
  }

  /** Handling a frame's events only appends bullets, each one fired from the ship where it
      stands; the session ends exactly when some event ends it, and when it does not end, one
      bullet is fired per Space press. */
  lemma {:induction false} EventsOnlyShoot(s: State, events: seq<Event>)
    ensures var r := OnEvents(s, events);
      && r.state == s.(bullets := r.state.bullets)
      && |s.bullets| <= |r.state.bullets|
      && r.state.bullets[..|s.bullets|] == s.bullets
      && (forall i :: |s.bullets| <= i < |r.state.bullets| ==> r.state.bullets[i] == NewBullet(s.ship.rect))
      && (r.ended <==> Ends(s.gameOver, events))
      && (!r.ended ==> |r.state.bullets| == |s.bullets| + Presses(events))
    decreases |events|
  {
    if events != [] {
      var e := events[0];
      var r1 := OnEvent(s, e);
      if !r1.ended {
        var t := r1.state;
        EventsOnlyShoot(t, events[1..]);
        var r := OnEvents(t, events[1..]);
        assert t.ship == s.ship && t.gameOver == s.gameOver;
        assert t.bullets[..|s.bullets|] == s.bullets;
        assert r.state.bullets[..|t.bullets|][..|s.bullets|] == r.state.bullets[..|s.bullets|];
        if Ends(s.gameOver, events[1..]) {
          var k :| 0 <= k < |events[1..]| && (events[1..][k].Quit? || (events[1..][k].KeyDown? && s.gameOver));
          assert events[k + 1] == events[1..][k];
        }
        if Ends(s.gameOver, events) {
          var k :| 0 <= k < |events| && (events[k].Quit? || (events[k].KeyDown? && s.gameOver));
          assert k > 0 && events[1..][k - 1] == events[k];
        }
      }
    }
  }
}
