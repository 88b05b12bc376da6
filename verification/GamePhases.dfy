/** When one screen gives way to another, in terms of flags, positions and keys, and how the game
    is won. */
module GamePhases {
  import opened GameShips
  import opened GameOrbit
  import opened GameController
  import opened GameTheorems

  ghost predicate SomeLanded(g: Game) {
    exists i: ShipId :: Landed(g.ships[i])
  }

  lemma PlayScore(g: Game)
    requires Inv(g) && g.screen == PLAY
    ensures Score(g) == 18 <==> AllHit(g)
    ensures Score(g) <= 18
  {
    ScoreCountsHits(g);
    hide Score, Hits, PlayOk;
  }

  lemma FightScore(g: Game)
    requires Inv(g) && g.screen == BOSS_FIGHT
    ensures Score(g) == 19 <==> g.boss.hit
  {
    ScoreCountsHits(g);
    hide Score, Hits, PlayOk;
  }

  /** PLAY ends when a ship lands, and otherwise when the fleet is destroyed; not before. */
  lemma PlayLeftIff(g: Game, inp: Input)
    requires Inv(g) && !inp.reset && g.screen == PLAY
    ensures Next(g, inp).screen == GAMEOVER <==> SomeLanded(g)
    ensures Next(g, inp).screen == BOSS_LOGO <==> !SomeLanded(g) && AllHit(g)
    ensures Next(g, inp).screen == PLAY <==> !SomeLanded(g) && !AllHit(g)
  {
    PlayScore(g);
    assert Died(g) <==> SomeLanded(g);
    hide Score, Died, Landed, PlayOk, ShipClocked, BossClocked;
  }

  /** BOSS_FIGHT ends when the boss lands, and otherwise when it is hit; not before. */
  lemma FightLeftIff(g: Game, inp: Input)
    requires Inv(g) && !inp.reset && g.screen == BOSS_FIGHT
    ensures Next(g, inp).screen == GAMEOVER <==> Landed(g.boss)
    ensures Next(g, inp).screen == WIN <==> !Landed(g.boss) && g.boss.hit
    ensures Next(g, inp).screen == BOSS_FIGHT <==> !Landed(g.boss) && !g.boss.hit
  {
    FightScore(g);
    hide Score, Landed, PlayOk, ShipClocked, BossClocked;
  }

  function AfterEnter(s: Screen): Screen {
    match s
    case START => PLAY
    case BOSS_LOGO => BOSS_FIGHT
    case _ => START
  }

  /** The other four screens wait for Enter. */
  lemma EnterMovesOn(g: Game, inp: Input)
    requires !inp.reset && g.screen != PLAY && g.screen != BOSS_FIGHT
    ensures Next(g, inp).screen == if inp.keycode == ENTER_KEY then AfterEnter(g.screen) else g.screen
  {
  }

  // ---------------------------------------------------------------- the game can be won

  const IDLE: Input := Input(false, false, 0, 0, 0)
  const RESET: Input := Input(true, false, 0, 0, 0)
  const ENTER: Input := Input(false, false, ENTER_KEY, 0, 479)

  /** The laser on the start position of ship i. */
  function Shot(i: ShipId): Input {
    Input(false, false, 0, StartX(i), StartY(i))
  }

  function Shots(n: nat): seq<Input>
    requires n <= 18
  {
    if n == 0 then [] else Shots(n - 1) + [Shot(n - 1)]
  }

  /** In PLAY, without a frame having passed, the first n ships have been hit and no others. */
  ghost predicate Shooting(g: Game, n: nat) {
    && g.screen == PLAY && !g.edge && !g.boss.hit
    && forall i: ShipId :: ShotAt(g.ships[i], i, n)
  }

  predicate ShotAt(s: Ship, i: ShipId, n: nat) {
    && (s.hit <==> i < n)
    && !Landed(s)
    && (i >= n ==> s == EnemyStart(StartX(i), StartY(i)))
  }

  lemma ShotHitsOne(i: ShipId, k: ShipId)
    ensures Touches(StartX(k), StartY(k), StartX(i), StartY(i)) <==> k == i
  {
    assert StartX(k) + SIZE < 1024 && StartX(i) + LASER_WIDTH < 1024;
    assert StartY(k) + SIZE < 1024 && StartY(i) + LASER_HEIGHT < 1024;
    SameCell(i, k);
    hide StartX, StartY;
  }

  /** Start positions are at least 50 columns or 80 rows apart. */
  lemma SameCell(i: ShipId, k: ShipId)
    ensures StartX(i) < StartX(k) ==> StartX(i) + 50 <= StartX(k)
    ensures StartX(k) < StartX(i) ==> StartX(k) + 50 <= StartX(i)
    ensures StartY(i) < StartY(k) ==> StartY(i) + 80 <= StartY(k)
    ensures StartY(k) < StartY(i) ==> StartY(k) + 80 <= StartY(i)
    ensures StartX(i) == StartX(k) && StartY(i) == StartY(k) <==> i == k
  {
  }

  lemma ShotScore(g: Game, n: nat)
    requires Shooting(g, n) && n <= 18
    ensures Score(g) == 18 <==> n == 18
    ensures Score(g) <= 18
  {
    ScoreCountsHits(g);
    hide Score, Hits;
    if n < 18 {
      assert !g.ships[n].hit;
    }
  }

  lemma OneShot(g: Game, n: nat)
    requires Shooting(g, n) && n < 18
    ensures Shooting(Next(g, Shot(n)), n + 1)
  {
    hide Next, Done, Landed, EnemyStart;
    StillShooting(g, n);
    forall i: ShipId
      ensures ShotAt(Next(g, Shot(n)).ships[i], i, n + 1)
    {
      ShipAfterShot(g, n, i);
    }
  }

  lemma ShipAfterShot(g: Game, n: nat, i: ShipId)
    requires Shooting(g, n) && n < 18
    ensures ShotAt(Next(g, Shot(n)).ships[i], i, n + 1)
  {
    assert Next(g, Shot(n)).ships[i] == ShipClocked(g, i, Shot(n));
    StillShooting(g, n);
    hide Next, Done, ShipClocked;
    ShipShot(g, n, i);
  }

  lemma StillShooting(g: Game, n: nat)
    requires Shooting(g, n) && n < 18
    ensures !Done(g) && var t := Next(g, Shot(n)); t.screen == PLAY && !t.edge && !t.boss.hit
  {
    ShotScore(g, n);
    assert !Died(g);
    hide Score, Died, ShipClocked;
  }

  lemma ShipShot(g: Game, n: nat, i: ShipId)
    requires Shooting(g, n) && n < 18 && !Done(g)
    ensures ShotAt(ShipClocked(g, i, Shot(n)), i, n + 1)
  {
    assert ShotAt(g.ships[i], i, n);
    ShotHitsOne(n, i);
    hide Done, Touches, StartX, StartY, EnemyFrame;
  }

  lemma {:induction false} ManyShots(g: Game, n: nat)
    requires Shooting(g, 0) && n <= 18
    ensures Shooting(Run(g, Shots(n)), n)
  {
    hide Shooting, Next;
    if n > 0 {
      ManyShots(g, n - 1);
      OneShot(Run(g, Shots(n - 1)), n - 1);
      RunOneMore(g, Shots(n - 1), Shot(n - 1));
    }
  }

  lemma ShootingBegins(g: Game)
    ensures Shooting(Next(Next(g, RESET), ENTER), 0)
  {
    var s := Next(g, RESET);
    var t := Next(s, ENTER);
    ResetHolds(g, RESET);
    assert !Died(s);
    hide Score;
    forall i: ShipId
      ensures t.ships[i] == EnemyStart(StartX(i), StartY(i))
    {
      assert t.ships[i] == ShipClocked(s, i, ENTER);
      assert !Touches(StartX(i), StartY(i), 0, 479);
    }
  }

  /** The boss appears at its start position, is hit on the next clock, and the one after that
      shows WIN. */
  lemma BossShot(g: Game)
    requires Shooting(g, 18) && Inv(g)
    ensures Run(g, LAST_INPUTS).screen == WIN
  {
    var logo := Next(g, IDLE);
    var fight := Next(logo, ENTER);
    var hit := Next(fight, Input(false, false, 0, 320, 0));
    NextKeeps(g, IDLE);
    NextKeeps(logo, ENTER);
    NextKeeps(fight, Input(false, false, 0, 320, 0));
    assert AllHit(g) && !SomeLanded(g);
    PlayLeftIff(g, IDLE);
    EnterMovesOn(logo, ENTER);
    BossBegins(logo, ENTER);
    FightScore(fight);
    BossHit(fight);
    FightLeftIff(hit, IDLE);
    RunFour(g, IDLE, ENTER, Input(false, false, 0, 320, 0), IDLE);
  }

  lemma BossHit(g: Game)
    requires Inv(g) && g.screen == BOSS_FIGHT && g.boss == BOSS_START && Score(g) != 19
    ensures var t := Next(g, Input(false, false, 0, 320, 0));
            t.boss.hit && !Landed(t.boss) && t.screen == BOSS_FIGHT
  {
    FightLeftIff(g, Input(false, false, 0, 320, 0));
    assert !Done(g);
    hide Done, Score;
    assert Touches(320, 0, 320, 0);
  }

  lemma RunFour(g: Game, a: Input, b: Input, c: Input, d: Input)
    ensures Run(g, [a, b, c, d]) == Next(Next(Next(Next(g, a), b), c), d)
  {
    hide Next;
    var t := Next(g, a);
    assert Run(g, [a, b, c, d]) == Run(t, [b, c, d]) by { assert [a, b, c, d][1..] == [b, c, d]; }
    assert Run(t, [b, c, d]) == Run(Next(t, b), [c, d]) by { assert [b, c, d][1..] == [c, d]; }
    RunTwo(Next(t, b), c, d);
  }

  lemma RunTwo(g: Game, a: Input, b: Input)
    ensures Run(g, [a, b]) == Next(Next(g, a), b)
  {
    hide Next;
    assert [a, b][1..] == [b];
    assert Run(Next(g, a), [b]) == Run(Next(Next(g, a), b), []);
  }

  const LAST_INPUTS: seq<Input> := [IDLE, ENTER, Input(false, false, 0, 320, 0), IDLE]

  lemma FleetShot(g: Game)
    ensures var s := Run(Next(Next(g, RESET), ENTER), Shots(18)); Shooting(s, 18) && Inv(s)
  {
    var s := Next(Next(g, RESET), ENTER);
    ResetHolds(g, RESET);
    NextKeeps(Next(g, RESET), ENTER);
    ShootingBegins(g);
    hide Next, Inv, Shooting;
    ManyShots(s, 18);
    RunKeeps(s, Shots(18));
  }

  /** Enter, a shot at each ship, Enter, a shot at the boss. */
  function WinningInputs(): seq<Input> {
    [ENTER] + (Shots(18) + LAST_INPUTS)
  }

  ghost predicate NoReset(inputs: seq<Input>) {
    forall k | 0 <= k < |inputs| :: !inputs[k].reset
  }

  /** From any power-up state, once reset, the game can be won, without another reset. */
  lemma GameCanBeWon(g: Game)
    ensures Run(Next(g, RESET), WinningInputs()).screen == WIN && NoReset(WinningInputs())
  {
    hide Next, Run, Shots;
    Won(g);
    ShotsPlain(18);
    assert NoReset([ENTER]) && NoReset(LAST_INPUTS);
    hide NoReset;
    PlainJoin(Shots(18), LAST_INPUTS);
    PlainJoin([ENTER], Shots(18) + LAST_INPUTS);
  }

  lemma PlainJoin(a: seq<Input>, b: seq<Input>)
    requires NoReset(a) && NoReset(b)
    ensures NoReset(a + b)
  {
  }

  lemma Won(g: Game)
    ensures Run(Next(g, RESET), WinningInputs()).screen == WIN
  {
    var s := Next(Next(g, RESET), ENTER);
    FleetShot(g);
    BossShot(Run(s, Shots(18)));
    RunTwice(s, Shots(18), LAST_INPUTS);
    FirstInput(Next(g, RESET), ENTER, Shots(18) + LAST_INPUTS);
    hide Next, Inv, Shooting, Run, Shots;
  }

  lemma FirstInput(g: Game, inp: Input, inputs: seq<Input>)
    ensures Run(g, [inp] + inputs) == Run(Next(g, inp), inputs)
  {
    hide Next;
    assert ([inp] + inputs)[1..] == inputs;
  }

  lemma {:induction false} ShotsPlain(n: nat)
    requires n <= 18
    ensures NoReset(Shots(n))
  {
    if n > 0 {
      ShotsPlain(n - 1);
    }
  }

  lemma {:induction false} RunTwice(g: Game, first: seq<Input>, second: seq<Input>)
    ensures Run(g, first + second) == Run(Run(g, first), second)
    decreases |first|
  {
    hide Next;
    if first == [] {
      assert first + second == second;
    } else {
      assert (first + second)[1..] == first[1..] + second;
      RunTwice(Next(g, first[0]), first[1..], second);
    }
  }

  // ---------------------------------------------------------------- frames

  /** A frame passes on the clock after the frame clock has risen, and on no other. */
  lemma FrameIff(g: Game, before: Input, now: Input)
    ensures Next(Next(g, before), now).edge <==> now.frameClk && !before.frameClk
  {
  }

  /** Rising edges of the frame clock. */
  function Rises(inputs: seq<Input>): nat {
    if |inputs| < 2 then 0
    else Rises(inputs[1..]) + (if inputs[1].frameClk && !inputs[0].frameClk then 1 else 0)
  }

  lemma {:induction false} FramesAreRises(g: Game, before: Input, inputs: seq<Input>)
    requires inputs != []
    ensures Frames(Next(g, before), inputs)
         == Rises([before] + inputs[..|inputs| - 1]) + (if Next(g, before).edge then 1 else 0)
    decreases |inputs|
  {
    var s := Next(g, before);
    if |inputs| == 1 {
      assert Frames(Next(s, inputs[0]), inputs[1..]) == 0;
      assert [before] + inputs[..0] == [before];
    } else {
      FramesAreRises(s, inputs[0], inputs[1..]);
      FrameIff(g, before, inputs[0]);
      var shifted := [before] + inputs[..|inputs| - 1];
      assert shifted[1..] == [inputs[0]] + inputs[1..][..|inputs| - 2];
      hide Next;
    }
  }

  /** Measured on the frame clock itself: a PLAY phase sees at most 8492 of its rises. */
  lemma PlayEndsInTime(g: Game, before: Input, inputs: seq<Input>)
    requires Inv(g) && inputs != [] && Stays(Next(g, before), inputs, PLAY)
    ensures Rises([before] + inputs[..|inputs| - 1]) <= 8492
  {
    NextKeeps(g, before);
    PlayEnds(Next(g, before), inputs);
    FramesAreRises(g, before, inputs);
    hide Next, Inv, Stays, Frames, Rises;
  }

  // ---------------------------------------------------------------- ships that have been hit

  const PARKED: Ship := Ship(X_MAX, 0, 0, 0, true)

  /** A ship that has been hit leaves the field on the next clock, unless one has landed on this
      one, and stays away: it can no longer end the game. */
  lemma HitShipParks(g: Game, inp: Input, i: ShipId)
    requires g.screen == PLAY && !inp.reset && !Done(g) && g.ships[i].hit
    ensures Next(g, inp).ships[i] == PARKED && !Landed(PARKED)
  {
    assert Next(g, inp).ships[i] == ShipClocked(g, i, inp);
    assert !Landed(g.ships[i]);
    hide Done, Touches;
  }

  /** So in PLAY a game is lost only by a ship that was not yet hit one clock before. */
  lemma LostByUnhitShip(g: Game, inp: Input, i: ShipId)
    requires Inv(g) && g.screen == PLAY && Next(g, inp).screen == PLAY && Landed(Next(g, inp).ships[i])
    ensures !g.ships[i].hit
  {
    NoBoss(g);
    StillPlaying(g, inp);
    hide Inv, Next, Done;
    if g.ships[i].hit {
      HitShipParks(g, inp, i);
    }
  }

  /** In the first 5190 frames of a PLAY phase no un-hit ship lands; then the ship at the right
      end of the lowest row does, if it has not been hit. */
  lemma EarliestLanding(g: Game, u: nat, i: ShipId)
    requires PlayOk(g, u) && !g.ships[i].hit
    ensures u <= 5190 ==> !Landed(g.ships[i])
    ensures u >= 5191 && i == 17 ==> Landed(g.ships[i])
  {
    LandsIff(g.ships[i], Phase(i, u), StartY(i));
    hide OnOrbit, Landed;
  }

  // ---------------------------------------------------------------- the picture

  /** In PLAY an un-hit ship shows exactly the opaque pixels of its 30 by 30 box, whatever else is
      there, and where there is no such ship the background shows. */
  lemma PictureIsFleet(g: Game, px: U10, py: U10, colours: ShipId -> int, order: seq<ShipId>)
    requires Inv(g) && g.screen == PLAY && forall i: ShipId :: i in order
    ensures forall i: ShipId ::
              Shows(g.ships[i], px, py, colours(i)) ==> EnemyColour(g, px, py, colours, order) == colours(i)
    ensures (forall i: ShipId :: !Shows(g.ships[i], px, py, colours(i))) ==>
              EnemyColour(g, px, py, colours, order) == BACKGROUND
  {
    forall i: ShipId
      ensures Lit(g.ships[i], px, py, colours(i)) <==> Shows(g.ships[i], px, py, colours(i))
    {
      if !g.ships[i].hit {
        FleetInView(g, i);
      }
    }
    hide Lit, Inv, Shows;
    forall i: ShipId | Shows(g.ships[i], px, py, colours(i))
      ensures EnemyColour(g, px, py, colours, order) == colours(i)
    {
      ChainFinds(g, px, py, colours, order, i);
    }
    if forall i: ShipId :: !Shows(g.ships[i], px, py, colours(i)) {
      ChainMisses(g, px, py, colours, order);
    }
  }

  /** The pixel is an opaque one of the ship's sprite. */
  predicate Shows(s: Ship, px: int, py: int, colour: int) {
    !s.hit && 0 <= px - s.x < 30 && 0 <= py - s.y < 30 && colour != BACKGROUND
  }
}
