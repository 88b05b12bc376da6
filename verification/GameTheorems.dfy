/** Properties of the whole game that hold for every sequence of keys, frames, resets and laser
    positions. */
module GameTheorems {
  import opened GameShips
  import opened GameOrbit
  import opened GameController

  // ---------------------------------------------------------------- the invariant

  function Phase(i: ShipId, u: nat): nat { u + 50 * (i % 6 + 1) }

  /** u frames into a PLAY phase every un-hit ship is on the orbit of its column and row. */
  ghost predicate PlayOk(g: Game, u: nat) {
    && u <= 8492
    && forall i: ShipId :: !g.ships[i].hit ==> OnOrbit(g.ships[i], Phase(i, u), StartY(i))
  }

  ghost predicate AllHit(g: Game) {
    forall i: ShipId :: g.ships[i].hit
  }

  ghost predicate Inv(g: Game) {
    && (g.screen == PLAY ==> exists u: nat :: PlayOk(g, u))
    && (g.screen == BOSS_LOGO || g.screen == BOSS_FIGHT ==> AllHit(g))
    && (g.screen == BOSS_FIGHT && !g.boss.hit ==> BossFlies(g.boss))
    && (g.boss.hit ==> g.screen == BOSS_FIGHT)
  }

  lemma ResetHolds(g: Game, inp: Input)
    requires inp.reset
    ensures Inv(Next(g, inp)) && Score(Next(g, inp)) == 0
  {
    var t := Next(g, inp);
    ScoreCountsHits(t);
    NoHits(t.ships);
  }

  lemma {:induction false} NoHits(ships: seq<Ship>)
    requires forall i | 0 <= i < |ships| :: !ships[i].hit
    ensures Hits(ships) == 0
  {
    if ships != [] {
      NoHits(ships[..|ships| - 1]);
    }
  }

  /** In PLAY the game is over, or the fleet destroyed, no later than frame 8492. */
  lemma LastFrame(g: Game)
    requires g.screen == PLAY && PlayOk(g, 8492)
    ensures Died(g) || AllHit(g)
  {
    if !AllHit(g) {
      var i: ShipId :| !g.ships[i].hit;
      LandsInTime(g.ships[i], Phase(i, 8492), StartY(i));
    }
  }

  lemma ShipContinues(g: Game, inp: Input, u: nat, i: ShipId)
    requires g.screen == PLAY && PlayOk(g, u) && !inp.reset
    requires !Landed(g.ships[i]) && !Done(g) && !ShipClocked(g, i, inp).hit
    ensures OnOrbit(ShipClocked(g, i, inp), Phase(i, if g.edge then u + 1 else u), StartY(i))
  {
    hide Done, OnOrbit, EnemyFrame, Touches;
    var s := g.ships[i];
    assert !s.hit;
    if g.edge {
      assert s.y <= 1000;
      FrameFollowsOrbit(s, Phase(i, u), StartY(i));
      assert Phase(i, u) + 1 == Phase(i, u + 1);
      assert EnemyFrame(s).(hit := EnemyFrame(s).hit) == EnemyFrame(s);
      FlagKept(s);
    }
  }

  lemma FlagKept(s: Ship)
    ensures EnemyFrame(s).hit == s.hit
  {
  }

  lemma StillPlaying(g: Game, inp: Input)
    requires g.screen == PLAY && !g.boss.hit && Next(g, inp).screen == PLAY
    ensures !inp.reset && !Died(g) && !Done(g) && !AllHit(g)
  {
    hide Score, Hits, ShipClocked, BossClocked, Died;
    ScoreCountsHits(g);
  }

  /** While PLAY goes on, the orbit advances with the frames. */
  lemma PlayContinues(g: Game, inp: Input, u: nat)
    requires g.screen == PLAY && PlayOk(g, u) && !g.boss.hit
    requires Next(g, inp).screen == PLAY
    ensures PlayOk(Next(g, inp), if g.edge then u + 1 else u)
  {
    hide Done, OnOrbit, ShipClocked;
    var t := Next(g, inp);
    StillPlaying(g, inp);
    if u == 8492 {
      LastFrame(g);
    }
    forall i: ShipId | !t.ships[i].hit
      ensures OnOrbit(t.ships[i], Phase(i, if g.edge then u + 1 else u), StartY(i))
    {
      ShipContinues(g, inp, u, i);
    }
  }

  lemma PlayBegins(g: Game, inp: Input)
    requires g.screen == START && Next(g, inp).screen == PLAY
    ensures PlayOk(Next(g, inp), 0)
  {
    var t := Next(g, inp);
    forall i: ShipId
      ensures OnOrbit(t.ships[i], Phase(i, 0), StartY(i))
    {
      assert t.ships[i] == ShipClocked(g, i, inp);
      StartOnOrbit(i % 6 + 1, StartY(i));
    }
  }

  lemma PlayKept(g: Game, inp: Input)
    requires Inv(g) && Next(g, inp).screen == PLAY
    ensures exists u: nat :: PlayOk(Next(g, inp), u)
  {
    hide PlayOk, Died, Score;
    if g.screen == PLAY {
      var u: nat :| PlayOk(g, u);
      PlayContinues(g, inp, u);
    } else {
      PlayBegins(g, inp);
    }
  }

  /** Outside PLAY the fleet does not move the game on, and flags stay set until it is over. */
  lemma HitsKept(g: Game, inp: Input)
    requires !inp.reset && !Done(g)
    ensures forall i: ShipId :: g.ships[i].hit ==> Next(g, inp).ships[i].hit
    ensures g.screen == BOSS_FIGHT && g.boss.hit ==> Next(g, inp).boss.hit
  {
    hide Done;
    forall i: ShipId | g.ships[i].hit
      ensures Next(g, inp).ships[i].hit
    {
      assert Next(g, inp).ships[i] == ShipClocked(g, i, inp);
    }
  }

  lemma BossPhaseKept(g: Game, inp: Input)
    requires Inv(g)
    requires Next(g, inp).screen == BOSS_LOGO || Next(g, inp).screen == BOSS_FIGHT
    ensures AllHit(Next(g, inp)) && !Done(g)
  {
    ScoreCountsHits(g);
    assert !Died(g);
    HitsKept(g, inp);
  }

  lemma BossKept(g: Game, inp: Input)
    requires Inv(g)
    ensures Next(g, inp).screen == BOSS_FIGHT && !Next(g, inp).boss.hit ==> BossFlies(Next(g, inp).boss)
    ensures Next(g, inp).boss.hit ==> Next(g, inp).screen == BOSS_FIGHT
  {
    var t := Next(g, inp);
    ScoreCountsHits(g);
    hide Score, Hits, PlayOk;
    assert t.boss == BossClocked(g, inp);
    if g.screen == BOSS_FIGHT && !g.boss.hit && !Landed(g.boss) {
      BossFrameFlies(g.boss, inp.keycode);
    }
  }

  /** Every clock keeps the invariant, whatever the inputs. */
  lemma NextKeeps(g: Game, inp: Input)
    requires Inv(g)
    ensures Inv(Next(g, inp))
  {
    var t := Next(g, inp);
    BossKept(g, inp);
    if t.screen == PLAY {
      PlayKept(g, inp);
    } else if t.screen == BOSS_LOGO || t.screen == BOSS_FIGHT {
      BossPhaseKept(g, inp);
    }
    hide Next, PlayOk;
  }

  /** Every state reached after a reset satisfies the invariant. */
  lemma {:induction false} RunKeeps(g: Game, inputs: seq<Input>)
    requires Inv(g)
    ensures Inv(Run(g, inputs))
    decreases |inputs|
  {
    hide Inv, Next;
    if inputs != [] {
      NextKeeps(g, inputs[0]);
      RunKeeps(Next(g, inputs[0]), inputs[1..]);
    }
  }

  /** From any power-up state, once reset. */
  lemma HoldsAfterReset(g: Game, reset: Input, inputs: seq<Input>)
    requires reset.reset
    ensures Inv(Run(Next(g, reset), inputs))
  {
    ResetHolds(g, reset);
    RunKeeps(Next(g, reset), inputs);
  }

  // ---------------------------------------------------------------- what the player sees

  /** Un-hit ships never overlap. */
  lemma FleetApart(g: Game, i: ShipId, j: ShipId)
    requires Inv(g) && g.screen == PLAY && i < j
    requires !g.ships[i].hit && !g.ships[j].hit
    ensures BoxesApart(g.ships[i], g.ships[j])
  {
    var u: nat :| PlayOk(g, u);
    if i / 6 == j / 6 {
      SameRowApart(g.ships[i], Phase(i, u), g.ships[j], Phase(j, u), StartY(i));
    } else {
      OtherRowApart(g.ships[i], Phase(i, u), StartY(i), g.ships[j], Phase(j, u), StartY(j));
    }
  }

  /** Columns stay within the screen, with the matching heading at each end, and no row wraps. */
  lemma FleetInView(g: Game, i: ShipId)
    requires Inv(g) && g.screen == PLAY && !g.ships[i].hit
    ensures g.ships[i].x <= 610 && g.ships[i].y + SIZE < 1024
    ensures g.ships[i].x == 0 ==> g.ships[i].xm == 1
    ensures g.ships[i].x == 610 ==> g.ships[i].xm == Neg(1)
  {
    var u: nat :| PlayOk(g, u);
    EnemyFlies(g.ships[i], Phase(i, u), StartY(i));
  }

  /** So at most one ship claims a pixel. */
  lemma OneShipPerPixel(g: Game, px: U10, py: U10, colours: ShipId -> int, i: ShipId, j: ShipId)
    requires Inv(g) && g.screen == PLAY
    requires Lit(g.ships[i], px, py, colours(i)) && Lit(g.ships[j], px, py, colours(j))
    ensures i == j
  {
    if i != j {
      var a, b := if i < j then i else j, if i < j then j else i;
      FleetInView(g, a);
      FleetInView(g, b);
      FleetApart(g, a, b);
    }
  }

  /** The colour chain of the play screen: the first lit ship in the given order wins. */
  function EnemyColour(g: Game, px: U10, py: U10, colours: ShipId -> int, order: seq<ShipId>): int {
    if order == [] then BACKGROUND
    else if Lit(g.ships[order[0]], px, py, colours(order[0])) then colours(order[0])
    else EnemyColour(g, px, py, colours, order[1..])
  }

  lemma {:induction false} ChainFinds(g: Game, px: U10, py: U10, colours: ShipId -> int, order: seq<ShipId>, i: ShipId)
    requires Inv(g) && g.screen == PLAY
    requires i in order && Lit(g.ships[i], px, py, colours(i))
    ensures EnemyColour(g, px, py, colours, order) == colours(i)
    decreases |order|
  {
    hide Inv, Lit;
    if Lit(g.ships[order[0]], px, py, colours(order[0])) {
      OneShipPerPixel(g, px, py, colours, i, order[0]);
    } else {
      ChainFinds(g, px, py, colours, order[1..], i);
    }
  }

  lemma {:induction false} ChainMisses(g: Game, px: U10, py: U10, colours: ShipId -> int, order: seq<ShipId>)
    requires forall k | 0 <= k < |order| :: !Lit(g.ships[order[k]], px, py, colours(order[k]))
    ensures EnemyColour(g, px, py, colours, order) == BACKGROUND
    decreases |order|
  {
    if order != [] {
      ChainMisses(g, px, py, colours, order[1..]);
    }
  }

  /** The order of the enemy branches in the chain does not affect the picture. */
  lemma ChainOrderIrrelevant(g: Game, px: U10, py: U10, colours: ShipId -> int, first: seq<ShipId>, second: seq<ShipId>)
    requires Inv(g) && g.screen == PLAY
    requires forall i: ShipId :: i in first && i in second
    ensures EnemyColour(g, px, py, colours, first) == EnemyColour(g, px, py, colours, second)
  {
    hide Inv, Lit;
    if exists i: ShipId :: Lit(g.ships[i], px, py, colours(i)) {
      var i: ShipId :| Lit(g.ships[i], px, py, colours(i));
      ChainFinds(g, px, py, colours, first, i);
      ChainFinds(g, px, py, colours, second, i);
    } else {
      ChainMisses(g, px, py, colours, first);
      ChainMisses(g, px, py, colours, second);
    }
  }

  /** Ships of one column fly in lockstep, a fixed number of rows apart. */
  lemma Lockstep(g: Game, i: ShipId, j: ShipId)
    requires Inv(g) && g.screen == PLAY && i % 6 == j % 6
    requires !g.ships[i].hit && !g.ships[j].hit
    ensures g.ships[i].x == g.ships[j].x && g.ships[i].xm == g.ships[j].xm && g.ships[i].ym == g.ships[j].ym
    ensures g.ships[i].y - g.ships[j].y == StartY(i) - StartY(j)
  {
    var u: nat :| PlayOk(g, u);
  }

  /** Ship i is where the first ship of the top row would be t frames after its start, one or
      two row offsets lower. */
  ghost predicate Follows(g: Game, i: ShipId, t: nat) {
    var f := FirstShip(t);
    f.y + StartY(i) < 1024 && g.ships[i] == f.(y := f.y + StartY(i))
  }

  /** Time shift: all un-hit ships follow the first ship's flight, each column 50 frames ahead. */
  ghost predicate FollowsFirst(g: Game, u: nat) {
    u <= 8492 && forall i: ShipId :: !g.ships[i].hit ==> Follows(g, i, u + 50 * (i % 6))
  }

  lemma FleetIsTimeShifted(g: Game)
    requires Inv(g) && g.screen == PLAY
    ensures exists u: nat :: FollowsFirst(g, u)
  {
    var u: nat :| PlayOk(g, u);
    forall i: ShipId | !g.ships[i].hit
      ensures Follows(g, i, u + 50 * (i % 6))
    {
      ShipFollows(g, i, u);
    }
    assert FollowsFirst(g, u);
  }

  lemma ShipFollows(g: Game, i: ShipId, u: nat)
    requires PlayOk(g, u) && !g.ships[i].hit
    ensures Follows(g, i, u + 50 * (i % 6))
  {
    TimeShift(g.ships[i], u, i % 6, StartY(i));
    hide FirstShip, OnOrbit;
  }

  // ---------------------------------------------------------------- every phase ends

  /** All states of the run show the given screen. */
  ghost predicate Stays(g: Game, inputs: seq<Input>, screen: Screen)
    decreases |inputs|
  {
    g.screen == screen && (inputs != [] ==> Stays(Next(g, inputs[0]), inputs[1..], screen))
  }

  /** Frames that pass during the run. */
  function Frames(g: Game, inputs: seq<Input>): nat
    decreases |inputs|
  {
    if inputs == [] then 0 else (if g.edge then 1 else 0) + Frames(Next(g, inputs[0]), inputs[1..])
  }

  lemma {:induction false} PlayProgress(g: Game, inputs: seq<Input>, u: nat)
    requires PlayOk(g, u) && !g.boss.hit && Inv(g) && Stays(g, inputs, PLAY)
    ensures PlayOk(Run(g, inputs), u + Frames(g, inputs))
    decreases |inputs|
  {
    hide PlayOk, Inv, Next;
    if inputs != [] {
      var t := Next(g, inputs[0]);
      PlayContinues(g, inputs[0], u);
      NextKeeps(g, inputs[0]);
      NoBoss(t);
      PlayProgress(t, inputs[1..], if g.edge then u + 1 else u);
    }
  }

  lemma NoBoss(g: Game)
    requires Inv(g) && g.screen == PLAY
    ensures !g.boss.hit
  {
  }

  /** A PLAY phase ends within 8492 frames, whatever is pressed and hit: either every ship has
      been hit or one of them has landed. */
  lemma PlayEnds(g: Game, inputs: seq<Input>)
    requires Inv(g) && Stays(g, inputs, PLAY)
    ensures Frames(g, inputs) <= 8492
  {
    var u: nat :| PlayOk(g, u);
    NoBoss(g);
    hide Inv, Next, OnOrbit, Run, Frames;
    PlayProgress(g, inputs, u);
  }

  lemma BossApproaches(g: Game, inp: Input)
    requires Inv(g) && g.screen == BOSS_FIGHT && Next(g, inp).screen == BOSS_FIGHT
    ensures !g.boss.hit && !Landed(g.boss)
    ensures BossPotential(Next(g, inp).boss) + (if g.edge then 1 else 0) <= BossPotential(g.boss)
    ensures BossPotential(Next(g, inp).boss) >= 0
  {
    ScoreCountsHits(g);
    assert !Died(g) && Score(g) != 0x13;
    assert !g.boss.hit;
    hide Score, Hits, PlayOk;
    BossDescends(g.boss, inp.keycode);
    assert Next(g, inp).boss == BossClocked(g, inp);
  }

  lemma {:induction false} BossProgress(g: Game, inputs: seq<Input>)
    requires Inv(g) && Stays(g, inputs, BOSS_FIGHT) && inputs != []
    ensures Frames(g, inputs) <= BossPotential(g.boss)
    decreases |inputs|
  {
    hide Inv, Next, BossPotential;
    BossApproaches(g, inputs[0]);
    NextKeeps(g, inputs[0]);
    if |inputs| > 1 {
      BossProgress(Next(g, inputs[0]), inputs[1..]);
    }
  }

  lemma StartPotential()
    ensures BossPotential(BOSS_START) == 53231
  {
  }

  lemma BossBegins(g: Game, inp: Input)
    requires g.screen == BOSS_LOGO && Next(g, inp).screen == BOSS_FIGHT
    ensures Next(g, inp).boss == BOSS_START
  {
  }

  /** A BOSS_FIGHT phase ends within 53231 frames, even if space is held all the time. */
  lemma BossFightEnds(g: Game, inp: Input, inputs: seq<Input>)
    requires Inv(g) && g.screen != BOSS_FIGHT && Stays(Next(g, inp), inputs, BOSS_FIGHT)
    ensures Frames(Next(g, inp), inputs) <= 53231
  {
    NextKeeps(g, inp);
    assert g.screen == BOSS_LOGO;
    BossBegins(g, inp);
    StartPotential();
    hide Inv, Next, BossPotential;
    if inputs != [] {
      BossProgress(Next(g, inp), inputs);
    }
  }

  // ---------------------------------------------------------------- hits

  /** Where ships and boss can be, hit or not, on any screen. */
  ghost predicate AllPlaced(g: Game) {
    (forall i: ShipId :: g.ships[i].x <= X_MAX && Placed(g.ships[i])) && Placed(g.boss)
  }

  lemma OrbitPlaced(s: Ship, u: nat, y0: U10)
    requires OnOrbit(s, u, y0) && u <= 8792 && y0 <= 160
    ensures s.x <= X_MAX && Placed(s)
    ensures !Landed(s) ==> EnemyFrame(s).x <= X_MAX && Placed(EnemyFrame(s))
  {
    EnemyFlies(s, u, y0);
    assert Leg(u) <= 14;
    hide Leg, Step;
  }

  lemma BossPlaced(s: Ship, keycode: int)
    requires BossFlies(s) && !Landed(s)
    ensures Placed(BossFrame(s, keycode))
  {
    BossFrameFlies(s, keycode);
  }

  lemma ShipPlacedNext(g: Game, inp: Input, i: ShipId)
    requires Inv(g) && AllPlaced(g)
    ensures ShipClocked(g, i, inp).x <= X_MAX && Placed(ShipClocked(g, i, inp))
  {
    var s := g.ships[i];
    if g.screen == PLAY && !s.hit {
      var u: nat :| PlayOk(g, u);
      OrbitPlaced(s, Phase(i, u), StartY(i));
    }
    hide OnOrbit, Done, Touches;
  }

  lemma BossPlacedNext(g: Game, inp: Input)
    requires Inv(g) && AllPlaced(g)
    ensures Placed(BossClocked(g, inp))
  {
    if g.screen == BOSS_FIGHT && !g.boss.hit && !Landed(g.boss) {
      BossPlaced(g.boss, inp.keycode);
    }
    hide PlayOk, Done, Touches;
  }

  lemma {:induction false} StaysPlaced(g: Game, inputs: seq<Input>)
    requires Inv(g) && AllPlaced(g)
    ensures Inv(Run(g, inputs)) && AllPlaced(Run(g, inputs))
    decreases |inputs|
  {
    hide Inv, Placed, ShipClocked, BossClocked;
    if inputs != [] {
      var t := Next(g, inputs[0]);
      NextKeeps(g, inputs[0]);
      forall i: ShipId
        ensures t.ships[i].x <= X_MAX && Placed(t.ships[i])
      {
        ShipPlacedNext(g, inputs[0], i);
      }
      BossPlacedNext(g, inputs[0]);
      StaysPlaced(t, inputs[1..]);
    }
  }

  lemma ShipHitIff(g: Game, inp: Input, i: ShipId)
    requires AllPlaced(g) && !inp.reset && !Done(g) && !g.ships[i].hit
    ensures ShipClocked(g, i, inp).hit <==>
            Struck(g.ships[i], inp.laserX, inp.laserY) && !Straddles(g.ships[i], inp.laserY)
  {
    TouchesIff(g.ships[i], inp.laserX, inp.laserY);
    hide Done, Touches, Struck, Straddles, Placed, EnemyNext;
  }

  lemma BossHitIff(g: Game, inp: Input)
    requires Inv(g) && AllPlaced(g) && !inp.reset && !Done(g) && !g.boss.hit
    ensures BossClocked(g, inp).hit <==>
            && g.screen == BOSS_FIGHT && Struck(g.boss, inp.laserX, inp.laserY)
            && !Straddles(g.boss, inp.laserY) && Signed(g.boss.x) != -5
  {
    TouchesIff(g.boss, inp.laserX, inp.laserY);
    hide Done, Touches, Struck, Straddles, BossNext, PlayOk;
  }

  /** In every state reached after a reset, while the game is not over, the next clock sets the
      flag of a ship exactly when the laser shares a point with it and does not straddle it; the
      boss must also be wholly on the screen. */
  lemma HitsRegisteredIff(g: Game, reset: Input, inputs: seq<Input>, inp: Input)
    requires reset.reset && !inp.reset && !Done(Run(Next(g, reset), inputs))
    ensures var s, t := Run(Next(g, reset), inputs), Run(Next(g, reset), inputs + [inp]);
            && (forall i: ShipId :: t.ships[i].hit <==>
                 || s.ships[i].hit
                 || (Struck(s.ships[i], inp.laserX, inp.laserY) && !Straddles(s.ships[i], inp.laserY)))
            && (t.boss.hit <==>
                 || s.boss.hit
                 || (s.screen == BOSS_FIGHT && Struck(s.boss, inp.laserX, inp.laserY)
                     && !Straddles(s.boss, inp.laserY) && Signed(s.boss.x) != -5))
  {
    ResetHolds(g, reset);
    StartPlaced(g, reset);
    StaysPlaced(Next(g, reset), inputs);
    var s := Run(Next(g, reset), inputs);
    var t := Next(s, inp);
    RunOneMore(Next(g, reset), inputs, inp);
    HitsKept(s, inp);
    assert s.boss.hit ==> s.screen == BOSS_FIGHT;
    hide Done, Struck, Straddles, Run, Inv, AllPlaced, ShipClocked, BossClocked;
    forall i: ShipId | !s.ships[i].hit
      ensures t.ships[i].hit <==> Struck(s.ships[i], inp.laserX, inp.laserY) && !Straddles(s.ships[i], inp.laserY)
    {
      ShipHitIff(s, inp, i);
    }
    if !s.boss.hit {
      BossHitIff(s, inp);
    }
  }

  lemma StartPlaced(g: Game, inp: Input)
    requires inp.reset
    ensures AllPlaced(Next(g, inp))
  {
  }

  lemma {:induction false} RunOneMore(g: Game, inputs: seq<Input>, inp: Input)
    ensures Run(g, inputs + [inp]) == Next(Run(g, inputs), inp)
    decreases |inputs|
  {
    hide Next;
    if inputs == [] {
      assert Run(Next(g, inp), []) == Next(g, inp);
    } else {
      assert (inputs + [inp])[1..] == inputs[1..] + [inp];
      RunOneMore(Next(g, inputs[0]), inputs[1..], inp);
    }
  }

  // ---------------------------------------------------------------- score and outcome

  /** Unless the game is over, or a reset comes, no flag is cleared: the score never falls. */
  lemma ScoreNeverFalls(g: Game, inp: Input)
    requires Inv(g) && !inp.reset && !Done(g)
    ensures Score(Next(g, inp)) >= Score(g)
  {
    var t := Next(g, inp);
    HitsKept(g, inp);
    ScoreCountsHits(g);
    ScoreCountsHits(t);
    MoreHits(g.ships, t.ships);
    BossHitKept(g, inp);
    hide Score, Hits, Next;
  }

  lemma BossHitKept(g: Game, inp: Input)
    requires Inv(g) && !inp.reset && !Done(g)
    ensures Count(Next(g, inp).boss) >= Count(g.boss)
  {
    hide Done, PlayOk;
    HitsKept(g, inp);
  }

  lemma {:induction false} MoreHits(before: seq<Ship>, after: seq<Ship>)
    requires |before| == |after| && forall i | 0 <= i < |before| :: before[i].hit ==> after[i].hit
    ensures Hits(before) <= Hits(after)
  {
    if before != [] {
      MoreHits(before[..|before| - 1], after[..|after| - 1]);
    }
  }

  /** A clock on which the game is over is followed by score zero; so a score of 19 lasts one clock. */
  lemma DoneClearsScore(g: Game, inp: Input)
    requires Done(g)
    ensures Score(Next(g, inp)) == 0
  {
    var t := Next(g, inp);
    hide Done;
    ScoreCountsHits(t);
    forall i: ShipId
      ensures !t.ships[i].hit
    {
      assert t.ships[i] == ShipClocked(g, i, inp);
    }
    NoHits(t.ships);
  }

  /** The game is won only on a clock on which all eighteen ships and the boss are hit. */
  lemma WinIsEarned(g: Game, inp: Input)
    requires Inv(g) && g.screen != WIN && Next(g, inp).screen == WIN
    ensures AllHit(g) && g.boss.hit && g.screen == BOSS_FIGHT && Score(g) == 19
    ensures Score(Next(g, inp)) == 0
  {
    hide PlayOk, Hits, ShipClocked;
    DoneClearsScore(g, inp);
    ScoreCountsHits(g);
  }
}
