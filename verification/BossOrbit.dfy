/** The flight of the boss: in closed form without the space key, and with it held down. */
module BossOrbit {
  import opened GameShips
  import opened GameController
  import opened GameTheorems
  import opened GamePhases

  /** Frames from one left extreme to the next, with a loss of 50 rows: two drops of ten at the
      left edge, three at the right. */
  const ROUND: int := 248

  function BossColumn(p: nat): int {
    if p < 124 then 5 * p - 5 else 615 - 5 * (p - 124)
  }

  function BossDrop(p: nat): int {
    if p == 0 then 0 else if p < 3 then 10 else if p < 125 then 20 else if p < 127 then 10 * (p - 122) else 50
  }

  function BossFalling(p: nat): U10 {
    if p == 0 || p == 2 || 124 <= p < 127 then 10 else 0
  }

  /** u frames after a left extreme 20 rows above the screen. */
  predicate OnBossOrbit(s: Ship, u: nat) {
    var p := u % ROUND;
    && Signed(s.x) == BossColumn(p)
    && s.y == 50 * (u / ROUND) + BossDrop(p) - 20
    && s.xm == (if p < 124 then BOSS_STEP else Neg(BOSS_STEP))
    && s.ym == BossFalling(p)
  }

  lemma NextInRound(u: nat)
    ensures u % ROUND < ROUND - 1 ==> (u + 1) / ROUND == u / ROUND && (u + 1) % ROUND == u % ROUND + 1
    ensures u % ROUND == ROUND - 1 ==> (u + 1) / ROUND == u / ROUND + 1 && (u + 1) % ROUND == 0
    ensures 0 <= u % ROUND < ROUND && u == ROUND * (u / ROUND) + u % ROUND
  {
  }

  /** Without the space key one frame of the hardware is one step along the closed form. */
  lemma FrameFollowsBossOrbit(s: Ship, u: nat, keycode: int)
    requires OnBossOrbit(s, u) && s.y <= 1000 && keycode != SPACE_KEY
    ensures OnBossOrbit(BossFrame(s, keycode), u + 1)
  {
    NextInRound(u);
    var p := u % ROUND;
    assert AtRightEdge(s) <==> 123 <= p <= 125;
    assert AtLeftEdge(s) <==> p == 1 || p == 247;
    hide AtRightEdge, AtLeftEdge;
  }

  /** The boss t frames after its start, with the given key on each frame. */
  function BossFlight(keys: nat -> int, t: nat): Ship {
    if t == 0 then BOSS_START else BossFrame(BossFlight(keys, t - 1), keys(t - 1))
  }

  lemma {:induction false} BossUndisturbed(keys: nat -> int, t: nat)
    requires t <= 4000 && forall k: nat | k < t :: keys(k) != SPACE_KEY
    ensures OnBossOrbit(BossFlight(keys, t), t + 65)
  {
    if t > 0 {
      BossUndisturbed(keys, t - 1);
      hide BossFrame;
      FrameFollowsBossOrbit(BossFlight(keys, t - 1), t + 64, keys(t - 1));
    }
  }

  /** Left alone, the boss lands on its frame 2044. */
  lemma BossLandsAlone(keys: nat -> int, t: nat)
    requires t <= 4000 && forall k: nat | k < t :: keys(k) != SPACE_KEY
    ensures Landed(BossFlight(keys, t)) <==> t >= 2044
  {
    BossUndisturbed(keys, t);
    hide BossFlight;
    OrbitLandsIff(BossFlight(keys, t), t + 65);
  }

  lemma OrbitLandsIff(s: Ship, u: nat)
    requires OnBossOrbit(s, u) && u <= 4100
    ensures Landed(s) <==> u >= 2109
  {
    NextInRound(u);
    RoundAndRest(u / ROUND, u % ROUND, u);
    hide Signed;
  }

  /** Row 409 is reached in the ninth round, at the second drop of the right edge. */
  lemma RoundAndRest(k: nat, p: nat, u: nat)
    requires u == ROUND * k + p && p < ROUND
    ensures 50 * k + BossDrop(p) - 20 >= 409 <==> u >= 2109
  {
    if k <= 7 {
      assert u <= 248 * 7 + 247;
    } else if k >= 9 {
      assert u >= 248 * 9;
    }
  }

  /** With the space key held it swings between two columns and sinks by two rows a frame. */
  lemma {:induction false} BossSinks(keys: nat -> int, t: nat)
    requires 0 < t <= 400 && forall k: nat | k < t :: keys(k) == SPACE_KEY
    ensures BossFlight(keys, t) == if t % 2 == 1 then Ship(325, 2 * t - 2, Neg(BOSS_STEP), 2, false)
                                   else Ship(320, 2 * t - 2, BOSS_STEP, 2, false)
  {
    if t > 1 {
      BossSinks(keys, t - 1);
    } else {
      assert BossFlight(keys, 0) == BOSS_START;
    }
  }

  /** Ten times as fast: it lands on frame 206. */
  lemma BossLandsUnderSpace(keys: nat -> int, t: nat)
    requires t <= 400 && forall k: nat | k < t :: keys(k) == SPACE_KEY
    ensures Landed(BossFlight(keys, t)) <==> t >= 206
  {
    if t > 0 {
      BossSinks(keys, t);
    }
  }

  /** Away from the edges space reverses the boss and makes it drop; it still moves by its old
      motion first. */
  lemma SpaceOnce(s: Ship)
    requires BossFlies(s) && !Landed(s) && 5 <= Signed(s.x) <= 605
    ensures var t := BossFrame(s, SPACE_KEY);
            && BossFlies(t)
            && Signed(t.x) == Signed(s.x) + (if s.xm == BOSS_STEP then 5 else -5)
            && t.xm == Neg(s.xm) != s.xm && t.ym == 2 && t.y == s.y + s.ym
  {
    BossFrameFlies(s, SPACE_KEY);
    BossMovesOneColumn(s);
    hide AtRightEdge, AtLeftEdge, Signed;
  }

  /** So two frames with space bring it back to its column and heading, lower by two rows and what
      it was falling already. */
  lemma SpaceTwice(s: Ship)
    requires BossFlies(s) && 10 <= Signed(s.x) <= 600 && !Landed(BossFrame(s, SPACE_KEY)) && !Landed(s)
    ensures var t := BossFrame(BossFrame(s, SPACE_KEY), SPACE_KEY);
            t.x == s.x && t.xm == s.xm && t.ym == 2 && t.y == s.y + s.ym + 2
  {
    SpaceOnce(s);
    SpaceOnce(BossFrame(s, SPACE_KEY));
    hide BossFrame, BossFlies;
  }

  /** At the edges the key does not matter. */
  lemma EdgeWins(s: Ship, key: int, other: int)
    requires BossFlies(s) && (Signed(s.x) == 0 || Signed(s.x) >= 610)
    ensures BossFrame(s, key) == BossFrame(s, other)
    ensures BossFrame(s, key).xm == if Signed(s.x) == 0 then BOSS_STEP else Neg(BOSS_STEP)
    ensures BossFrame(s, key).ym == 10
  {
    BossMovesOneColumn(s);
  }

  // ---------------------------------------------------------------- in the game

  lemma BossClockFollows(g: Game, inp: Input, u: nat)
    requires Inv(g) && g.screen == BOSS_FIGHT && Next(g, inp).screen == BOSS_FIGHT
    requires OnBossOrbit(g.boss, u) && inp.keycode != SPACE_KEY
    ensures OnBossOrbit(Next(g, inp).boss, if g.edge then u + 1 else u)
  {
    if !inp.reset {
      FightLeftIff(g, inp);
      assert Next(g, inp).boss == BossClocked(g, inp);
      if g.edge {
        assert g.boss.y <= 1000;
        FrameFollowsBossOrbit(g.boss, u, inp.keycode);
      }
      hide OnBossOrbit, BossFrame, Done, Touches;
    }
  }

  /** A BOSS_FIGHT phase without the space key: the boss follows its orbit frame by frame, so the
      phase ends by frame 2044. */
  lemma {:induction false} BossFollowsOrbit(g: Game, inputs: seq<Input>, u: nat)
    requires Inv(g) && OnBossOrbit(g.boss, u) && Stays(g, inputs, BOSS_FIGHT)
    requires forall k | 0 <= k < |inputs| :: inputs[k].keycode != SPACE_KEY
    ensures OnBossOrbit(Run(g, inputs).boss, u + Frames(g, inputs))
    decreases |inputs|
  {
    hide Inv, Next, OnBossOrbit;
    if inputs != [] {
      NextKeeps(g, inputs[0]);
      BossClockFollows(g, inputs[0], u);
      BossFollowsOrbit(Next(g, inputs[0]), inputs[1..], if g.edge then u + 1 else u);
    }
  }

  lemma StartOnBossOrbit()
    ensures OnBossOrbit(BOSS_START, 65)
  {
  }

  /** From the clock that enters BOSS_FIGHT. */
  lemma {:induction false} FightWithoutSpace(g: Game, inp: Input, inputs: seq<Input>)
    requires Inv(g) && g.screen == BOSS_LOGO && Stays(Next(g, inp), inputs, BOSS_FIGHT)
    requires forall k | 0 <= k < |inputs| :: inputs[k].keycode != SPACE_KEY
    ensures OnBossOrbit(Run(Next(g, inp), inputs).boss, 65 + Frames(Next(g, inp), inputs))
  {
    BossBegins(g, inp);
    NextKeeps(g, inp);
    StartOnBossOrbit();
    hide Next, Inv, OnBossOrbit;
    BossFollowsOrbit(Next(g, inp), inputs, 65);
  }
}
