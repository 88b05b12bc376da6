/** The whole game as one clocked machine: the screen state machine, eighteen enemy ships in
    three rows, the boss, their hit flags and the score.  Keys, the frame clock and the laser's
    position are inputs, different on every clock. */
module GameController {
  import opened GameShips

  const ENTER_KEY: int := 0x28

  datatype Screen = START | PLAY | BOSS_LOGO | BOSS_FIGHT | GAMEOVER | WIN

  type Fleet = s: seq<Ship> | |s| == 18 witness seq(18, _ => EnemyStart(50, 0))

  /** frameSeen and edge are the two registers that detect a new frame. */
  datatype Game = Game(screen: Screen, ships: Fleet, boss: Ship, frameSeen: bool, edge: bool)

  datatype Input = Input(reset: bool, frameClk: bool, keycode: int, laserX: U10, laserY: U10)

  type ShipId = i: int | 0 <= i < 18

  /** Six ships to a row, 50 columns apart; rows 80 apart. */
  function StartX(i: ShipId): U10 { 50 * (i % 6 + 1) }
  function StartY(i: ShipId): U10 { 80 * (i / 6) }

  // ---------------------------------------------------------------- combinational outputs

  function Count(s: Ship): nat {
    if s.hit then 1 else 0
  }

  /** Five-bit sums: six ships of a row, then the three rows and the boss. */
  function RowScore(ships: Fleet, r: nat): nat
    requires r < 3
  {
    (Count(ships[6 * r]) + Count(ships[6 * r + 1]) + Count(ships[6 * r + 2])
     + Count(ships[6 * r + 3]) + Count(ships[6 * r + 4]) + Count(ships[6 * r + 5])) % 32
  }

  function Score(g: Game): nat {
    (RowScore(g.ships, 0) + RowScore(g.ships, 1) + RowScore(g.ships, 2) + Count(g.boss)) % 32
  }

  predicate Died(g: Game) {
    || (g.screen == PLAY && exists i: ShipId :: Landed(g.ships[i]))
    || (g.screen == BOSS_FIGHT && Landed(g.boss))
  }

  predicate Done(g: Game) {
    Died(g) || Score(g) == 0x13
  }

  // ---------------------------------------------------------------- the clock edge

  function NextScreen(g: Game, keycode: int): Screen {
    match g.screen
    case START => if keycode == ENTER_KEY then PLAY else START
    case PLAY => if Died(g) then GAMEOVER else if Score(g) == 0x12 then BOSS_LOGO else PLAY
    case BOSS_LOGO => if keycode == ENTER_KEY then BOSS_FIGHT else BOSS_LOGO
    case BOSS_FIGHT => if Died(g) then GAMEOVER else if Score(g) == 0x13 then WIN else BOSS_FIGHT
    case GAMEOVER => if keycode == ENTER_KEY then START else GAMEOVER
    case WIN => if keycode == ENTER_KEY then START else WIN
  }

  /** One ship's registers after the clock edge. */
  function ShipClocked(g: Game, i: ShipId, inp: Input): Ship {
    var s := g.ships[i];
    if inp.reset then EnemyStart(StartX(i), StartY(i))
    else EnemyNext(s, StartX(i), StartY(i), g.screen == PLAY, g.edge)
         .(hit := HitNext(s.hit, Done(g), Touches(s.x, s.y, inp.laserX, inp.laserY)))
  }

  function BossClocked(g: Game, inp: Input): Ship {
    var s, fight := g.boss, g.screen == BOSS_FIGHT;
    if inp.reset then BOSS_START
    else BossNext(s, fight, g.edge, inp.keycode)
         .(hit := BossHitNext(s.hit, fight, Done(g), Touches(s.x, s.y, inp.laserX, inp.laserY)))
  }

  function Next(g: Game, inp: Input): Game {
    Game(if inp.reset then START else NextScreen(g, inp.keycode),
         seq(18, i requires 0 <= i < 18 => ShipClocked(g, i, inp)),
         BossClocked(g, inp),
         inp.frameClk,
         inp.frameClk && !g.frameSeen)
  }

  function Run(g: Game, inputs: seq<Input>): Game
    decreases |inputs|
  {
    if inputs == [] then g else Run(Next(g, inputs[0]), inputs[1..])
  }

  // ---------------------------------------------------------------- the score

  function Hits(ships: seq<Ship>): nat {
    if ships == [] then 0 else Hits(ships[..|ships| - 1]) + Count(ships[|ships| - 1])
  }

  lemma {:induction false} AllHitIff(ships: seq<Ship>)
    ensures Hits(ships) <= |ships|
    ensures Hits(ships) == |ships| <==> forall i | 0 <= i < |ships| :: ships[i].hit
  {
    if ships != [] {
      var rest := ships[..|ships| - 1];
      AllHitIff(rest);
      assert forall i | 0 <= i < |rest| :: rest[i] == ships[i];
    }
  }

  /** The score is the number of set hit flags: the five-bit additions never overflow. */
  lemma ScoreCountsHits(g: Game)
    ensures Score(g) == Hits(g.ships) + Count(g.boss) <= 19
    ensures Hits(g.ships) <= 18
    ensures Hits(g.ships) == 18 <==> forall i: ShipId :: g.ships[i].hit
  {
    var s := g.ships;
    assert s[..18] == s && s[..0] == [];
    assert Hits([]) == 0;
    hide Hits, RowScore;
    AllHitIff(s);
    HitsOfRow(s, 6, 0);
    HitsOfRow(s, 12, 1);
    HitsOfRow(s, 18, 2);
  }

  lemma HitsOfRow(s: Fleet, n: nat, r: nat)
    requires r < 3 && n == 6 * r + 6
    ensures Hits(s[..n]) == Hits(s[..n - 6]) + RowScore(s, r)
  {
    hide Hits;
    HitsStep(s, n - 6);
    HitsStep(s, n - 5);
    HitsStep(s, n - 4);
    HitsStep(s, n - 3);
    HitsStep(s, n - 2);
    HitsStep(s, n - 1);
  }

  lemma HitsStep(s: Fleet, k: nat)
    requires k < 18
    ensures Hits(s[..k + 1]) == Hits(s[..k]) + Count(s[k])
  {
    assert s[..k + 1][..k] == s[..k];
  }
}
