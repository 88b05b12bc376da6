/** The registers of the game, updated in place on each clock edge. */
module GameBoard {
  import opened GameShips
  import opened GameController
  import opened GameTheorems

  class Board {
    var screen: Screen
    const ships: array<Ship>
    var boss: Ship
    var frameSeen: bool
    var edge: bool

    ghost predicate Valid()
      reads this
    {
      ships.Length == 18
    }

    /** The outputs of all registers. */
    function Value(): Game
      requires Valid()
      reads this, ships
    {
      Game(screen, ships[..], boss, frameSeen, edge)
    }

    constructor (screen: Screen, fleet: Fleet, boss: Ship, frameSeen: bool, edge: bool)
      ensures Valid() && fresh(ships)
      ensures Value() == Game(screen, fleet, boss, frameSeen, edge)
    {
      this.screen, this.boss, this.frameSeen, this.edge := screen, boss, frameSeen, edge;
      ships := new Ship[18](i requires 0 <= i < 18 => fleet[i]);
      new;
      assert ships[..] == fleet;
    }

    /** One rising edge of the 50 MHz clock.  The combinational outputs settle first; then every
        register takes its next value in place, whatever order they are updated in. */
    method PosEdge(inp: Input)
      requires Valid()
      modifies this, ships
      ensures Valid()
      ensures Value() == Next(old(Value()), inp)
      ensures Inv(old(Value())) ==> Inv(Value())
    {
      hide Inv, NextScreen, Done, EnemyNext, BossNext, Touches;
      ghost var g := Value();
      var play, fight, done := screen == PLAY, screen == BOSS_FIGHT, Done(Value());
      var next := NextScreen(Value(), inp.keycode);
      for i := 0 to 18
        invariant forall j | 0 <= j < 18 :: ships[j] == if j < i then ShipClocked(g, j, inp) else g.ships[j]
        invariant screen == g.screen && boss == g.boss && frameSeen == g.frameSeen && edge == g.edge
      {
        var touched := Touches(ships[i].x, ships[i].y, inp.laserX, inp.laserY);
        ships[i] := if inp.reset then EnemyStart(StartX(i), StartY(i))
                    else EnemyNext(ships[i], StartX(i), StartY(i), play, edge)
                         .(hit := HitNext(ships[i].hit, done, touched));
      }
      var touched := Touches(boss.x, boss.y, inp.laserX, inp.laserY);
      boss := if inp.reset then BOSS_START
              else BossNext(boss, fight, edge, inp.keycode).(hit := BossHitNext(boss.hit, fight, done, touched));
      screen := if inp.reset then START else next;
      frameSeen, edge := inp.frameClk, inp.frameClk && !frameSeen;
      assert ships[..] == Next(g, inp).ships;
      if Inv(g) {
        NextKeeps(g, inp);
      }
    }
  }
}
