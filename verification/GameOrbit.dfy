/** The flight of the enemy ships in closed form, and what it says about several ships at once. */
module GameOrbit {
  import opened GameShips

  /** u counts frames so that a ship on its first way right is in column u.  A leg, from one
      side of the screen to the other, takes 610 frames. */
  const LEG: int := 610

  function Leg(u: nat): nat { u / LEG }
  function Step(u: nat): nat { u % LEG }

  function Column(u: nat): (x: U10)
    ensures x <= 610
  {
    if Leg(u) % 2 == 0 then Step(u) else LEG - Step(u)
  }

  function Heading(u: nat): U10 {
    if Leg(u) % 2 == 0 then 1 else Neg(1)
  }

  /** Rows lost so far: three drops of ten at the start of every leg but the first. */
  function Drop(u: nat): int {
    30 * Leg(u) - 30 + 10 * (if Step(u) < 3 then Step(u) else 3)
  }

  function Falling(u: nat): U10 {
    if Step(u) < 3 && Leg(u) > 0 then 10 else 0
  }

  predicate OnOrbit(s: Ship, u: nat, y0: U10) {
    && u >= 50
    && s.x == Column(u) && s.xm == Heading(u)
    && s.y == y0 + Drop(u) && s.ym == Falling(u)
  }

  lemma NextStep(u: nat)
    ensures Step(u) < 609 ==> Leg(u + 1) == Leg(u) && Step(u + 1) == Step(u) + 1
    ensures Step(u) == 609 ==> Leg(u + 1) == Leg(u) + 1 && Step(u + 1) == 0
    ensures (Leg(u) + 1) % 2 == 1 - Leg(u) % 2
    ensures Step(u) < 610 && (Leg(u) == 0 ==> Step(u) == u)
  {
  }

  /** One frame of the hardware is one step along the closed form. */
  lemma FrameFollowsOrbit(s: Ship, u: nat, y0: U10)
    requires OnOrbit(s, u, y0) && s.y <= 1000
    ensures OnOrbit(EnemyFrame(s), u + 1, y0)
  {
    NextStep(u);
    hide Leg, Step;
    assert AtRightEdge(s) <==> s.x >= 609;
  }

  lemma StartOnOrbit(k: nat, y0: U10)
    requires 1 <= k <= 6
    ensures OnOrbit(EnemyStart(50 * k, y0), 50 * k, y0)
  {
  }

  /** The first ship of the top row, left alone for t frames. */
  function FirstShip(t: nat): Ship {
    if t == 0 then EnemyStart(50, 0) else EnemyFrame(FirstShip(t - 1))
  }

  lemma {:induction false} FirstShipOrbit(t: nat)
    requires t <= 9000
    ensures OnOrbit(FirstShip(t), t + 50, 0) && !FirstShip(t).hit
  {
    if t > 0 {
      FirstShipOrbit(t - 1);
      FrameFollowsOrbit(FirstShip(t - 1), t + 49, 0);
    }
  }

  /** Time shift: the ship that started k columns to the right is k * 50 frames ahead. */
  lemma TimeShift(s: Ship, t: nat, k: nat, y0: U10)
    requires OnOrbit(s, t + 50 * (k + 1), y0) && !s.hit && t + 50 * k <= 9000
    ensures s == FirstShip(t + 50 * k).(y := s.y) && s.y == FirstShip(t + 50 * k).y + y0
  {
    FirstShipOrbit(t + 50 * k);
  }

  /** The column range and the heading at its ends. */
  lemma EnemyFlies(s: Ship, u: nat, y0: U10)
    requires OnOrbit(s, u, y0)
    ensures 0 <= s.x <= 610
    ensures s.x == 0 ==> s.xm == 1
    ensures s.x == 610 ==> s.xm == Neg(1)
  {
  }

  predicate BoxesApart(s: Ship, t: Ship) {
    || s.x + SIZE <= t.x || t.x + SIZE <= s.x
    || s.y + SIZE <= t.y || t.y + SIZE <= s.y
  }

  lemma LegsOf(u: nat, v: nat)
    requires u <= v <= u + 250
    ensures || (Leg(v) == Leg(u) && Step(v) == Step(u) + (v - u))
            || (Leg(v) == Leg(u) + 1 && Step(v) == Step(u) + (v - u) - LEG && Step(v) < 250)
    ensures (Leg(u) + 1) % 2 == 1 - Leg(u) % 2
  {
  }

  /** Two ships of one row, 50 to 250 frames apart: while one turns at the edge and drops, the
      other is still far away; when they pass, they are a whole box apart in height. */
  lemma SameRowApart(s: Ship, u: nat, t: Ship, v: nat, y0: U10)
    requires OnOrbit(s, u, y0) && OnOrbit(t, v, y0)
    requires u + 50 <= v <= u + 250
    ensures BoxesApart(s, t)
  {
    LegsOf(u, v);
    hide Leg, Step;
  }

  /** Ships of different rows never share a pixel row, wherever they are on their legs. */
  lemma OtherRowApart(s: Ship, u: nat, y0: U10, t: Ship, v: nat, y1: U10)
    requires OnOrbit(s, u, y0) && OnOrbit(t, v, y1)
    requires y0 + 80 <= y1 && u <= v + 250 && v <= u + 250
    ensures BoxesApart(s, t)
  {
    if u <= v {
      LegsOf(u, v);
    } else {
      LegsOf(v, u);
    }
    hide Leg, Step;
  }

  /** The frame on which a ship of each row lands; none is lost earlier. */
  lemma LandsIff(s: Ship, u: nat, y0: U10)
    requires OnOrbit(s, u, y0) && u <= 9000 && (y0 == 0 || y0 == 80 || y0 == 160)
    ensures Landed(s) <==> u >= (if y0 == 0 then 8542 else if y0 == 80 then 6713 else 5491)
  {
    assert u == LEG * Leg(u) + Step(u) && 0 <= Step(u) < LEG;
    hide Leg, Step;
  }

  /** From frame 8542 on every ship has landed. */
  lemma LandsInTime(s: Ship, u: nat, y0: U10)
    requires OnOrbit(s, u, y0) && u >= 8542
    ensures Landed(s)
  {
    assert Leg(u) >= 14;
    assert Leg(u) == 14 ==> Step(u) >= 2;
  }
}
