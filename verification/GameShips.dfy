/** The moving parts of the game: an enemy ship, the boss and the hit detectors.  All positions
    and motions are 10-bit registers; sums and differences wrap modulo 1024. */
module GameShips {
  type U10 = x: int | 0 <= x < 1024

  const X_MIN: U10 := 0
  const X_MAX: U10 := 639
  const Y_MAX: U10 := 479
  const SIZE: U10 := 30
  const USER_SIZE: U10 := 40
  const LASER_WIDTH: U10 := 20
  const LASER_HEIGHT: U10 := 49
  const SPACE_KEY: int := 0x2C
  const BACKGROUND: int := 0x002000

  function Add(a: U10, b: U10): (r: U10)
    ensures r == if a + b < 1024 then a + b else a + b - 1024
  {
    (a + b) % 1024
  }

  /** Two's complement negation. */
  function Neg(a: U10): U10 {
    (1024 - a) % 1024
  }

  /** The registers of one ship together with its sticky hit flag. */
  datatype Ship = Ship(x: U10, y: U10, xm: U10, ym: U10, hit: bool)

  /** Has a ship reached the line of the user's ship? */
  predicate Landed(s: Ship) {
    s.y >= Y_MAX - USER_SIZE - SIZE
  }

  predicate AtRightEdge(s: Ship) {
    Add(s.x, SIZE) >= X_MAX
  }

  predicate AtLeftEdge(s: Ship) {
    s.x <= X_MIN + 1
  }

  /** Position moves by the old motion, whatever the new motion will be. */
  function Moved(s: Ship, xm: U10, ym: U10): Ship {
    Ship(Add(s.x, s.xm), Add(s.y, s.ym), xm, ym, s.hit)
  }

  // ---------------------------------------------------------------- enemy ships

  /** One frame of an enemy in flight. */
  function EnemyFrame(s: Ship): Ship {
    if AtRightEdge(s) then Moved(s, Neg(1), 10)
    else if AtLeftEdge(s) then Moved(s, 1, 10)
    else Moved(s, s.xm, 0)
  }

  function EnemyStart(x0: U10, y0: U10): Ship {
    Ship(x0, y0, 1, 0, false)
  }

  /** The next-state logic for position and motion; the hit flag is kept. */
  function EnemyNext(s: Ship, x0: U10, y0: U10, play: bool, edge: bool): Ship {
    if !play || Landed(s) then EnemyStart(x0, y0).(hit := s.hit)
    else if s.hit then Ship(X_MAX, 0, 0, 0, true)
    else if edge then EnemyFrame(s)
    else s
  }

  // ---------------------------------------------------------------- the boss

  const BOSS_STEP: U10 := 5

  function BossFrame(s: Ship, keycode: int): Ship {
    if AtRightEdge(s) then Moved(s, Neg(BOSS_STEP), 10)
    else if AtLeftEdge(s) then Moved(s, BOSS_STEP, 10)
    else if keycode == SPACE_KEY then Moved(s, Neg(s.xm), 2)
    else Moved(s, s.xm, 0)
  }

  const BOSS_START: Ship := Ship(320, 0, BOSS_STEP, 0, false)

  function BossNext(s: Ship, fight: bool, edge: bool, keycode: int): Ship {
    if !fight || Landed(s) then BOSS_START.(hit := s.hit)
    else if s.hit then Ship(X_MAX, 0, 0, 0, true)
    else if edge then BossFrame(s, keycode)
    else s
  }

  // ---------------------------------------------------------------- hits

  /** Does p lie in [q, q + 30], as the 10-bit comparisons see it? */
  predicate Within(p: U10, q: U10) {
    q <= p <= Add(q, SIZE)
  }

  /** The combinational test for one laser and one ship. */
  predicate Touches(x: U10, y: U10, lx: U10, ly: U10) {
    && (Within(lx, x) || Within(Add(lx, LASER_WIDTH), x))
    && (Within(ly, y) || Within(Add(ly, LASER_HEIGHT), y))
  }

  function HitNext(hit: bool, done: bool, touched: bool): bool {
    if done then false else hit || touched
  }

  function BossHitNext(hit: bool, fight: bool, done: bool, touched: bool): bool {
    fight && HitNext(hit, done, touched)
  }

  /** Closed intervals [a, a + m] and [b, b + n] have a point in common. */
  predicate Meet(a: int, m: int, b: int, n: int) {
    a <= b + n && b <= a + m
  }

  /** The laser leaves the screen at the top, or at a side, by wrapping: its corner read as a
      signed number. */
  function LaserColumn(lx: U10): int {
    if lx + LASER_WIDTH >= 1024 then lx - 1024 else lx
  }

  function LaserRow(ly: U10): int {
    if ly + LASER_HEIGHT >= 1024 then ly - 1024 else ly
  }

  /** Positions from which a ship, or the boss at its left extreme, can be tested. */
  predicate Placed(s: Ship) {
    0 <= Signed(s.x) + SIZE && Signed(s.x) <= X_MAX && s.y + SIZE < 975
  }

  /** Does the laser have a point in common with the ship? */
  predicate Struck(s: Ship, lx: U10, ly: U10) {
    Meet(LaserColumn(lx), LASER_WIDTH, Signed(s.x), SIZE) && Meet(LaserRow(ly), LASER_HEIGHT, s.y, SIZE)
  }

  /** Does the laser reach from above the ship's top to below its bottom? */
  predicate Straddles(s: Ship, ly: U10) {
    LaserRow(ly) < s.y && s.y + SIZE < LaserRow(ly) + LASER_HEIGHT
  }

  /** Wherever the laser is, the test is true exactly when laser and ship share a point, except
      that it misses a laser that sticks out above and below, and a boss partly off the screen. */
  lemma TouchesIff(s: Ship, lx: U10, ly: U10)
    requires Placed(s)
    ensures Touches(s.x, s.y, lx, ly) <==> Struck(s, lx, ly) && !Straddles(s, ly) && s.x + SIZE < 1024
  {
  }

  /** Ships that fly into the column of a laser on its way up, at row 101, and of one that has
      passed the top of the screen and is at row 1021, three above it: neither is registered. */
  lemma StraddlingLaserMisses()
    ensures var s := Ship(120, 110, Neg(1), 0, false); Struck(s, 100, 101) && !Touches(s.x, s.y, 100, 101)
    ensures var s := Ship(70, 0, 1, 0, false); Struck(s, 100, 1021) && !Touches(s.x, s.y, 100, 1021)
  {
  }

  /** The boss at its left extreme, five columns off the screen, in the middle of a laser. */
  lemma BossOffScreenMissed()
    ensures var s := Ship(1019, 30, BOSS_STEP, 10, false); Struck(s, 8, 33) && !Touches(s.x, s.y, 8, 33)
  {
  }

  // ---------------------------------------------------------------- drawing

  /** Is the pixel inside the 30x30 box, as the 10-bit comparisons see it? */
  predicate InBox(s: Ship, px: U10, py: U10) {
    s.x <= px < Add(s.x, SIZE) && s.y <= py < Add(s.y, SIZE)
  }

  /** is_enemy_ship: the pixel belongs to this ship and its sprite is not transparent there. */
  predicate Lit(s: Ship, px: U10, py: U10, colour: int) {
    InBox(s, px, py) && !s.hit && colour != BACKGROUND
  }

  // ---------------------------------------------------------------- invariants of flight

  /** The boss's column read as a signed number. */
  function Signed(x: U10): int {
    if x >= 700 then x - 1024 else x
  }

  /** Where an un-hit boss can be: every fifth column from -5 to 615, at the left extreme only
      heading right and at the right extreme only heading left; no row ever wraps. */
  predicate BossFlies(s: Ship) {
    && (s.xm == BOSS_STEP || s.xm == Neg(BOSS_STEP))
    && -5 <= Signed(s.x) <= 615 && Signed(s.x) % 5 == 0
    && (Signed(s.x) == -5 ==> s.xm == BOSS_STEP)
    && (Signed(s.x) == 615 ==> s.xm == Neg(BOSS_STEP))
    && s.y <= Y_MAX - USER_SIZE - SIZE + 9
    && (s.ym == 0 || s.ym == 2 || s.ym == 10)
  }

  lemma BossMovesOneColumn(s: Ship)
    requires BossFlies(s)
    ensures Signed(Add(s.x, s.xm)) == Signed(s.x) + (if s.xm == BOSS_STEP then 5 else -5)
    ensures AtRightEdge(s) <==> Signed(s.x) >= 610
    ensures AtLeftEdge(s) <==> Signed(s.x) == 0
  {
    var c := Signed(s.x) / 5;
    assert Signed(s.x) == 5 * c;
  }

  lemma BossFrameFlies(s: Ship, keycode: int)
    requires BossFlies(s) && !Landed(s)
    ensures BossFlies(BossFrame(s, keycode))
    ensures Signed(BossFrame(s, keycode).x) == Signed(s.x) + (if s.xm == BOSS_STEP then 5 else -5)
  {
    BossMovesOneColumn(s);
    var c := Signed(s.x) / 5;
    assert Signed(s.x) == 5 * c;
    hide AtRightEdge, AtLeftEdge, Signed;
  }

  /** Frames to the edge ahead. */
  function BossDistance(s: Ship): int {
    if s.xm == BOSS_STEP then (620 - Signed(s.x)) / 5 else (Signed(s.x) + 5) / 5
  }

  function HeightLeft(s: Ship): nat {
    if Landed(s) then 0 else Y_MAX - USER_SIZE - SIZE - s.y
  }

  /** Remaining height first, then whether a drop is pending, then the distance to the edge. */
  function BossPotential(s: Ship): int {
    130 * HeightLeft(s) + (if s.ym == 0 then 1 + BossDistance(s) else 0)
  }

  /** Whatever key is held, every frame brings an un-hit boss closer to the ground. */
  lemma BossDescends(s: Ship, keycode: int)
    requires BossFlies(s) && !Landed(s)
    ensures 0 <= BossPotential(BossFrame(s, keycode)) < BossPotential(s)
  {
    BossMovesOneColumn(s);
    BossFrameFlies(s, keycode);
    var c := Signed(s.x) / 5;
    assert Signed(s.x) == 5 * c;
    hide AtRightEdge, AtLeftEdge, Signed;
  }
}
