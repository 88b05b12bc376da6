/** The time arithmetic of one alarm: a 32-bit wrapping tick counter, a 32-bit due time and a
    one-bit rollover flag, measured against an unbounded count of ticks. */
module AlarmTimer {
  import opened Common
  import Numerals

  const M: int := 0x1_0000_0000

  datatype Timer = Timer(time: U32, rollover: bool)

  /** alt_alarm_start: now is the counter, nticks the requested delay. */
  function Started(nticks: U32, now: U32): Timer {
    var time := (nticks + now + 1) % M;
    Timer(time, time < now)
  }

  /** The flag is cleared when the counter wraps. */
  function Cleared(t: Timer, now: U32): Timer {
    if t.rollover && now == 0 then t.(rollover := false) else t
  }

  /** Does alt_tick make the callback, the counter having just become now? */
  predicate Fires(t: Timer, now: U32) {
    var c := Cleared(t, now);
    c.time <= now && !c.rollover
  }

  /** The timer after the tick; reply is the callback's return value, used if it fired. */
  function Ticked(t: Timer, now: U32, reply: U32): Timer {
    var c := Cleared(t, now);
    if Fires(t, now) && reply != 0 then
      var time := (c.time + reply) % M;
      Timer(time, time < now || c.rollover)
    else c
  }

  /** At unbounded tick `tick`, the timer stands for the unbounded due time `due`. */
  predicate Tracks(t: Timer, due: nat, tick: nat) {
    && tick < due <= tick + M
    && t.time == due % M
    && ((t.rollover && (tick + 1) % M != 0) <==> due / M > (tick + 1) / M)
  }

  lemma DivMod(x: int)
    ensures x == M * (x / M) + x % M && 0 <= x % M < M
  {
  }

  lemma NextTick(tick: nat)
    ensures (tick + 1) % M == if tick % M == M - 1 then 0 else tick % M + 1
    ensures (tick + 1) / M == tick / M + (if tick % M == M - 1 then 1 else 0)
  {
  }

  /** A start is exact, except for the longest delay away from the wrap of the counter. */
  predicate ExactStart(nticks: U32, tick: nat) {
    nticks <= M - 2 || tick % M == M - 1
  }

  lemma StartTracks(nticks: U32, tick: nat)
    requires ExactStart(nticks, tick)
    ensures Tracks(Started(nticks, tick % M), tick + nticks + 1, tick)
  {
    var c := tick % M;
    var due := tick + nticks + 1;
    var sum := c + nticks + 1;
    assert due == M * (tick / M) + sum;
    if sum < M {
      Numerals.DivUnique(due, M, tick / M, sum);
    } else {
      Numerals.DivUnique(due, M, tick / M + 1, sum - M);
      Numerals.DivUnique(sum, M, 1, sum - M);
    }
    NextTick(tick);
  }

  /** A tracked alarm fires on the tick that is its due time, and on no other. */
  lemma FiresWhenDue(t: Timer, due: nat, tick: nat)
    requires Tracks(t, due, tick)
    ensures Fires(t, (tick + 1) % M) <==> due == tick + 1
  {
    DivMod(due);
    DivMod(tick + 1);
  }

  /** An alarm that does not fire keeps its due time. */
  lemma WaitTracks(t: Timer, due: nat, tick: nat, reply: U32)
    requires Tracks(t, due, tick) && due != tick + 1
    ensures Tracks(Ticked(t, (tick + 1) % M, reply), due, tick + 1)
  {
    FiresWhenDue(t, due, tick);
    NextTick(tick + 1);
    DivMod(due);
    DivMod(tick + 1);
  }

  /** Quotient and remainder of a later time, and the remainder of the 32-bit sum. */
  lemma LaterWraps(due: nat, reply: U32)
    ensures var sum := due % M + reply;
            && (sum < M ==> (due + reply) / M == due / M && (due + reply) % M == sum % M == sum)
            && (sum >= M ==> (due + reply) / M == due / M + 1 && (due + reply) % M == sum % M == sum - M)
  {
    var sum := due % M + reply;
    assert due + reply == M * (due / M) + sum;
    if sum < M {
      Numerals.DivUnique(due + reply, M, due / M, sum);
    } else {
      Numerals.DivUnique(due + reply, M, due / M + 1, sum - M);
      Numerals.DivUnique(sum, M, 1, sum - M);
    }
  }

  /** An alarm that fires and is renewed is due exactly the reply later. */
  lemma RenewTracks(t: Timer, due: nat, tick: nat, reply: U32)
    requires Tracks(t, due, tick) && due == tick + 1 && reply != 0
    ensures Tracks(Ticked(t, (tick + 1) % M, reply), due + reply, tick + 1)
  {
    FiresWhenDue(t, due, tick);
    LaterWraps(due, reply);
    NextTick(tick + 1);
  }

  // ---------------------------------------------------------------- a whole life

  /** One alarm over time: the ticks on which it fired, and its timer while it is listed. */
  datatype Life = Life(fired: seq<nat>, listed: bool, timer: Timer)

  /** The n-th callback returns replies(n). */
  function LifeTick(l: Life, tick: nat, replies: nat -> U32): Life {
    var now := (tick + 1) % M;
    var reply := replies(|l.fired|);
    if !l.listed then l
    else if !Fires(l.timer, now) then l.(timer := Ticked(l.timer, now, reply))
    else Life(l.fired + [tick + 1], reply != 0, Ticked(l.timer, now, reply))
  }

  /** The life of an alarm started at tick `tick`, after k more ticks. */
  function LifeAfter(nticks: U32, tick: nat, replies: nat -> U32, k: nat): Life {
    if k == 0 then Life([], true, Started(nticks, tick % M))
    else LifeTick(LifeAfter(nticks, tick, replies, k - 1), tick + k - 1, replies)
  }

  /** The ideal schedule: the start delay, then each reply in turn. */
  function Schedule(nticks: U32, tick: nat, replies: nat -> U32, n: nat): nat {
    if n == 0 then tick + nticks + 1 else Schedule(nticks, tick, replies, n - 1) + replies(n - 1)
  }

  /** The first n callbacks of the schedule have been made, at their times, and no others. */
  ghost predicate OnSchedule(l: Life, nticks: U32, tick: nat, replies: nat -> U32, k: nat) {
    var n := |l.fired|;
    && (forall i | 0 <= i < n :: l.fired[i] == Schedule(nticks, tick, replies, i))
    && (forall i | 0 <= i < n - 1 :: replies(i) != 0)
    && (n > 0 ==> (l.listed <==> replies(n - 1) != 0))
    && (n == 0 ==> l.listed)
    && (l.listed ==> Tracks(l.timer, Schedule(nticks, tick, replies, n), tick + k))
  }

  lemma TickStaysOnSchedule(l: Life, nticks: U32, tick: nat, replies: nat -> U32, k: nat)
    requires OnSchedule(l, nticks, tick, replies, k)
    ensures OnSchedule(LifeTick(l, tick + k, replies), nticks, tick, replies, k + 1)
  {
    hide Fires, Tracks, Ticked;
    if l.listed {
      var due := Schedule(nticks, tick, replies, |l.fired|);
      var reply := replies(|l.fired|);
      FiresWhenDue(l.timer, due, tick + k);
      if due != tick + k + 1 {
        WaitTracks(l.timer, due, tick + k, reply);
      } else if reply != 0 {
        RenewTracks(l.timer, due, tick + k, reply);
      }
    }
  }

  /** Never early, late, twice or with drift, across any number of wraps of the counter. */
  lemma {:induction false} AlarmExact(nticks: U32, tick: nat, replies: nat -> U32, k: nat)
    requires ExactStart(nticks, tick)
    ensures OnSchedule(LifeAfter(nticks, tick, replies, k), nticks, tick, replies, k)
    decreases k
  {
    hide Fires, Ticked, Tracks, Started, LifeTick;
    if k == 0 {
      StartTracks(nticks, tick);
    } else {
      AlarmExact(nticks, tick, replies, k - 1);
      TickStaysOnSchedule(LifeAfter(nticks, tick, replies, k - 1), nticks, tick, replies, k - 1);
    }
  }

  /** The first callback comes on time exactly for the starts named by ExactStart: otherwise it
      is made on the very next tick instead of 2^32 ticks later. */
  lemma FirstCallbackOnTimeIff(nticks: U32, tick: nat, replies: nat -> U32)
    ensures ExactStart(nticks, tick) <==>
            forall k: nat | k <= nticks + 1 ::
              LifeAfter(nticks, tick, replies, k).fired == (if k <= nticks then [] else [tick + nticks + 1])
  {
    if ExactStart(nticks, tick) {
      forall k: nat | k <= nticks + 1
        ensures LifeAfter(nticks, tick, replies, k).fired == if k <= nticks then [] else [tick + nticks + 1]
      {
        FirstOnly(nticks, tick, replies, k);
      }
    } else {
      TooEarly(nticks, tick, replies);
    }
  }

  lemma TooEarly(nticks: U32, tick: nat, replies: nat -> U32)
    requires !ExactStart(nticks, tick)
    ensures LifeAfter(nticks, tick, replies, 1).fired == [tick + 1]
  {
    var c := tick % M;
    Numerals.DivUnique(M + c, M, 1, c);
    NextTick(tick);
    assert LifeAfter(nticks, tick, replies, 0) == Life([], true, Timer(c, false));
  }

  lemma FirstOnly(nticks: U32, tick: nat, replies: nat -> U32, k: nat)
    requires ExactStart(nticks, tick) && k <= nticks + 1
    ensures LifeAfter(nticks, tick, replies, k).fired == if k <= nticks then [] else [tick + nticks + 1]
  {
    AlarmExact(nticks, tick, replies, k);
    var l := LifeAfter(nticks, tick, replies, k);
    FiredInPast(nticks, tick, replies, k);
    if |l.fired| > 0 {
      assert l.fired[0] == tick + nticks + 1;
    }
    assert Schedule(nticks, tick, replies, 1) == tick + nticks + 1 + replies(0);
  }

  lemma {:induction false} FiredInPast(nticks: U32, tick: nat, replies: nat -> U32, k: nat)
    ensures forall i | 0 <= i < |LifeAfter(nticks, tick, replies, k).fired| ::
              LifeAfter(nticks, tick, replies, k).fired[i] <= tick + k
    decreases k
  {
    if k > 0 {
      FiredInPast(nticks, tick, replies, k - 1);
    }
  }
}
