/** The wall clock: settimeofday records an offset against the tick counter, gettimeofday adds
    the ticks back and normalises. */
module TimeOfDay {
  import opened Common
  import Numerals

  const US: int := 1_000_000

  type I32 = x: int | IsI32(x)

  predicate IsI32(x: int) {
    -0x8000_0000 <= x < 0x8000_0000
  }

  datatype Time = Time(sec: int, usec: int)
  datatype Zone = Zone(minutesWest: int, dstTime: int)
  datatype Status = Ok | NoClock

  /** A 32-bit result stored in a signed long. */
  function ToI32(x: int): I32 {
    var m := x % 0x1_0000_0000;
    if m >= 0x8000_0000 then m - 0x1_0000_0000 else m
  }

  function PerTick(rate: U32): int
    requires rate > 0
  {
    US / rate
  }

  /** The product of settimeofday is taken in 32 bits, that of gettimeofday in 64. */
  function SetFraction(nticks: U32, rate: U32): int
    requires rate > 0
  {
    nticks * PerTick(rate) % 0x1_0000_0000 % US
  }

  function GetFraction(nticks: U32, rate: U32): int
    requires rate > 0
  {
    nticks * PerTick(rate) % US
  }

  /** What settimeofday leaves in alt_resettime. */
  function Offset(t: Time, nticks: U32, rate: U32): Time
    requires rate > 0
  {
    Time(ToI32(t.sec - nticks / rate), ToI32(t.usec - SetFraction(nticks, rate)))
  }

  /** The first loop of gettimeofday, then the second. */
  function Borrow(t: Time): (r: Time)
    ensures r.usec >= 0
    decreases -t.usec
  {
    if t.usec >= 0 then t
    else if t.sec <= 0 then Time(0, 0)
    else Borrow(Time(t.sec - 1, t.usec + US))
  }

  function Carry(t: Time): (r: Time)
    ensures r.usec < US
    ensures r.sec * US + r.usec == t.sec * US + t.usec
    ensures t.usec >= 0 ==> r.usec >= 0
    decreases t.usec
  {
    if t.usec < US then t else Carry(Time(t.sec + 1, t.usec - US))
  }

  function Reading(reset: Time, nticks: U32, rate: U32): Time
    requires rate > 0
  {
    Carry(Borrow(Time(ToI32(reset.sec + nticks / rate), ToI32(reset.usec + GetFraction(nticks, rate)))))
  }

  class Clock {
    var reset: Time
    var zone: Zone

    constructor ()
      ensures reset == Time(0, 0) && zone == Zone(0, 0)
    {
      reset, zone := Time(0, 0), Zone(0, 0);
    }

    /** ALT_SETTIMEOFDAY, given the tick counter and rate. */
    method SetTimeOfDay(t: Time, tz: Zone, nticks: U32, rate: U32) returns (status: Status)
      modifies this
      ensures status == if rate > 0 then Ok else NoClock
      ensures if rate > 0 then reset == Offset(t, nticks, rate) && zone == tz
              else reset == old(reset) && zone == old(zone)
    {
      if rate != 0 {
        reset := Time(ToI32(t.sec - nticks / rate), ToI32(t.usec - nticks * (US / rate) % 0x1_0000_0000 % US));
        zone := tz;
        return Ok;
      }
      return NoClock;
    }

    /** ALT_GETTIMEOFDAY. */
    method GetTimeOfDay(nticks: U32, rate: U32) returns (status: Status, t: Time, tz: Zone)
      ensures status == if rate > 0 then Ok else NoClock
      ensures rate > 0 ==> t == Reading(reset, nticks, rate) && tz == zone
    {
      t, tz := Time(0, 0), zone;
      if rate == 0 {
        return NoClock, t, tz;
      }
      var sec: int := ToI32(reset.sec + nticks / rate);
      var usec: int := ToI32(reset.usec + nticks * (US / rate) % US);
      ghost var start := Time(sec, usec);
      while usec < 0
        invariant Borrow(Time(sec, usec)) == Borrow(start)
        decreases -usec
      {
        if sec <= 0 {
          sec, usec := 0, 0;
          break;
        } else {
          sec, usec := sec - 1, usec + US;
        }
      }
      assert Borrow(Time(sec, usec)) == Time(sec, usec);
      while usec >= US
        invariant Carry(Time(sec, usec)) == Carry(Borrow(start))
        decreases usec
      {
        sec, usec := sec + 1, usec - US;
      }
      return Ok, Time(sec, usec), zone;
    }
  }

  // ---------------------------------------------------------------- what the clock shows

  function Micros(t: Time): int {
    t.sec * US + t.usec
  }

  predicate Normal(t: Time) {
    0 <= t.sec < 0x8000_0000 && 0 <= t.usec < US
  }

  /** Ticks split into whole seconds and a fraction: with a rate that divides a million, nothing is lost. */
  lemma TicksAsMicros(nticks: U32, rate: U32)
    requires rate > 0 && US % rate == 0
    ensures nticks / rate * US + GetFraction(nticks, rate) == nticks * PerTick(rate)
  {
    var q := PerTick(rate);
    assert US == rate * q;
    var s, r := nticks / rate, nticks % rate;
    assert nticks == rate * s + r;
    assert r * q < rate * q by { assert q > 0; }
    assert nticks * q == US * s + r * q by {
      assert (rate * s) * q == (rate * q) * s;
    }
    Numerals.DivUnique(nticks * q, US, s, r * q);
  }

  lemma Wraps(x: int, y: int)
    requires -0x8000_0000 <= x + y < 0x8000_0000
    ensures ToI32(ToI32(x) + y) == x + y
  {
  }

  lemma SmallFraction(nticks: U32, rate: U32)
    requires rate > 0
    ensures 0 <= SetFraction(nticks, rate) < US && 0 <= GetFraction(nticks, rate) < US
    ensures nticks * PerTick(rate) < 0x1_0000_0000 ==> SetFraction(nticks, rate) == GetFraction(nticks, rate)
  {
    assert PerTick(rate) >= 0 && nticks * PerTick(rate) >= 0;
  }

  /** One normalisation step in either direction is enough here, and never clamps. */
  lemma NormaliseKeeps(t: Time)
    requires -US < t.usec && 0 <= Micros(t)
    ensures var r := Carry(Borrow(t)); 0 <= r.usec < US && Micros(r) == Micros(t)
  {
    if t.usec < 0 {
      assert t.sec > 0;
      assert Borrow(t) == Borrow(Time(t.sec - 1, t.usec + US)) == Time(t.sec - 1, t.usec + US);
    }
  }

  /** The two 32-bit truncations cancel: what is left to normalise. */
  lemma RawReading(t: Time, n0: U32, n: U32, rate: U32)
    requires rate > 0 && Normal(t) && n0 <= n
    requires t.sec + (n - n0) / rate + 1 < 0x8000_0000
    ensures Reading(Offset(t, n0, rate), n, rate)
         == Carry(Borrow(Time(t.sec - n0 / rate + n / rate, t.usec - SetFraction(n0, rate) + GetFraction(n, rate))))
  {
    SmallFraction(n0, rate);
    SmallFraction(n, rate);
    SecondsBetween(n0, n, rate);
    Wraps(t.sec - n0 / rate, n / rate);
    Wraps(t.usec - SetFraction(n0, rate), GetFraction(n, rate));
    hide ToI32, SetFraction, GetFraction, Carry, Borrow;
  }

  lemma RawMicros(t: Time, n0: U32, n: U32, rate: U32)
    requires rate > 0 && US % rate == 0 && Normal(t) && n0 <= n
    requires n0 * PerTick(rate) < 0x1_0000_0000
    ensures Micros(Time(t.sec - n0 / rate + n / rate, t.usec - SetFraction(n0, rate) + GetFraction(n, rate)))
         == Micros(t) + (n - n0) * PerTick(rate) >= 0
  {
    SmallFraction(n0, rate);
    TicksAsMicros(n0, rate);
    TicksAsMicros(n, rate);
    hide SetFraction, GetFraction;
    var q := PerTick(rate);
    assert (n - n0) * q == n * q - n0 * q;
    MulOrder(n0, n, q);
  }

  /** Exact wall clock: with a rate that divides a million, and the set-time product within 32
      bits, a reading is the time set plus the ticks since, to the microsecond, normalised. */
  lemma ReadingIsExact(t: Time, n0: U32, n: U32, rate: U32)
    requires rate > 0 && US % rate == 0 && Normal(t) && n0 <= n
    requires n0 * PerTick(rate) < 0x1_0000_0000
    requires t.sec + (n - n0) / rate + 1 < 0x8000_0000
    ensures var r := Reading(Offset(t, n0, rate), n, rate);
            && 0 <= r.usec < US
            && Micros(r) == Micros(t) + (n - n0) * PerTick(rate)
  {
    RawReading(t, n0, n, rate);
    RawMicros(t, n0, n, rate);
    SmallFraction(n0, rate);
    SmallFraction(n, rate);
    hide SetFraction, GetFraction, Carry, Borrow, Reading, Offset, PerTick;
    NormaliseKeeps(Time(t.sec - n0 / rate + n / rate, t.usec - SetFraction(n0, rate) + GetFraction(n, rate)));
  }

  lemma MulOrder(x: int, y: int, q: int)
    requires x <= y && q >= 0
    ensures x * q <= y * q
  {
  }

  lemma SecondsBetween(n0: U32, n: U32, rate: U32)
    requires rate > 0 && n0 <= n
    ensures 0 <= n / rate - n0 / rate <= (n - n0) / rate + 1
  {
    var a, c := n0 / rate, (n - n0) / rate;
    var r0, r1 := n0 % rate, (n - n0) % rate;
    assert n0 == rate * a + r0 && n - n0 == rate * c + r1;
    Quotients(n0, n - n0, rate);
    Distribute(rate, a, c);
    CarryOne(rate, a + c, r0 + r1);
  }

  lemma CarryOne(rate: nat, q: nat, r: nat)
    requires r < 2 * rate
    ensures q <= (rate * q + r) / rate <= q + 1
  {
    if r < rate {
      Numerals.DivUnique(rate * q + r, rate, q, r);
    } else {
      Distribute(rate, q, 1);
      Numerals.DivUnique(rate * q + r, rate, q + 1, r - rate);
    }
  }

  lemma Quotients(x: nat, y: nat, rate: nat)
    requires rate > 0
    ensures x / rate >= 0 && y / rate >= 0 && 0 <= x % rate < rate && 0 <= y % rate < rate
  {
  }

  lemma Distribute(rate: int, a: int, c: int)
    ensures rate * (a + c) == rate * a + rate * c
  {
  }

  /** So readings never run backwards. */
  lemma ReadingsMonotone(t: Time, n0: U32, n1: U32, n2: U32, rate: U32)
    requires rate > 0 && US % rate == 0 && Normal(t) && n0 <= n1 <= n2
    requires n0 * PerTick(rate) < 0x1_0000_0000
    requires t.sec + (n2 - n0) / rate + 1 < 0x8000_0000
    ensures Micros(Reading(Offset(t, n0, rate), n1, rate)) <= Micros(Reading(Offset(t, n0, rate), n2, rate))
  {
    SecondsBetween(n1 - n0, n2 - n0, rate);
    ReadingIsExact(t, n0, n1, rate);
    ReadingIsExact(t, n0, n2, rate);
    hide Reading, Offset;
    MulOrder(n1 - n0, n2 - n0, PerTick(rate));
  }

  /** The two fractions agree exactly when what overflowed is a multiple of 15625: a million and
      2^32 have 64 as their greatest common divisor. */
  lemma FractionsAgreeIff(nticks: U32, rate: U32)
    requires rate > 0
    ensures SetFraction(nticks, rate) == GetFraction(nticks, rate) <==>
            nticks * PerTick(rate) / 0x1_0000_0000 % 15625 == 0
  {
    var x := nticks * PerTick(rate);
    assert PerTick(rate) >= 0 && x >= 0;
    LowPartIff(x);
    hide PerTick;
  }

  lemma LowPartIff(x: nat)
    ensures x % 0x1_0000_0000 % US == x % US <==> x / 0x1_0000_0000 % 15625 == 0
  {
    var h, low := x / 0x1_0000_0000, x % 0x1_0000_0000;
    assert x == 0x1_0000_0000 * h + low;
    SameRemainder(h, low);
    if h % 15625 == 0 {
      MultipleDropped(h / 15625, low);
    }
  }

  /** 2^32 / 64 is invertible modulo 15625. */
  lemma SameRemainder(h: nat, low: nat)
    ensures low % US == (0x1_0000_0000 * h + low) % US ==> h % 15625 == 0
  {
    var x := 0x1_0000_0000 * h + low;
    var k := x / US - low / US;
    if low % US == x % US {
      assert low == US * (low / US) + low % US && x == US * (x / US) + x % US;
      assert 0x400_0000 * h == 15625 * k;
      assert h == 15625 * (12659 * k - 54369991 * h);
    }
  }

  lemma MultipleDropped(k: nat, low: nat)
    ensures (0x1_0000_0000 * (15625 * k) + low) % US == low % US
  {
    var a := low / US;
    assert low == US * a + low % US;
    Numerals.DivUnique(0x1_0000_0000 * (15625 * k) + low, US, a + 0x400_0000 * k, low % US);
  }

  /** When an immediate get returns what was set, for every time, rate and tick count: exactly
      when the microseconds are normal and the part of the product that settimeofday drops is a
      multiple of 15625, or when the clock is set to zero and the reading is clamped there. */
  lemma ImmediateGetUndoesSetIff(t: Time, nticks: U32, rate: U32)
    requires rate > 0 && IsI32(t.sec) && IsI32(t.usec)
    ensures var product := nticks * PerTick(rate);
            Reading(Offset(t, nticks, rate), nticks, rate) == t <==>
            || (0 <= t.usec < US && product / 0x1_0000_0000 % 15625 == 0)
            || (t == Time(0, 0) && product % US < product % 0x1_0000_0000 % US)
  {
    SmallFraction(nticks, rate);
    FractionsAgreeIff(nticks, rate);
    var r := Reading(Offset(t, nticks, rate), nticks, rate);
    assert 0 <= r.usec < US;
    if 0 <= t.usec < US {
      GetAfterSet(t, nticks, rate);
    }
  }

  /** What an immediate get returns. */
  lemma GetAfterSet(t: Time, nticks: U32, rate: U32)
    requires rate > 0 && IsI32(t.sec) && 0 <= t.usec < US
    ensures Reading(Offset(t, nticks, rate), nticks, rate)
         == Normalised(t.sec, t.usec - SetFraction(nticks, rate) + GetFraction(nticks, rate))
  {
    SmallFraction(nticks, rate);
    var a, b := SetFraction(nticks, rate), GetFraction(nticks, rate);
    Wraps(t.sec - nticks / rate, nticks / rate);
    Wraps(t.usec - a, b);
    NormalisedOnce(t.sec, t.usec - a + b);
    hide ToI32, SetFraction, GetFraction, Borrow, Carry;
  }

  /** The two loops on microseconds less than a second out of range. */
  function Normalised(sec: int, usec: int): Time {
    if usec < 0 && sec <= 0 then Time(0, 0)
    else if usec < 0 then Time(sec - 1, usec + US)
    else if usec >= US then Time(sec + 1, usec - US)
    else Time(sec, usec)
  }

  lemma NormalisedOnce(sec: int, usec: int)
    requires -US < usec < 2 * US
    ensures Carry(Borrow(Time(sec, usec))) == Normalised(sec, usec)
  {
    if usec < 0 && sec > 0 {
      assert Borrow(Time(sec, usec)) == Borrow(Time(sec - 1, usec + US)) == Time(sec - 1, usec + US);
    }
    if usec >= US {
      assert Carry(Time(sec, usec)) == Carry(Time(sec + 1, usec - US)) == Time(sec + 1, usec - US);
    }
  }

  /** At a thousand ticks a second the product outgrows 32 bits after 71 minutes: a clock set
      then reads almost a second ahead at once. */
  lemma SetAfterAnHourDrifts()
    ensures Reading(Offset(Time(1000, 0), 4294968, 1000), 4294968, 1000) == Time(1000, 967296)
  {
    assert SetFraction(4294968, 1000) == 704 && GetFraction(4294968, 1000) == 968000;
    hide SetFraction, GetFraction, Reading, Offset;
    GetAfterSet(Time(1000, 0), 4294968, 1000);
  }
}
