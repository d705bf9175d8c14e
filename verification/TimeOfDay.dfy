/** gettimeofday and settimeofday over the 32-bit tick counter. `long` and time_t are 32 bits wide. */
module TimeOfDay {
  import opened Unsigned

  const US := 1_000_000

  datatype Timeval = Timeval(sec: int, usec: int) {
    function Micros(): int { sec * US + usec }
  }

  datatype Timezone = Timezone(minutesWest: int, dstTime: int)

  /** The signed 32-bit value of an unsigned or wider result. */
  function S32(x: int): (r: int)
    ensures -0x8000_0000 <= r < 0x8000_0000 && (x - r) % M == 0
  {
    (x + 0x8000_0000) % M - 0x8000_0000
  }

  class Clock {
    var nticks: u32
    var tickRate: u32
    var resetTime: Timeval
    var timezone: Timezone

    constructor (nticks: u32, tickRate: u32)
      ensures this.nticks == nticks && this.tickRate == tickRate
      ensures resetTime == Timeval(0, 0) && timezone == Timezone(0, 0)
    {
      this.nticks, this.tickRate := nticks, tickRate;
      resetTime, timezone := Timeval(0, 0), Timezone(0, 0);
    }

    /** `ALT_SETTIMEOFDAY`; false is the error ENOSYS, without a system clock. */
    method SetTimeOfDay(t: Timeval, tz: Timezone) returns (ok: bool)
      modifies `resetTime, `timezone
      ensures ok == (tickRate != 0)
      ensures ok ==> resetTime == ResetTime(t, nticks, tickRate) && timezone == tz
      ensures !ok ==> resetTime == old(resetTime) && timezone == old(timezone)
    {
      if tickRate == 0 {
        return false;
      }
      resetTime := Timeval(S32(t.sec - nticks / tickRate), S32(t.usec - (nticks * (US / tickRate)) % M % US));
      timezone := tz;
      ok := true;
    }

    /** `ALT_GETTIMEOFDAY`; false is -ENOTSUP. */
    method GetTimeOfDay() returns (ok: bool, t: Timeval, tz: Timezone)
      ensures ok == (tickRate != 0)
      ensures ok ==> t == WallClock(resetTime, nticks, tickRate) && tz == timezone
    {
      hide S32, Normalised;
      ok, t, tz := tickRate != 0, Timeval(0, 0), timezone;
      if ok {
        t := Normalise(S32(resetTime.sec + nticks / tickRate), S32(resetTime.usec + nticks * (US / tickRate) % US));
      }
    }
  }

  /** The two loops of gettimeofday: they compute a division with its remainder, except that a time before zero becomes
      zero, and that the seconds wrap. */
  method Normalise(sec0: int, usec0: int) returns (t: Timeval)
    requires -0x8000_0000 <= sec0 < 0x8000_0000
    ensures t == Normalised(Timeval(sec0, usec0))
  {
    hide S32, Normalised;
    var sec, usec := sec0, usec0;
    ghost var borrowed := 0;
    while usec < 0
      invariant usec0 == usec - borrowed * US && sec == sec0 - borrowed
      invariant borrowed >= 0 && (borrowed > 0 ==> usec0 < 0 && usec < US && sec >= 0)
      decreases -usec
    {
      if sec <= 0 {
        NormalisedIs(sec0, usec0, usec / US - borrowed, usec % US);
        return Timeval(0, 0);
      }
      sec, usec, borrowed := sec - 1, usec + US, borrowed + 1;
    }
    WrapOnce(sec0);
    ghost var carry := 0;
    while usec >= US
      invariant usec >= 0 && carry >= 0 && usec0 == usec + (carry - borrowed) * US
      invariant if borrowed > 0 then usec < US && carry == 0 && sec == sec0 - borrowed >= 0 else sec == S32(sec0 + carry)
    {
      WrapAgain(sec0 + carry, 1);
      sec, usec, carry := S32(sec + 1), usec - US, carry + 1;
    }
    NormalisedIs(sec0, usec0, carry - borrowed, usec);
    t := Timeval(sec, usec);
  }

  lemma NormalisedIs(sec: int, usec: int, k: int, rest: int)
    requires usec == k * US + rest && 0 <= rest < US
    ensures Normalised(Timeval(sec, usec)) ==
            if usec >= 0 then Timeval(S32(sec + k), rest) else if sec + k < 0 then Timeval(0, 0) else Timeval(sec + k, rest)
  {
    hide S32;
    assert usec / US == k && usec % US == rest;
  }

  /** The whole seconds since boot. */
  function Seconds(n: u32, rate: u32): nat
    requires rate != 0
  {
    n / rate
  }

  /** `alt_resettime` after settimeofday(t) at tick `n`: the microseconds are computed modulo 2^32. */
  function ResetTime(t: Timeval, n: u32, rate: u32): Timeval
    requires rate != 0
  {
    Timeval(S32(t.sec - Seconds(n, rate)), S32(t.usec - Residue32(n, rate)))
  }

  /** The microseconds within the second of tick `n`, as settimeofday computes them ... */
  function Residue32(n: u32, rate: u32): (x: nat)
    requires rate != 0
    ensures x < US
  {
    (n * (US / rate)) % M % US
  }

  /** ... and as gettimeofday computes them, with a 64-bit product. */
  function Residue64(n: u32, rate: u32): (x: nat)
    requires rate != 0
    ensures x < US
  {
    n * (US / rate) % US
  }

  /** The time of day shown at tick `n`. */
  function WallClock(reset: Timeval, n: u32, rate: u32): Timeval
    requires rate != 0
  {
    Normalised(Timeval(S32(reset.sec + Seconds(n, rate)), S32(reset.usec + Residue64(n, rate))))
  }

  /** The same time with 0 <= usec < 10^6, but a time before zero, if its microseconds are negative, becomes zero, and
      a carry may take the seconds out of their 32 bits. */
  function Normalised(t: Timeval): (r: Timeval)
    ensures 0 <= r.usec < US
    ensures t.usec < 0 && t.Micros() >= 0 ==> r.Micros() == t.Micros()
    ensures t.usec < 0 && t.Micros() < 0 ==> r == Timeval(0, 0)
    ensures t.usec >= 0 ==> r.Micros() + (t.sec + t.usec / US - r.sec) * US == t.Micros() && r.sec == S32(t.sec + t.usec / US)
  {
    if t.usec >= 0 then Timeval(S32(t.sec + t.usec / US), t.usec % US)
    else if t.sec + t.usec / US < 0 then Timeval(0, 0)
    else Timeval(t.sec + t.usec / US, t.usec % US)
  }

  // ----- what settimeofday promises of gettimeofday -----

  /** Wrapping on the way does not change what the end result wraps to. */
  lemma WrapAgain(a: int, b: int)
    ensures S32(S32(a) + b) == S32(a + b)
    ensures S32(S32(a)) == S32(a)
  {
    SameWrap(S32(a) + b, a + b);
    SameWrap(S32(a), a);
  }

  lemma SameWrap(x: int, y: int)
    requires (x - y) % M == 0
    ensures S32(x) == S32(y)
  {
    var w := (x - y) / M;
    assert x + 0x8000_0000 == y + 0x8000_0000 + w * M;
  }

  /** The range in which the wrapped seconds are looked at. */
  lemma WrapOnce(x: int)
    requires -0x8000_0000 <= x < 0x8000_0000 + M
    ensures S32(x) == if x < 0x8000_0000 then x else x - M
  {
  }

  /** A tick rate that divides a second loses no microseconds. */
  lemma WholeMicros(n: u32, rate: u32)
    requires 0 < rate && US % rate == 0
    ensures n / rate * US + Residue64(n, rate) == n * (US / rate)
  {
    WholeMicrosOf(n, rate, US / rate, n / rate, n % rate);
  }

  lemma WholeMicrosOf(n: nat, rate: nat, q: nat, k: nat, r: nat)
    requires rate * q == US && n == k * rate + r && r < rate
    ensures k * US + n * q % US == n * q
  {
    Distribute(k, rate, r, q);
    MulMonotone(r + 1, rate, q);
    assert q > 0 && (r + 1) * q == r * q + q;
    ModOf(k, r * q);
  }

  lemma Distribute(k: nat, rate: nat, r: nat, q: nat)
    ensures (k * rate + r) * q == k * (rate * q) + r * q
  {
  }

  lemma ModOf(q: nat, r: nat)
    requires r < US
    ensures (q * US + r) % US == r
  {
  }

  /** The seconds that gettimeofday adds up fit in 32 bits before the microseconds are carried, and so do the seconds
      of the time to be shown. */
  predicate SecondsFit(t: Timeval, n: u32, d: nat, rate: u32)
    requires rate != 0
  {
    && t.sec + (n + d) / rate - n / rate < 0x8000_0000
    && (t.Micros() + d * (US / rate)) / US < 0x8000_0000
  }

  /** A set clock runs true: `d` ticks after settimeofday(t), gettimeofday shows t plus `d` tick periods exactly if the
      microseconds that settimeofday took off are those that gettimeofday adds, and the seconds fit; or the time to be shown
      is zero and the difference is negative. For a rate that divides a second, as long as the tick counter has not wrapped.
      What it shows is always normalised. */
  lemma ClockRunsTrue(t: Timeval, n: u32, d: nat, rate: u32)
    requires rate != 0 && US % rate == 0 && 0 <= t.sec < 0x8000_0000 && 0 <= t.usec < US && n + d < M
    ensures var now := WallClock(ResetTime(t, n, rate), n + d, rate);
            var due := t.Micros() + d * (US / rate);
            && (now.Micros() == due <==>
                  || (Residue32(n, rate) == Residue64(n, rate) && SecondsFit(t, n, d, rate))
                  || (due == 0 && Residue64(n, rate) < Residue32(n, rate)))
            && 0 <= now.usec < US
  {
    hide Residue32, Residue64, S32, Normalised, Timeval.Micros;
    Terms(n, d, rate);
    Shown(t, n / rate, (n + d) / rate, Residue64(n, rate), Residue32(n, rate), Residue64(n + d, rate), n * (US / rate),
          d * (US / rate));
  }

  /** In particular as long as the 32-bit product in settimeofday has not wrapped, the seconds need only fit. */
  lemma ClockRunsTrueAtFirst(t: Timeval, n: u32, d: nat, rate: u32)
    requires rate != 0 && US % rate == 0 && 0 <= t.sec < 0x8000_0000 && 0 <= t.usec < US && n + d < M
    requires n * (US / rate) < M
    ensures var now := WallClock(ResetTime(t, n, rate), n + d, rate);
            now.Micros() == t.Micros() + d * (US / rate) <==> SecondsFit(t, n, d, rate)
  {
    hide Residue32, Residue64, WallClock, ResetTime;
    SameResidue(n, rate);
    ClockRunsTrue(t, n, d, rate);
  }

  lemma Terms(n: u32, d: nat, rate: u32)
    requires rate != 0 && US % rate == 0 && n + d < M
    ensures 0 <= n / rate <= (n + d) / rate < M && 0 <= d * (US / rate)
    ensures n / rate * US + Residue64(n, rate) == n * (US / rate)
    ensures (n + d) / rate * US + Residue64(n + d, rate) == n * (US / rate) + d * (US / rate)
  {
    hide Residue64;
    WholeMicros(n, rate);
    WholeMicros(n + d, rate);
    DivMonotone(n, n + d, rate);
    DivMonotone(0, n, rate);
    DivAtMost(n + d, rate);
    Distribute(1, n, d, US / rate);
    MulMonotone(0, d, US / rate);
  }

  lemma DivAtMost(a: nat, n: nat)
    requires n > 0
    ensures a / n <= a
  {
    if a / n > a {
      MulMonotone(1, n, a / n);
      assert false;
    }
  }

  /** One second before the seconds run out, though the time to be shown still fits, the clock falls back to zero. */
  lemma ClockFalls()
    ensures var t := Timeval(0x7FFF_FFFF, 0); WallClock(ResetTime(t, 1, 1000), 1000, 1000) == Timeval(0, 0)
    ensures !SecondsFit(Timeval(0x7FFF_FFFF, 0), 1, 999, 1000)
  {
    hide S32, Residue32, Residue64, Normalised;
    ClockFallsResidues();
    WrapOnce(0x7FFF_FFFF);
    WrapOnce(0x8000_0000);
    WrapOnce(-1000);
    assert ResetTime(Timeval(0x7FFF_FFFF, 0), 1, 1000) == Timeval(0x7FFF_FFFF, -1000);
    assert Timeval(-0x8000_0000, -1000).Micros() < 0;
  }

  lemma ClockFallsResidues()
    ensures Residue32(1, 1000) == 1000 && Residue64(1000, 1000) == 0
  {
  }

  /** What gettimeofday shows of `t`, set `a` seconds and `x` microseconds after boot, at `b` and `y` after boot, when
      settimeofday took off `x'` microseconds for `x`. */
  lemma Shown(t: Timeval, a: int, b: int, x: nat, x': nat, y: nat, start: int, elapsed: int)
    requires 0 <= t.sec < 0x8000_0000 && 0 <= t.usec < US && 0 <= a <= b < M && x < US && x' < US && y < US
    requires a * US + x == start && b * US + y == start + elapsed && 0 <= elapsed
    ensures var now := Normalised(Timeval(S32(S32(t.sec - a) + b), S32(S32(t.usec - x') + y)));
            && (now.Micros() == t.Micros() + elapsed <==>
                  || (x' == x && t.sec + b - a < 0x8000_0000 && (t.Micros() + elapsed) / US < 0x8000_0000)
                  || (t.Micros() + elapsed == 0 && x < x'))
            && 0 <= now.usec < US
  {
    hide S32;
    Elapsed(t, a, b, x, y, start, elapsed);
    WrapAgain(t.sec - a, b);
    WrapAgain(t.usec - x', y);
    var sec, usec := t.sec - a + b, t.usec - x' + y;
    WrapOnce(sec);
    WrapOnce(usec);
    ShownWrapped(sec, usec, x - x');
  }

  /** `off` microseconds too many. */
  lemma ShownWrapped(sec: nat, usec: int, off: int)
    requires sec < 0x8000_0000 + M && -US < usec < 2 * US && -US < off < US && sec * US + usec - off >= 0
    ensures var raw := Timeval(if sec < 0x8000_0000 then sec else sec - M, usec);
            var due := sec * US + usec - off;
            Normalised(raw).Micros() == due <==>
              (off == 0 && sec < 0x8000_0000 && due / US < 0x8000_0000) || (due == 0 && off < 0)
  {
    hide S32;
    var raw := Timeval(if sec < 0x8000_0000 then sec else sec - M, usec);
    if usec >= 0 {
      WrapOnce(raw.sec + usec / US);
    }
    assert (sec * US + usec) / US == sec + usec / US;
  }

  lemma SameResidue(n: u32, rate: u32)
    requires rate != 0 && n * (US / rate) < M
    ensures Residue32(n, rate) == Residue64(n, rate)
  {
    var q: nat := US / rate;
    MulMonotone(0, n, q);
    SmallMod(n * q);
  }

  lemma SmallMod(p: nat)
    requires p < M
    ensures p % M == p
  {
  }

  lemma Elapsed(t: Timeval, a: int, b: int, x: int, y: int, start: int, elapsed: int)
    requires a * US + x == start && b * US + y == start + elapsed
    ensures Timeval(t.sec - a + b, t.usec - x + y).Micros() == t.Micros() + elapsed
  {
  }

  lemma DivMonotone(a: nat, b: nat, n: nat)
    requires a <= b && n > 0
    ensures a / n <= b / n
  {
    if b / n < a / n {
      MulMonotone(b / n + 1, a / n, n);
      assert false;
    }
  }

  lemma MulMonotone(x: nat, y: nat, n: nat)
    requires x <= y
    ensures x * n <= y * n
  {
  }

  /** What the clock shows from boot on, while the seconds fit. */
  lemma ShownFromBoot(n: u32, rate: u32)
    requires rate != 0 && n / rate < 0x8000_0000
    ensures WallClock(Timeval(0, 0), n, rate) == Timeval(n / rate, n * (1_000_000 / rate) % 1_000_000)
  {
    hide S32;
    var x, y: int := n / rate, Residue64(n, rate);
    WrapOnce(x);
    WrapOnce(y);
    assert y / US == 0 && y % US == y;
  }

  /** With a rate that does not divide a second the clock jumps ahead before the end of a second, and then back: at 3 ticks a
      second, it shows 1.999999 at the third tick and 1.333332 at the fourth. */
  lemma UnevenRate()
    ensures US % 3 != 0
    ensures WallClock(Timeval(0, 0), 3, 3) == Timeval(1, 999999)
    ensures WallClock(Timeval(0, 0), 4, 3) == Timeval(1, 333332)
  {
    hide WallClock;
    ShownFromBoot(3, 3);
    ShownFromBoot(4, 3);
  }

  /** Reading the clock back at once gives the time just set exactly when the microseconds that settimeofday took off
      are those that gettimeofday adds, or the time set is zero and the difference is negative (then it is clamped). */
  lemma RoundTrip(t: Timeval, n: u32, rate: u32)
    requires rate != 0 && 0 <= t.sec < 0x8000_0000 && 0 <= t.usec < US
    ensures WallClock(ResetTime(t, n, rate), n, rate) == t <==>
            Residue32(n, rate) == Residue64(n, rate) || (t == Timeval(0, 0) && Residue64(n, rate) < Residue32(n, rate))
  {
    hide Residue32, Residue64, S32, Normalised, Seconds;
    ShownAtOnce(t, Seconds(n, rate), Residue32(n, rate), Residue64(n, rate));
  }

  lemma ShownAtOnce(t: Timeval, a: int, y: nat, x: nat)
    requires 0 <= t.sec < 0x8000_0000 && 0 <= t.usec < US && x < US && y < US
    ensures Normalised(Timeval(S32(S32(t.sec - a) + a), S32(S32(t.usec - y) + x))) == t <==>
            y == x || (t == Timeval(0, 0) && x < y)
  {
    hide S32;
    WrapAgain(t.sec - a, a);
    WrapAgain(t.usec - y, x);
    WrapOnce(t.sec);
    WrapOnce(t.usec - y + x);
    WrapOnce(t.sec + (t.usec - y + x) / US);
  }

  /** A little more than an hour after boot at 1000 ticks a second the product has wrapped, and a time set is not the time
      read back at once. */
  lemma RoundTripFails()
    ensures var t := Timeval(1000, 0); WallClock(ResetTime(t, 4294968, 1000), 4294968, 1000) != t
  {
    hide WallClock, ResetTime;
    assert Residue32(4294968, 1000) == 704 && Residue64(4294968, 1000) == 968000;
    RoundTrip(Timeval(1000, 0), 4294968, 1000);
  }

  /** They are the same exactly when the number of times the 32-bit product wrapped is a multiple of 15625 = 5^6; in
      particular when it did not wrap. */
  lemma ResiduesAgree(n: u32, rate: u32)
    requires rate != 0
    ensures Residue32(n, rate) == Residue64(n, rate) <==> n * (US / rate) / M % 15625 == 0
  {
    MulMonotone(0, n, US / rate);
    ResiduesAgreeOf(n * (US / rate));
  }

  lemma ResiduesAgreeOf(p: nat)
    ensures p % M % US == p % US <==> p / M % 15625 == 0
  {
    SameRemainder(p, p % M);
    WrapsOf(p / M);
    assert p - p % M == p / M * M;
  }

  lemma SameRemainder(p: nat, r: nat)
    ensures r % US == p % US <==> (p - r) % US == 0
  {
  }

  /** 2^32 = 64 * 2^26 and 10^6 = 64 * 15625; 12659 inverts 2^26 modulo 15625. */
  lemma WrapsOf(k: nat)
    ensures k * M % US == 0 <==> k % 15625 == 0
  {
    if k * M % US == 0 {
      WholeWraps(k, k * M / US);
    }
    if k % 15625 == 0 {
      assert k * M == k / 15625 * 67108864 * US;
      ModOf(k / 15625 * 67108864, 0);
    }
  }

  lemma WholeWraps(k: nat, m: nat)
    requires k * M == m * US
    ensures k % 15625 == 0
  {
    assert k * 67108864 == m * 15625;
    assert k == 15625 * (m * 12659 - 54369991 * k);
  }
}
