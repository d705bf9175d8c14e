/** The 32-bit arithmetic of the alarm facility, against a clock that never wraps.
    `_alt_nticks` is that clock modulo 2^32; an alarm keeps a 32-bit `time` and one `rollover` flag. */
module AlarmTime {
  import opened Unsigned
  import opened Options

  /** The tick at which alt_tick will make the next callback of an alarm with these fields, if the clock now stands
      at `clock`: not before the wrap if `rollover` is set, else as soon as `_alt_nticks` is not below `time`. */
  function NextFiring(clock: nat, time: u32, rollover: bool): (due: nat)
    ensures due > clock
  {
    var wrap, n := clock / M * M, clock % M;
    if rollover || n == M - 1 then wrap + M + time
    else if time <= n + 1 then clock + 1
    else wrap + time
  }

  /** The 32-bit `time` is the due tick modulo 2^32. */
  predicate Exact(clock: nat, time: u32, rollover: bool) {
    time == NextFiring(clock, time, rollover) % M
  }

  /** What the flag means: the due tick lies in the next wrap of the counter. (In the last tick of a wrap a cleared
      flag says no less, since the next tick opens the next wrap.) */
  lemma RolloverMeansNextWrap(clock: nat, time: u32, rollover: bool)
    ensures var due := NextFiring(clock, time, rollover);
            && clock / M <= due / M <= clock / M + 1
            && (rollover ==> due / M == clock / M + 1)
            && (due / M == clock / M + 1 ==> rollover || clock % M == M - 1)
  {
    var n := clock % M;
    assert clock == clock / M * M + n;
    ModOf(clock / M + 1, time);
    ModOf(clock / M, time);
    if n + 1 < M {
      ModOf(clock / M, n + 1);
    }
  }

  /** What alt_tick does to the flag once the counter stands at `n`. */
  function ClearRollover(rollover: bool, n: u32): bool {
    rollover && n != 0
  }

  /** The test of alt_tick. */
  predicate Expired(time: u32, rollover: bool, n: u32) {
    time <= n && !rollover
  }

  /** One tick: the test passes at exactly the due tick, and until then the due tick stays what it was. */
  lemma TickKeepsDue(clock: nat, time: u32, rollover: bool)
    ensures var n := (clock + 1) % M;
            var rollover' := ClearRollover(rollover, n);
            && (Expired(time, rollover', n) <==> NextFiring(clock, time, rollover) == clock + 1)
            && (!Expired(time, rollover', n) ==>
                  NextFiring(clock + 1, time, rollover') == NextFiring(clock, time, rollover))
  {
    if clock % M == M - 1 {
      assert (clock + 1) % M == 0 && (clock + 1) / M == clock / M + 1;
    } else {
      assert (clock + 1) % M == clock % M + 1 && (clock + 1) / M == clock / M;
    }
  }

  /** alt_alarm_start arms an alarm for `nticks` + 1 ticks ahead exactly when the delay is not 0xFFFFFFFF or the
      counter is about to wrap; in the remaining case `time` equals the counter and the alarm goes off at once. */
  lemma StartIsDue(clock: nat, nticks: u32)
    ensures var n := clock % M;
            var time := (nticks + n + 1) % M;
            var rollover := time < n;
            && (NextFiring(clock, time, rollover) == clock + nticks + 1 <==> nticks != M - 1 || n == M - 1)
            && (nticks == M - 1 && n != M - 1 ==> NextFiring(clock, time, rollover) == clock + 1)
            && (Exact(clock, time, rollover) <==> nticks != M - 1 || n == M - 1)
  {
    var n := clock % M;
    assert clock == clock / M * M + n;
    if nticks + n + 1 < M {
      ModOf(clock / M, nticks + n + 1);
    } else if nticks + n + 1 < 2 * M {
      ModOf(1, nticks + n + 1 - M);
      ModOf(clock / M + 1, nticks + n + 1 - M);
    }
    ModOf(clock / M, n);
    if n + 1 < M {
      ModOf(clock / M, n + 1);
    }
  }

  /** Re-arming an alarm in the tick in which it is due: any period from 1 to 0xFFFFFFFF is kept exactly. */
  lemma RearmIsDue(clock: nat, time: u32, period: u32)
    requires period != 0 && time == clock % M
    ensures var time' := (time + period) % M;
            var rollover' := time' < clock % M;
            && NextFiring(clock, time', rollover') == clock + period
            && Exact(clock, time', rollover')
  {
    assert clock == clock / M * M + time;
    if time + period < M {
      ModOf(clock / M, time + period);
    } else {
      ModOf(1, time + period - M);
      ModOf(clock / M + 1, time + period - M);
    }
  }

  lemma ModOf(q: nat, r: nat)
    requires r < M
    ensures (q * M + r) % M == r && (q * M + r) / M == q
  {
  }

  /** The ticks up to `upto` at which an alarm due at `due` must be called back, on the unbounded clock: `callback`
      gives the period to the next callback, zero ends it. */
  function Firings(due: nat, callback: nat -> u32, upto: nat): seq<nat>
    decreases upto + 1 - due
  {
    if due > upto then []
    else if callback(due) == 0 then [due]
    else [due] + Firings(due + callback(due), callback, upto)
  }

  /** When the alarm is due after `upto`, if it has not ended. */
  function DueAfter(due: nat, callback: nat -> u32, upto: nat): (next: Option<nat>)
    ensures next.Some? ==> next.value > upto
    decreases upto + 1 - due
  {
    if due > upto then Some(due)
    else if callback(due) == 0 then None
    else DueAfter(due + callback(due), callback, upto)
  }

  /** One more tick of that specification. */
  lemma {:induction false} OneMoreTick(due: nat, callback: nat -> u32, upto: nat)
    ensures DueAfter(due, callback, upto) == Some(upto + 1) ==>
              && Firings(due, callback, upto + 1) == Firings(due, callback, upto) + [upto + 1]
              && DueAfter(due, callback, upto + 1) ==
                 if callback(upto + 1) == 0 then None else Some(upto + 1 + callback(upto + 1))
    ensures DueAfter(due, callback, upto) != Some(upto + 1) ==>
              && Firings(due, callback, upto + 1) == Firings(due, callback, upto)
              && DueAfter(due, callback, upto + 1) == DueAfter(due, callback, upto)
    decreases upto + 1 - due
  {
    if due <= upto && callback(due) != 0 {
      OneMoreTick(due + callback(due), callback, upto);
    }
  }
}
