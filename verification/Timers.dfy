/** Time values: conversion of a delay to clock ticks and its meaning for callouts, and interval
    timers that do not drift. */
module Timers {
  import opened Bits
  import opened Common
  import C = CalloutSpec
  import H = CalloutHistory

  const LONG_MAX := 0x7fff_ffff_ffff_ffff
  const ULONG_RANGE := 0x1_0000_0000_0000_0000
  const MILLION := 1000000

  function Ceil(a: nat, b: nat): nat
    requires b > 0
  {
    (a + b - 1) / b
  }

  /** A time difference in microseconds. */
  function Micros(sec: int, usec: int): int { sec * MILLION + usec }

  // ----- tvtohz -----

  lemma CeilBounds(a: nat, b: nat)
    requires b > 0
    ensures a <= Ceil(a, b) * b < a + b
  {
    var q, r := (a + b - 1) / b, (a + b - 1) % b;
    assert a + b - 1 == q * b + r;
  }

  /** More microseconds never need fewer ticks. */
  lemma CeilLarge(a: nat, b: nat, q: nat)
    requires b > 0 && a > q * b
    ensures Ceil(a, b) > q
  {
    CeilBounds(a, b);
    var c := Ceil(a, b);
    if c <= q { MulMono(c, q, b); }
  }

  lemma MulMono(x: nat, y: nat, b: nat)
    requires x <= y
    ensures x * b <= y * b
  {
    assert y * b == x * b + (y - x) * b;
    MulNonNegative(y - x, b);
  }

  /** The two arithmetic branches of tvtohz agree when hz ticks make a second. */
  lemma BranchesAgree(sec: nat, usec: nat, hz: nat, tick: nat)
    requires tick > 0 && hz * tick == MILLION
    ensures sec * hz + Ceil(usec, tick) == Ceil(Micros(sec, usec), tick)
  {
    var q, r := (usec + tick - 1) / tick, (usec + tick - 1) % tick;
    assert usec + tick - 1 == tick * q + r;
    assert sec * MILLION == tick * (sec * hz) by {
      assert sec * (hz * tick) == tick * (sec * hz);
    }
    assert tick * (sec * hz) + tick * q == tick * (sec * hz + q);
    DivModUnique(sec * MILLION + usec + tick - 1, tick, sec * hz + q, r);
  }

  /** tvtohz, for the C ints hz and tick.  For a tv_usec of up to a second in magnitude, a negative
      difference takes one tick, and any other is rounded up to whole ticks, plus one for the tick
      in progress, and clipped at INT_MAX.  For any other tv_usec the unsigned long sum of the first
      branch can wrap, at either end, and that of the second when a tick is a microsecond. */
  method Tvtohz(tvSec: int, tvUsec: int, hz: nat, tick: nat) returns (r: int)
    requires 0 < hz <= INT_MAX && 0 < tick <= INT_MAX
    requires -LONG_MAX <= tvSec <= LONG_MAX && -LONG_MAX <= tvUsec <= LONG_MAX
    ensures -MILLION <= tvUsec < MILLION && Micros(tvSec, tvUsec) < 0 ==> r == 1
    ensures -MILLION <= tvUsec < MILLION && Micros(tvSec, tvUsec) >= 0 ==>
              r == Min(Ceil(Micros(tvSec, tvUsec), tick) + 1, INT_MAX)
    ensures var sec := if tvUsec < 0 then tvSec - 1 else tvSec;
      var usec := if tvUsec < 0 then tvUsec + MILLION else tvUsec;
      var us := Micros(tvSec, tvUsec);
      && (sec < 0 ==> r == 1)
      && (0 <= sec <= LONG_MAX / MILLION ==>
            r == if us + tick - 1 < 0 then INT_MAX
                 else if us < 0 || us + tick - 1 >= ULONG_RANGE then 1
                 else Min(Ceil(us, tick) + 1, INT_MAX))
      && (LONG_MAX / MILLION < sec ==>
            r == if tick == 1 && sec <= LONG_MAX / hz && 0 <= sec * hz + usec + 1 <= INT_MAX then sec * hz + usec + 1
                 else INT_MAX)
  {
    hide Ceil;
    var ticks: nat;
    var sec, usec := tvSec, tvUsec;
    if usec < 0 {
      sec := sec - 1;
      usec := usec + MILLION;
    }
    if sec < 0 {
      ticks := 1;
    } else if sec <= LONG_MAX / MILLION {
      FirstBranch(sec, usec, tick);
      ticks := (sec * MILLION + usec + (tick - 1)) % ULONG_RANGE / tick + 1;
    } else if sec <= LONG_MAX / hz {
      ticks := (sec * hz + (usec + (tick - 1)) % ULONG_RANGE / tick + 1) % ULONG_RANGE;
      SecondBranch(sec, usec, hz, tick);
      TimesHz(sec, hz);
      if usec >= 0 { ManyTicks(sec, usec, tick); }
    } else {
      ticks := LONG_MAX;
      if usec >= 0 { ManyTicks(sec, usec, tick); }
    }
    if ticks > INT_MAX { ticks := INT_MAX; }
    r := ticks;
  }

  /** The sum of the first branch: below zero it wraps to more ticks than an int holds, and past
      the unsigned range to less than one tick. */
  lemma FirstBranch(sec: nat, usec: int, tick: nat)
    requires sec <= LONG_MAX / MILLION && -LONG_MAX <= usec <= LONG_MAX && 0 < tick <= INT_MAX
    ensures var sum := Micros(sec, usec) + tick - 1; var q := sum % ULONG_RANGE / tick;
      && (sum < 0 ==> q >= INT_MAX)
      && (0 <= sum < tick - 1 ==> q == 0)
      && (tick - 1 <= sum < ULONG_RANGE ==> q == Ceil(Micros(sec, usec), tick))
      && (sum >= ULONG_RANGE ==> q == 0 && usec >= MILLION)
  {
    var sum := Micros(sec, usec) + tick - 1;
    if sum < 0 {
      ModShift(sum, ULONG_RANGE, 1);
      NoOverflow(sum + ULONG_RANGE);
      DivLarge(sum + ULONG_RANGE, tick);
    } else if sum < ULONG_RANGE {
      NoOverflow(sum);
      if sum < tick - 1 { DivModUnique(sum, tick, 0, sum); }
    } else {
      ModShift(sum - ULONG_RANGE, ULONG_RANGE, 1);
      NoOverflow(sum - ULONG_RANGE);
      DivModUnique(sum - ULONG_RANGE, tick, 0, sum - ULONG_RANGE);
    }
  }

  lemma DivLarge(x: nat, tick: nat)
    requires 0 < tick <= INT_MAX && x >= INT_MAX * INT_MAX
    ensures x / tick >= INT_MAX
  {
    var q := x / tick;
    assert x == tick * q + x % tick;
    MulMono(tick, INT_MAX, q);
  }

  /** The sum of the second branch exceeds an int, unless ticks are microseconds and the microseconds
      are negative enough: then the unsigned sum wraps to what the signed one would be. */
  lemma SecondBranch(sec: nat, usec: int, hz: nat, tick: nat)
    requires 0 < hz && 0 < tick <= INT_MAX && LONG_MAX / MILLION < sec <= LONG_MAX / hz
    requires -LONG_MAX <= usec <= LONG_MAX
    ensures var sum := (sec * hz + (usec + (tick - 1)) % ULONG_RANGE / tick + 1) % ULONG_RANGE;
      if tick == 1 && 0 <= sec * hz + usec + 1 <= INT_MAX then sum == sec * hz + usec + 1 else sum > INT_MAX
  {
    TimesHz(sec, hz);
    var whole := sec * hz;
    if tick == 1 {
      DivOne((usec + (tick - 1)) % ULONG_RANGE);
      SignedSum(usec);
      SignedSum(whole + usec + 1 - if usec >= 0 then ULONG_RANGE else 0);
    } else {
      Quotient(usec, tick);
      NoOverflow(whole + (usec + (tick - 1)) % ULONG_RANGE / tick + 1);
    }
  }

  lemma DivOne(x: int)
    ensures x / 1 == x
  {
  }

  lemma Quotient(usec: int, tick: nat)
    requires 2 <= tick <= INT_MAX && -LONG_MAX <= usec <= LONG_MAX
    ensures 0 <= (usec + (tick - 1)) % ULONG_RANGE / tick <= LONG_MAX
  {
    Halved((usec + (tick - 1)) % ULONG_RANGE, tick);
  }

  lemma SignedSum(x: int)
    requires -ULONG_RANGE <= x < ULONG_RANGE
    ensures x % ULONG_RANGE == (x + ULONG_RANGE) % ULONG_RANGE == if x >= 0 then x else x + ULONG_RANGE
  {
  }

  lemma Halved(u: nat, tick: nat)
    requires u < ULONG_RANGE && tick >= 2
    ensures u / tick <= LONG_MAX
  {
    var q := u / tick;
    assert u == tick * q + u % tick;
    MulMono(2, tick, q);
  }

  lemma NoOverflow(x: nat)
    requires x < ULONG_RANGE
    ensures x % ULONG_RANGE == x
  {
  }

  lemma ManyTicks(sec: nat, usec: nat, tick: nat)
    requires 0 < tick <= INT_MAX && LONG_MAX / MILLION < sec
    ensures Ceil(Micros(sec, usec), tick) > INT_MAX
  {
    TickBound(sec, usec, tick);
    CeilLarge(Micros(sec, usec), tick, INT_MAX);
  }

  /** Whole ticks never outnumber the microseconds. */
  lemma CeilSmall(a: nat, b: nat)
    requires b > 0
    ensures Ceil(a, b) <= a
  {
    CeilBounds(a, b);
    MulMono(1, b, a);
    assert (a + 1) * b == a * b + b;
    if Ceil(a, b) > a { MulMono(a + 1, Ceil(a, b), b); }
  }

  lemma TimesHz(sec: nat, hz: nat)
    requires 0 < hz && sec <= LONG_MAX / hz
    ensures sec <= sec * hz <= LONG_MAX
  {
    MulMono(sec, LONG_MAX / hz, hz);
    MulMono(1, hz, sec);
    assert LONG_MAX == hz * (LONG_MAX / hz) + LONG_MAX % hz;
  }

  lemma TickBound(sec: nat, usec: nat, tick: nat)
    requires tick <= INT_MAX && LONG_MAX / MILLION < sec
    ensures Micros(sec, usec) > INT_MAX * tick
  {
    MulMono(tick, INT_MAX, INT_MAX);
  }

  // ----- a callout armed with tvtohz -----

  /** How long after arming, p microseconds into a tick, a callout with the tvtohz delay of us
      microseconds fires: the next tick starts its count, and it fires when the clock has passed
      its deadline. */
  function Delay(us: nat, tick: nat, p: nat): int
    requires tick > 0
  {
    (Min(Ceil(us, tick) + 1, INT_MAX) + 1) * tick - p
  }

  /** Clock step n happens n * tick microseconds after the clock's start.  In every run, a callout
      armed at real time x, within the tick the clock shows, for tvtohz of us microseconds, fires
      exactly Delay later.  Unless the delay was clipped that is more than us + tick and less than
      us + 3 * tick. */
  lemma FiresAfter(s: C.State, steps: seq<C.Step>, h: C.Handlers, j: nat, us: nat, tick: nat, x: int)
    requires H.Initial(s) && tick > 0
    requires j < |C.Run(s, steps, h).log| && C.Run(s, steps, h).log[j].Fired?
    requires var log := C.Run(s, steps, h).log;
      log[j].serial < |log| && log[log[j].serial].Armed? &&
      log[log[j].serial].ticks == Min(Ceil(us, tick) + 1, INT_MAX) &&
      log[log[j].serial].at * tick <= x < (log[log[j].serial].at + 1) * tick
    ensures var log := C.Run(s, steps, h).log;
      var elapsed, p := log[j].at * tick - x, x - log[log[j].serial].at * tick;
      && elapsed == Delay(us, tick, p)
      && (Ceil(us, tick) >= INT_MAX ==> elapsed == (INT_MAX + 1) * tick - p)
      && (Ceil(us, tick) < INT_MAX ==> us + tick < elapsed < us + 3 * tick)
  {
    H.NeverEarlyNeverStopped(s, steps, h, j);
    var log := C.Run(s, steps, h).log;
    var armed := log[log[j].serial];
    var n := armed.ticks;
    assert log[j].at * tick == armed.at * tick + (n + 1) * tick by {
      assert log[j].at == armed.at + (n + 1);
    }
    assert (armed.at + 1) * tick == armed.at * tick + tick;
    CeilBounds(us, tick);
    if Ceil(us, tick) < INT_MAX {
      assert (n + 1) * tick == Ceil(us, tick) * tick + 2 * tick;
    }
  }

  /** At each phase, the callout fires after more than the delay asked for exactly when that delay
      is less than INT_MAX + 1 ticks less the phase. */
  lemma NotEarlyAt(us: nat, tick: nat, p: nat)
    requires p < tick
    ensures Delay(us, tick, p) > us <==> us < (INT_MAX + 1) * tick - p
  {
    CeilBounds(us, tick);
    var c := Ceil(us, tick);
    if c < INT_MAX {
      MulMono(c + 2, INT_MAX + 1, tick);
      assert (c + 2) * tick == c * tick + 2 * tick;
    }
  }

  /** tvtohz delays a callout by more than was asked for, whatever the phase, exactly up to INT_MAX
      ticks, and by no more than was asked for, whatever the phase, exactly from one tick later on. */
  lemma NeverEarly(us: nat, tick: nat)
    requires tick > 0
    ensures (forall p: nat | p < tick :: Delay(us, tick, p) > us) <==> us <= INT_MAX * tick
    ensures (forall p: nat | p < tick :: Delay(us, tick, p) <= us) <==> us >= (INT_MAX + 1) * tick
  {
    hide Delay;
    assert (INT_MAX + 1) * tick == INT_MAX * tick + tick;
    forall p: nat | p < tick ensures Delay(us, tick, p) > us <==> us < INT_MAX * tick + tick - p {
      NotEarlyAt(us, tick, p);
    }
    var last: nat := tick - 1;
    assert Delay(us, tick, last) > us <==> us <= INT_MAX * tick;
    assert Delay(us, tick, 0) > us <==> us < INT_MAX * tick + tick;
  }

  /** With ticks of a millisecond, a callout armed just before a tick for two microseconds more
      than INT_MAX milliseconds fires one microsecond early. */
  lemma FiresEarly()
    ensures var us := INT_MAX * 1000 + 2; Delay(us, 1000, 999) == us - 1
  {
    DivModUnique(INT_MAX * 1000 + 2 + 999, 1000, INT_MAX + 1, 1);
  }

  // ----- timevals -----

  /** struct timeval */
  class Timeval {
    var sec: int
    var usec: int

    constructor (sec: int, usec: int)
      ensures this.sec == sec && this.usec == usec
    {
      this.sec, this.usec := sec, usec;
    }

    ghost function Value(): int
      reads this
    {
      Micros(sec, usec)
    }

    ghost predicate Normal()
      reads this
    {
      0 <= usec < MILLION
    }

    /** timevalfix: the value is kept, and the result is normalised exactly when the microseconds
        were less than one second out of range. */
    method Fix()
      modifies this
      ensures Value() == old(Value())
      ensures Normal() <==> -MILLION <= old(usec) < 2 * MILLION
    {
      if usec < 0 {
        sec := sec - 1;
        usec := usec + MILLION;
      }
      if usec >= MILLION {
        sec := sec + 1;
        usec := usec - MILLION;
      }
    }

    /** timevaladd */
    method Add(t: Timeval)
      requires Normal() && t.Normal()
      modifies this
      ensures Normal() && Value() == old(Value()) + old(t.Value())
    {
      sec := sec + t.sec;
      usec := usec + t.usec;
      Fix();
    }

    /** timevalsub */
    method Sub(t: Timeval)
      requires Normal() && t.Normal()
      modifies this
      ensures Normal() && Value() == old(Value()) - old(t.Value())
    {
      sec := sec - t.sec;
      usec := usec - t.usec;
      Fix();
    }
  }

  /** itimerfix: refuses exactly the values that are negative or not normalised, and raises a
      positive value below one tick to one tick.  The result is normalised exactly when no value
      was raised to a tick of a whole second or more. */
  method ItimerFix(tv: Timeval, tick: nat) returns (einval: bool)
    requires 0 < tick
    modifies tv
    ensures einval <==> old(tv.sec) < 0 || !old(tv.Normal())
    ensures einval ==> tv.sec == old(tv.sec) && tv.usec == old(tv.usec)
    ensures !einval ==>
              tv.sec == old(tv.sec) &&
              tv.Value() == (if 0 < old(tv.Value()) < tick && old(tv.sec) == 0 then tick else old(tv.Value())) &&
              (tv.Normal() <==> tick < MILLION || old(tv.sec) > 0 || old(tv.usec) == 0)
  {
    if tv.sec < 0 || tv.usec < 0 || tv.usec >= MILLION { return true; }
    if tv.sec == 0 && tv.usec != 0 && tv.usec < tick { tv.usec := tick; }
    einval := false;
  }

  /** With a tick of one second, itimerfix raises one microsecond to a value that is not normalised. */
  method TickOfASecond() returns (sec: int, usec: int)
    ensures sec == 0 && usec == MILLION
  {
    var tv := new Timeval(0, 1);
    var einval := ItimerFix(tv, 1000000);
    sec, usec := tv.sec, tv.usec;
  }

  // ----- interval timers -----

  /** Whether a timer with v left is still running after d microseconds.  Below zero it always is. */
  predicate StillRunning(v: int, d: int) { v > d || v < 0 }

  /** What is left of a timer with interval i after d microseconds. */
  function Left(v: int, i: int, d: int): int {
    if StillRunning(v, d) then v - d else if i != 0 then i - (d - v) else 0
  }

  /** struct itimerval */
  class Itimerval {
    const interval: Timeval
    const value: Timeval

    constructor (interval: Timeval, value: Timeval)
      ensures this.interval == interval && this.value == value
    {
      this.interval, this.value := interval, value;
    }

    /** itimerdecr; returns 0 when the timer expired.  An expired timer is reloaded with its
        interval less the overshoot, which leaves it positive exactly when the overshoot is
        smaller than the interval. */
    method Decr(usec: nat) returns (running: bool)
      requires usec < MILLION && interval != value
      requires interval.Normal() && value.Normal() && interval.sec >= 0
      modifies value
      ensures value.Normal() && value.Value() == Left(old(value.Value()), interval.Value(), usec)
      ensures running <==> old(value.Value()) > usec || old(value.Value()) < 0
      ensures value.Value() == (if running then old(value.Value()) - usec
                                else if interval.Value() != 0 then old(value.Value()) - usec + interval.Value() else 0)
      ensures old(value.Value()) >= 0 ==>
                (value.Value() > 0 <==> old(value.Value()) > usec || interval.Value() > usec - old(value.Value()))
    {
      var over := usec;
      if value.usec < over && value.sec == 0 {
        over := over - value.usec;             // expired, and already in the next interval
      } else {
        if value.usec < over {
          value.usec := value.usec + MILLION;
          value.sec := value.sec - 1;
        }
        value.usec := value.usec - over;
        over := 0;
        if value.sec != 0 || value.usec != 0 { return true; }
      }
      if interval.sec != 0 || interval.usec != 0 {
        value.sec, value.usec := interval.sec, interval.usec;
        value.usec := value.usec - over;
        if value.usec < 0 {
          value.usec := value.usec + MILLION;
          value.sec := value.sec - 1;
        }
      } else {
        value.usec := 0;
      }
      running := false;
    }
  }

  /** What is left after a run of decrements, how often the timer expired, and the time that passed. */
  function LeftAfter(v: int, i: int, ds: seq<nat>): int {
    if ds == [] then v else Left(LeftAfter(v, i, ds[..|ds| - 1]), i, ds[|ds| - 1])
  }

  function Expirations(v: int, i: int, ds: seq<nat>): nat {
    if ds == [] then 0
    else
      var past := ds[..|ds| - 1];
      Expirations(v, i, past) + if StillRunning(LeftAfter(v, i, past), ds[|ds| - 1]) then 0 else 1
  }

  function Elapse(ds: seq<nat>): nat { if ds == [] then 0 else Elapse(ds[..|ds| - 1]) + ds[|ds| - 1] }

  lemma {:induction false} Accounting(v: int, i: int, ds: seq<nat>)
    requires v > 0 && i > 0 && forall k | 0 <= k < |ds| :: ds[k] <= i
    ensures LeftAfter(v, i, ds) == v - Elapse(ds) + i * Expirations(v, i, ds)
    ensures 0 < LeftAfter(v, i, ds) && (Expirations(v, i, ds) > 0 ==> LeftAfter(v, i, ds) <= i)
  {
    if ds != [] {
      var q := ds[..|ds| - 1];
      Accounting(v, i, q);
      assert i * (Expirations(v, i, q) + 1) == i * Expirations(v, i, q) + i;
    }
  }

  /** Over any run of decrements none of which exceeds the interval there is no drift: the timer
      stays positive, and it has expired once when its initial value was used up and once more for
      every whole interval since. */
  lemma NoDrift(v: int, i: int, ds: seq<nat>)
    requires v > 0 && i > 0 && forall k | 0 <= k < |ds| :: ds[k] <= i
    ensures LeftAfter(v, i, ds) == v - Elapse(ds) + i * Expirations(v, i, ds) > 0
    ensures Expirations(v, i, ds) == if Elapse(ds) < v then 0 else (Elapse(ds) - v) / i + 1
  {
    Accounting(v, i, ds);
    var e, l := Expirations(v, i, ds), LeftAfter(v, i, ds);
    Rounds(Elapse(ds) - v, i, e, l);
  }

  lemma Rounds(over: int, i: int, e: nat, l: int)
    requires i > 0 && l == i * e - over > 0 && (e > 0 ==> l <= i)
    ensures e == if over < 0 then 0 else over / i + 1
  {
    assert i * e == i * (e - 1) + i;
    if e > 0 {
      MulNonNegative(i, e - 1);
      if over >= 0 { DivModUnique(over, i, e - 1, i - l); }
    }
  }

  /** A one-shot timer counts down to zero and stays there. */
  lemma {:induction false} OneShot(v: int, ds: seq<nat>)
    requires v >= 0
    ensures LeftAfter(v, 0, ds) == if Elapse(ds) < v then v - Elapse(ds) else 0
  {
    if ds != [] { OneShot(v, ds[..|ds| - 1]); }
  }

  /** It expires in the decrement that uses it up, here the one at k, and in every one after that. */
  lemma {:induction false} OneShotExpires(v: int, ds: seq<nat>, k: nat)
    requires v >= 0 && k <= |ds|
    requires (k == 0 || Elapse(ds[..k]) < v) && (k == |ds| || Elapse(ds[..k + 1]) >= v)
    ensures Expirations(v, 0, ds) == |ds| - k
    decreases |ds|
  {
    if ds != [] {
      var q := ds[..|ds| - 1];
      OneShot(v, q);
      if k < |q| {
        assert q[..k] == ds[..k] && q[..k + 1] == ds[..k + 1];
        ElapseGrows(q, k + 1);
        OneShotExpires(v, q, k);
      } else {
        assert ds[..|ds|] == ds && q[..|q|] == q;
        OneShotExpires(v, q, |q|);
      }
    }
  }

  lemma {:induction false} ElapseGrows(ds: seq<nat>, k: nat)
    requires k <= |ds|
    ensures Elapse(ds[..k]) <= Elapse(ds)
  {
    if k < |ds| {
      assert ds[..|ds| - 1][..k] == ds[..k];
      ElapseGrows(ds[..|ds| - 1], k);
    } else {
      assert ds[..k] == ds;
    }
  }

  /** A timer with an interval has lost the time that passed and gained an interval each time it
      expired, also where its overshoot exceeds the interval. */
  lemma {:induction false} Balance(v: int, i: int, ds: seq<nat>)
    requires i != 0
    ensures LeftAfter(v, i, ds) == v - Elapse(ds) + i * Expirations(v, i, ds)
  {
    if ds != [] {
      var q := ds[..|ds| - 1];
      Balance(v, i, q);
      assert i * (Expirations(v, i, q) + 1) == i * Expirations(v, i, q) + i;
    }
  }

  /** A timer whose overshoot once exceeded its interval is below zero: from then on it counts away
      from zero and never expires again. */
  lemma {:induction false} BelowZero(v: int, i: int, ds: seq<nat>)
    requires v < 0
    ensures LeftAfter(v, i, ds) == v - Elapse(ds) && Expirations(v, i, ds) == 0
  {
    if ds != [] { BelowZero(v, i, ds[..|ds| - 1]); }
  }

  lemma {:induction false} RunsCompose(v: int, i: int, a: seq<nat>, b: seq<nat>)
    ensures LeftAfter(v, i, a + b) == LeftAfter(LeftAfter(v, i, a), i, b)
    ensures Expirations(v, i, a + b) == Expirations(v, i, a) + Expirations(LeftAfter(v, i, a), i, b)
  {
    if b == [] {
      assert a + b == a;
    } else {
      var n := |b| - 1;
      assert (a + b)[..|a + b| - 1] == a + b[..n] && (a + b)[|a + b| - 1] == b[n];
      RunsCompose(v, i, a, b[..n]);
    }
  }

  /** No run of decrements of at most d takes a positive timer to zero or below exactly when its
      interval is at least d. */
  lemma StaysPositive(i: int, d: nat)
    requires i > 0
    ensures (forall v: int, ds: seq<nat> | v > 0 && AtMost(ds, d) :: LeftAfter(v, i, ds) > 0) <==> d <= i
  {
    if d <= i {
      forall v: int, ds: seq<nat> | v > 0 && AtMost(ds, d) ensures LeftAfter(v, i, ds) > 0 { Accounting(v, i, ds); }
    } else {
      assert AtMost([d], d) && [d][..0] == [];
      assert LeftAfter(1, i, [d]) == i - (d - 1);
    }
  }

  ghost predicate AtMost(ds: seq<nat>, d: nat) { forall k | 0 <= k < |ds| :: ds[k] <= d }

  /** A running timer of one microsecond with an interval of ten, decremented by twenty, expires once
      and never again, whatever follows. */
  lemma NeverAgain(ds: seq<nat>)
    ensures LeftAfter(1, 10, [20] + ds) == -9 - Elapse(ds) && Expirations(1, 10, [20] + ds) == 1
  {
    assert [20][..0] == [];
    RunsCompose(1, 10, [20], ds);
    BelowZero(-9, 10, ds);
  }

  /** itimerdecr once for each decrement in ds. */
  method RunTimer(t: Itimerval, ds: seq<nat>) returns (expired: nat)
    requires t.interval != t.value && t.interval.Normal() && t.value.Normal() && t.interval.sec >= 0
    requires forall k | 0 <= k < |ds| :: ds[k] < MILLION
    modifies t.value
    ensures var v, i := old(t.value.Value()), t.interval.Value();
      && t.value.Normal() && t.value.Value() == LeftAfter(v, i, ds) && expired == Expirations(v, i, ds)
      && (v > 0 && i > 0 && (forall k | 0 <= k < |ds| :: ds[k] <= i) ==>
            t.value.Value() == v - Elapse(ds) + i * expired > 0 &&
            expired == if Elapse(ds) < v then 0 else (Elapse(ds) - v) / i + 1)
      && (v >= 0 && i == 0 ==> t.value.Value() == if Elapse(ds) < v then v - Elapse(ds) else 0)
      && (v < 0 ==> t.value.Value() == v - Elapse(ds) && expired == 0)
  {
    ghost var v, i := t.value.Value(), t.interval.Value();
    expired := 0;
    var k := 0;
    while k < |ds|
      invariant 0 <= k <= |ds| && t.value.Normal()
      invariant t.value.Value() == LeftAfter(v, i, ds[..k]) && expired == Expirations(v, i, ds[..k])
    {
      assert ds[..k + 1][..k] == ds[..k];
      var running := t.Decr(ds[k]);
      if !running { expired := expired + 1; }
      k := k + 1;
    }
    assert ds[..k] == ds;
    if v > 0 && i > 0 && forall k | 0 <= k < |ds| :: ds[k] <= i { NoDrift(v, i, ds); }
    if v >= 0 && i == 0 { OneShot(v, ds); }
    if v < 0 { BelowZero(v, i, ds); }
  }
}
