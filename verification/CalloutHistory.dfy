/** Safety of the callout facility over whole runs: every arming has exactly one fate, nothing
    fires early or late, and the callouts of one tick fire newest first. */
module CalloutHistory {
  import opened Common
  import opened CalloutSpec

  function Deadline(e: Event): int
    requires e.Armed?
  {
    e.at + Clamp(e.ticks)
  }

  /** The arming, by its position in the log, that an event disposes of. */
  function Ends(e: Event): Option<nat> {
    match e
    case Cancelled(_, serial) => Some(serial)
    case Fired(_, _, _, _, serial, _) => Some(serial)
    case _ => None
  }

  ghost predicate ArmedAs(log: seq<Event>, t: Timer) {
    t.serial < |log| && log[t.serial].Armed? && log[t.serial].c == t.c &&
    log[t.serial].func == t.func && log[t.serial].arg == t.arg && Deadline(log[t.serial]) == t.deadline
  }

  ghost predicate Live(ts: seq<Timer>, n: nat) { exists t :: t in ts && t.serial == n }
  ghost predicate EndedAt(log: seq<Event>, j: nat, n: nat) { j < |log| && Ends(log[j]) == Some(n) }
  ghost predicate Ended(log: seq<Event>, n: nat) { exists j: nat :: EndedAt(log, j, n) }

  /** Newest first, one timer a callout. */
  ghost predicate Ordered(ts: seq<Timer>) {
    ts != [] ==>
      (forall t | t in ts[1..] :: t.serial < ts[0].serial && t.c != ts[0].c) && Ordered(ts[1..])
  }

  ghost predicate TimersArmed(ts: seq<Timer>, log: seq<Event>) {
    forall t | t in ts :: ArmedAs(log, t)
  }

  ghost predicate EndsOnce(log: seq<Event>) {
    forall i: nat, j: nat, n: nat | EndedAt(log, i, n) && EndedAt(log, j, n) :: i == j
  }

  ghost predicate EndsArmed(log: seq<Event>) {
    forall j: nat, n: nat | EndedAt(log, j, n) :: n < j && log[n].Armed? && log[n].c == log[j].c
  }

  ghost predicate LiveNotEnded(ts: seq<Timer>, log: seq<Event>) {
    forall t | t in ts :: !Ended(log, t.serial)
  }

  ghost predicate EveryFate(ts: seq<Timer>, log: seq<Event>) {
    forall n: nat | n < |log| && log[n].Armed? :: Live(ts, n) || Ended(log, n)
  }

  ghost predicate FiredOnTime(log: seq<Event>) {
    forall j: nat | j < |log| && log[j].Fired? ::
      log[j].at == log[j].deadline + 1 &&
      ArmedAs(log, Timer(log[j].c, log[j].deadline, log[j].func, log[j].arg, log[j].serial))
  }

  ghost predicate NewestFirst(log: seq<Event>) {
    forall i: nat, j: nat | i < j < |log| && log[i].Fired? && log[j].Fired? && log[i].deadline == log[j].deadline ::
      log[i].serial > log[j].serial
  }

  ghost predicate Ledger(ts: seq<Timer>, log: seq<Event>) {
    && Ordered(ts) && TimersArmed(ts, log) && EndsOnce(log) && EndsArmed(log)
    && LiveNotEnded(ts, log) && EveryFate(ts, log) && FiredOnTime(log) && NewestFirst(log)
  }

  /** Timers due at d still to fire are older than those with that deadline already fired. */
  ghost predicate Serving(ts: seq<Timer>, log: seq<Event>, d: int) {
    && (forall t | t in ts :: t.deadline >= d)
    && (forall j: nat | j < |log| && log[j].Fired? :: log[j].deadline <= d)
    && (forall j: nat, t | j < |log| && t in ts && log[j].Fired? && log[j].deadline == d && t.deadline == d ::
          log[j].serial > t.serial)
  }

  // What a log by itself says of a callout: whether its handler is running, whether it is pending,
  // and whether it was ever armed for direct execution.

  /** The callout whose handler has been called and has not returned. */
  function RunningIn(log: seq<Event>): Option<Callout> {
    if log == [] then None
    else
      match log[|log| - 1]
      case Fired(c, _, _, _, _, _) => Some(c)
      case Returned(_) => None
      case _ => RunningIn(log[..|log| - 1])
  }

  ghost predicate ArmedDirect(log: seq<Event>, c: Callout, n: nat) {
    n < |log| && log[n].Armed? && log[n].c == c && log[n].direct
  }

  ghost predicate EverDirect(log: seq<Event>, c: Callout) { exists n: nat :: ArmedDirect(log, c, n) }

  ghost predicate PendingAs(log: seq<Event>, c: Callout, n: nat) {
    n < |log| && log[n].Armed? && log[n].c == c && !Ended(log, n)
  }

  ghost predicate PendingIn(log: seq<Event>, c: Callout) { exists n: nat :: PendingAs(log, c, n) }

  /** What callout_stop reports after a log: the result for a running callout if it was ever armed
      for direct execution, and otherwise whether it is pending. */
  ghost function Report(log: seq<Event>, c: Callout, executing: bool): int {
    if RunningIn(log) == Some(c) && EverDirect(log, c) then (if executing then 1 else 0)
    else if PendingIn(log, c) then 1 else -1
  }

  ghost predicate StopsReport(log: seq<Event>) {
    forall j: nat | j < |log| && log[j].Stopped? :: log[j].result == Report(log[..j], log[j].c, log[j].executing)
  }

  /** The callouts with an arming for direct execution. */
  function DirectIn(log: seq<Event>): set<Callout> {
    if log == [] then {}
    else
      var past, e := DirectIn(log[..|log| - 1]), log[|log| - 1];
      if e.Armed? && e.direct then past + {e.c} else past
  }

  /** An event after log that takes the active mark off c: its arming is cancelled, or it is stopped
      while its handler is executing and the stop can tell, whatever the stop then reports. */
  ghost predicate Deactivates(log: seq<Event>, e: Event, c: Callout) {
    (e.Cancelled? && e.c == c) || (e.Stopped? && e.c == c && RunningIn(log) == Some(c) && EverDirect(log, c))
  }

  /** c has been armed by the n-th event and not been deactivated since. */
  ghost predicate ActiveSince(log: seq<Event>, c: Callout, n: nat) {
    n < |log| && log[n].Armed? && log[n].c == c && forall k | n < k < |log| :: !Deactivates(log[..k], log[k], c)
  }

  ghost predicate ActiveIn(log: seq<Event>, c: Callout) { exists n: nat :: ActiveSince(log, c, n) }

  function ActiveSet(log: seq<Event>): set<Callout> {
    if log == [] then {}
    else
      var past, e := log[..|log| - 1], log[|log| - 1];
      match e
      case Armed(c, _, _, _, _, _) => ActiveSet(past) + {c}
      case Cancelled(c, _) => ActiveSet(past) - {c}
      case Stopped(c, _, _) =>
        if RunningIn(past) == Some(c) && c in DirectIn(past) then ActiveSet(past) - {c} else ActiveSet(past)
      case _ => ActiveSet(past)
  }

  ghost predicate Tracked(running: Option<Callout>, direct: set<Callout>, active: set<Callout>, log: seq<Event>) {
    running == RunningIn(log) && direct == DirectIn(log) && active == ActiveSet(log) && StopsReport(log)
  }

  ghost predicate Phase(s: State, d: int) {
    Ledger(s.timers, s.log) && Serving(s.timers, s.log, d) && Tracked(s.running, s.direct, s.active, s.log)
  }

  /** The invariant between steps: nothing pending is overdue. */
  ghost predicate Settled(s: State) {
    && s.soft <= s.now && Phase(s, s.now)
    && forall j: nat | j < |s.log| && s.log[j].Fired? :: s.log[j].deadline < s.now
  }

  // ----- lists -----

  lemma {:induction false} RemoveMembers(ts: seq<Timer>, c: Callout)
    ensures forall t | t in Remove(ts, c) :: t in ts && t.c != c
    ensures forall t | t in ts && t.c != c :: t in Remove(ts, c)
  {
    if ts != [] { RemoveMembers(ts[1..], c); }
  }

  lemma {:induction false} RemoveOrdered(ts: seq<Timer>, c: Callout)
    requires Ordered(ts)
    ensures Ordered(Remove(ts, c))
  {
    if ts != [] {
      RemoveOrdered(ts[1..], c);
      if ts[0].c != c {
        assert Remove(ts, c)[1..] == Remove(ts[1..], c);
        RemoveMembers(ts[1..], c);
      }
    }
  }

  lemma {:induction false} SerialOfMember(ts: seq<Timer>, c: Callout) returns (t: Timer)
    requires SerialOf(ts, c).Some?
    ensures t in ts && t.c == c && t.serial == SerialOf(ts, c).value
  {
    if ts[0].c == c { t := ts[0]; } else { t := SerialOfMember(ts[1..], c); }
  }

  lemma {:induction false} SerialOfNone(ts: seq<Timer>, c: Callout, t: Timer)
    requires t in ts && t.c == c
    ensures SerialOf(ts, c).Some?
  {
    if ts[0].c != c { SerialOfNone(ts[1..], c, t); }
  }

  lemma {:induction false} SameCallout(ts: seq<Timer>, t: Timer, u: Timer)
    requires Ordered(ts) && t in ts && u in ts && (t.c == u.c || t.serial == u.serial)
    ensures t == u
  {
    if t != ts[0] && u != ts[0] { SameCallout(ts[1..], t, u); }
  }

  /** The due timer chosen is the newest of the due ones. */
  lemma {:induction false} FirstDueNewest(ts: seq<Timer>, d: int)
    requires Ordered(ts) && FirstDue(ts, d).Some?
    ensures FirstDue(ts, d).value in ts && FirstDue(ts, d).value.deadline == d
    ensures forall t | t in ts && t.deadline == d && t != FirstDue(ts, d).value ::
              t.serial < FirstDue(ts, d).value.serial
  {
    if ts[0].deadline != d { FirstDueNewest(ts[1..], d); }
  }

  lemma {:induction false} FirstDueNone(ts: seq<Timer>, d: int)
    requires FirstDue(ts, d).None?
    ensures forall t | t in ts :: t.deadline != d
  {
    if ts != [] { FirstDueNone(ts[1..], d); }
  }

  // ----- what each log entry keeps -----

  lemma LogGrows(log: seq<Event>, e: Event)
    ensures forall j: nat, n: nat ::
              EndedAt(log + [e], j, n) <==> EndedAt(log, j, n) || (j == |log| && Ends(e) == Some(n))
    ensures forall n: nat :: Ended(log + [e], n) <==> Ended(log, n) || Ends(e) == Some(n)
  {
    var log' := log + [e];
    forall n: nat ensures Ended(log', n) <==> Ended(log, n) || Ends(e) == Some(n) {
      if Ended(log, n) {
        var j: nat :| EndedAt(log, j, n);
        assert EndedAt(log', j, n);
      }
      if Ended(log', n) {
        var j: nat :| EndedAt(log', j, n);
        assert j < |log| ==> EndedAt(log, j, n);
      }
      if Ends(e) == Some(n) { assert EndedAt(log', |log|, n); }
    }
  }

  /** An event other than a firing, with no timer added that would be due at d. */
  lemma NoFiring(ts: seq<Timer>, ts': seq<Timer>, log: seq<Event>, e: Event, d: int)
    requires FiredOnTime(log) && NewestFirst(log) && Serving(ts, log, d) && !e.Fired?
    requires forall t | t in ts' :: t in ts || t.deadline > d
    ensures FiredOnTime(log + [e]) && NewestFirst(log + [e]) && Serving(ts', log + [e], d)
  {
  }

  /** An event that neither arms nor ends anything. */
  lemma NoteKeeps(ts: seq<Timer>, log: seq<Event>, e: Event, d: int)
    requires Ledger(ts, log) && Serving(ts, log, d) && (e.Stopped? || e.Returned?)
    ensures Ledger(ts, log + [e]) && Serving(ts, log + [e], d)
  {
    NoteEnds(ts, log, e);
    NoFiring(ts, ts, log, e, d);
    hide EndsOnce, EndsArmed, LiveNotEnded, EveryFate, TimersArmed, FiredOnTime, NewestFirst, Serving, Ordered;
  }

  lemma NoteEnds(ts: seq<Timer>, log: seq<Event>, e: Event)
    requires TimersArmed(ts, log) && EndsOnce(log) && EndsArmed(log) && LiveNotEnded(ts, log) && EveryFate(ts, log)
    requires e.Stopped? || e.Returned?
    ensures TimersArmed(ts, log + [e]) && EndsOnce(log + [e]) && EndsArmed(log + [e])
    ensures LiveNotEnded(ts, log + [e]) && EveryFate(ts, log + [e])
  {
    LogGrows(log, e);
    hide Ended, Live;
  }

  lemma EndKeeps(ts: seq<Timer>, log: seq<Event>, t: Timer, e: Event)
    requires Ledger(ts, log) && t in ts
    requires Ends(e) == Some(t.serial) && e.c == t.c
    ensures var log' := log + [e]; var ts' := Remove(ts, t.c);
      && Ordered(ts') && TimersArmed(ts', log') && EndsOnce(log') && EndsArmed(log')
      && LiveNotEnded(ts', log') && EveryFate(ts', log')
  {
    var log', ts' := log + [e], Remove(ts, t.c);
    LogGrows(log, e);
    RemoveOrdered(ts, t.c);
    RemoveMembers(ts, t.c);
    forall u | u in ts' ensures !Ended(log', u.serial) {
      if u.serial == t.serial { SameCallout(ts, u, t); }
    }
    forall n: nat | n < |log'| && log'[n].Armed? ensures Live(ts', n) || Ended(log', n) {
      if Live(ts, n) {
        var u :| u in ts && u.serial == n;
        if u.c == t.c { SameCallout(ts, u, t); }
      }
    }
  }

  // ----- running, pending and direct callouts, read off the log -----

  lemma {:induction false} DirectMeans(log: seq<Event>, c: Callout)
    ensures c in DirectIn(log) <==> EverDirect(log, c)
  {
    if log != [] {
      var n: nat := |log| - 1;
      DirectMeans(log[..n], c);
      if EverDirect(log[..n], c) {
        var k: nat :| ArmedDirect(log[..n], c, k);
        assert ArmedDirect(log, c, k);
      }
      if EverDirect(log, c) {
        var k: nat :| ArmedDirect(log, c, k);
        assert k < n ==> ArmedDirect(log[..n], c, k);
      }
      if log[n].Armed? && log[n].c == c && log[n].direct { assert ArmedDirect(log, c, n); }
    }
  }

  /** The pending callouts are those with an arming that nothing has ended. */
  lemma PendingMeans(ts: seq<Timer>, log: seq<Event>, c: Callout)
    requires TimersArmed(ts, log) && LiveNotEnded(ts, log) && EveryFate(ts, log)
    ensures SerialOf(ts, c).Some? <==> PendingIn(log, c)
  {
    if SerialOf(ts, c).Some? {
      var t := SerialOfMember(ts, c);
      assert PendingAs(log, c, t.serial);
    }
    if PendingIn(log, c) {
      var n: nat :| PendingAs(log, c, n);
      var t :| t in ts && t.serial == n;
      assert ArmedAs(log, t);
      SerialOfNone(ts, c, t);
    }
  }

  lemma StopMeans(s: State, c: Callout, executing: bool)
    requires Ledger(s.timers, s.log) && s.running == RunningIn(s.log) && s.direct == DirectIn(s.log)
    ensures StopResult(s, c, executing) == Report(s.log, c, executing)
  {
    DirectMeans(s.log, c);
    PendingMeans(s.timers, s.log, c);
  }

  lemma {:induction false} ActiveMeans(log: seq<Event>, c: Callout)
    ensures c in ActiveSet(log) <==> ActiveIn(log, c)
  {
    if log != [] {
      var n: nat := |log| - 1;
      var past, e := log[..n], log[n];
      ActiveMeans(past, c);
      DirectMeans(past, c);
      forall k: nat | k < n ensures past[..k] == log[..k] {}
      if k: nat :| ActiveSince(past, c, k) && !Deactivates(past, e, c) { assert ActiveSince(log, c, k); }
      if k: nat :| ActiveSince(log, c, k) && k < n { assert ActiveSince(past, c, k) && !Deactivates(past, e, c); }
      if e.Armed? && e.c == c { assert ActiveSince(log, c, n); }
    }
  }

  lemma TrackStep(running: Option<Callout>, direct: set<Callout>, active: set<Callout>, log: seq<Event>, e: Event)
    requires Tracked(running, direct, active, log) && (e.Stopped? ==> e.result == Report(log, e.c, e.executing))
    ensures Tracked(if e.Fired? then Some(e.c) else if e.Returned? then None else running,
                    if e.Armed? && e.direct then direct + {e.c} else direct,
                    if e.Armed? then active + {e.c}
                    else if e.Cancelled? || (e.Stopped? && running == Some(e.c) && e.c in direct) then active - {e.c}
                    else active,
                    log + [e])
  {
    var log' := log + [e];
    assert log'[..|log'| - 1] == log;
    forall j: nat | j < |log'| && log'[j].Stopped?
      ensures log'[j].result == Report(log'[..j], log'[j].c, log'[j].executing)
    {
      if j < |log| { assert log'[..j] == log[..j]; }
    }
  }

  lemma CancelledKeeps(ts: seq<Timer>, log: seq<Event>, t: Timer, d: int)
    requires Ledger(ts, log) && Serving(ts, log, d) && t in ts
    ensures Ledger(Remove(ts, t.c), log + [Cancelled(t.c, t.serial)])
    ensures Serving(Remove(ts, t.c), log + [Cancelled(t.c, t.serial)], d)
  {
    EndKeeps(ts, log, t, Cancelled(t.c, t.serial));
    RemoveMembers(ts, t.c);
    NoFiring(ts, Remove(ts, t.c), log, Cancelled(t.c, t.serial), d);
    hide EndsOnce, EndsArmed, LiveNotEnded, EveryFate, TimersArmed, FiredOnTime, NewestFirst, Serving, Ordered;
  }

  lemma CancelKeeps(s: State, c: Callout, d: int)
    requires Phase(s, d)
    ensures Phase(Cancel(s, c), d)
    ensures forall t | t in Cancel(s, c).timers :: t.c != c
  {
    hide Ledger, Serving, Tracked;
    if SerialOf(s.timers, c).Some? {
      var t := SerialOfMember(s.timers, c);
      CancelledKeeps(s.timers, s.log, t, d);
      RemoveMembers(s.timers, c);
      TrackStep(s.running, s.direct, s.active, s.log, Cancelled(c, t.serial));
    } else {
      forall t | t in s.timers ensures t.c != c { if t.c == c { SerialOfNone(s.timers, c, t); } }
    }
  }

  lemma ArmKeeps(s: State, op: Op, d: int)
    requires op.Reset? && Phase(s, d) && d <= s.now
    requires forall t | t in s.timers :: t.c != op.c
    ensures Phase(Arm(s, op), d)
  {
    var e := Armed(op.c, op.func, op.arg, op.ticks, s.now, op.direct);
    ArmLedger(s.timers, s.log, NewTimer(s, op), e);
    NoFiring(s.timers, [NewTimer(s, op)] + s.timers, s.log, e, d);
    hide Ledger, Serving, Tracked;
    TrackStep(s.running, s.direct, s.active, s.log, e);
  }

  lemma ArmLedger(ts: seq<Timer>, log: seq<Event>, t: Timer, e: Event)
    requires Ledger(ts, log) && e.Armed? && t.serial == |log| && ArmedAs(log + [e], t)
    requires forall u | u in ts :: u.c != t.c
    ensures Ledger([t] + ts, log + [e])
  {
    var log', ts' := log + [e], [t] + ts;
    LogGrows(log, e);
    assert ts'[1..] == ts;
    ArmOrdered(ts, log, t);
    assert LiveNotEnded(ts', log') by { EndsBeforeNow(log, t.serial); }
    forall n: nat | n < |log'| && log'[n].Armed? ensures Live(ts', n) || Ended(log', n) {
      if n == |log| { assert t in ts'; }
      else if Live(ts, n) { var u :| u in ts && u.serial == n; assert u in ts'; }
    }
  }

  lemma ArmOrdered(ts: seq<Timer>, log: seq<Event>, t: Timer)
    requires Ordered(ts) && TimersArmed(ts, log) && t.serial == |log|
    requires forall u | u in ts :: u.c != t.c
    ensures Ordered([t] + ts)
  {
    assert ([t] + ts)[1..] == ts;
  }

  lemma EndsBeforeNow(log: seq<Event>, n: nat)
    requires EndsArmed(log) && n >= |log|
    ensures !Ended(log, n)
  {
  }

  lemma OpKeeps(s: State, op: Op, d: int)
    requires Phase(s, d) && d <= s.now
    ensures Phase(ApplyOp(s, op), d) && ApplyOp(s, op).now == s.now && ApplyOp(s, op).soft == s.soft
  {
    match op
    case Reset(c, _, _, _, _) =>
      CancelKeeps(s, c, d);
      ArmKeeps(Cancel(s, c), op, d);
    case Stop(c, executing) =>
      var e := Stopped(c, executing, StopResult(s, c, executing));
      StopMeans(s, c, executing);
      NoteKeeps(s.timers, s.log, e, d);
      TrackStep(s.running, s.direct, s.active, s.log, e);
      CancelKeeps(NoteStop(s, c, executing), c, d);
  }

  lemma {:induction false} OpsKeep(s: State, ops: seq<Op>, d: int)
    requires Phase(s, d) && d <= s.now
    ensures Phase(ApplyOps(s, ops), d) && ApplyOps(s, ops).now == s.now && ApplyOps(s, ops).soft == s.soft
  {
    if ops != [] {
      OpsKeep(s, ops[..|ops| - 1], d);
      OpKeeps(ApplyOps(s, ops[..|ops| - 1]), ops[|ops| - 1], d);
    }
  }

  lemma BeginFireKeeps(s: State, t: Timer, d: int)
    requires Phase(s, d) && s.now == d + 1 && FirstDue(s.timers, d) == Some(t)
    ensures Phase(BeginFire(s, t), d)
  {
    var e := Fired(t.c, t.func, t.arg, t.deadline, t.serial, s.now);
    FirstDueNewest(s.timers, d);
    assert ArmedAs(s.log, t);
    EndKeeps(s.timers, s.log, t, e);
    FiredKept(s.timers, s.log, e, t, d);
    TrackStep(s.running, s.direct, s.active, s.log, e);
    hide Tracked, Serving, Ordered, TimersArmed, EndsOnce, EndsArmed, LiveNotEnded, EveryFate, FiredOnTime, NewestFirst;
  }

  lemma EndFireKeeps(s: State, c: Callout, d: int)
    requires Phase(s, d)
    ensures Phase(EndFire(s, c), d)
  {
    NoteKeeps(s.timers, s.log, Returned(c), d);
    TrackStep(s.running, s.direct, s.active, s.log, Returned(c));
    hide Ledger, Serving, Tracked;
  }

  lemma FireKeeps(s: State, t: Timer, h: Handlers, d: int)
    requires Phase(s, d) && s.now == d + 1 && FirstDue(s.timers, d) == Some(t)
    ensures Phase(Fire(s, t, h), d)
  {
    hide Phase;
    BeginFireKeeps(s, t, d);
    OpsKeep(BeginFire(s, t), h(t.func, t.arg, s.calls), d);
    EndFireKeeps(ApplyOps(BeginFire(s, t), h(t.func, t.arg, s.calls)), t.c, d);
  }

  lemma FiredKept(ts: seq<Timer>, log: seq<Event>, e: Event, t: Timer, d: int)
    requires FiredOnTime(log) && NewestFirst(log) && Serving(ts, log, d)
    requires t in ts && t.deadline == d && forall u | u in ts && u.deadline == d && u != t :: u.serial < t.serial
    requires e == Fired(t.c, t.func, t.arg, d, t.serial, d + 1) && ArmedAs(log, t)
    ensures FiredOnTime(log + [e]) && NewestFirst(log + [e]) && Serving(Remove(ts, t.c), log + [e], d)
  {
    RemoveMembers(ts, t.c);
  }

  lemma {:induction false} RunDueKeeps(s: State, d: int, h: Handlers)
    requires Phase(s, d) && s.now == d + 1
    ensures Phase(RunDue(s, d, h), d)
    ensures forall t | t in RunDue(s, d, h).timers :: t.deadline > d
    decreases DueCount(s.timers, d)
  {
    match FirstDue(s.timers, d)
    case None => FirstDueNone(s.timers, d);
    case Some(t) =>
      FireShrinks(s, t, d, h);
      FireKeeps(s, t, h, d);
      RunDueKeeps(Fire(s, t, h), d, h);
  }

  lemma {:induction false} NothingDue(ts: seq<Timer>, d: int)
    requires forall t | t in ts :: t.deadline != d
    ensures FirstDue(ts, d) == None
  {
    if ts != [] { NothingDue(ts[1..], d); }
  }

  lemma EmptyPass(s: State, d: int, h: Handlers)
    requires Phase(s, s.now - 1) && d < s.now - 1
    ensures RunDue(s, d, h) == s
  {
    NothingDue(s.timers, d);
  }

  lemma {:induction false} CatchUpSettles(s: State, h: Handlers)
    requires Phase(s, s.now - 1) && s.soft < s.now
    ensures Settled(CatchUp(s, h)) && CatchUp(s, h).now == s.now == CatchUp(s, h).soft
    decreases s.now - s.soft
  {
    hide Ledger, Serving, Tracked, RunDue;
    var s1 := s.(soft := s.soft + 1);
    if s1.soft < s.now {
      EmptyPass(s1, s.soft, h);
      CatchUpSettles(s1, h);
    } else {
      LastPassSettles(s1, s.soft, h);
    }
  }

  lemma LastPassSettles(s: State, d: int, h: Handlers)
    requires Phase(s, d) && s.soft == s.now == d + 1
    ensures Settled(RunDue(s, d, h))
  {
    RunDueKeeps(s, d, h);
  }

  lemma CallSettles(s: State, op: Op)
    requires Settled(s)
    ensures Settled(ApplyOp(s, op))
  {
    OpKeeps(s, op, s.now);
    OpFiresNothing(s, op);
    hide Phase, ApplyOp;
  }

  lemma TickSettles(s: State, h: Handlers)
    requires Settled(s)
    ensures Settled(TickStep(s, h)) && TickStep(s, h).now == s.now + 1 == TickStep(s, h).soft
  {
    hide Ledger, Serving, Tracked, CatchUp;
    CatchUpSettles(s.(now := s.now + 1), h);
  }

  lemma StepSettles(s: State, step: Step, h: Handlers)
    requires Settled(s)
    ensures Settled(ApplyStep(s, step, h))
    ensures step.Tick? ==> ApplyStep(s, step, h).now == s.now + 1 == ApplyStep(s, step, h).soft
  {
    hide Settled, TickStep, ApplyOp;
    match step
    case Tick => TickSettles(s, h);
    case Call(op) => CallSettles(s, op);
  }

  lemma OpFiresNothing(s: State, op: Op)
    ensures s.log <= ApplyOp(s, op).log
    ensures forall j | |s.log| <= j < |ApplyOp(s, op).log| :: !ApplyOp(s, op).log[j].Fired?
  {
  }

  /** Start of the world: nothing armed; the wheel may lag behind the clock. */
  ghost predicate Initial(s: State) {
    s.soft <= s.now && s.timers == [] && s.log == [] && s.running == None && s.direct == {} && s.active == {}
  }

  lemma {:induction false} RunSettles(s: State, steps: seq<Step>, h: Handlers)
    requires Initial(s)
    ensures Settled(Run(s, steps, h))
  {
    if steps == [] {
      assert Settled(s);
    } else {
      RunSettles(s, steps[..|steps| - 1], h);
      StepSettles(Run(s, steps[..|steps| - 1], h), steps[|steps| - 1], h);
    }
  }

  // ----- the theorems -----

  /** Over every run with every handler behaviour, an arming is either still pending, and then not
      overdue, or was disposed of by exactly one later event of its own callout. */
  lemma OneFateEach(s: State, steps: seq<Step>, h: Handlers, n: nat)
    requires Initial(s)
    requires n < |Run(s, steps, h).log| && Run(s, steps, h).log[n].Armed?
    ensures var r := Run(s, steps, h);
      && Live(r.timers, n) != Ended(r.log, n)
      && (forall i: nat, j: nat | EndedAt(r.log, i, n) && EndedAt(r.log, j, n) :: i == j)
      && (forall j: nat | EndedAt(r.log, j, n) :: n < j && r.log[j].c == r.log[n].c)
      && (Live(r.timers, n) ==> r.log[n].at + Max(r.log[n].ticks, 1) >= r.now)
  {
    RunSettles(s, steps, h);
    var r := Run(s, steps, h);
    if Live(r.timers, n) {
      var t :| t in r.timers && t.serial == n;
      assert ArmedAs(r.log, t);
    }
  }

  /** An arming whose deadline has passed and that no stop or re-arming cancelled has fired exactly
      once, with the function and argument it was armed with, in the tick that first made the
      clock exceed its deadline: never early, never late, never lost. */
  lemma FiresExactlyOnTime(s: State, steps: seq<Step>, h: Handlers, n: nat) returns (j: nat)
    requires Initial(s)
    requires n < |Run(s, steps, h).log| && Run(s, steps, h).log[n].Armed?
    requires var e := Run(s, steps, h).log[n]; e.at + Max(e.ticks, 1) < Run(s, steps, h).now
    requires forall i: nat | EndedAt(Run(s, steps, h).log, i, n) :: !Run(s, steps, h).log[i].Cancelled?
    ensures var log := Run(s, steps, h).log;
      && n < j < |log| && log[j].Fired? && log[j].serial == n
      && log[j].c == log[n].c && log[j].func == log[n].func && log[j].arg == log[n].arg
      && log[j].at == log[n].at + Max(log[n].ticks, 1) + 1
      && forall i: nat | EndedAt(log, i, n) :: i == j
  {
    OneFateEach(s, steps, h, n);
    RunSettles(s, steps, h);
    var log := Run(s, steps, h).log;
    j :| EndedAt(log, j, n);
    assert log[j].Fired?;
  }

  /** No callout fires before its deadline has passed, and a cancelled arming never fires. */
  lemma NeverEarlyNeverStopped(s: State, steps: seq<Step>, h: Handlers, j: nat)
    requires Initial(s)
    requires j < |Run(s, steps, h).log| && Run(s, steps, h).log[j].Fired?
    ensures var log := Run(s, steps, h).log; var n := log[j].serial;
      && n < j && log[n].Armed? && log[n].c == log[j].c
      && log[j].at == log[n].at + Max(log[n].ticks, 1) + 1
      && forall i: nat | i < |log| && log[i].Cancelled? :: log[i].serial != n
  {
    RunSettles(s, steps, h);
    var log := Run(s, steps, h).log;
    assert EndedAt(log, j, log[j].serial);
    forall i: nat | i < |log| && log[i].Cancelled? ensures log[i].serial != log[j].serial {
      assert EndedAt(log, i, log[i].serial);
    }
  }

  /** Callouts with the same deadline fire in the reverse of the order they were armed in. */
  lemma FiresNewestFirst(s: State, steps: seq<Step>, h: Handlers, i: nat, j: nat)
    requires Initial(s) && i < j < |Run(s, steps, h).log|
    requires Run(s, steps, h).log[i].Fired? && Run(s, steps, h).log[j].Fired?
    requires Run(s, steps, h).log[i].deadline == Run(s, steps, h).log[j].deadline
    ensures Run(s, steps, h).log[i].serial > Run(s, steps, h).log[j].serial
  {
    RunSettles(s, steps, h);
  }

  /** What every callout_stop of every run reports, in terms of what happened before it: -1 exactly
      when the callout had no pending arming and was not executing a handler as a callout that was
      ever armed for direct execution.  So a callout that is executing and not pending is reported
      as neither scheduled nor executing exactly when none of its armings was direct, and that is
      the only case in which -1 does not mean what it is documented to mean. */
  lemma StopReports(s: State, steps: seq<Step>, h: Handlers, j: nat)
    requires Initial(s)
    requires j < |Run(s, steps, h).log| && Run(s, steps, h).log[j].Stopped?
    ensures var e := Run(s, steps, h).log[j];
      var past := Run(s, steps, h).log[..j];
      var executing, pending, direct := RunningIn(past) == Some(e.c), PendingIn(past, e.c), EverDirect(past, e.c);
      && (e.result == -1 <==> !pending && !(executing && direct))
      && (executing && !pending ==> (e.result == -1 <==> !direct))
      && ((e.result == -1 <==> !pending && !executing) <==> !(executing && !pending && !direct))
      && (e.result == 0 <==> executing && direct && !e.executing)
      && (e.result == 1 <==> if executing && direct then e.executing else pending)
  {
    RunSettles(s, steps, h);
  }

  /** The active mark, after every run: a callout is active exactly when it has been armed and since
      then no arming of it was cancelled and it was not stopped in the middle of its handler as a
      callout ever armed for direct execution.  In particular firing leaves it active, and so does a
      stop of a callout that is neither pending nor executing. */
  lemma ActiveExactly(s: State, steps: seq<Step>, h: Handlers, c: Callout)
    requires Initial(s)
    ensures c in Run(s, steps, h).active <==> ActiveIn(Run(s, steps, h).log, c)
  {
    RunSettles(s, steps, h);
    ActiveMeans(Run(s, steps, h).log, c);
  }

  /** The same inside a handler, after each of its calls: s is any state in which the run's invariant
      holds and a timer is due. */
  lemma ActiveInHandler(s: State, t: Timer, d: int, h: Handlers, k: nat, c: Callout)
    requires Phase(s, d) && s.now == d + 1 && FirstDue(s.timers, d) == Some(t) && k <= |h(t.func, t.arg, s.calls)|
    ensures var inside := ApplyOps(BeginFire(s, t), h(t.func, t.arg, s.calls)[..k]);
      Phase(inside, d) && (c in inside.active <==> ActiveIn(inside.log, c))
  {
    BeginFireKeeps(s, t, d);
    OpsKeep(BeginFire(s, t), h(t.func, t.arg, s.calls)[..k], d);
    ActiveMeans(ApplyOps(BeginFire(s, t), h(t.func, t.arg, s.calls)[..k]).log, c);
  }

  /** The behaviour in which every handler stops c. */
  function Stopping(c: Callout): Handlers { (func, arg, n) => [Stop(c, false)] }

  /** A run in which a handler stops its own, executing callout and is told -1. */
  lemma RunningReportedIdle(c: Callout)
    ensures var s := State(0, 0, [], None, {}, {}, 0, []);
      var steps := [Call(Reset(c, 0, 0, 0, false)), Tick, Tick];
      var log := Run(s, steps, Stopping(c)).log;
      && log == [Armed(c, 0, 0, 0, 0, false), Fired(c, 0, 0, 1, 0, 2), Stopped(c, false, -1), Returned(c)]
      && RunningIn(log[..2]) == Some(c)
  {
    var h := Stopping(c);
    var s0 := State(0, 0, [], None, {}, {}, 0, []);
    var steps := [Call(Reset(c, 0, 0, 0, false)), Tick, Tick];
    assert steps[..2] == [steps[0], Tick] && steps[..2][..1] == [steps[0]] && steps[..1][..0] == [];
    var t := Timer(c, 1, 0, 0, 0);
    var s1 := State(0, 0, [t], None, {}, {c}, 0, [Armed(c, 0, 0, 0, 0, false)]);
    assert Run(s0, steps[..1], h) == s1;
    var s2 := s1.(now := 1, soft := 1);
    IdleTick(s1, h);
    FiringTick(s2, t, h);
    hide TickStep;
    assert Run(s0, steps[..2], h) == s2;
    assert Run(s0, steps, h) == TickStep(s2, h);
  }

  lemma IdleTick(s: State, h: Handlers)
    requires s.soft == s.now && FirstDue(s.timers, s.now) == None
    ensures TickStep(s, h) == s.(now := s.now + 1, soft := s.now + 1)
  {
    var s1 := s.(now := s.now + 1, soft := s.soft + 1);
    assert RunDue(s1, s.soft, h) == s1;
    assert CatchUp(s1, h) == s1;
  }

  lemma FiringTick(s: State, t: Timer, h: Handlers)
    requires s.soft == s.now && s.timers == [t] && t.deadline == s.now
    requires h(t.func, t.arg, s.calls) == [Stop(t.c, false)] && t.c !in s.direct
    ensures TickStep(s, h).log ==
            s.log + [Fired(t.c, t.func, t.arg, t.deadline, t.serial, s.now + 1), Stopped(t.c, false, -1), Returned(t.c)]
  {
    var s1 := s.(now := s.now + 1, soft := s.soft + 1);
    var ops := [Stop(t.c, false)];
    assert Remove([t], t.c) == [];
    var began := BeginFire(s1, t);
    assert ApplyOps(began, ops) == ApplyOp(began, ops[0]) by { assert ops[..0] == []; }
    var s2 := Fire(s1, t, h);
    assert s2.timers == [];
    assert RunDue(s2, s.soft, h) == s2;
    assert RunDue(s1, s.soft, h) == s2;
    assert CatchUp(s2, h) == s2;
  }

  /** A stopped callout is not pending, a reset one is pending once, for the new deadline, and no
      other callout's timer is touched by either. */
  lemma OpTouchesOne(s: State, op: Op)
    requires Ordered(s.timers)
    ensures var ts := ApplyOp(s, op).timers;
      && (forall t | t in s.timers && t.c != op.c :: t in ts)
      && (forall t | t in ts && t.c != op.c :: t in s.timers)
      && (op.Stop? ==> forall t | t in ts :: t.c != op.c)
      && (op.Reset? ==> Ordered(ts[1..]) && ts[0].c == op.c && ts[0].deadline == s.now + Max(op.ticks, 1) &&
                        ts[0].func == op.func && ts[0].arg == op.arg && forall t | t in ts[1..] :: t.c != op.c)
  {
    RemoveMembers(s.timers, op.c);
    RemoveOrdered(s.timers, op.c);
    var s1 := Cancel(s, op.c);
    forall t | t in s1.timers ensures t.c != op.c {
      if t.c == op.c { SerialOfNone(s.timers, op.c, t); }
    }
    if op.Reset? { assert ApplyOp(s, op).timers[1..] == s1.timers; }
  }

  /** Every callout with a timer is marked active: what softclock_call_cc asserts of the callouts
      it is about to run. */
  ghost predicate TimersActive(s: State) { forall t | t in s.timers :: t.c in s.active }

  lemma OpKeepsActive(s: State, op: Op)
    requires TimersActive(s)
    ensures TimersActive(ApplyOp(s, op))
  {
    RemoveMembers(s.timers, op.c);
    forall t | t in s.timers && t.c == op.c ensures SerialOf(s.timers, op.c).Some? { SerialOfNone(s.timers, op.c, t); }
  }

  lemma {:induction false} OpsKeepActive(s: State, ops: seq<Op>)
    requires TimersActive(s)
    ensures TimersActive(ApplyOps(s, ops))
  {
    if ops != [] {
      OpsKeepActive(s, ops[..|ops| - 1]);
      OpKeepsActive(ApplyOps(s, ops[..|ops| - 1]), ops[|ops| - 1]);
    }
  }

  lemma {:induction false} RunDueKeepsActive(s: State, d: int, h: Handlers)
    requires TimersActive(s) && d < s.now
    ensures TimersActive(RunDue(s, d, h))
    decreases DueCount(s.timers, d)
  {
    match FirstDue(s.timers, d)
    case None =>
    case Some(t) =>
      FireShrinks(s, t, d, h);
      RemoveMembers(s.timers, t.c);
      OpsKeepActive(BeginFire(s, t), h(t.func, t.arg, s.calls));
      RunDueKeepsActive(Fire(s, t, h), d, h);
  }

  lemma {:induction false} CatchUpKeepsActive(s: State, h: Handlers)
    requires TimersActive(s)
    ensures TimersActive(CatchUp(s, h))
    decreases s.now - s.soft
  {
    if s.soft < s.now {
      RunDueKeepsActive(s.(soft := s.soft + 1), s.soft, h);
      CatchUpKeepsActive(RunDue(s.(soft := s.soft + 1), s.soft, h), h);
    }
  }

  lemma {:induction false} PendingIsActive(s: State, steps: seq<Step>, h: Handlers)
    requires Initial(s)
    ensures TimersActive(Run(s, steps, h))
  {
    if steps != [] {
      var r := Run(s, steps[..|steps| - 1], h);
      PendingIsActive(s, steps[..|steps| - 1], h);
      match steps[|steps| - 1]
      case Tick => CatchUpKeepsActive(r.(now := r.now + 1), h);
      case Call(op) => OpKeepsActive(r, op);
    }
  }
}
