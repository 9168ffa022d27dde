/** What the callout facility promises: a list of armed timers, newest first, against an
    unbounded clock.  The timing wheel of CalloutWheel refines this machine step by step. */
module CalloutSpec {
  import opened Common

  /** One `struct callout`.  `direct` and `pending` are bits of c_iflags, `active` of c_flags. */
  class Callout {
    const hasLock: bool
    var time: int
    var func: nat
    var arg: nat
    var pending: bool
    var active: bool
    var direct: bool

    constructor (hasLock: bool)
      ensures this.hasLock == hasLock && !pending && !active && !direct
    {
      this.hasLock := hasLock;
      time, func, arg, pending, active, direct := 0, 0, 0, false, false, false;
    }
  }

  /** The calls a handler, or the rest of the program, can make. */
  datatype Op =
    | Reset(c: Callout, ticks: int, func: nat, arg: nat, direct: bool)
    | Stop(c: Callout, executing: bool)

  /** What the n-th handler invocation of a run does, given the handler and its argument. */
  type Handlers = (nat, nat, nat) -> seq<Op>

  /** serial is the position in the log of the event that armed the timer. */
  datatype Timer = Timer(c: Callout, deadline: int, func: nat, arg: nat, serial: nat)

  datatype Event =
    | Armed(c: Callout, func: nat, arg: nat, ticks: int, at: int, direct: bool)
    | Cancelled(c: Callout, serial: nat)
    | Stopped(c: Callout, executing: bool, result: int)
    | Fired(c: Callout, func: nat, arg: nat, deadline: int, serial: nat, at: int)
    | Returned(c: Callout)     // the handler called at the last Fired is done

  /** A handler call. */
  datatype Invocation = Invocation(c: Callout, func: nat, arg: nat)

  /** The handler calls a log records, in order. */
  function Firings(log: seq<Event>): seq<Invocation> {
    if log == [] then []
    else
      var past := Firings(log[..|log| - 1]);
      match log[|log| - 1]
      case Fired(c, func, arg, _, _, _) => past + [Invocation(c, func, arg)]
      case _ => past
  }

  lemma FiringsGrow(log: seq<Event>, e: Event)
    ensures Firings(log + [e]) == if e.Fired? then Firings(log) + [Invocation(e.c, e.func, e.arg)] else Firings(log)
  {
    assert (log + [e])[..|log|] == log;
  }

  datatype State = State(
    now: int,                  // the tick clock, unbounded
    soft: int,                 // deadlines before this one have been served
    timers: seq<Timer>,
    running: Option<Callout>,
    direct: set<Callout>,
    active: set<Callout>,
    calls: nat,
    log: seq<Event>)

  datatype Step = Tick | Call(op: Op)

  /** callout_reset treats any delay below one tick as one tick. */
  function Clamp(ticks: int): int { if ticks <= 0 then 1 else ticks }

  /** Which arming of c is pending. */
  function SerialOf(ts: seq<Timer>, c: Callout): Option<nat> {
    if ts == [] then None else if ts[0].c == c then Some(ts[0].serial) else SerialOf(ts[1..], c)
  }

  function Remove(ts: seq<Timer>, c: Callout): seq<Timer> {
    if ts == [] then [] else if ts[0].c == c then Remove(ts[1..], c) else [ts[0]] + Remove(ts[1..], c)
  }

  /** The most recently armed timer with deadline d. */
  function FirstDue(ts: seq<Timer>, d: int): Option<Timer> {
    if ts == [] then None else if ts[0].deadline == d then Some(ts[0]) else FirstDue(ts[1..], d)
  }

  function DueCount(ts: seq<Timer>, d: int): nat {
    if ts == [] then 0 else (if ts[0].deadline == d then 1 else 0) + DueCount(ts[1..], d)
  }

  /** Disarms c if it is pending. */
  function Cancel(s: State, c: Callout): State {
    match SerialOf(s.timers, c)
    case None => s
    case Some(n) => s.(timers := Remove(s.timers, c), active := s.active - {c}, log := s.log + [Cancelled(c, n)])
  }

  function NewTimer(s: State, op: Op): Timer
    requires op.Reset?
  {
    Timer(op.c, s.now + Clamp(op.ticks), op.func, op.arg, |s.log|)
  }

  /** A new arming goes to the front of the list and is recorded. */
  function Arm(s: State, op: Op): State
    requires op.Reset?
  {
    s.(timers := [NewTimer(s, op)] + s.timers,
       direct := if op.direct then s.direct + {op.c} else s.direct,
       active := s.active + {op.c},
       log := s.log + [Armed(op.c, op.func, op.arg, op.ticks, s.now, op.direct)])
  }

  /** Only a callout flagged for direct execution is recognised as the running one. */
  predicate SeenRunning(s: State, c: Callout) { s.running == Some(c) && c in s.direct }

  function StopResult(s: State, c: Callout, executing: bool): int {
    if SeenRunning(s, c) then (if executing then 1 else 0)
    else if SerialOf(s.timers, c).Some? then 1 else -1
  }

  function NoteStop(s: State, c: Callout, executing: bool): State {
    s.(active := if SeenRunning(s, c) then s.active - {c} else s.active,
       log := s.log + [Stopped(c, executing, StopResult(s, c, executing))])
  }

  function ApplyOp(s: State, op: Op): State {
    match op
    case Reset(c, _, _, _, _) => Arm(Cancel(s, c), op)
    case Stop(c, executing) =>
      Cancel(NoteStop(s, c, executing), c)
  }

  /** A handler's calls, one after the other. */
  function ApplyOps(s: State, ops: seq<Op>): State {
    if ops == [] then s else ApplyOp(ApplyOps(s, ops[..|ops| - 1]), ops[|ops| - 1])
  }

  function BeginFire(s: State, t: Timer): State {
    s.(timers := Remove(s.timers, t.c), running := Some(t.c), calls := s.calls + 1,
       log := s.log + [Fired(t.c, t.func, t.arg, t.deadline, t.serial, s.now)])
  }

  function EndFire(s: State, c: Callout): State { s.(running := None, log := s.log + [Returned(c)]) }

  /** A firing: the timer leaves the list, then its handler runs and returns. */
  function Fire(s: State, t: Timer, h: Handlers): State {
    EndFire(ApplyOps(BeginFire(s, t), h(t.func, t.arg, s.calls)), t.c)
  }

  /** Fires the timers with deadline d, the most recently armed first, until none is left. */
  function RunDue(s: State, d: int, h: Handlers): (r: State)
    requires d < s.now
    ensures r.now == s.now && r.soft == s.soft
    decreases DueCount(s.timers, d)
  {
    match FirstDue(s.timers, d)
    case None => s
    case Some(t) => FireShrinks(s, t, d, h); RunDue(Fire(s, t, h), d, h)
  }

  /** Serves every deadline below the clock, oldest first. */
  function CatchUp(s: State, h: Handlers): State
    decreases s.now - s.soft
  {
    if s.soft >= s.now then s
    else CatchUp(RunDue(s.(soft := s.soft + 1), s.soft, h), h)
  }

  function TickStep(s: State, h: Handlers): State { CatchUp(s.(now := s.now + 1), h) }

  function ApplyStep(s: State, step: Step, h: Handlers): State {
    match step
    case Tick => TickStep(s, h)
    case Call(op) => ApplyOp(s, op)
  }

  function Run(s: State, steps: seq<Step>, h: Handlers): State {
    if steps == [] then s else ApplyStep(Run(s, steps[..|steps| - 1], h), steps[|steps| - 1], h)
  }

  // ----- a pass over one deadline ends, because no handler can add work to it -----

  lemma {:induction false} RemoveShrinks(ts: seq<Timer>, c: Callout, d: int)
    ensures DueCount(Remove(ts, c), d) <= DueCount(ts, d)
    ensures FirstDue(ts, d).Some? && FirstDue(ts, d).value.c == c ==> DueCount(Remove(ts, c), d) < DueCount(ts, d)
  {
    if ts != [] {
      RemoveShrinks(ts[1..], c, d);
      if ts[0].c != c { assert Remove(ts, c)[1..] == Remove(ts[1..], c); }
    }
  }

  lemma CancelShrinks(s: State, c: Callout, d: int)
    ensures DueCount(Cancel(s, c).timers, d) <= DueCount(s.timers, d)
  {
    RemoveShrinks(s.timers, c, d);
  }

  lemma OpShrinks(s: State, op: Op, d: int)
    requires d < s.now
    ensures DueCount(ApplyOp(s, op).timers, d) <= DueCount(s.timers, d)
    ensures ApplyOp(s, op).now == s.now && ApplyOp(s, op).soft == s.soft
  {
    match op
    case Reset(c, _, _, _, _) =>
      CancelShrinks(s, c, d);
      var ts := Cancel(s, c).timers;
      assert ([NewTimer(Cancel(s, c), op)] + ts)[1..] == ts;
    case Stop(c, executing) => CancelShrinks(NoteStop(s, c, executing), c, d);
  }

  lemma {:induction false} OpsShrink(s: State, ops: seq<Op>, d: int)
    requires d < s.now
    ensures DueCount(ApplyOps(s, ops).timers, d) <= DueCount(s.timers, d)
    ensures ApplyOps(s, ops).now == s.now && ApplyOps(s, ops).soft == s.soft
  {
    if ops != [] {
      OpsShrink(s, ops[..|ops| - 1], d);
      OpShrinks(ApplyOps(s, ops[..|ops| - 1]), ops[|ops| - 1], d);
    }
  }

  /** Each firing leaves fewer timers due, whatever the handler does. */
  lemma FireShrinks(s: State, t: Timer, d: int, h: Handlers)
    requires d < s.now && FirstDue(s.timers, d) == Some(t)
    ensures DueCount(Fire(s, t, h).timers, d) < DueCount(s.timers, d)
    ensures Fire(s, t, h).now == s.now && Fire(s, t, h).soft == s.soft
  {
    RemoveShrinks(s.timers, t.c, d);
    OpsShrink(BeginFire(s, t), h(t.func, t.arg, s.calls), d);
  }
}
