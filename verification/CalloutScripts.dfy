/** Who asked for what: every reset and stop in the log of a run is one that the program or a handler
    made, with the values it was made with, and every handler call made exactly its calls. */
module CalloutScripts {
  import opened Common
  import opened CalloutSpec
  import opened CalloutHistory

  /** The calls that events record. */
  function Requests(es: seq<Event>): seq<Op> {
    if es == [] then []
    else
      var past := Requests(es[..|es| - 1]);
      match es[|es| - 1]
      case Armed(c, func, arg, ticks, _, direct) => past + [Reset(c, ticks, func, arg, direct)]
      case Stopped(c, executing, _) => past + [Stop(c, executing)]
      case _ => past
  }

  /** The calls recorded while no handler was executing. */
  function Outside(log: seq<Event>): seq<Op> {
    if log == [] then []
    else
      var n := |log| - 1;
      Outside(log[..n]) + if RunningIn(log[..n]).None? then Requests([log[n]]) else []
  }

  /** The calls the program makes. */
  function Calls(steps: seq<Step>): seq<Op> {
    if steps == [] then []
    else Calls(steps[..|steps| - 1]) + (match steps[|steps| - 1] case Call(op) => [op] case Tick => [])
  }

  function Ticks(steps: seq<Step>): nat {
    if steps == [] then 0 else Ticks(steps[..|steps| - 1]) + if steps[|steps| - 1].Tick? then 1 else 0
  }

  /** No handler is entered or left. */
  ghost predicate Plain(es: seq<Event>) { forall e | e in es :: !e.Fired? && !e.Returned? }

  /** The handler called at i returns at j, having made exactly the calls it is given for its function,
      its argument and the number of handler calls before it. */
  ghost predicate ScriptAt(log: seq<Event>, h: Handlers, i: nat, j: nat) {
    && i < j < |log| && log[i].Fired? && log[j] == Returned(log[i].c) && Plain(log[i + 1..j])
    && Requests(log[i + 1..j]) == h(log[i].func, log[i].arg, |Firings(log[..i])|)
  }

  ghost predicate Scripted(log: seq<Event>, h: Handlers) {
    forall i: nat | i < |log| && log[i].Fired? :: exists j: nat :: ScriptAt(log, h, i, j)
  }

  /** Between handlers. */
  ghost predicate Idle(log: seq<Event>, calls: nat, h: Handlers) {
    Scripted(log, h) && calls == |Firings(log)| && RunningIn(log) == None
  }

  // ----- what events record -----

  lemma {:induction false} RequestsAppend(a: seq<Event>, b: seq<Event>)
    ensures Requests(a + b) == Requests(a) + Requests(b)
  {
    if b == [] {
      assert a + b == a;
    } else {
      RequestsAppend(a, b[..|b| - 1]);
      assert (a + b)[..|a + b| - 1] == a + b[..|b| - 1];
    }
  }

  lemma RequestsOne(e: Event)
    ensures Requests([e]) == match e
                             case Armed(c, func, arg, ticks, _, direct) => [Reset(c, ticks, func, arg, direct)]
                             case Stopped(c, executing, _) => [Stop(c, executing)]
                             case _ => []
  {
    assert [e][..0] == [];
  }

  lemma OneAppended(log: seq<Event>, e: Event)
    ensures RunningIn(log + [e]) == if e.Fired? then Some(e.c) else if e.Returned? then None else RunningIn(log)
    ensures Outside(log + [e]) == Outside(log) + if RunningIn(log).None? then Requests([e]) else []
  {
    hide Requests;
    assert (log + [e])[..|log|] == log;
  }

  /** Events inside one handler, or outside all, are counted together. */
  lemma {:induction false} PlainAppend(log: seq<Event>, es: seq<Event>)
    requires Plain(es)
    ensures RunningIn(log + es) == RunningIn(log) && Firings(log + es) == Firings(log)
    ensures Outside(log + es) == Outside(log) + if RunningIn(log).None? then Requests(es) else []
  {
    hide RunningIn, Firings, Outside;
    if es == [] {
      assert log + es == log && Requests(es) == [];
    } else {
      hide Requests;
      var n := |es| - 1;
      var q, e := es[..n], es[n];
      assert e in es && forall x | x in q :: x in es;
      PlainAppend(log, q);
      OneAppended(log + q, e);
      FiringsGrow(log + q, e);
      RequestsAppend(q, [e]);
      assert es == q + [e] && log + es == (log + q) + [e];
    }
  }

  lemma ScriptedGrows(log: seq<Event>, es: seq<Event>, h: Handlers)
    requires Scripted(log, h)
    ensures forall i: nat | i < |log| && log[i].Fired? :: exists j: nat :: ScriptAt(log + es, h, i, j)
  {
    forall i: nat | i < |log| && log[i].Fired? ensures exists j: nat :: ScriptAt(log + es, h, i, j) {
      var j: nat :| ScriptAt(log, h, i, j);
      assert (log + es)[i + 1..j] == log[i + 1..j] && (log + es)[..i] == log[..i];
      assert ScriptAt(log + es, h, i, j);
    }
  }

  // ----- calls -----

  lemma CancelEvents(s: State, c: Callout) returns (es: seq<Event>)
    ensures Cancel(s, c).log == s.log + es && Requests(es) == [] && Plain(es)
    ensures Cancel(s, c).calls == s.calls && Cancel(s, c).now == s.now
  {
    es := [];
    match SerialOf(s.timers, c)
    case None => assert s.log + [] == s.log;
    case Some(n) =>
      es := [Cancelled(c, n)];
      RequestsOne(es[0]);
  }

  /** One call adds its record and, when it disarms, that of the cancellation. */
  lemma OpEvents(s: State, op: Op) returns (es: seq<Event>)
    ensures ApplyOp(s, op).log == s.log + es && Requests(es) == [op] && Plain(es)
    ensures ApplyOp(s, op).calls == s.calls && ApplyOp(s, op).now == s.now
  {
    hide Requests, Cancel, Plain;
    match op
    case Reset(c, ticks, func, arg, direct) =>
      var a := Armed(c, func, arg, ticks, s.now, direct);
      var before := CancelEvents(s, c);
      es := before + [a];
      RequestsOne(a);
      RequestsAppend(before, [a]);
      assert s.log + before + [a] == s.log + es;
      PlainJoin(before, [a]);
    case Stop(c, executing) =>
      var a := Stopped(c, executing, StopResult(s, c, executing));
      var after := CancelEvents(NoteStop(s, c, executing), c);
      es := [a] + after;
      RequestsOne(a);
      RequestsAppend([a], after);
      assert s.log + [a] + after == s.log + es;
      PlainJoin([a], after);
  }

  lemma PlainJoin(a: seq<Event>, b: seq<Event>)
    requires (Plain(a) || (|a| == 1 && !a[0].Fired? && !a[0].Returned?))
    requires (Plain(b) || (|b| == 1 && !b[0].Fired? && !b[0].Returned?))
    ensures Plain(a + b)
  {
  }

  lemma Appends(log: seq<Event>, a: seq<Event>, b: seq<Event>)
    ensures log + a + b == log + (a + b)
  {
  }

  lemma {:induction false} OpsEvents(s: State, ops: seq<Op>) returns (es: seq<Event>)
    ensures ApplyOps(s, ops).log == s.log + es && Requests(es) == ops && Plain(es)
    ensures ApplyOps(s, ops).calls == s.calls && ApplyOps(s, ops).now == s.now
  {
    if ops == [] {
      es := [];
    } else {
      var n := |ops| - 1;
      var a := OpsEvents(s, ops[..n]);
      var b := OpEvents(ApplyOps(s, ops[..n]), ops[n]);
      assert ApplyOps(s, ops) == ApplyOp(ApplyOps(s, ops[..n]), ops[n]);
      hide Requests, ApplyOps, ApplyOp;
      es := a + b;
      RequestsAppend(a, b);
      Appends(s.log, a, b);
      assert ops == ops[..n] + [ops[n]];
    }
  }

  // ----- firings -----

  lemma FiringScript(log: seq<Event>, e: Event, es: seq<Event>, h: Handlers)
    requires Scripted(log, h) && e.Fired? && Plain(es) && Requests(es) == h(e.func, e.arg, |Firings(log)|)
    ensures Scripted(log + [e] + es + [Returned(e.c)], h)
  {
    hide Requests, Firings;
    var more := [e] + es + [Returned(e.c)];
    var all := log + more;
    assert all == log + [e] + es + [Returned(e.c)];
    ScriptedGrows(log, more, h);
    var i: nat := |log|;
    assert all[i + 1..|all| - 1] == es && all[..i] == log;
    assert ScriptAt(all, h, i, |all| - 1);
    forall k: nat | k < |all| && all[k].Fired? ensures exists j: nat :: ScriptAt(all, h, k, j) {
      NoneFires(log, e, es, k);
    }
  }

  lemma NoneFires(log: seq<Event>, e: Event, es: seq<Event>, k: nat)
    requires Plain(es) && e.Fired? && k < |log + ([e] + es + [Returned(e.c)])|
    requires (log + ([e] + es + [Returned(e.c)]))[k].Fired?
    ensures k <= |log|
  {
    if k > |log| { InMiddle(log, e, es, Returned(e.c), k); }
  }

  lemma InMiddle(log: seq<Event>, a: Event, es: seq<Event>, b: Event, k: nat)
    requires |log| < k <= |log| + 1 + |es|
    ensures (log + ([a] + es + [b]))[k] in es || (log + ([a] + es + [b]))[k] == b
  {
    assert k <= |log| + |es| ==> (log + ([a] + es + [b]))[k] == es[k - |log| - 1];
  }

  lemma FireIdle(s: State, t: Timer, h: Handlers)
    requires Idle(s.log, s.calls, h)
    ensures Idle(Fire(s, t, h).log, Fire(s, t, h).calls, h)
    ensures Outside(Fire(s, t, h).log) == Outside(s.log) && Fire(s, t, h).now == s.now
  {
    hide Requests, Firings, RunningIn, Outside, ApplyOps, Scripted;
    var e, back := Fired(t.c, t.func, t.arg, t.deadline, t.serial, s.now), Returned(t.c);
    var es := OpsEvents(BeginFire(s, t), h(t.func, t.arg, s.calls));
    var begun := s.log + [e];
    RequestsOne(e);
    OneAppended(s.log, e);
    FiringsGrow(s.log, e);
    PlainAppend(begun, es);
    RequestsOne(back);
    OneAppended(begun + es, back);
    FiringsGrow(begun + es, back);
    FiringScript(s.log, e, es, h);
  }

  lemma {:induction false} RunDueIdle(s: State, d: int, h: Handlers)
    requires Idle(s.log, s.calls, h) && d < s.now
    ensures Idle(RunDue(s, d, h).log, RunDue(s, d, h).calls, h) && Outside(RunDue(s, d, h).log) == Outside(s.log)
    decreases DueCount(s.timers, d)
  {
    hide Idle, Fire, Outside;
    match FirstDue(s.timers, d)
    case None =>
    case Some(t) =>
      FireShrinks(s, t, d, h);
      FireIdle(s, t, h);
      RunDueIdle(Fire(s, t, h), d, h);
  }

  lemma {:induction false} CatchUpIdle(s: State, h: Handlers)
    requires Idle(s.log, s.calls, h)
    ensures Idle(CatchUp(s, h).log, CatchUp(s, h).calls, h)
    ensures Outside(CatchUp(s, h).log) == Outside(s.log) && CatchUp(s, h).now == s.now
    decreases s.now - s.soft
  {
    hide Idle, Outside, RunDue;
    if s.soft < s.now {
      var s1 := s.(soft := s.soft + 1);
      RunDueIdle(s1, s.soft, h);
      CatchUpIdle(RunDue(s1, s.soft, h), h);
    }
  }

  lemma CallIdle(s: State, op: Op, h: Handlers)
    requires Idle(s.log, s.calls, h)
    ensures Idle(ApplyOp(s, op).log, ApplyOp(s, op).calls, h)
    ensures Outside(ApplyOp(s, op).log) == Outside(s.log) + [op] && ApplyOp(s, op).now == s.now
  {
    hide Requests, Firings, RunningIn, Outside, ApplyOp;
    var es := OpEvents(s, op);
    PlainAppend(s.log, es);
    PlainScripted(s.log, es, h);
  }

  lemma PlainScripted(log: seq<Event>, es: seq<Event>, h: Handlers)
    requires Scripted(log, h) && Plain(es)
    ensures Scripted(log + es, h)
  {
    hide ScriptAt;
    ScriptedGrows(log, es, h);
    assert forall k | |log| <= k < |log + es| :: (log + es)[k] in es;
  }

  lemma StepIdle(s: State, step: Step, h: Handlers)
    requires Idle(s.log, s.calls, h)
    ensures var r := ApplyStep(s, step, h);
      && Idle(r.log, r.calls, h) && r.now == s.now + Ticks([step]) && Outside(r.log) == Outside(s.log) + Calls([step])
  {
    hide Idle, Outside, ApplyOp, CatchUp;
    assert [step][..0] == [];
    match step
    case Tick => CatchUpIdle(s.(now := s.now + 1), h);
    case Call(op) => CallIdle(s, op, h);
  }

  lemma CountOne(steps: seq<Step>)
    requires steps != []
    ensures Ticks(steps) == Ticks(steps[..|steps| - 1]) + Ticks([steps[|steps| - 1]])
    ensures Calls(steps) == Calls(steps[..|steps| - 1]) + Calls([steps[|steps| - 1]])
  {
    assert [steps[|steps| - 1]][..0] == [];
  }

  // ----- the theorem -----

  /** Over every run: the clock has advanced once a tick; the resets and stops recorded outside of
      handlers are the program's calls, in order and with their values; and every handler that was
      called made exactly the calls that Handlers gives for it, in order, and returned. */
  lemma {:induction false} EveryCallIsKept(s: State, steps: seq<Step>, h: Handlers)
    requires s.log == [] && s.calls == 0
    ensures var r := Run(s, steps, h);
      && r.now == s.now + Ticks(steps) && Outside(r.log) == Calls(steps)
      && Scripted(r.log, h) && r.calls == |Firings(r.log)| && RunningIn(r.log) == None
  {
    if steps != [] {
      hide Outside, ApplyStep, Calls, Ticks, Scripted, Firings, RunningIn;
      var n := |steps| - 1;
      EveryCallIsKept(s, steps[..n], h);
      StepIdle(Run(s, steps[..n], h), steps[n], h);
      CountOne(steps);
    }
  }
}
