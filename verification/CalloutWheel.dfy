/** The hashed timing wheel: 2^k bucket lists, a wrapping 32-bit tick clock and one shared cursor
    that handlers move while a bucket is being walked.  Every method is proved to take the step
    of the machine in CalloutSpec that its name says. */
module CalloutWheel {
  import opened Bits
  import opened Common
  import opened CalloutSpec
  import H = CalloutHistory

  datatype Exec = Exec(curr: Callout?, cancel: bool)

  // ----- bucket lists -----

  function IndexOf(l: seq<Callout>, c: Callout): (i: nat)
    ensures i <= |l|
    ensures i < |l| ==> l[i] == c
    ensures forall q | 0 <= q < i :: l[q] != c
  {
    if l == [] || l[0] == c then 0 else 1 + IndexOf(l[1..], c)
  }

  /** The callout at a list position; past the end there is none. */
  function At(l: seq<Callout>, i: nat): Callout? { if i < |l| then l[i] else null }

  /** LIST_NEXT */
  function NextIn(l: seq<Callout>, c: Callout): Callout? { At(l, IndexOf(l, c) + 1) }

  /** LIST_REMOVE */
  function Unlink(l: seq<Callout>, c: Callout): seq<Callout> {
    var i := IndexOf(l, c);
    if i < |l| then l[..i] + l[i + 1..] else l
  }

  ghost predicate NoDup(l: seq<Callout>) {
    forall i, j | 0 <= i < j < |l| :: l[i] != l[j]
  }

  /** The callouts of the timers that hash to bucket b, newest first. */
  function Chain(ts: seq<Timer>, b: int, n: int): seq<Callout>
    requires n > 0
  {
    if ts == [] then []
    else if ts[0].deadline % n == b then [ts[0].c] + Chain(ts[1..], b, n) else Chain(ts[1..], b, n)
  }

  ghost predicate Distinct(ts: seq<Timer>) {
    ts != [] ==> (forall t | t in ts[1..] :: t.c != ts[0].c) && Distinct(ts[1..])
  }

  /** c has a timer with deadline d. */
  ghost predicate DueAt(ts: seq<Timer>, c: Callout, d: int) {
    exists t :: t in ts && t.c == c && t.deadline == d
  }

  lemma {:induction false} ChainMembers(ts: seq<Timer>, b: int, n: int)
    requires n > 0
    ensures forall c | c in Chain(ts, b, n) :: exists t :: t in ts && t.c == c && t.deadline % n == b
    ensures forall t | t in ts && t.deadline % n == b :: t.c in Chain(ts, b, n)
  {
    if ts != [] {
      ChainMembers(ts[1..], b, n);
      forall c | c in Chain(ts, b, n) ensures exists t :: t in ts && t.c == c && t.deadline % n == b {
        if c in Chain(ts[1..], b, n) {
          var t :| t in ts[1..] && t.c == c && t.deadline % n == b;
          assert t in ts;
        } else {
          assert ts[0] in ts;
        }
      }
    }
  }

  lemma {:induction false} ChainNoDup(ts: seq<Timer>, b: int, n: int)
    requires n > 0 && Distinct(ts)
    ensures NoDup(Chain(ts, b, n))
  {
    if ts != [] {
      ChainNoDup(ts[1..], b, n);
      ChainMembers(ts[1..], b, n);
      if ts[0].deadline % n == b {
        var r := Chain(ts[1..], b, n);
        assert Chain(ts, b, n) == [ts[0].c] + r;
        assert ts[0].c !in r;
      }
    }
  }

  lemma {:induction false} UnlinkCons(c: Callout, l: seq<Callout>, x: Callout)
    requires c != x
    ensures Unlink([c] + l, x) == [c] + Unlink(l, x)
  {
    var m, i := [c] + l, IndexOf(l, x);
    assert m[1..] == l;
    assert IndexOf(m, x) == i + 1;
    hide IndexOf;
    if i < |l| {
      assert Unlink(m, x) == m[..i + 1] + m[i + 2..];
      assert m[..i + 1] + m[i + 2..] == [c] + (l[..i] + l[i + 1..]);
    }
  }

  lemma {:induction false} UnlinkAbsent(l: seq<Callout>, x: Callout)
    requires x !in l
    ensures Unlink(l, x) == l
  {
  }

  /** Removing a timer is unlinking its callout, in every bucket. */
  lemma {:induction false} ChainRemove(ts: seq<Timer>, c: Callout, b: int, n: int)
    requires n > 0 && Distinct(ts)
    ensures Chain(Remove(ts, c), b, n) == Unlink(Chain(ts, b, n), c)
  {
    if ts != [] {
      var rest := Chain(ts[1..], b, n);
      ChainRemove(ts[1..], c, b, n);
      if ts[0].c == c {
        ChainMembers(ts[1..], b, n);
        UnlinkAbsent(rest, c);
        if ts[0].deadline % n == b {
          assert ([c] + rest)[0] == c;
          assert Unlink([c] + rest, c) == rest;
        }
      } else {
        assert Remove(ts, c)[1..] == Remove(ts[1..], c);
        if ts[0].deadline % n == b { UnlinkCons(ts[0].c, rest, c); }
      }
    }
  }

  /** The first due callout of the bucket is the first due timer of the whole list. */
  lemma {:induction false} ChainFirstDue(ts: seq<Timer>, d: int, n: int, i: nat)
    requires n > 0 && Distinct(ts) && i <= |Chain(ts, d % n, n)|
    requires forall q | 0 <= q < i :: !DueAt(ts, Chain(ts, d % n, n)[q], d)
    requires i < |Chain(ts, d % n, n)| ==> DueAt(ts, Chain(ts, d % n, n)[i], d)
    ensures i == |Chain(ts, d % n, n)| ==> FirstDue(ts, d) == None
    ensures i < |Chain(ts, d % n, n)| ==> FirstDue(ts, d).Some? && FirstDue(ts, d).value.c == Chain(ts, d % n, n)[i]
  {
    if ts != [] {
      var l, r := Chain(ts, d % n, n), Chain(ts[1..], d % n, n);
      ChainMembers(ts[1..], d % n, n);
      assert forall c | c in r :: c != ts[0].c;
      assert forall c | c in r :: DueAt(ts[1..], c, d) <==> DueAt(ts, c, d) by {
        forall c | c in r ensures DueAt(ts[1..], c, d) <==> DueAt(ts, c, d) { DueAtTail(ts, c, d); }
      }
      if ts[0].deadline == d {
        assert l[0] == ts[0].c;
        assert ts[0] in ts && DueAt(ts, l[0], d);
      } else if ts[0].deadline % n == d % n {
        assert l == [ts[0].c] + r;
        HeadNotDue(ts, d);
        assert i > 0;
        forall q | 0 <= q < i - 1 ensures !DueAt(ts[1..], r[q], d) { assert r[q] == l[q + 1]; }
        assert i < |l| ==> r[i - 1] == l[i];
        ChainFirstDue(ts[1..], d, n, i - 1);
      } else {
        ChainFirstDue(ts[1..], d, n, i);
      }
    }
  }

  lemma {:induction false} FirstDueMember(ts: seq<Timer>, d: int)
    requires FirstDue(ts, d).Some?
    ensures FirstDue(ts, d).value in ts && FirstDue(ts, d).value.deadline == d
  {
    if ts[0].deadline != d { FirstDueMember(ts[1..], d); }
  }

  lemma DueAtTail(ts: seq<Timer>, c: Callout, d: int)
    requires ts != [] && c != ts[0].c
    ensures DueAt(ts[1..], c, d) <==> DueAt(ts, c, d)
  {
    if DueAt(ts, c, d) {
      var t :| t in ts && t.c == c && t.deadline == d;
      assert t in ts[1..];
    }
  }

  lemma HeadNotDue(ts: seq<Timer>, d: int)
    requires ts != [] && Distinct(ts) && ts[0].deadline != d
    ensures !DueAt(ts, ts[0].c, d)
  {
  }

  lemma {:induction false} RemoveDistinct(ts: seq<Timer>, c: Callout)
    requires Distinct(ts)
    ensures Distinct(Remove(ts, c))
  {
    if ts != [] {
      RemoveDistinct(ts[1..], c);
      H.RemoveMembers(ts[1..], c);
      if ts[0].c != c { assert Remove(ts, c)[1..] == Remove(ts[1..], c); }
    }
  }

  lemma {:induction false} SerialOfRemove(ts: seq<Timer>, c: Callout, x: Callout)
    ensures SerialOf(Remove(ts, c), x) == if x == c then None else SerialOf(ts, x)
  {
    if ts != [] {
      SerialOfRemove(ts[1..], c, x);
      if ts[0].c != c { assert Remove(ts, c)[1..] == Remove(ts[1..], c); }
    }
  }

  lemma UnlinkAt(l: seq<Callout>, i: nat)
    requires NoDup(l) && i < |l|
    ensures IndexOf(l, l[i]) == i && Unlink(l, l[i]) == l[..i] + l[i + 1..]
    ensures NextIn(l, l[i]) == At(l, i + 1) == At(Unlink(l, l[i]), i)
  {
  }

  /** Every bucket holds exactly the timers that hash to it, newest first. */
  ghost predicate LinkedTo(w: seq<seq<Callout>>, ts: seq<Timer>) {
    |w| > 0 && forall b | 0 <= b < |w| :: w[b] == Chain(ts, b, |w|)
  }

  /** The cursor stands on the list of its bucket; when a deadline is being served, that is
      the bucket being walked and nothing before the cursor is due. */
  ghost predicate CursorAt(w: seq<seq<Callout>>, bucket: nat, pos: nat, next: Callout?, ts: seq<Timer>,
                           due: Option<int>)
  {
    && bucket < |w| && pos <= |w[bucket]| && next == At(w[bucket], pos)
    && (due.Some? ==>
          bucket == due.value % |w| &&
          forall q | 0 <= q < pos :: !DueAt(ts, w[bucket][q], due.value))
  }

  lemma OneBucket(w: seq<seq<Callout>>, ts: seq<Timer>, c: Callout, b: nat, b': nat)
    requires LinkedTo(w, ts) && Distinct(ts) && b < |w| && b' < |w| && c in w[b] && c in w[b']
    ensures b == b'
  {
    ChainMembers(ts, b, |w|);
    ChainMembers(ts, b', |w|);
    var t :| t in ts && t.c == c && t.deadline % |w| == b;
    var t' :| t' in ts && t'.c == c && t'.deadline % |w| == b';
    SameTimer(ts, t, t');
  }

  lemma {:induction false} SameTimer(ts: seq<Timer>, t: Timer, u: Timer)
    requires Distinct(ts) && t in ts && u in ts && t.c == u.c
    ensures t == u
  {
    if t != ts[0] && u != ts[0] { SameTimer(ts[1..], t, u); }
  }

  lemma LinkedUnlink(w: seq<seq<Callout>>, ts: seq<Timer>, c: Callout, b: nat)
    requires LinkedTo(w, ts) && Distinct(ts) && b < |w| && c in w[b]
    ensures LinkedTo(w[b := Unlink(w[b], c)], Remove(ts, c))
  {
    var w' := w[b := Unlink(w[b], c)];
    forall k | 0 <= k < |w'| ensures w'[k] == Chain(Remove(ts, c), k, |w'|) {
      ChainRemove(ts, c, k, |w|);
      if k != b {
        if c in w[k] { OneBucket(w, ts, c, b, k); }
        UnlinkAbsent(w[k], c);
      }
    }
  }

  /** Unlinking from another list than the cursor's. */
  lemma CursorElsewhere(w: seq<seq<Callout>>, bucket: nat, pos: nat, next: Callout?, ts: seq<Timer>, due: Option<int>,
                        c: Callout, b: nat)
    requires LinkedTo(w, ts) && Distinct(ts) && b < |w| && c in w[b] && b != bucket
    requires CursorAt(w, bucket, pos, next, ts, due)
    ensures next != c && CursorAt(w[b := Unlink(w[b], c)], bucket, pos, next, Remove(ts, c), due)
  {
    hide LinkedTo, Distinct, DueAt, Unlink, Remove;
    if next == c {
      assert c in w[bucket];
      OneBucket(w, ts, c, b, bucket);
    }
    DueStays(ts, c, due);
  }

  lemma DueStays(ts: seq<Timer>, c: Callout, due: Option<int>)
    ensures due.Some? ==> forall x | !DueAt(ts, x, due.value) :: !DueAt(Remove(ts, c), x, due.value)
  {
    if due.Some? {
      forall x | !DueAt(ts, x, due.value)
        ensures !DueAt(Remove(ts, c), x, due.value)
      {
        DueShrinks(ts, c, x, due.value);
      }
    }
  }

  /** Unlinking from the cursor's own list. */
  lemma CursorHere(w: seq<seq<Callout>>, bucket: nat, pos: nat, next: Callout?, ts: seq<Timer>, due: Option<int>,
                   c: Callout)
    requires LinkedTo(w, ts) && Distinct(ts) && bucket < |w| && c in w[bucket]
    requires CursorAt(w, bucket, pos, next, ts, due)
    ensures var l := w[bucket];
      CursorAt(w[bucket := Unlink(l, c)], bucket, if IndexOf(l, c) < pos then pos - 1 else pos,
               if next == c then NextIn(l, c) else next, Remove(ts, c), due)
  {
    var l := w[bucket];
    ChainNoDup(ts, bucket, |w|);
    var i := IndexOf(l, c);
    UnlinkAt(l, i);
    DueStays(ts, c, due);
    hide LinkedTo, Distinct, DueAt, Unlink, Remove, IndexOf, NextIn;
    assert i < |l| && Unlink(l, c) == l[..i] + l[i + 1..] && (next == c <==> i == pos);
  }

  lemma CursorUnlink(w: seq<seq<Callout>>, bucket: nat, pos: nat, next: Callout?, ts: seq<Timer>, due: Option<int>,
                     c: Callout, b: nat)
    requires LinkedTo(w, ts) && Distinct(ts) && b < |w| && c in w[b]
    requires CursorAt(w, bucket, pos, next, ts, due)
    ensures CursorAt(w[b := Unlink(w[b], c)], bucket,
                     if b == bucket && IndexOf(w[b], c) < pos then pos - 1 else pos,
                     if next == c then NextIn(w[b], c) else next, Remove(ts, c), due)
  {
    if b == bucket {
      CursorHere(w, bucket, pos, next, ts, due, c);
    } else {
      CursorElsewhere(w, bucket, pos, next, ts, due, c, b);
    }
    hide LinkedTo, Distinct, CursorAt, Unlink, Remove, IndexOf, NextIn;
  }

  /** Unlinking the callout about to fire leaves the cursor on its successor, with nothing due
      before it. */
  lemma CursorFire(w: seq<seq<Callout>>, b: nat, i: nat, ts: seq<Timer>, d: int)
    requires LinkedTo(w, ts) && Distinct(ts) && b < |w| && b == d % |w| && i < |w[b]|
    requires forall q | 0 <= q < i :: !DueAt(ts, w[b][q], d)
    ensures CursorAt(w[b := Unlink(w[b], w[b][i])], b, i, At(w[b], i + 1), Remove(ts, w[b][i]), Some(d))
  {
    var l, c := w[b], w[b][i];
    ChainNoDup(ts, b, |w|);
    UnlinkAt(l, i);
    forall x | !DueAt(ts, x, d) ensures !DueAt(Remove(ts, c), x, d) { DueShrinks(ts, c, x, d); }
  }

  lemma DueShrinks(ts: seq<Timer>, c: Callout, x: Callout, d: int)
    ensures DueAt(Remove(ts, c), x, d) ==> DueAt(ts, x, d)
  {
    H.RemoveMembers(ts, c);
  }

  lemma LinkedInsert(w: seq<seq<Callout>>, ts: seq<Timer>, t: Timer, b: nat)
    requires LinkedTo(w, ts) && b < |w| && b == t.deadline % |w|
    ensures LinkedTo(w[b := [t.c] + w[b]], [t] + ts)
  {
    assert ([t] + ts)[1..] == ts;
  }

  lemma CursorInsert(w: seq<seq<Callout>>, bucket: nat, pos: nat, next: Callout?, ts: seq<Timer>, due: Option<int>,
                     t: Timer, b: nat)
    requires b < |w| && CursorAt(w, bucket, pos, next, ts, due)
    requires due.Some? ==> t.deadline != due.value
    ensures CursorAt(w[b := [t.c] + w[b]], bucket, if b == bucket then 0 else pos,
                     if b == bucket then t.c else next, [t] + ts, due)
  {
    assert forall x, d | d != t.deadline && DueAt([t] + ts, x, d) :: DueAt(ts, x, d);
  }

  lemma TimersWithout(ts: seq<Timer>, c: Callout, cs: set<Callout>)
    requires Distinct(ts)
    ensures Distinct(Remove(ts, c))
    ensures forall t | t in Remove(ts, c) :: t in ts && t.c != c
    ensures forall x | x in cs :: SerialOf(Remove(ts, c), x) == if x == c then None else SerialOf(ts, x)
  {
    RemoveDistinct(ts, c);
    H.RemoveMembers(ts, c);
    forall x | x in cs ensures SerialOf(Remove(ts, c), x) == if x == c then None else SerialOf(ts, x) {
      SerialOfRemove(ts, c, x);
    }
  }

  class Wheel {
    const bits: nat
    const mask: nat
    var ticks: int
    var softticks: int
    var next: Callout?                  // cc_next
    var bucket: nat                     // cc_bucket
    var wheel: seq<seq<Callout>>        // cc_callwheel
    var exec: seq<Exec>                 // cc_exec_entity
    var called: seq<Invocation>         // the handler calls made so far
    ghost const U: set<Callout>         // the initialised callouts
    ghost var s: State                  // what the wheel stands for
    ghost var pos: nat                  // position of the cursor in its list
    ghost var walk: Option<int>         // the deadline being served, while softclock walks a bucket

    ghost predicate Shape()
      reads this
    {
      && bits <= 32 && |wheel| == Pow2(bits) && mask == Pow2(bits) - 1
      && ticks == Wrap32(s.now) && softticks == Wrap32(s.soft) && s.soft <= s.now <= Lo() + TWO31
      && called == Firings(s.log) && |called| == s.calls
      && |exec| == 2 && exec[0].curr == null
      && exec[1].curr == (match s.running case None => null case Some(c) => c)
      && (s.running.Some? && s.running.value.hasLock ==> exec[1].cancel)
      && (walk.Some? ==> s.soft == walk.value + 1 <= s.now)
      && (s.running.Some? ==> walk.Some?)
    }

    ghost function Lo(): int
      reads this
    {
      if walk.Some? then walk.value else s.soft
    }

    ghost predicate Timers()
      reads this, U
    {
      && Distinct(s.timers)
      && forall t | t in s.timers ::
           t.c in U && t.c.time == Wrap32(t.deadline) && t.c.func == t.func && t.c.arg == t.arg &&
           Lo() <= t.deadline <= s.now + INT_MAX
    }

    ghost predicate Flags()
      reads this, U
    {
      forall c | c in U ::
        c.pending == SerialOf(s.timers, c).Some? && c.active == (c in s.active) && c.direct == (c in s.direct)
    }

    ghost function Due(): Option<int>
      reads this
    {
      if s.running.Some? then walk else None
    }

    ghost predicate Valid()
      reads this, U
    {
      && Shape() && LinkedTo(wheel, s.timers) && Timers() && Flags()
      && CursorAt(wheel, bucket, pos, next, s.timers, Due())
    }

    /** callout_get_bucket */
    function GetBucket(toTicks: int): nat
      reads this
    {
      And(AsUnsigned(toTicks), mask)
    }

    lemma BucketOf(x: int)
      requires Shape()
      ensures GetBucket(Wrap32(x)) == x % |wheel| < |wheel|
    {
      MaskedWrap(x, bits);
    }

    lemma Unlinked(c: Callout, b: nat, w: seq<seq<Callout>>, p: nat, n: Callout?)
      requires Valid() && c in U && c.pending && b == GetBucket(c.time) && b < |wheel|
      requires w == wheel[b := Unlink(wheel[b], c)]
      requires p == if b == bucket && IndexOf(wheel[b], c) < pos then pos - 1 else pos
      requires n == if next == c then NextIn(wheel[b], c) else next
      ensures LinkedTo(w, Remove(s.timers, c))
      ensures CursorAt(w, bucket, p, n, Remove(s.timers, c), Due())
    {
      var t := H.SerialOfMember(s.timers, c);
      BucketOf(t.deadline);
      ChainMembers(s.timers, b, |wheel|);
      LinkedUnlink(wheel, s.timers, c, b);
      CursorUnlink(wheel, bucket, pos, next, s.timers, Due(), c, b);
    }

    lemma InBucket(c: Callout)
      requires Valid() && c in U && c.pending
      ensures GetBucket(c.time) < |wheel| && c in wheel[GetBucket(c.time)] && SerialOf(s.timers, c).Some?
    {
      var t := H.SerialOfMember(s.timers, c);
      BucketOf(t.deadline);
      ChainMembers(s.timers, t.deadline % |wheel|, |wheel|);
    }

    twostate lemma DequeuedTimers(c: Callout)
      requires old(Valid()) && c in U && old(c.pending) && s == Cancel(old(s), c) && walk == old(walk)
      requires forall x | x in U :: x.time == old(x.time) && x.func == old(x.func) && x.arg == old(x.arg)
      ensures Timers()
    {
      TimersWithout(old(s.timers), c, U);
    }

    twostate lemma DequeuedFlags(c: Callout)
      requires old(Valid()) && c in U && old(c.pending) && s == Cancel(old(s), c)
      requires !c.pending && !c.active && c.direct == old(c.direct)
      requires forall x | x in U && x != c ::
                 x.pending == old(x.pending) && x.active == old(x.active) && x.direct == old(x.direct)
      ensures Flags() && SerialOf(s.timers, c) == None
    {
      TimersWithout(old(s.timers), c, U);
    }

    twostate lemma DequeuedShape(c: Callout)
      requires old(Shape()) && s == Cancel(old(s), c) && SerialOf(old(s.timers), c).Some? && |wheel| == old(|wheel|)
      requires unchanged(`ticks, `softticks, `exec, `called, `walk)
      ensures Shape() && Due() == old(Due()) && s.timers == Remove(old(s.timers), c)
    {
      FiringsGrow(old(s.log), Cancelled(c, SerialOf(old(s.timers), c).value));
    }

    /** The part common to callout_reset and callout_stop: take a pending callout off its list,
        moving the cursor on when it stands on it. */
    method Dequeue(c: Callout)
      requires Valid() && c in U && c.pending
      modifies this, c
      ensures Valid() && s == Cancel(old(s), c) && SerialOf(s.timers, c) == None
      ensures walk == old(walk) && exec == old(exec) && bucket == old(bucket)
    {
      hide CursorAt, LinkedTo, Timers, Flags, Shape, IndexOf, Unlink, NextIn, Cancel, Due, Remove, At, And;
      InBucket(c);
      var b := GetBucket(c.time);
      var w := wheel[b := Unlink(wheel[b], c)];
      var n := if next == c then NextIn(wheel[b], c) else next;
      ghost var p := if b == bucket && IndexOf(wheel[b], c) < pos then pos - 1 else pos;
      Unlinked(c, b, w, p, n);
      wheel, next, pos := w, n, p;
      c.pending := false;
      c.active := false;
      s := Cancel(s, c);
      DequeuedTimers(c);
      DequeuedFlags(c);
      DequeuedShape(c);
    }

    lemma DeadlineBucket(toTicks: int)
      requires Shape()
      ensures Wrap32(ticks + toTicks) == Wrap32(s.now + toTicks)
      ensures GetBucket(Wrap32(ticks + toTicks)) < |wheel|
    {
      WrapAdd(s.now, toTicks);
      BucketOf(s.now + toTicks);
    }

    lemma Inserted(t: Timer, b: nat, w: seq<seq<Callout>>, p: nat, n: Callout?)
      requires Shape() && LinkedTo(wheel, s.timers) && CursorAt(wheel, bucket, pos, next, s.timers, Due())
      requires t.deadline > s.now && b == GetBucket(Wrap32(t.deadline)) && b < |wheel|
      requires w == wheel[b := [t.c] + wheel[b]]
      requires p == if b == bucket then 0 else pos
      requires n == if b == bucket then t.c else next
      ensures LinkedTo(w, [t] + s.timers)
      ensures CursorAt(w, bucket, p, n, [t] + s.timers, Due())
    {
      BucketOf(t.deadline);
      LinkedInsert(wheel, s.timers, t, b);
      CursorInsert(wheel, bucket, pos, next, s.timers, Due(), t, b);
    }

    twostate lemma ArmedTimers(op: Op)
      requires old(Shape()) && old(Timers()) && op.Reset? && op.c in U && SerialOf(old(s.timers), op.c) == None
      requires op.ticks <= INT_MAX && s == Arm(old(s), op) && walk == old(walk)
      requires op.c.time == Wrap32(old(s.now) + Clamp(op.ticks)) && op.c.func == op.func && op.c.arg == op.arg
      requires forall x | x in U && x != op.c :: x.time == old(x.time) && x.func == old(x.func) && x.arg == old(x.arg)
      ensures Timers()
    {
      assert s.timers[1..] == old(s.timers);
      forall u | u in old(s.timers) ensures u.c != op.c {
        if u.c == op.c { H.SerialOfNone(old(s.timers), op.c, u); }
      }
    }

    twostate lemma ArmedFlags(op: Op)
      requires old(Flags()) && op.Reset? && op.c in U && s == Arm(old(s), op)
      requires op.c.pending && op.c.active && op.c.direct == (op.direct || old(op.c.direct))
      requires forall x | x in U && x != op.c ::
                 x.pending == old(x.pending) && x.active == old(x.active) && x.direct == old(x.direct)
      ensures Flags()
    {
      assert s.timers[1..] == old(s.timers);
    }

    twostate lemma ArmedShape(op: Op)
      requires op.Reset? && old(Shape()) && s == Arm(old(s), op) && |wheel| == old(|wheel|)
      requires unchanged(`ticks, `softticks, `exec, `called, `walk)
      ensures Shape() && Due() == old(Due()) && s.timers == [NewTimer(old(s), op)] + old(s.timers)
    {
      FiringsGrow(old(s.log), Armed(op.c, op.func, op.arg, op.ticks, old(s.now), op.direct));
    }

    static method Fill(c: Callout, func: nat, arg: nat, direct: bool, time: int)
      modifies c
      ensures c.func == func && c.arg == arg && c.time == time
      ensures c.pending && c.active && c.direct == (direct || old(c.direct))
    {
      c.arg := arg;
      c.pending := true;
      c.active := true;
      if direct { c.direct := true; }
      c.func := func;
      c.time := time;
    }

    /** callout_cc_add.  op is the request; toTicks is its delay raised to at least one tick. */
    method CcAdd(c: Callout, toTicks: int, func: nat, arg: nat, direct: bool, ghost op: Op)
      requires Valid() && c in U && SerialOf(s.timers, c) == None
      requires op.Reset? && op == Reset(c, op.ticks, func, arg, direct) && toTicks == Clamp(op.ticks) &&
               op.ticks <= INT_MAX
      modifies this, c
      ensures Valid() && s == Arm(old(s), op)
      ensures walk == old(walk) && exec == old(exec) && bucket == old(bucket)
    {
      hide CursorAt, LinkedTo, Timers, Flags, Shape, Arm, Due, Pow2, And;
      Fill(c, func, arg, direct, Wrap32(ticks + toTicks));
      DeadlineBucket(toTicks);
      var b := GetBucket(c.time);
      var w := wheel[b := [c] + wheel[b]];
      var n := if bucket == b then c else next;
      ghost var p := if bucket == b then 0 else pos;
      Inserted(NewTimer(s, op), b, w, p, n);
      wheel, next, pos := w, n, p;
      s := Arm(s, op);
      ArmedTimers(op);
      ArmedFlags(op);
      ArmedShape(op);
    }

    twostate lemma Noted(e: Event)
      requires old(Valid()) && s == old(s).(log := old(s.log) + [e]) && !e.Fired?
      requires unchanged(`ticks, `softticks, `exec, `called, `walk, `wheel, `bucket, `next, `pos) && unchanged(U)
      ensures Valid()
    {
      FiringsGrow(old(s.log), e);
    }

    twostate lemma Deactivated(c: Callout)
      requires old(Valid()) && c in U && s == old(s).(active := old(s.active) - {c})
      requires unchanged(`ticks, `softticks, `exec, `called, `walk, `wheel, `bucket, `next, `pos)
      requires !c.active && c.pending == old(c.pending) && c.direct == old(c.direct)
      requires c.time == old(c.time) && c.func == old(c.func) && c.arg == old(c.arg)
      requires forall x | x in U && x != c :: unchanged(x)
      ensures Valid()
    {
      hide LinkedTo, CursorAt;
    }

    /** callout_reset_tick_on: the return value says whether a pending arming was replaced. */
    method CalloutReset(c: Callout, toTicks: int, func: nat, arg: nat, direct: bool) returns (cancelled: bool)
      requires Valid() && c in U && -TWO31 <= toTicks <= INT_MAX
      modifies this, c
      ensures Valid() && s == ApplyOp(old(s), Reset(c, toTicks, func, arg, direct))
      ensures cancelled == SerialOf(old(s.timers), c).Some?
      ensures walk == old(walk) && exec == old(exec) && bucket == old(bucket)
    {
      cancelled := false;
      var slot := if direct then 1 else 0;
      if exec[slot].curr == c && c.hasLock && !exec[slot].cancel {
        // softclock_call_cc sets cancel before it calls the handler of a locked callout
        assert false;
      }
      hide LinkedTo, CursorAt, Timers;
      if c.pending {
        Dequeue(c);
        cancelled := true;
      }
      var n := toTicks;
      if n <= 0 { n := 1; }
      CcAdd(c, n, func, arg, direct, Reset(c, toTicks, func, arg, direct));
    }

    /** _callout_stop_safe without CS_DRAIN and without a drain function. */
    method CalloutStop(c: Callout, executing: bool) returns (result: int)
      requires Valid() && c in U
      modifies this, c
      ensures Valid() && s == ApplyOp(old(s), Stop(c, executing))
      ensures result == StopResult(old(s), c, executing)
      ensures walk == old(walk) && exec == old(exec) && bucket == old(bucket)
    {
      var slot := if c.direct then 1 else 0;
      if exec[slot].curr == c && c.hasLock && !exec[slot].cancel {
        assert false;
      }
      StopCases(c);
      hide LinkedTo, CursorAt, Timers, Shape, Flags;
      if exec[slot].curr == c {
        label before:
        c.active := false;
        s := s.(active := s.active - {c});
        Deactivated@before(c);
        result := if executing then 1 else 0;
      } else {
        result := 1;
      }
      if !c.pending {
        if exec[slot].curr != c { result := -1; }
      }
      label done:
      s := s.(log := s.log + [Stopped(c, executing, result)]);
      Noted@done(Stopped(c, executing, result));
      if c.pending { Dequeue(c); }
    }

    lemma StopCases(c: Callout)
      requires Valid() && c in U
      ensures |exec| == 2 && (exec[if c.direct then 1 else 0].curr == c <==> SeenRunning(s, c))
      ensures c.pending <==> SerialOf(s.timers, c).Some?
    {
    }

    ghost predicate OpOk(op: Op) {
      op.c in U && (op.Reset? ==> -TWO31 <= op.ticks <= INT_MAX)
    }

    /** Handlers only touch initialised callouts and pass C ints. */
    ghost predicate HandlersOk(h: Handlers) {
      forall f, a, n :: forall j | 0 <= j < |h(f, a, n)| :: OpOk(h(f, a, n)[j])
    }

    twostate lemma BegunTimers(t: Timer)
      requires old(Valid()) && s == BeginFire(old(s), t) && walk == old(walk)
      requires forall x | x in U :: x.time == old(x.time) && x.func == old(x.func) && x.arg == old(x.arg)
      ensures Timers()
    {
      TimersWithout(old(s.timers), t.c, U);
    }

    twostate lemma BegunFlags(t: Timer)
      requires old(Valid()) && t.c in U && s == BeginFire(old(s), t)
      requires !t.c.pending && t.c.active == old(t.c.active) && t.c.direct == old(t.c.direct)
      requires forall x | x in U && x != t.c :: unchanged(x)
      ensures Flags()
    {
      TimersWithout(old(s.timers), t.c, U);
    }

    twostate lemma BegunShape(t: Timer)
      requires old(Shape()) && s == BeginFire(old(s), t) && walk.Some? && |wheel| == old(|wheel|)
      requires unchanged(`ticks, `softticks, `walk)
      requires called == old(called) + [Invocation(t.c, t.func, t.arg)] &&
               exec == old(exec)[1 := Exec(t.c, t.c.hasLock)]
      ensures Shape() && Due() == walk && s.timers == Remove(old(s.timers), t.c)
    {
      FiringsGrow(old(s.log), Fired(t.c, t.func, t.arg, t.deadline, t.serial, old(s.now)));
    }

    lemma ExecSlots()
      requires Shape()
      ensures |exec| == 2 && |wheel| > 0
    {
    }

    lemma FireUnlinked(i: nat, w: seq<seq<Callout>>)
      requires Valid() && walk.Some?
      requires bucket == walk.value % |wheel| && i < |wheel[bucket]| && pos == i + 1
      requires forall q | 0 <= q < i :: !DueAt(s.timers, wheel[bucket][q], walk.value)
      requires w == wheel[bucket := Unlink(wheel[bucket], wheel[bucket][i])]
      ensures LinkedTo(w, Remove(s.timers, wheel[bucket][i])) && |w| == |wheel|
      ensures CursorAt(w, bucket, i, next, Remove(s.timers, wheel[bucket][i]), walk)
    {
      CursorFire(wheel, bucket, i, s.timers, walk.value);
      LinkedUnlink(wheel, s.timers, wheel[bucket][i], bucket);
    }

    /** softclock_call_cc up to the handler call: off the list, no longer pending, marked as
        executing in the direct slot and, when it has a lock, as no longer cancellable. */
    method BeginCall(c: Callout, ghost i: nat, ghost t: Timer)
      requires Valid() && c in U && walk.Some? && s.running == None
      requires bucket == walk.value % |wheel| && i < |wheel[bucket]| && wheel[bucket][i] == c && pos == i + 1
      requires forall q | 0 <= q < i :: !DueAt(s.timers, wheel[bucket][q], walk.value)
      requires t.c == c && c.func == t.func && c.arg == t.arg
      modifies this, c
      ensures Valid() && s == BeginFire(old(s), t) && walk == old(walk) && bucket == old(bucket)
      ensures |exec| == 2 && exec[1].curr == c
    {
      hide LinkedTo, CursorAt, Timers, Flags, Shape, BeginFire, Due, Unlink, DueAt, IndexOf, Remove, At;
      ExecSlots();
      assert bucket < |wheel|;
      var w := wheel[bucket := Unlink(wheel[bucket], c)];
      FireUnlinked(i, w);
      wheel := w;
      c.pending := false;
      exec := exec[1 := Exec(c, false)];
      if c.hasLock { exec := exec[1 := Exec(c, true)]; }
      called := called + [Invocation(c, c.func, c.arg)];
      pos := i;
      s := BeginFire(s, t);
      BegunTimers(t);
      BegunFlags(t);
      BegunShape(t);
    }

    method Perform(op: Op)
      requires Valid() && OpOk(op)
      modifies this, U
      ensures Valid() && s == ApplyOp(old(s), op)
      ensures walk == old(walk) && exec == old(exec) && bucket == old(bucket)
    {
      match op
      case Reset(c, ticks, func, arg, direct) => var _ := CalloutReset(c, ticks, func, arg, direct);
      case Stop(c, executing) => var _ := CalloutStop(c, executing);
    }

    /** A handler: any finite sequence of resets and stops, on any callouts, its own included. */
    method RunHandler(ops: seq<Op>)
      requires Valid() && forall j | 0 <= j < |ops| :: OpOk(ops[j])
      modifies this, U
      ensures Valid() && s == ApplyOps(old(s), ops)
      ensures walk == old(walk) && exec == old(exec) && bucket == old(bucket)
    {
      hide Valid;
      var j := 0;
      while j < |ops|
        invariant 0 <= j <= |ops| && Valid() && s == ApplyOps(old(s), ops[..j])
        invariant walk == old(walk) && exec == old(exec) && bucket == old(bucket)
      {
        assert ops[..j + 1][..j] == ops[..j];
        Perform(ops[j]);
        j := j + 1;
      }
      assert ops[..j] == ops;
    }

    twostate lemma Finished(c: Callout)
      requires old(Valid()) && s == EndFire(old(s), c)
      requires |exec| == 2 && exec[0] == old(exec)[0] && exec[1].curr == null
      requires unchanged(`ticks, `softticks, `called, `walk, `wheel, `bucket, `next, `pos) && unchanged(U)
      ensures Valid()
    {
      FiringsGrow(old(s.log), Returned(c));
    }

    /** What a handler's return leaves behind: the cursor where the walk goes on. */
    ghost predicate NothingDueBefore(d: int)
      reads this
    {
      bucket < |wheel| && pos <= |wheel[bucket]| && bucket == d % |wheel| && next == At(wheel[bucket], pos) &&
      forall q | 0 <= q < pos :: !DueAt(s.timers, wheel[bucket][q], d)
    }

    lemma CursorWhileRunning()
      requires Valid() && walk.Some? && |exec| == 2 && exec[1].curr != null
      ensures NothingDueBefore(walk.value)
    {
    }

    /** softclock_call_cc */
    method CallCc(c: Callout, h: Handlers, ghost i: nat, ghost t: Timer)
      requires Valid() && c in U && walk.Some? && s.running == None && HandlersOk(h)
      requires bucket == walk.value % |wheel| && i < |wheel[bucket]| && wheel[bucket][i] == c && pos == i + 1
      requires forall q | 0 <= q < i :: !DueAt(s.timers, wheel[bucket][q], walk.value)
      requires t.c == c && c.func == t.func && c.arg == t.arg
      modifies this, U
      ensures Valid() && s == Fire(old(s), t, h) && walk == old(walk) && bucket == old(bucket)
      ensures NothingDueBefore(walk.value)
    {
      var func, arg, n := c.func, c.arg, |called|;
      assert n == s.calls;
      BeginCall(c, i, t);
      hide Valid, NothingDueBefore;
      RunHandler(h(func, arg, n));
      CursorWhileRunning();
      label returned:
      exec := exec[1 := Exec(null, exec[1].cancel)];
      s := EndFire(s, c);
      Finished@returned(c);
      SameCursor@returned();
    }

    twostate lemma SameCursor()
      requires old(walk.Some? && NothingDueBefore(walk.value)) && s.timers == old(s.timers)
      requires unchanged(`walk, `wheel, `bucket, `next, `pos)
      ensures NothingDueBefore(walk.value)
    {
    }

    lemma TimerAt(b: nat, i: nat) returns (t: Timer)
      requires Valid() && b < |wheel| && i < |wheel[b]|
      ensures t in s.timers && t.c == wheel[b][i] && t.c in U
      ensures NextIn(wheel[b], t.c) == At(wheel[b], i + 1)
    {
      ChainMembers(s.timers, b, |wheel|);
      ChainNoDup(s.timers, b, |wheel|);
      UnlinkAt(wheel[b], i);
      assert wheel[b][i] in Chain(s.timers, b, |wheel|);
      t :| t in s.timers && t.c == wheel[b][i] && t.deadline % |wheel| == b;
    }

    /** The equality test of softclock on wrapped clocks picks out exactly the due callouts. */
    lemma DueTest(d: int, b: nat, i: nat)
      requires Valid() && walk == Some(d) && b < |wheel| && i < |wheel[b]|
      ensures wheel[b][i] in U && NextIn(wheel[b], wheel[b][i]) == At(wheel[b], i + 1)
      ensures wheel[b][i].time == Wrap32(d) <==> DueAt(s.timers, wheel[b][i], d)
    {
      hide Wrap32, LinkedTo, CursorAt, Flags;
      var t := TimerAt(b, i);
      WrapInjective(t.deadline, d);
      if DueAt(s.timers, t.c, d) {
        var u :| u in s.timers && u.c == t.c && u.deadline == d;
        SameTimer(s.timers, t, u);
      }
    }

    lemma PickDue(d: int, i: nat) returns (t: Timer)
      requires Valid() && walk == Some(d) && i < |wheel[d % |wheel|]|
      requires forall q | 0 <= q < i :: !DueAt(s.timers, wheel[d % |wheel|][q], d)
      requires wheel[d % |wheel|][i].time == Wrap32(d)
      ensures FirstDue(s.timers, d) == Some(t) && t.c == wheel[d % |wheel|][i] && t.c.func == t.func && t.c.arg == t.arg
    {
      hide Wrap32;
      DueTest(d, d % |wheel|, i);
      ChainFirstDue(s.timers, d, |wheel|, i);
      FirstDueMember(s.timers, d);
      t := FirstDue(s.timers, d).value;
    }

    /** The walk of the bucket for deadline d has come to c, at position i: nothing before it is due. */
    ghost predicate WalkAt(d: int, b: nat, c: Callout?, i: nat)
      reads this, U
    {
      && Valid() && walk == Some(d) && s.running == None && b < |wheel| && b == d % |wheel|
      && i <= |wheel[b]| && c == At(wheel[b], i)
      && forall q | 0 <= q < i :: !DueAt(s.timers, wheel[b][q], d)
    }

    lemma WalkSkips(d: int, b: nat, c: Callout, i: nat)
      requires WalkAt(d, b, c, i) && c.time != Wrap32(d)
      ensures i < |wheel[b]| && WalkAt(d, b, NextIn(wheel[b], c), i + 1)
    {
      DueTest(d, b, i);
    }

    lemma WalkEnds(d: int, b: nat, i: nat)
      requires WalkAt(d, b, null, i)
      ensures FirstDue(s.timers, d) == None && Valid() && walk == Some(d) && s.running == None && s.soft == d + 1
    {
      ChainFirstDue(s.timers, d, |wheel|, i);
    }

    twostate lemma Advanced()
      requires old(Valid()) && old(walk == None && s.running == None && s.soft < s.now)
      requires s == old(s).(soft := old(s.soft) + 1) && walk == Some(old(s.soft))
      requires softticks == Wrap32(old(softticks) + 1)
      requires unchanged(`ticks, `exec, `called, `wheel, `bucket, `next, `pos) && unchanged(U)
      ensures Valid()
    {
      WrapAdd(old(s.soft), 1);
    }

    twostate lemma Served()
      requires old(Valid()) && old(walk.Some? && s.running == None) && s == old(s) && walk == None
      requires FirstDue(s.timers, s.soft - 1) == None
      requires unchanged(`ticks, `softticks, `exec, `called, `wheel, `bucket, `next, `pos) && unchanged(U)
      ensures Valid()
    {
      H.FirstDueNone(s.timers, s.soft - 1);
    }

    /** The cursor may be placed anywhere while no handler runs. */
    twostate lemma Moved()
      requires old(Valid()) && s == old(s) && s.running == None
      requires bucket < |wheel| && pos <= |wheel[bucket]| && next == At(wheel[bucket], pos)
      requires unchanged(`ticks, `softticks, `exec, `called, `wheel, `walk) && unchanged(U)
      ensures Valid()
    {
    }

    /** Fires the callout the walk has come to and goes on from wherever its handler left the cursor. */
    method FireOne(c: Callout, b: nat, curticks: int, h: Handlers, ghost d: int, ghost i: nat)
      returns (c': Callout?, ghost i': nat)
      requires WalkAt(d, b, c, i) && curticks == Wrap32(d) == c.time && b == GetBucket(curticks) && HandlersOk(h)
      modifies this, U
      ensures WalkAt(d, b, c', i') && b == GetBucket(curticks)
      ensures FirstDue(old(s.timers), d).Some? && s == Fire(old(s), FirstDue(old(s.timers), d).value, h)
    {
      DueTest(d, b, i);
      ghost var t := PickDue(d, i);
      label fire:
      next := NextIn(wheel[b], c);
      bucket := GetBucket(curticks);
      pos := i + 1;
      Moved@fire();
      hide Valid;
      CallCc(c, h, i, t);
      AfterFire(d);
      label fired:
      c', i' := next, pos;
      next := null;
      pos := |wheel[bucket]|;
      Moved@fired();
    }

    lemma AfterFire(d: int)
      requires Valid() && walk == Some(d) && NothingDueBefore(d)
      ensures |wheel| > 0 && bucket == d % |wheel| && bucket == GetBucket(Wrap32(d))
    {
      BucketOf(d);
    }

    method BeginWalk() returns (c: Callout?, b: nat, curticks: int, ghost d: int)
      requires Valid() && walk == None && s.running == None && s.soft < s.now
      modifies this
      ensures s == old(s).(soft := old(s.soft) + 1) && d == old(s.soft)
      ensures WalkAt(d, b, c, 0) && curticks == Wrap32(d) && b == GetBucket(curticks)
    {
      d := s.soft;
      curticks := softticks;
      BucketOf(d);
      softticks := Wrap32(softticks + 1);
      s := s.(soft := s.soft + 1);
      walk := Some(d);
      Advanced();
      b := GetBucket(curticks);
      c := At(wheel[b], 0);
    }

    /** One turn of softclock's outer loop: serve every callout due at the oldest unserved tick. */
    method WalkBucket(h: Handlers)
      requires Valid() && walk == None && s.running == None && s.soft < s.now && HandlersOk(h)
      modifies this, U
      ensures Valid() && walk == None && s.running == None
      ensures s == RunDue(old(s).(soft := old(s.soft) + 1), old(s.soft), h)
    {
      hide WalkAt, Wrap32, LinkedTo, CursorAt, Timers, Flags;
      var c, b, curticks;
      ghost var d;
      c, b, curticks, d := BeginWalk();
      WalkLoop(c, b, curticks, h, d);
      label done:
      walk := None;
      Served@done();
    }

    method WalkLoop(first: Callout?, b: nat, curticks: int, h: Handlers, ghost d: int)
      requires WalkAt(d, b, first, 0) && curticks == Wrap32(d) && b == GetBucket(curticks) && HandlersOk(h) && d < s.now
      modifies this, U
      ensures Valid() && walk == Some(d) && s.running == None && s.soft == d + 1
      ensures s == RunDue(old(s), d, h) && FirstDue(s.timers, d) == None
    {
      hide Valid, RunDue, Fire, FirstDue, DueCount, NextIn, DueAt, At;
      var c := first;
      ghost var i := 0;
      while c != null
        invariant WalkAt(d, b, c, i) && b == GetBucket(curticks)
        invariant d < s.now && RunDue(s, d, h) == RunDue(old(s), d, h)
        decreases DueCount(s.timers, d), |wheel[b]| - i
      {
        if c.time != curticks {
          WalkSkips(d, b, c, i);
          c := NextIn(wheel[b], c);
          i := i + 1;
        } else {
          ghost var s1 := s;
          c, i := FireOne(c, b, curticks, h, d, i);
          RunDueSteps(s1, d, h);
          FireShrinks(s1, FirstDue(s1.timers, d).value, d, h);
        }
      }
      WalkEnds(d, b, i);
      RunDueSteps(s, d, h);
    }

    /** Between events: no handler runs, no bucket is being walked, and the clock is less than
        half a lap ahead of softclock. */
    ghost predicate Ready()
      reads this, U
    {
      Valid() && walk == None && s.running == None && s.now - s.soft < TWO31
    }

    lemma ClockTests()
      requires Valid() && walk == None
      ensures softticks == ticks <==> s.soft == s.now
      ensures Wrap32(softticks - ticks) < 0 <==> s.soft < s.now
    {
      WrapInjective(s.soft, s.now);
      SignedLagTest(s.soft, s.now);
    }

    /** softclock */
    method Softclock(h: Handlers)
      requires Valid() && walk == None && s.running == None && HandlersOk(h)
      modifies this, U
      ensures Valid() && walk == None && s.running == None
      ensures s == CatchUp(old(s), h) && s.soft == s.now && softticks == ticks
    {
      hide Valid;
      ClockTests();
      Unlagged();
      while softticks != ticks
        invariant Valid() && walk == None && s.running == None
        invariant CatchUp(s, h) == CatchUp(old(s), h)
        invariant softticks == ticks <==> s.soft == s.now
        invariant s.soft <= s.now
        decreases s.now - s.soft
      {
        WalkBucket(h);
        ClockTests();
        Unlagged();
      }
    }

    lemma Unlagged()
      requires Valid()
      ensures s.soft <= s.now
    {
    }

    lemma SoftBucket()
      requires Valid()
      ensures GetBucket(softticks) == s.soft % |wheel| < |wheel|
    {
      BucketOf(s.soft);
    }

    lemma EmptyBucket()
      requires Valid() && walk == None && |wheel| > 0 && wheel[s.soft % |wheel|] == []
      ensures FirstDue(s.timers, s.soft) == None
    {
      ChainFirstDue(s.timers, s.soft, |wheel|, 0);
    }

    twostate lemma Skipped()
      requires old(Valid()) && old(walk == None && s.running == None && s.soft < s.now)
      requires s == old(s).(soft := old(s.soft) + 1) && softticks == Wrap32(old(softticks) + 1)
      requires FirstDue(s.timers, old(s.soft)) == None
      requires unchanged(`ticks, `exec, `called, `wheel, `bucket, `next, `pos, `walk) && unchanged(U)
      ensures Valid()
    {
      WrapAdd(old(s.soft), 1);
      H.FirstDueNone(s.timers, old(s.soft));
    }

    /** One turn of callout_tick's loop: report a non-empty bucket, or step over an empty one. */
    method SkipBucket(ghost h: Handlers) returns (found: bool)
      requires Valid() && walk == None && s.running == None && s.soft < s.now
      modifies `softticks, `s
      ensures Valid() && walk == None && s.running == None
      ensures found ==> s == old(s) && softticks == old(softticks)
      ensures !found ==> s == old(s).(soft := old(s.soft) + 1) && CatchUp(s, h) == CatchUp(old(s), h)
    {
      hide Valid, CatchUp, Wrap32, FirstDue;
      SoftBucket();
      var b := GetBucket(softticks);
      found := wheel[b] != [];
      if !found {
        EmptyBucket();
        SkipServes(s, h);
        softticks := Wrap32(softticks + 1);
        s := s.(soft := s.soft + 1);
        Skipped();
      }
    }

    /** callout_tick: skips empty buckets and calls softclock at the first non-empty one. */
    method CalloutTick(h: Handlers)
      requires Valid() && walk == None && s.running == None && HandlersOk(h)
      modifies this, U
      ensures Ready() && s == CatchUp(old(s), h) && s.soft == s.now && softticks == ticks
    {
      hide Valid;
      var needSoftclock := false;
      ClockTests();
      Unlagged();
      while Wrap32(softticks - ticks) < 0 && !needSoftclock
        invariant Valid() && walk == None && s.running == None && HandlersOk(h)
        invariant CatchUp(s, h) == CatchUp(old(s), h)
        invariant softticks == ticks <==> s.soft == s.now
        invariant Wrap32(softticks - ticks) < 0 <==> s.soft < s.now
        invariant s.soft <= s.now
        decreases s.now - s.soft, !needSoftclock
      {
        needSoftclock := SkipBucket(h);
        ClockTests();
        Unlagged();
      }
      if needSoftclock {
        Softclock(h);
      }
    }

    twostate lemma Ticked()
      requires old(Ready()) && s == old(s).(now := old(s.now) + 1) && ticks == Wrap32(old(ticks) + 1)
      requires unchanged(`softticks, `exec, `called, `wheel, `bucket, `next, `pos, `walk) && unchanged(U)
      ensures Valid()
    {
      WrapAdd(old(s.now), 1);
    }

    /** lazybsd_hardclock: advance the clock by one and run what has become due. */
    method HardClock(h: Handlers)
      requires Ready() && HandlersOk(h)
      modifies this, U
      ensures Ready() && s == TickStep(old(s), h) && softticks == ticks
    {
      ticks := Wrap32(ticks + 1);
      s := s.(now := s.now + 1);
      Ticked();
      hide Valid;
      CalloutTick(h);
    }

    ghost predicate StepOk(step: Step) { step.Call? ==> OpOk(step.op) }

    /** The wheel refines the plain timer list over every run of ticks, resets and stops, with
        every behaviour of the handlers. */
    method Run(steps: seq<Step>, h: Handlers)
      requires Ready() && HandlersOk(h) && forall i | 0 <= i < |steps| :: StepOk(steps[i])
      modifies this, U
      ensures Ready() && s == CalloutSpec.Run(old(s), steps, h) && called == Firings(s.log)
    {
      hide Valid;
      var i := 0;
      while i < |steps|
        invariant 0 <= i <= |steps| && Ready() && s == CalloutSpec.Run(old(s), steps[..i], h)
      {
        assert steps[..i + 1][..i] == steps[..i];
        match steps[i] {
          case Tick => HardClock(h);
          case Call(op) => OpKeepsClocks(s, op); Perform(op);
        }
        i := i + 1;
      }
      assert steps[..i] == steps;
      CalledSoFar();
    }

    lemma CalledSoFar()
      requires Valid()
      ensures called == Firings(s.log)
    {
    }

    /** callout_callwheel_init: 2^fls(ncallout) empty buckets; the wheel's own clock starts at 0. */
    constructor (ncallout: nat, clock: nat, callouts: set<Callout>)
      requires ncallout <= INT_MAX && clock < TWO31
      requires forall c | c in callouts :: !c.pending && !c.active && !c.direct
      ensures Ready() && U == callouts && |wheel| == Pow2(bits) && ncallout < |wheel|
      ensures ncallout > 0 ==> |wheel| <= 2 * ncallout
      ensures H.Initial(s) && s.now == clock && ticks == clock && softticks == 0
    {
      FlsBounds(ncallout);
      bits := Fls(ncallout);
      mask := Pow2(Fls(ncallout)) - 1;
      ticks, softticks, next, bucket := clock, 0, null, 0;
      wheel := seq(Pow2(Fls(ncallout)), _ => []);
      exec := [Exec(null, false), Exec(null, false)];
      called := [];
      U := callouts;
      s := State(clock, 0, [], None, {}, {}, 0, []);
      pos, walk := 0, None;
    }
  }

  lemma RunDueSteps(s: State, d: int, h: Handlers)
    requires d < s.now
    ensures FirstDue(s.timers, d).None? ==> RunDue(s, d, h) == s
    ensures FirstDue(s.timers, d).Some? ==>
              Fire(s, FirstDue(s.timers, d).value, h).now == s.now &&
              RunDue(s, d, h) == RunDue(Fire(s, FirstDue(s.timers, d).value, h), d, h)
  {
    hide Fire, FirstDue;
    if FirstDue(s.timers, d).Some? { FireShrinks(s, FirstDue(s.timers, d).value, d, h); }
  }

  lemma OpKeepsClocks(s: State, op: Op)
    ensures ApplyOp(s, op).now == s.now && ApplyOp(s, op).soft == s.soft && ApplyOp(s, op).running == s.running
  {
  }

  /** A deadline nobody waits for is served by stepping over it. */
  lemma SkipServes(s: State, h: Handlers)
    requires s.soft < s.now && FirstDue(s.timers, s.soft) == None
    ensures CatchUp(s, h) == CatchUp(s.(soft := s.soft + 1), h)
  {
    var s1 := s.(soft := s.soft + 1);
    assert RunDue(s1, s.soft, h) == s1;
  }

  /** Index of the highest set bit, counted from one. */
  function Fls(n: nat): nat { if n == 0 then 0 else 1 + Fls(n / 2) }

  lemma {:induction false} FlsBounds(n: nat)
    ensures n < Pow2(Fls(n)) && (n > 0 ==> Pow2(Fls(n)) <= 2 * n)
    ensures n <= INT_MAX ==> Fls(n) <= 31
  {
    FlsPow2(n);
    if n <= INT_MAX && Fls(n) > 31 {
      Pow2At32();
      Pow2Grows(32, Fls(n));
    }
  }

  lemma {:induction false} FlsPow2(n: nat)
    ensures n < Pow2(Fls(n)) && (n > 0 ==> Pow2(Fls(n)) <= 2 * n)
  {
    if n > 0 { FlsPow2(n / 2); }
  }
}
