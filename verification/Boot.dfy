/** System start-up: sort the initialisation items in place, run them in order, and start over on
    the enlarged table whenever a running item has registered more. */
module Boot {
  import opened Common

  // Values of FreeBSD's sys/kernel.h, which is not part of this repository.
  const SI_SUB_DUMMY := 0
  const SI_SUB_DONE := 1

  /** struct sysinit.  What its function registers is given by a Registrations value. */
  class Sysinit {
    var subsystem: nat
    const order: nat

    constructor (subsystem: nat, order: nat)
      ensures this.subsystem == subsystem && this.order == order
    {
      this.subsystem, this.order := subsystem, order;
    }
  }

  /** The sets an item's function passes to sysinit_add, one call each. */
  type Registrations = Sysinit -> seq<seq<Sysinit>>

  // ----- what start-up is to do -----

  /** Everything registered once the items of log have run. */
  function Registered(init: seq<Sysinit>, adds: Registrations, log: seq<Sysinit>): seq<Sysinit> {
    if log == [] then init
    else Registered(init, adds, log[..|log| - 1]) + Flat(adds(log[|log| - 1]))
  }

  /** Subsystem of each item when start-up begins. */
  type Subsystems = map<Sysinit, nat>

  ghost predicate Runnable(sub: Subsystems, x: Sysinit) {
    x in sub && sub[x] != SI_SUB_DUMMY && sub[x] != SI_SUB_DONE
  }

  ghost predicate NotAfter(sub: Subsystems, x: Sysinit, y: Sysinit) {
    x in sub && y in sub && (sub[x] < sub[y] || (sub[x] == sub[y] && x.order <= y.order))
  }

  ghost predicate Waiting(sub: Subsystems, log: seq<Sysinit>, x: Sysinit) { Runnable(sub, x) && x !in log }

  /** x may run next: it is waiting, and no waiting item comes before it. */
  ghost predicate Next(init: seq<Sysinit>, adds: Registrations, sub: Subsystems, log: seq<Sysinit>, x: Sysinit) {
    && x in Registered(init, adds, log) && Waiting(sub, log, x)
    && forall y | y in Registered(init, adds, log) && Waiting(sub, log, y) :: NotAfter(sub, x, y)
  }

  ghost predicate InOrder(init: seq<Sysinit>, adds: Registrations, sub: Subsystems, log: seq<Sysinit>) {
    forall k | 0 <= k < |log| :: Next(init, adds, sub, log[..k], log[k])
  }

  ghost predicate Complete(init: seq<Sysinit>, adds: Registrations, sub: Subsystems, log: seq<Sysinit>) {
    forall y | y in Registered(init, adds, log) :: !Waiting(sub, log, y)
  }

  /** The function of an item of log has registered y. */
  ghost predicate AddedBy(adds: Registrations, log: seq<Sysinit>, y: Sysinit) {
    exists k, j | 0 <= k < |log| && 0 <= j < |adds(log[k])| :: y in adds(log[k])[j]
  }

  lemma {:induction false} InFlat(sets: seq<seq<Sysinit>>, y: Sysinit)
    ensures y in Flat(sets) <==> exists j | 0 <= j < |sets| :: y in sets[j]
  {
    if sets != [] {
      var n := |sets| - 1;
      InFlat(sets[..n], y);
      assert forall j | 0 <= j < n :: sets[..n][j] == sets[j];
    }
  }

  lemma AddedNext(adds: Registrations, log: seq<Sysinit>, x: Sysinit, y: Sysinit)
    ensures AddedBy(adds, log + [x], y) <==> AddedBy(adds, log, y) || exists j | 0 <= j < |adds(x)| :: y in adds(x)[j]
  {
    var l := log + [x];
    assert l[|log|] == x;
    if AddedBy(adds, log, y) {
      var k, j :| 0 <= k < |log| && 0 <= j < |adds(log[k])| && y in adds(log[k])[j];
      assert l[k] == log[k];
    }
  }

  lemma {:induction false} RegisteredExactly(init: seq<Sysinit>, adds: Registrations, log: seq<Sysinit>, y: Sysinit)
    ensures y in Registered(init, adds, log) <==> y in init || AddedBy(adds, log, y)
  {
    if log != [] {
      var n := |log| - 1;
      assert log == log[..n] + [log[n]];
      RegisteredExactly(init, adds, log[..n], y);
      InFlat(adds(log[n]), y);
      AddedNext(adds, log[..n], log[n], y);
    }
  }

  /** A complete run in order runs every item that is linked in or registered on the way, and is
      neither a placeholder (subsystem 0) nor already done (1), runs it once, and runs nothing else. */
  lemma RunsEachOnce(init: seq<Sysinit>, adds: Registrations, sub: Subsystems, log: seq<Sysinit>)
    requires InOrder(init, adds, sub, log) && Complete(init, adds, sub, log)
    ensures forall i, j | 0 <= i < j < |log| :: log[i] != log[j]
    ensures forall y :: y in log <==>
                          y in sub && sub[y] != 0 && sub[y] != 1 && (y in init || AddedBy(adds, log, y))
  {
    EachOnce(init, adds, sub, log);
    forall y ensures y in Registered(init, adds, log) <==> y in init || AddedBy(adds, log, y) {
      RegisteredExactly(init, adds, log, y);
    }
  }

  /** An item that could have run instead of the i-th and runs later is not before it in the order:
      by subsystem, and by order within a subsystem. */
  lemma RunsInOrder(init: seq<Sysinit>, adds: Registrations, sub: Subsystems, log: seq<Sysinit>, i: nat, j: nat)
    requires InOrder(init, adds, sub, log) && i < j < |log|
    requires log[j] in init || AddedBy(adds, log[..i], log[j])
    ensures log[i] in sub && log[j] in sub && sub[log[i]] <= sub[log[j]]
    ensures sub[log[i]] == sub[log[j]] ==> log[i].order <= log[j].order
  {
    assert Next(init, adds, sub, log[..i], log[i]) && Next(init, adds, sub, log[..j], log[j]);
    RegisteredExactly(init, adds, log[..i], log[j]);
    assert log[j] !in log[..i] by {
      assert log[j] !in log[..j];
      assert forall k | 0 <= k < i :: log[..i][k] == log[..j][k];
    }
  }

  lemma EachOnce(init: seq<Sysinit>, adds: Registrations, sub: Subsystems, log: seq<Sysinit>)
    requires InOrder(init, adds, sub, log) && Complete(init, adds, sub, log)
    ensures forall i, j | 0 <= i < j < |log| :: log[i] != log[j]
    ensures forall y | y in Registered(init, adds, log) :: Runnable(sub, y) <==> y in log
    ensures forall y | y in log :: Runnable(sub, y) && y in Registered(init, adds, log)
  {
    forall i, j | 0 <= i < j < |log| ensures log[i] != log[j] {
      assert Next(init, adds, sub, log[..j], log[j]);
      assert log[..j][i] == log[i];
    }
    forall k | 0 <= k < |log| ensures Runnable(sub, log[k]) && log[k] in Registered(init, adds, log) {
      assert Next(init, adds, sub, log[..k], log[k]);
      RegisteredGrows(init, adds, log, k, log[k]);
    }
  }

  lemma {:induction false} RegisteredGrows(init: seq<Sysinit>, adds: Registrations, log: seq<Sysinit>, k: nat,
                                           y: Sysinit)
    requires k <= |log| && y in Registered(init, adds, log[..k])
    ensures y in Registered(init, adds, log)
    decreases |log|
  {
    if k < |log| {
      assert log[..|log| - 1][..k] == log[..k];
      RegisteredGrows(init, adds, log[..|log| - 1], k, y);
    } else {
      assert log[..k] == log;
    }
  }

  // ----- the exchange sort -----

  predicate KeyLe(x: Sysinit, y: Sysinit)
    reads x, y
  {
    x.subsystem < y.subsystem || (x.subsystem == y.subsystem && x.order <= y.order)
  }

  method Swap(a: array<Sysinit>, i: nat, j: nat)
    requires i < j < a.Length
    modifies a
    ensures a[..] == old(a[..])[i := old(a[j])][j := old(a[i])]
    ensures multiset(a[..]) == multiset(old(a[..]))
  {
    var save := a[i];
    a[i] := a[j];
    a[j] := save;
  }

  ghost predicate SortedBelow(a: array<Sysinit>, i: int)
    reads a, a[..]
  {
    forall p, q | 0 <= p < i && p < q < a.Length :: KeyLe(a[p], a[q])
  }

  /** The inner loop: exchanges until position i holds a least item of the rest. */
  method Settle(a: array<Sysinit>, i: nat)
    requires i < a.Length && SortedBelow(a, i)
    modifies a
    ensures SortedBelow(a, i + 1) && multiset(a[..]) == multiset(old(a[..]))
  {
    var j := i + 1;
    while j < a.Length
      invariant i < j <= a.Length && multiset(a[..]) == multiset(old(a[..]))
      invariant SortedBelow(a, i)
      invariant forall q | i < q < j :: KeyLe(a[i], a[q])
    {
      if !KeyLe(a[i], a[j]) {
        Exchange(a, i, j);
      }
      j := j + 1;
    }
  }

  method Exchange(a: array<Sysinit>, i: nat, j: nat)
    requires i < j < a.Length && SortedBelow(a, i) && !KeyLe(a[i], a[j])
    requires forall q | i < q < j :: KeyLe(a[i], a[q])
    modifies a
    ensures SortedBelow(a, i) && forall q | i < q <= j :: KeyLe(a[i], a[q])
    ensures multiset(a[..]) == multiset(old(a[..]))
  {
    Swap(a, i, j);
    assert forall q | 0 <= q < a.Length :: a[q] == a[..][q];
  }

  /** The sort at the head of mi_startup. */
  method Sort(a: array<Sysinit>)
    modifies a
    ensures SortedBelow(a, a.Length) && multiset(a[..]) == multiset(old(a[..]))
    ensures forall p, q | 0 <= p < q < a.Length ::
              a[p].subsystem <= a[q].subsystem && (a[p].subsystem == a[q].subsystem ==> a[p].order <= a[q].order)
  {
    var i := 0;
    while i < a.Length
      invariant 0 <= i <= a.Length && multiset(a[..]) == multiset(old(a[..]))
      invariant SortedBelow(a, i)
    {
      Settle(a, i);
      i := i + 1;
    }
  }

  // ----- the start-up machine -----

  /** Before position i nothing is waiting; from there on the waiting items are in order. */
  ghost predicate Swept(items: seq<Sysinit>, sub: Subsystems, log: seq<Sysinit>, i: int) {
    && (forall p | 0 <= p < i && p < |items| :: !Waiting(sub, log, items[p]))
    && (forall p, q | 0 <= p < q < |items| && i <= p && Waiting(sub, log, items[p]) && Waiting(sub, log, items[q]) ::
          NotAfter(sub, items[p], items[q]))
  }

  lemma SweptGrows(items: seq<Sysinit>, sub: Subsystems, log: seq<Sysinit>, i: nat)
    requires i < |items| && Swept(items, sub, log, i)
    ensures Swept(items, sub, log + [items[i]], i + 1)
  {
  }

  lemma RunGrows(init: seq<Sysinit>, adds: Registrations, sub: Subsystems, log: seq<Sysinit>, x: Sysinit)
    requires InOrder(init, adds, sub, log) && Next(init, adds, sub, log, x)
    ensures InOrder(init, adds, sub, log + [x])
    ensures Registered(init, adds, log + [x]) == Registered(init, adds, log) + Flat(adds(x))
  {
    var l := log + [x];
    assert l[..|log|] == log;
    forall k | 0 <= k < |l| ensures Next(init, adds, sub, l[..k], l[k]) {
      if k < |log| { assert l[..k] == log[..k]; }
    }
  }

  function Items(table: Option<seq<Sysinit>>): seq<Sysinit> { if table.Some? then table.value else [] }

  class Startup {
    const linked: array<Sysinit>        // the boot table as linked into the program
    var sysinit: array<Sysinit>         // the table in use, without items until start-up begins
    var newsysinit: array?<Sysinit>
    var called: seq<Sysinit>            // the items whose function has been called, in order
    ghost var pre: seq<Sysinit>         // those of them that ran from a table since displaced
    ghost var log: seq<Sysinit>         // the others

    constructor (table: array<Sysinit>)
      ensures linked == table && sysinit.Length == 0 && newsysinit == null && called == []
    {
      linked, sysinit, newsysinit, called := table, new Sysinit[0], null, [];
      pre, log := [], [];
    }

    /** What sysinit_add extends: the table in use, or what is already to replace it. */
    ghost function Current(): seq<Sysinit>
      reads this, sysinit, newsysinit
    {
      if newsysinit != null then newsysinit[..] else sysinit[..]
    }

    /** sysinit_add */
    method SysinitAdd(added: seq<Sysinit>)
      modifies `newsysinit
      ensures newsysinit != null && fresh(newsysinit) && newsysinit[..] == old(Current()) + added
    {
      var items := (if newsysinit != null then newsysinit[..] else sysinit[..]) + added;
      var newset := new Sysinit[|items|](i requires 0 <= i < |items| => items[i]);
      newsysinit := newset;
    }

    /** Calling an item's function. */
    method CallFunction(sets: seq<seq<Sysinit>>)
      modifies `newsysinit
      ensures sets == [] ==> newsysinit == old(newsysinit)
      ensures sets != [] ==> newsysinit != null && fresh(newsysinit) && newsysinit[..] == old(Current()) + Flat(sets)
    {
      hide Flat;
      ghost var base := Current();
      FlatEmpty();
      assert sets[..0] == [] && base + Flat(sets[..0]) == base;
      var i := 0;
      while i < |sets|
        invariant 0 <= i <= |sets| && (i == 0 ==> newsysinit == old(newsysinit))
        invariant i > 0 ==> newsysinit != null && fresh(newsysinit)
        invariant Current() == base + Flat(sets[..i])
      {
        FlatNext(sets, i);
        SysinitAdd(sets[i]);
        assert Current() == base + (Flat(sets[..i]) + sets[i]);
        i := i + 1;
      }
      assert sets[..i] == sets;
    }

    lemma FlatNext(sets: seq<seq<Sysinit>>, i: nat)
      requires i < |sets|
      ensures Flat(sets[..i + 1]) == Flat(sets[..i]) + sets[i]
    {
      assert sets[..i + 1][..i] == sets[..i];
    }

    /** The items' subsystem fields say which have run. */
    ghost predicate Marked(all: set<Sysinit>, sub: Subsystems)
      reads this, all
    {
      all == sub.Keys && forall x | x in all :: x.subsystem == if x in log then SI_SUB_DONE else sub[x]
    }

    /** The table holds what has been registered so far. */
    ghost predicate Holds(init: seq<Sysinit>, adds: Registrations)
      reads this, sysinit
    {
      multiset(sysinit[..]) == multiset(Registered(init, adds, log))
    }

    ghost predicate Closed(init: seq<Sysinit>, adds: Registrations, all: set<Sysinit>) {
      (forall y | y in init :: y in all) && forall x | x in all :: forall y | y in Flat(adds(x)) :: y in all
    }

    lemma TableInAll(init: seq<Sysinit>, adds: Registrations, all: set<Sysinit>)
      requires Holds(init, adds) && Closed(init, adds, all) && forall x | x in log :: x in all
      ensures forall p | 0 <= p < sysinit.Length :: sysinit[p] in all && sysinit[p] in Registered(init, adds, log)
    {
      RegisteredInAll(init, adds, all, log);
      forall p | 0 <= p < sysinit.Length ensures sysinit[p] in Registered(init, adds, log) {
        assert sysinit[p] in multiset(sysinit[..]);
      }
    }

    lemma {:induction false} RegisteredInAll(init: seq<Sysinit>, adds: Registrations, all: set<Sysinit>,
                                             l: seq<Sysinit>)
      requires Closed(init, adds, all) && forall x | x in l :: x in all
      ensures forall y | y in Registered(init, adds, l) :: y in all
    {
      if l != [] { RegisteredInAll(init, adds, all, l[..|l| - 1]); }
    }

    lemma SortedIsSwept(init: seq<Sysinit>, adds: Registrations, all: set<Sysinit>, sub: Subsystems)
      requires Holds(init, adds) && Closed(init, adds, all) && Marked(all, sub) && forall x | x in log :: x in all
      requires SortedBelow(sysinit, sysinit.Length)
      ensures Swept(sysinit[..], sub, log, 0)
    {
      TableInAll(init, adds, all);
      forall p, q | 0 <= p < q < sysinit.Length && Waiting(sub, log, sysinit[p]) && Waiting(sub, log, sysinit[q])
        ensures NotAfter(sub, sysinit[p], sysinit[q])
      {
        assert KeyLe(sysinit[p], sysinit[q]);
      }
    }

    /** The first waiting item of the sweep may run next. */
    lemma SweptNext(init: seq<Sysinit>, adds: Registrations, all: set<Sysinit>, sub: Subsystems, i: nat)
      requires Holds(init, adds) && Closed(init, adds, all) && Swept(sysinit[..], sub, log, i) &&
               forall x | x in log :: x in all
      requires i < sysinit.Length && Waiting(sub, log, sysinit[i])
      ensures Next(init, adds, sub, log, sysinit[i])
    {
      TableInAll(init, adds, all);
      forall y | y in Registered(init, adds, log) && Waiting(sub, log, y) ensures NotAfter(sub, sysinit[i], y) {
        assert y in multiset(sysinit[..]);
        var q :| 0 <= q < sysinit.Length && sysinit[q] == y;
      }
    }

    lemma SweptEnds(init: seq<Sysinit>, adds: Registrations, sub: Subsystems)
      requires Holds(init, adds) && Swept(sysinit[..], sub, log, sysinit.Length)
      ensures Complete(init, adds, sub, log)
    {
      forall y | y in Registered(init, adds, log) ensures !Waiting(sub, log, y) {
        assert y in multiset(sysinit[..]);
        var q :| 0 <= q < sysinit.Length && sysinit[q] == y;
      }
    }

    /** What holds of the items run so far. */
    ghost predicate Going(init: seq<Sysinit>, adds: Registrations, all: set<Sysinit>, sub: Subsystems)
      reads this, all
    {
      && Closed(init, adds, all) && Marked(all, sub) && called == pre + log
      && (forall x | x in log :: x in all) && InOrder(init, adds, sub, log)
    }

    /** Everything that holds between two items of a run. */
    ghost predicate Running(init: seq<Sysinit>, adds: Registrations, all: set<Sysinit>, sub: Subsystems)
      reads this, sysinit, all
    {
      Going(init, adds, all, sub) && Holds(init, adds)
    }

    /** One turn of the second loop of mi_startup, for an item that is not skipped.  A table that was
        registered before the item ran replaces the one in use, instead of extending it. */
    method RunItem(adds: Registrations, i: nat, ghost init: seq<Sysinit>, ghost all: set<Sysinit>,
                   ghost sub: Subsystems)
      returns (restart: bool)
      requires Running(init, adds, all, sub) && Swept(sysinit[..], sub, log, i)
      requires i < sysinit.Length && Waiting(sub, log, sysinit[i])
      modifies this, all
      ensures Going(init, adds, all, sub) && newsysinit == null
      ensures log == old(log) + [old(sysinit[i])] && pre == old(pre) && Next(init, adds, sub, old(log), old(sysinit[i]))
      ensures old(newsysinit) == null ==> Holds(init, adds) && (restart ==> fresh(sysinit))
      ensures !restart ==> old(newsysinit) == null && sysinit == old(sysinit) && Swept(sysinit[..], sub, log, i + 1)
      ensures old(newsysinit) != null ==>
                (sysinit == old(newsysinit) || fresh(sysinit)) &&
                sysinit[..] == old(newsysinit[..]) + Flat(adds(old(sysinit[i])))
    {
      hide InOrder, Closed, Next, Swept, Registered, Flat;
      var x := sysinit[i];
      ghost var items := sysinit[..];
      InTable(init, adds, all, sub, i);
      SweptNext(init, adds, all, sub, i);
      SweptGrows(items, sub, log, i);
      RunGrows(init, adds, sub, log, x);
      assert Flat<Sysinit>([]) == [] by { FlatEmpty(); }
      CallFunction(adds(x));
      x.subsystem := SI_SUB_DONE;
      called := called + [x];
      log := log + [x];
      restart := newsysinit != null;
      if restart {
        sysinit := newsysinit;
        newsysinit := null;
      }
      if old(newsysinit) == null {
        assert sysinit[..] == items + Flat(adds(x));
        HoldsNext(items, init, adds, old(log), x);
      }
    }

    lemma HoldsNext(items: seq<Sysinit>, init: seq<Sysinit>, adds: Registrations, l: seq<Sysinit>, x: Sysinit)
      requires multiset(items) == multiset(Registered(init, adds, l))
      requires Registered(init, adds, l + [x]) == Registered(init, adds, l) + Flat(adds(x))
      ensures multiset(items + Flat(adds(x))) == multiset(Registered(init, adds, l + [x]))
    {
    }

    lemma FlatEmpty()
      ensures Flat<Sysinit>([]) == []
    {
    }

    lemma InTable(init: seq<Sysinit>, adds: Registrations, all: set<Sysinit>, sub: Subsystems, i: nat)
      requires Running(init, adds, all, sub) && i < sysinit.Length
      ensures sysinit[i] in all
    {
      TableInAll(init, adds, all);
    }

    ghost function Remaining(all: set<Sysinit>, sub: Subsystems): set<Sysinit>
      reads this
    {
      set x | x in all && Waiting(sub, log, x)
    }

    /** The traversal of the sorted table, up to the end or to the first item that leaves another table. */
    method Traverse(adds: Registrations, ghost init: seq<Sysinit>, ghost all: set<Sysinit>, ghost sub: Subsystems)
      returns (restart: bool)
      requires Running(init, adds, all, sub) && Swept(sysinit[..], sub, log, 0)
      modifies this, all
      ensures Going(init, adds, all, sub) && pre == old(pre)
      ensures restart ==> newsysinit == null && Remaining(all, sub) < old(Remaining(all, sub))
      ensures restart && old(newsysinit) == null ==> fresh(sysinit) && Holds(init, adds)
      ensures restart && old(newsysinit) != null ==>
                |log| > 0 && log == old(log) + [log[|log| - 1]] && Next(init, adds, sub, old(log), log[|log| - 1]) &&
                (sysinit == old(newsysinit) || fresh(sysinit)) &&
                sysinit[..] == old(newsysinit[..]) + Flat(adds(log[|log| - 1]))
      ensures !restart ==>
                sysinit == old(sysinit) && newsysinit == old(newsysinit) &&
                Holds(init, adds) && Complete(init, adds, sub, log)
      ensures !restart && newsysinit != null ==> log == old(log)
    {
      hide InOrder, Closed, Swept, Complete, Flat, Next, Going, Holds, Registered, Runnable;
      var i := 0;
      while i < sysinit.Length
        invariant 0 <= i <= sysinit.Length && sysinit == old(sysinit) && newsysinit == old(newsysinit) &&
                  pre == old(pre)
        invariant Running(init, adds, all, sub) && Swept(sysinit[..], sub, log, i)
        invariant Remaining(all, sub) <= old(Remaining(all, sub)) && (newsysinit != null ==> log == old(log))
        decreases sysinit.Length - i
      {
        InTable(init, adds, all, sub, i);
        if sysinit[i].subsystem == SI_SUB_DUMMY || sysinit[i].subsystem == SI_SUB_DONE {
          SkipKeeps(init, adds, all, sub, i);
        } else {
          StillWaiting(init, adds, all, sub, i);
          RunShrinks(all, sub, sysinit[i]);
          restart := RunItem(adds, i, init, all, sub);
          if restart { return; }
        }
        i := i + 1;
      }
      SweptEnds(init, adds, sub);
      restart := false;
    }

    lemma StillWaiting(init: seq<Sysinit>, adds: Registrations, all: set<Sysinit>, sub: Subsystems, i: nat)
      requires Running(init, adds, all, sub) && i < sysinit.Length && sysinit[i] in all
      ensures Waiting(sub, log, sysinit[i]) <==>
              sysinit[i].subsystem != SI_SUB_DUMMY && sysinit[i].subsystem != SI_SUB_DONE
    {
    }

    lemma SkipKeeps(init: seq<Sysinit>, adds: Registrations, all: set<Sysinit>, sub: Subsystems, i: nat)
      requires Running(init, adds, all, sub) && i < sysinit.Length && Swept(sysinit[..], sub, log, i)
      requires sysinit[i] in all && (sysinit[i].subsystem == SI_SUB_DUMMY || sysinit[i].subsystem == SI_SUB_DONE)
      ensures Swept(sysinit[..], sub, log, i + 1)
    {
      StillWaiting(init, adds, all, sub, i);
    }

    lemma RunShrinks(all: set<Sysinit>, sub: Subsystems, x: Sysinit)
      requires x in all && Waiting(sub, log, x)
      ensures (set y | y in all && Waiting(sub, log + [x], y)) < Remaining(all, sub)
    {
      assert x in Remaining(all, sub);
    }

    method SortTable(ghost init: seq<Sysinit>, ghost adds: Registrations, ghost all: set<Sysinit>,
                     ghost sub: Subsystems)
      requires Running(init, adds, all, sub)
      modifies sysinit
      ensures Running(init, adds, all, sub) && Swept(sysinit[..], sub, log, 0)
    {
      Sort(sysinit);
      SortedIsSwept(init, adds, all, sub);
    }

    /** The table registered before start-up, if any. */
    ghost function Early(): Option<seq<Sysinit>>
      reads this, newsysinit
    {
      if newsysinit != null then Some(newsysinit[..]) else None
    }

    /** A table none of whose items has run. */
    lemma Starts(init: seq<Sysinit>, adds: Registrations, all: set<Sysinit>, sub: Subsystems)
      requires log == [] && called == pre && Closed(init, adds, all) && sysinit[..] == init
      requires all == sub.Keys && forall x | x in all :: x.subsystem == sub[x]
      ensures Running(init, adds, all, sub)
    {
    }

    lemma ClosedParts(a: seq<Sysinit>, b: seq<Sysinit>, adds: Registrations, all: set<Sysinit>)
      requires Closed(a + b, adds, all)
      ensures Closed(a, adds, all) && Closed(b, adds, all)
    {
      forall y | y in a || y in b ensures y in all { assert y in a + b; }
    }

    lemma ClosedWith(early: seq<Sysinit>, adds: Registrations, all: set<Sysinit>, x: Sysinit)
      requires Closed(early, adds, all) && x in all
      ensures Closed(early + Flat(adds(x)), adds, all)
    {
    }

    lemma SameWaiting(all: set<Sysinit>, sub: Subsystems, x: Sysinit)
      requires all == sub.Keys && x in all
      ensures forall y | y in all :: Waiting(sub[x := SI_SUB_DONE], [], y) <==> Waiting(sub, [x], y)
    {
    }

    /** A start-up under way: table is None without a table registered before it.  Such a table waits
        in newsysinit until the first item has run; from then on the machine runs that table. */
    ghost predicate Underway(first: seq<Sysinit>, table: Option<seq<Sysinit>>, adds: Registrations, all: set<Sysinit>,
                             sub: Subsystems, init: seq<Sysinit>, now: Subsystems)
      reads this, sysinit, newsysinit, all
    {
      && Running(init, adds, all, now) && all == sub.Keys && Closed(first + Items(table), adds, all)
      && if table.None? || pre == [] then
           pre == [] && init == first && now == sub &&
           (table.Some? ==>
              log == [] && newsysinit != null && newsysinit != sysinit && newsysinit[..] == table.value) &&
           (table.None? ==> newsysinit == null)
         else
           |pre| == 1 && newsysinit == null && FirstOf(first, table.value, adds, sub, pre[0], init, now)
    }

    /** One sort and one traversal. */
    method Sweep(adds: Registrations, ghost first: seq<Sysinit>, ghost table: Option<seq<Sysinit>>,
                 ghost all: set<Sysinit>, ghost sub: Subsystems, ghost init: seq<Sysinit>, ghost now: Subsystems)
      returns (restart: bool, ghost init': seq<Sysinit>, ghost now': Subsystems)
      requires Underway(first, table, adds, all, sub, init, now)
      modifies this, all, sysinit
      ensures Underway(first, table, adds, all, sub, init', now')
      ensures restart ==>
                newsysinit == null && (fresh(sysinit) || sysinit == old(newsysinit)) &&
                Remaining(all, now') < old(Remaining(all, now))
      ensures !restart ==> Complete(init', adds, now', log) && sysinit == old(sysinit) && newsysinit == old(newsysinit)
    {
      hide InOrder, Closed, Swept, Complete, Flat, Next, FirstOf, Marked, Holds;
      init', now' := init, now;
      SortTable(init, adds, all, now);
      var displaces := newsysinit != null;
      restart := Traverse(adds, init, all, now);
      if restart && displaces {
        ghost var x := log[0];
        Switch(first, table.value, adds, all, sub, x);
        pre, log := [x], [];
        init', now' := table.value + Flat(adds(x)), sub[x := SI_SUB_DONE];
        Starts(init', adds, all, now');
      }
    }

    lemma Switch(first: seq<Sysinit>, early: seq<Sysinit>, adds: Registrations, all: set<Sysinit>, sub: Subsystems,
                 x: Sysinit)
      requires Closed(first + early, adds, all) && log == [x] && pre == [] && Going(first, adds, all, sub)
      requires Next(first, adds, sub, [], x)
      ensures Closed(early + Flat(adds(x)), adds, all) && x in all && called == [x]
      ensures FirstOf(first, early, adds, sub, x, early + Flat(adds(x)), sub[x := SI_SUB_DONE])
      ensures all == sub[x := SI_SUB_DONE].Keys && forall y | y in all :: y.subsystem == sub[x := SI_SUB_DONE][y]
      ensures (set y | y in all && Waiting(sub[x := SI_SUB_DONE], [], y)) == Remaining(all, sub)
    {
      ClosedParts(first, early, adds, all);
      ClosedWith(early, adds, all, x);
      SameWaiting(all, sub, x);
    }

    /** What mi_startup has called when nothing is left to run. */
    lemma Outcome(first: seq<Sysinit>, table: Option<seq<Sysinit>>, adds: Registrations, all: set<Sysinit>,
                  sub: Subsystems, init: seq<Sysinit>, now: Subsystems)
      requires Underway(first, table, adds, all, sub, init, now) && Complete(init, adds, now, log)
      ensures table.None? ==> InOrder(first, adds, sub, called) && Complete(first, adds, sub, called)
      ensures table.Some? ==> Displaced(first, table.value, adds, sub, called)
      ensures forall x | x in all :: x.subsystem == if x in called then SI_SUB_DONE else sub[x]
    {
      hide InOrder, Closed, Complete, Flat, Next;
      if pre != [] { assert called[1..] == log; } else { assert called == log; }
    }

    /** mi_startup.  all is any finite set of items that contains the linked-in table, whatever has
        been registered before, and whatever their functions register. */
    method MiStartup(adds: Registrations, ghost all: set<Sysinit>, ghost sub: Subsystems)
      requires sysinit.Length == 0 && called == []
      requires Closed(linked[..] + Items(Early()), adds, all) && all == sub.Keys &&
               forall x | x in all :: x.subsystem == sub[x]
      modifies this, all, if newsysinit == null then {} else {newsysinit}
      ensures old(newsysinit) == null ==>
                InOrder(old(linked[..]), adds, sub, called) && Complete(old(linked[..]), adds, sub, called)
      ensures old(newsysinit) != null ==> Displaced(old(linked[..]), old(newsysinit[..]), adds, sub, called)
      ensures forall x | x in all :: x.subsystem == if x in called then SI_SUB_DONE else sub[x]
    {
      ghost var first, table := linked[..], Early();
      ghost var init, now := first, sub;
      sysinit := new Sysinit[linked.Length](i requires 0 <= i < linked.Length reads linked => linked[i]);
      assert sysinit[..] == init;
      pre, log := [], [];
      ClosedParts(first, Items(table), adds, all);
      Starts(init, adds, all, sub);
      hide InOrder, Closed, Swept, Complete, Flat, Next, Running, FirstOf, Displaced;
      var restart := true;
      while restart
        invariant Underway(first, table, adds, all, sub, init, now)
        invariant fresh(sysinit) || sysinit == old(newsysinit)
        invariant newsysinit == null || newsysinit == old(newsysinit)
        invariant !restart ==> Complete(init, adds, now, log)
        decreases restart, Remaining(all, now)
      {
        restart, init, now := Sweep(adds, first, table, all, sub, init, now);
      }
      Outcome(first, table, adds, all, sub, init, now);
    }
  }

  /** The table in use once x has run and has been followed by a table registered before. */
  ghost predicate FirstOf(linked: seq<Sysinit>, early: seq<Sysinit>, adds: Registrations, sub: Subsystems, x: Sysinit,
                          init: seq<Sysinit>, now: Subsystems) {
    Next(linked, adds, sub, [], x) && init == early + Flat(adds(x)) && now == sub[x := SI_SUB_DONE]
  }

  /** What start-up runs when a table has been registered before it: the first waiting linked-in item,
      and then what that table and the item's own registrations lead to. */
  ghost predicate Displaced(linked: seq<Sysinit>, early: seq<Sysinit>, adds: Registrations, sub: Subsystems,
                            run: seq<Sysinit>)
  {
    if run == [] then Complete(linked, adds, sub, [])
    else
      var init, now := early + Flat(adds(run[0])), sub[run[0] := SI_SUB_DONE];
      Next(linked, adds, sub, [], run[0]) && InOrder(init, adds, now, run[1..]) && Complete(init, adds, now, run[1..])
  }

  /** What displacement means item by item: only the linked-in item that comes first runs from the
      linked-in table; besides it, exactly the items of the earlier table and those registered by items
      that ran, each once and in order. */
  lemma DisplacedRuns(linked: seq<Sysinit>, early: seq<Sysinit>, adds: Registrations, sub: Subsystems,
                      run: seq<Sysinit>)
    requires Displaced(linked, early, adds, sub, run)
    ensures run == [] ==> forall y | y in linked && y in sub :: sub[y] == 0 || sub[y] == 1
    ensures run != [] ==>
              && run[0] in linked && run[0] in sub && sub[run[0]] != 0 && sub[run[0]] != 1
              && (forall y | y in linked && y in sub && sub[y] != 0 && sub[y] != 1 ::
                    sub[run[0]] < sub[y] || (sub[run[0]] == sub[y] && run[0].order <= y.order))
              && (forall i, j | 0 <= i < j < |run| :: run[i] != run[j])
              && (forall y :: y in run <==>
                    y == run[0] || (y in sub && sub[y] != 0 && sub[y] != 1 && (y in early || AddedBy(adds, run, y))))
  {
    if run == [] {
      assert Registered(linked, adds, []) == linked;
      NoneLeft(linked, adds, sub);
    } else {
      var x, rest := run[0], run[1..];
      var init, now := early + Flat(adds(x)), sub[x := SI_SUB_DONE];
      assert Registered(linked, adds, []) == linked;
      FirstWaits(linked, adds, sub, x);
      RunsEachOnce(init, adds, now, rest);
      assert run == [x] + rest;
      forall y ensures y in init || AddedBy(adds, rest, y) <==> y in early || AddedBy(adds, run, y) {
        InFlat(adds(x), y);
        AddedFirst(adds, x, rest, y);
      }
      assert x !in rest;
      DistinctCons(x, rest);
    }
  }

  /** From the second on, the items run in order: one registered before the i-th ran is not before it. */
  lemma DisplacedInOrder(linked: seq<Sysinit>, early: seq<Sysinit>, adds: Registrations, sub: Subsystems,
                         run: seq<Sysinit>, i: nat, j: nat)
    requires Displaced(linked, early, adds, sub, run) && 1 <= i < j < |run|
    requires run[j] in early || AddedBy(adds, run[..i], run[j])
    ensures run[i] in sub && run[j] in sub && sub[run[i]] <= sub[run[j]]
    ensures sub[run[i]] == sub[run[j]] ==> run[i].order <= run[j].order
  {
    var x, rest := run[0], run[1..];
    DisplacedRuns(linked, early, adds, sub, run);
    assert x != run[i] && x != run[j];
    DisplacedTail(linked, early, adds, sub, run, i, run[j]);
    hide Displaced, InOrder, AddedBy, Flat;
    RunsInOrder(early + Flat(adds(x)), adds, sub[x := SI_SUB_DONE], rest, i - 1, j - 1);
  }

  lemma DisplacedTail(linked: seq<Sysinit>, early: seq<Sysinit>, adds: Registrations, sub: Subsystems,
                      run: seq<Sysinit>, i: nat, y: Sysinit)
    requires Displaced(linked, early, adds, sub, run) && 1 <= i <= |run|
    requires y in early || AddedBy(adds, run[..i], y)
    ensures InOrder(early + Flat(adds(run[0])), adds, sub[run[0] := SI_SUB_DONE], run[1..])
    ensures y in early + Flat(adds(run[0])) || AddedBy(adds, run[1..][..i - 1], y)
  {
    var x, rest := run[0], run[1..];
    InFlat(adds(x), y);
    AddedFirst(adds, x, rest[..i - 1], y);
    hide InOrder, AddedBy, Flat, Complete, Next;
    assert run[..i] == [x] + rest[..i - 1];
  }

  lemma NoneLeft(linked: seq<Sysinit>, adds: Registrations, sub: Subsystems)
    requires Complete(linked, adds, sub, [])
    ensures forall y | y in linked && y in sub :: sub[y] == 0 || sub[y] == 1
  {
    assert Registered(linked, adds, []) == linked;
    forall y | y in linked && y in sub ensures sub[y] == 0 || sub[y] == 1 { assert !Waiting(sub, [], y); }
  }

  lemma FirstWaits(linked: seq<Sysinit>, adds: Registrations, sub: Subsystems, x: Sysinit)
    requires Next(linked, adds, sub, [], x)
    ensures x in linked && x in sub && sub[x] != 0 && sub[x] != 1
    ensures forall y | y in linked && y in sub && sub[y] != 0 && sub[y] != 1 ::
              sub[x] < sub[y] || (sub[x] == sub[y] && x.order <= y.order)
  {
    assert Registered(linked, adds, []) == linked;
    forall y | y in linked && y in sub && sub[y] != 0 && sub[y] != 1 ensures NotAfter(sub, x, y) {
      assert Waiting(sub, [], y);
    }
  }

  lemma AddedFirst(adds: Registrations, x: Sysinit, rest: seq<Sysinit>, y: Sysinit)
    ensures AddedBy(adds, [x] + rest, y) <==> AddedBy(adds, rest, y) || exists j | 0 <= j < |adds(x)| :: y in adds(x)[j]
  {
    var l := [x] + rest;
    assert l[0] == x;
    if AddedBy(adds, rest, y) {
      var k, j :| 0 <= k < |rest| && 0 <= j < |adds(rest[k])| && y in adds(rest[k])[j];
      assert l[k + 1] == rest[k];
    }
  }

  lemma DistinctCons(x: Sysinit, rest: seq<Sysinit>)
    requires x !in rest && forall i, j | 0 <= i < j < |rest| :: rest[i] != rest[j]
    ensures forall i, j | 0 <= i < j < |[x] + rest| :: ([x] + rest)[i] != ([x] + rest)[j]
  {
  }

  /** With a table registered before start-up, every linked-in item still runs exactly when there is
      nothing to run or each but the first to run is also in that table or registered on the way. */
  lemma LinkedStillRun(linked: seq<Sysinit>, early: seq<Sysinit>, adds: Registrations, sub: Subsystems,
                       run: seq<Sysinit>)
    requires Displaced(linked, early, adds, sub, run)
    ensures (forall y | y in linked && y in sub && sub[y] != 0 && sub[y] != 1 :: y in run) <==>
            (run == [] ||
             forall y | y in linked && y in sub && sub[y] != 0 && sub[y] != 1 && y != run[0] ::
               y in early || AddedBy(adds, run, y))
  {
    DisplacedRuns(linked, early, adds, sub, run);
  }

  /** Items whose functions register nothing. */
  function NoSets(): Registrations { _ => [] }

  lemma {:induction false} RegisteredAlone(init: seq<Sysinit>, l: seq<Sysinit>)
    ensures Registered(init, NoSets(), l) == init
  {
    if l != [] {
      RegisteredAlone(init, l[..|l| - 1]);
      assert Flat<Sysinit>([]) == [];
    }
  }

  /** Two linked-in items and a third registered before start-up: the first runs, the third runs, and
      the second never does. */
  lemma LinkedLost(a: Sysinit, b: Sysinit, c: Sysinit, sub: Subsystems, run: seq<Sysinit>)
    requires a != b && b != c && a != c && sub == map[a := 2, b := 3, c := 4]
    ensures Displaced([a, b], [c], NoSets(), sub, run) <==> run == [a, c]
  {
    var now := sub[a := SI_SUB_DONE];
    RegisteredAlone([a, b], []);
    RegisteredAlone([c], []);
    RegisteredAlone([c], [c]);
    assert [c] + Flat<Sysinit>([]) == [c];
    assert a in [a, b] && Waiting(sub, [], a);
    if Displaced([a, b], [c], NoSets(), sub, run) {
      assert run[0] == a;
      OnlyItem(c, now, run[1..]);
      assert run == [a] + run[1..];
    }
    if run == [a, c] {
      assert run[1..] == [c] && [c][..0] == [];
      assert Next([a, b], NoSets(), sub, [], a);
      assert Next([c], NoSets(), now, [], c);
    }
  }

  lemma OnlyItem(c: Sysinit, now: Subsystems, rest: seq<Sysinit>)
    requires InOrder([c], NoSets(), now, rest) && Complete([c], NoSets(), now, rest) && Runnable(now, c)
    ensures rest == [c]
  {
    EachOnce([c], NoSets(), now, rest);
    RegisteredAlone([c], rest);
    assert c in [c];
    assert forall k | 0 <= k < |rest| :: rest[k] in rest && rest[k] == c;
    FirstTwo(rest, c);
  }

  lemma FirstTwo(s: seq<Sysinit>, c: Sysinit)
    requires forall k | 0 <= k < |s| :: s[k] == c
    ensures |s| > 1 ==> s[0] == s[1]
  {
  }
}
