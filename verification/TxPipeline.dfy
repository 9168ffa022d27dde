/** Ownership of transmitted BSD mbufs on one port: the burst table, the network card, and the
    ring that delays each free until the card has reused the packet's descriptor. */
module TxPipeline {

  import opened Common

  const MAX_PKT_BURST := 32
  const TX_QUEUE_SIZE := 512

  type Mbuf = nat

  /** A BSD mbuf chain and the segment count of the rte_mbuf that refers to it. */
  datatype Packet = Packet(bsd: Mbuf, segs: nat)

  // ----- what the pipeline does, without tables or rings -----

  /** How a filled or drained burst table left: offered to the card, which took a prefix, or
      forgotten when a failed send reset the table's length. */
  datatype Batch = Burst(packets: seq<Packet>, accepted: nat) | Lost(packets: seq<Packet>)

  datatype Tx = Tx(table: seq<Packet>, batches: seq<Batch>, failed: seq<Mbuf>)

  datatype Step =
    | Send(p: Packet, nic: nat)            // nic: how many packets the card would take now
    | FailedSend(m: Option<Mbuf>)          // lazybsd_if_send_onepkt returns 0; m is freed if given
    | Drain(nic: nat)

  function Flush(t: Tx, nic: nat): Tx {
    t.(table := [], batches := t.batches + [Burst(t.table, Min(nic, |t.table|))])
  }

  function Apply(t: Tx, s: Step): Tx {
    match s
    case Send(p, nic) =>
      var t1 := t.(table := t.table + [p]);
      if |t1.table| == MAX_PKT_BURST then Flush(t1, nic) else t1
    case FailedSend(m) =>
      Tx([], t.batches + [Lost(t.table)], if m.Some? then t.failed + [m.value] else t.failed)
    case Drain(nic) => if t.table == [] then t else Flush(t, nic)
  }

  const EMPTY := Tx([], [], [])

  /** The state after a run. */
  function After(steps: seq<Step>): Tx {
    if steps == [] then EMPTY else Apply(After(steps[..|steps| - 1]), steps[|steps| - 1])
  }

  function TakenPart(b: Batch): seq<Packet> {
    match b case Burst(ps, n) => ps[..Min(n, |ps|)] case Lost(_) => []
  }

  function RefusedPart(b: Batch): seq<Packet> {
    match b case Burst(ps, n) => ps[Min(n, |ps|)..] case Lost(_) => []
  }

  function LostPart(b: Batch): seq<Packet> {
    match b case Burst(_, _) => [] case Lost(ps) => ps
  }

  function Gather(bs: seq<Batch>, part: Batch -> seq<Packet>): seq<Packet> {
    if bs == [] then [] else Gather(bs[..|bs| - 1], part) + part(bs[|bs| - 1])
  }

  function Handed(bs: seq<Batch>): seq<Packet> { Gather(bs, (b: Batch) => b.packets) }
  function Accepted(bs: seq<Batch>): seq<Packet> { Gather(bs, TakenPart) }
  function Refused(bs: seq<Batch>): seq<Packet> { Gather(bs, RefusedPart) }
  function Forgotten(bs: seq<Batch>): seq<Packet> { Gather(bs, LostPart) }

  function Bsd(ps: seq<Packet>): seq<Mbuf> { seq(|ps|, i requires 0 <= i < |ps| => ps[i].bsd) }

  /** The packets handed to the pipeline by the successful sends of a run, in order. */
  function Sent(steps: seq<Step>): seq<Packet> {
    if steps == [] then []
    else Sent(steps[..|steps| - 1]) + (match steps[|steps| - 1] case Send(p, _) => [p] case _ => [])
  }

  /** The card's descriptor positions: a packet of n segments takes n of them and its mbuf is
      recorded at the last. */
  function Descriptors(p: Packet): seq<Option<Mbuf>> {
    Blanks(if p.segs > 1 then p.segs - 1 else 0) + [Some(p.bsd)]
  }

  function Blanks(n: nat): seq<Option<Mbuf>> { seq(n, _ => None) }

  function Log(ps: seq<Packet>): seq<Option<Mbuf>> {
    if ps == [] then [] else Log(ps[..|ps| - 1]) + Descriptors(ps[|ps| - 1])
  }

  function Recorded(log: seq<Option<Mbuf>>): seq<Mbuf> {
    if log == [] then []
    else Recorded(log[..|log| - 1]) + (match log[|log| - 1] case None => [] case Some(m) => [m])
  }

  /** The ring slot of a descriptor position. */
  function Slot(p: nat): (i: nat)
    ensures i < TX_QUEUE_SIZE
  {
    p % TX_QUEUE_SIZE
  }

  lemma SlotApart(n: nat, p: nat)
    requires p < n < p + TX_QUEUE_SIZE
    ensures Slot(p) != Slot(n)
  {
    var a, b := p / TX_QUEUE_SIZE, n / TX_QUEUE_SIZE;
    assert n - p == TX_QUEUE_SIZE * (b - a) + (Slot(n) - Slot(p));
  }

  lemma SlotNext(n: nat)
    ensures n >= TX_QUEUE_SIZE ==> Slot(n - TX_QUEUE_SIZE) == Slot(n)
    ensures Slot(n + 1) == if Slot(n) + 1 >= TX_QUEUE_SIZE then 0 else Slot(n) + 1
  {
  }

  lemma SlotsTurn(n: nat)
    ensures forall p: nat | Reused(n + 1) <= p < n :: Slot(p) != Slot(n)
    ensures n >= TX_QUEUE_SIZE ==> Slot(n - TX_QUEUE_SIZE) == Slot(n)
    ensures n < TX_QUEUE_SIZE ==> Slot(n) == n
    ensures Slot(n + 1) == if Slot(n) + 1 >= TX_QUEUE_SIZE then 0 else Slot(n) + 1
  {
    SlotNext(n);
    forall p: nat | Reused(n + 1) <= p < n ensures Slot(p) != Slot(n) { SlotApart(n, p); }
  }

  /** Descriptor positions before this one have been used again. */
  function Reused(n: nat): nat { if n <= TX_QUEUE_SIZE then 0 else n - TX_QUEUE_SIZE }

  // ----- the delayed-free ring -----

  /** struct mbuf_txring */
  class TxRing {
    const table: array<Option<Mbuf>>
    var head: nat
    ghost var log: seq<Option<Mbuf>>    // every descriptor position ever used
    var freed: seq<Mbuf>                // calls of lazybsd_mbuf_free, in order

    constructor ()
      ensures Valid() && fresh(table) && log == [] && freed == []
    {
      table := new Option<Mbuf>[TX_QUEUE_SIZE](_ => None);
      head, freed, log := 0, [], [];
    }

    ghost predicate Valid()
      reads this, table
    {
      && table.Length == TX_QUEUE_SIZE && head == Slot(|log|)
      && (forall p | Reused(|log|) <= p < |log| :: table[Slot(p)] == log[p])
      && (forall i | |log| <= i < TX_QUEUE_SIZE :: table[i] == None)
      && freed == Recorded(log[..Reused(|log|)])
    }

    /** Frees what the head slot still holds, stores x there and advances the head. */
    method Advance(x: Option<Mbuf>)
      requires Valid()
      modifies this, table
      ensures Valid() && log == old(log) + [x]
    {
      Aging(log, x);
      SlotsTurn(|log|);
      hide Recorded, Slot;
      if table[head].Some? { freed := freed + [table[head].value]; }
      table[head] := x;
      head := head + 1;
      if head >= TX_QUEUE_SIZE { head := 0; }
      log := log + [x];
    }

    /** lazybsd_txring_enqueue: one position a segment, at least one, with the mbuf at the last. */
    method Enqueue(m: Mbuf, segs: nat)
      requires Valid()
      modifies this, table
      ensures Valid() && log == old(log) + Descriptors(Packet(m, segs))
      ensures |log| == |old(log)| + Max(segs, 1) && log[|log| - 1] == Some(m)
      ensures forall i | |old(log)| <= i < |log| - 1 :: log[i] == None
    {
      var i := 0;
      while i < segs - 1
        invariant 0 <= i <= if segs > 1 then segs - 1 else 0
        invariant Valid() && log == old(log) + Blanks(i)
      {
        Advance(None);
        i := i + 1;
      }
      Advance(Some(m));
    }
  }

  /** When position n comes into use, position n - 512 is the one whose slot it takes. */
  lemma Aging(log: seq<Option<Mbuf>>, x: Option<Mbuf>)
    ensures var n := |log|;
      Recorded((log + [x])[..Reused(n + 1)]) ==
      Recorded(log[..Reused(n)]) + (if n < TX_QUEUE_SIZE || log[n - TX_QUEUE_SIZE] == None then []
                                    else [log[n - TX_QUEUE_SIZE].value])
  {
    var n := |log|;
    if n >= TX_QUEUE_SIZE {
      var r := (log + [x])[..Reused(n + 1)];
      assert r[..|r| - 1] == log[..Reused(n)];
      assert r[|r| - 1] == log[n - TX_QUEUE_SIZE];
    } else {
      assert (log + [x])[..0] == [] && log[..0] == [];
    }
  }

  // ----- the burst table -----

  /** The part of an rte_mbuf that matters here. */
  datatype Rte = Rte(segs: nat)

  /** struct mbuf_table of one port, with the port's ring. */
  class TxPort {
    var len: nat
    const mTable: array<Rte>
    const bsdTable: array<Option<Mbuf>>
    const ring: TxRing
    ghost var t: Tx                     // what has been done so far
    var refused: seq<Mbuf>              // frees of packets the card did not take
    var failed: seq<Mbuf>               // frees by failed sends

    constructor ()
      ensures Valid() && t == EMPTY && fresh(Repr())
    {
      mTable := new Rte[MAX_PKT_BURST](_ => Rte(0));
      bsdTable := new Option<Mbuf>[MAX_PKT_BURST](_ => None);
      ring := new TxRing();
      len := 0;
      t := EMPTY;
      refused, failed := [], [];
    }

    ghost function Repr(): set<object>
      reads this
    {
      {this, mTable, bsdTable, ring, ring.table}
    }

    ghost predicate Slots(ps: seq<Packet>)
      reads mTable, bsdTable
    {
      && mTable.Length == MAX_PKT_BURST && bsdTable.Length == MAX_PKT_BURST && |ps| <= MAX_PKT_BURST
      && forall i | 0 <= i < |ps| :: mTable[i] == Rte(ps[i].segs) && bsdTable[i] == Some(ps[i].bsd)
    }

    /** The first loop of send_burst: the mbufs of the packets the card took go to the ring. */
    method RecordAccepted(ret: nat, ghost a: seq<Packet>)
      requires Slots(t.table) && ret <= |t.table| && ring.Valid() && bsdTable != ring.table && ring.log == Log(a)
      modifies ring, ring.table
      ensures Slots(t.table) && ring.Valid() && ring.log == Log(a + t.table[..ret])
    {
      hide Log;
      var i := 0;
      assert a + t.table[..0] == a;
      while i < ret
        invariant 0 <= i <= ret && Slots(t.table) && ring.Valid()
        invariant ring.log == Log(a + t.table[..i])
      {
        LogAppend(a, t.table, i);
        if bsdTable[i].Some? { ring.Enqueue(bsdTable[i].value, mTable[i].segs); }
        i := i + 1;
      }
    }

    /** The second loop of send_burst: what the card did not take is freed at once. */
    method FreeRefused(ret: nat, n: nat)
      requires Slots(t.table) && ret <= n == |t.table|
      modifies `refused
      ensures refused == old(refused) + Bsd(t.table[ret..])
    {
      var i := ret;
      while i < n
        invariant ret <= i <= n && refused == old(refused) + Bsd(t.table[ret..i])
      {
        BsdAppend(t.table[ret..i], [t.table[i]]);
        assert t.table[ret..i] + [t.table[i]] == t.table[ret..i + 1];
        if bsdTable[i].Some? { refused := refused + [bsdTable[i].value]; }
        i := i + 1;
      }
      assert t.table[ret..n] == t.table[ret..];
    }

    /** The traces agree with what has been done; holds also while the table is full. */
    ghost predicate Traced()
      reads this, mTable, bsdTable, ring, ring.table
    {
      && Slots(t.table) && ring.Valid() && bsdTable != ring.table
      && ring.log == Log(Accepted(t.batches))
      && refused == Bsd(Refused(t.batches)) && failed == t.failed
    }

    ghost predicate Valid()
      reads this, mTable, bsdTable, ring, ring.table
    {
      Traced() && len == |t.table| < MAX_PKT_BURST
    }

    /** send_burst with n packets in the table; the card takes the first min(nic, n) of them. */
    method SendBurst(n: nat, nic: nat)
      requires Traced() && n == |t.table|
      modifies this, ring, ring.table
      ensures Traced() && t == Flush(old(t), nic)
    {
      hide Log, Gather;
      var ret := if nic < n then nic else n;   // rte_eth_tx_burst
      Flushed(t.batches, t.table, ret);
      BsdAppend(Refused(t.batches), t.table[ret..]);
      RecordAccepted(ret, Accepted(t.batches));
      FreeRefused(ret, n);
      t := Flush(t, nic);
    }

    /** lazybsd_dpdk_if_send when lazybsd_if_send_onepkt succeeds. */
    method Send(m: Mbuf, segs: nat, nic: nat)
      requires Valid()
      modifies this, mTable, bsdTable, ring, ring.table
      ensures Valid() && t == Apply(old(t), Step.Send(Packet(m, segs), nic))
    {
      hide Log, Gather;
      mTable[len] := Rte(segs);
      bsdTable[len] := Some(m);
      var n := len + 1;
      t := t.(table := t.table + [Packet(m, segs)]);
      if n == MAX_PKT_BURST {
        SendBurst(MAX_PKT_BURST, nic);
        n := 0;
      }
      len := n;
    }

    /** lazybsd_dpdk_if_send when lazybsd_if_send_onepkt returns 0: a given mbuf has been freed,
        and the zero becomes the length of the table. */
    method FailSend(m: Option<Mbuf>)
      requires Valid()
      modifies this
      ensures Valid() && t == Apply(old(t), FailedSend(m))
    {
      hide Log, Gather;
      if m.Some? { failed := failed + [m.value]; }
      Dropped(t.batches, t.table);
      t := Apply(t, FailedSend(m));
      len := 0;
    }

    /** The drain step of main_loop. */
    method DrainQueue(nic: nat)
      requires Valid()
      modifies this, ring, ring.table
      ensures Valid() && t == Apply(old(t), Drain(nic))
    {
      hide Log, Gather;
      if len == 0 { return; }
      SendBurst(len, nic);
      len := 0;
    }

    /** Every run of sends and drains does to the tables, the ring and the frees what the plain
        machine says. */
    method Run(steps: seq<Step>)
      requires Valid() && t == EMPTY
      modifies this, mTable, bsdTable, ring, ring.table
      ensures Valid() && t == After(steps)
    {
      hide Valid;
      var i := 0;
      while i < |steps|
        invariant 0 <= i <= |steps| && Valid() && t == After(steps[..i])
      {
        assert steps[..i + 1][..i] == steps[..i];
        match steps[i] {
          case Send(p, nic) => Send(p.bsd, p.segs, nic);
          case FailedSend(m) => FailSend(m);
          case Drain(nic) => DrainQueue(nic);
        }
        i := i + 1;
      }
      assert steps[..i] == steps;
    }
  }

  lemma LogAppend(a: seq<Packet>, ps: seq<Packet>, i: nat)
    requires i < |ps|
    ensures Log(a + ps[..i + 1]) == Log(a + ps[..i]) + Descriptors(ps[i])
  {
    assert (a + ps[..i + 1])[..|a| + i] == a + ps[..i];
  }

  lemma Flushed(bs: seq<Batch>, ps: seq<Packet>, n: nat)
    requires n <= |ps|
    ensures var bs' := bs + [Burst(ps, n)];
      Accepted(bs') == Accepted(bs) + ps[..n] && Refused(bs') == Refused(bs) + ps[n..] &&
      Handed(bs') == Handed(bs) + ps && Forgotten(bs') == Forgotten(bs)
  {
    assert (bs + [Burst(ps, n)])[..|bs|] == bs;
  }

  lemma Dropped(bs: seq<Batch>, ps: seq<Packet>)
    ensures var bs' := bs + [Lost(ps)];
      Accepted(bs') == Accepted(bs) && Refused(bs') == Refused(bs) &&
      Handed(bs') == Handed(bs) + ps && Forgotten(bs') == Forgotten(bs) + ps
  {
    assert (bs + [Lost(ps)])[..|bs|] == bs;
  }

  lemma BsdAppend(a: seq<Packet>, b: seq<Packet>)
    ensures Bsd(a + b) == Bsd(a) + Bsd(b)
  {
  }

  // ----- which positions packets take -----

  /** How many descriptor positions packets take: one a segment, at least one. */
  function Positions(ps: seq<Packet>): nat {
    if ps == [] then 0 else Positions(ps[..|ps| - 1]) + Max(ps[|ps| - 1].segs, 1)
  }

  lemma LogStep(ps: seq<Packet>)
    requires ps != []
    ensures var q, p := ps[..|ps| - 1], ps[|ps| - 1];
      && Log(ps) == Log(q) + Descriptors(p) && Positions(ps) == Positions(q) + |Descriptors(p)|
      && |Descriptors(p)| == Max(p.segs, 1) && Descriptors(p)[|Descriptors(p)| - 1] == Some(p.bsd)
      && forall i | 0 <= i < |Descriptors(p)| - 1 :: Descriptors(p)[i] == None
  {
  }

  lemma {:induction false} LogLength(ps: seq<Packet>)
    ensures |Log(ps)| == Positions(ps)
  {
    if ps != [] {
      LogLength(ps[..|ps| - 1]);
      LogStep(ps);
    }
  }

  /** The last position of packet k. */
  function LastOf(ps: seq<Packet>, k: nat): (i: nat)
    requires k < |ps|
  {
    LastAtLeast(ps, k);
    Positions(ps[..k + 1]) - 1
  }

  lemma LastAtLeast(ps: seq<Packet>, k: nat)
    requires k < |ps|
    ensures Positions(ps[..k + 1]) >= 1
  {
  }

  /** Packets take consecutive runs of positions in the order they were accepted; the mbuf of packet k
      is at the last one of its run, and there is nothing at any other. */
  lemma {:induction false} PositionsExactly(ps: seq<Packet>, i: nat)
    requires i < |Log(ps)|
    ensures |Log(ps)| == Positions(ps)
    ensures forall k: nat | k < |ps| && i == LastOf(ps, k) :: Log(ps)[i] == Some(ps[k].bsd)
    ensures (forall k: nat | k < |ps| :: i != LastOf(ps, k)) ==> Log(ps)[i] == None
  {
    LogLength(ps);
    if ps != [] {
      var n := |ps| - 1;
      var q := ps[..n];
      LogLength(q);
      LogStep(ps);
      hide Log, Descriptors, Positions;
      forall k: nat | k < n ensures LastOf(q, k) == LastOf(ps, k) { assert q[..k + 1] == ps[..k + 1]; }
      assert ps[..n + 1] == ps && LastOf(ps, n) == |Log(ps)| - 1;
      if i < |Log(q)| {
        PositionsExactly(q, i);
      } else {
        forall k: nat | k < n ensures LastOf(ps, k) < |Log(q)| { PositionsGrow(q, k + 1); }
      }
    }
  }

  lemma {:induction false} PositionsGrow(ps: seq<Packet>, k: nat)
    requires k <= |ps|
    ensures Positions(ps[..k]) <= Positions(ps)
  {
    if k < |ps| {
      assert ps[..|ps| - 1][..k] == ps[..k];
      PositionsGrow(ps[..|ps| - 1], k);
    } else {
      assert ps[..k] == ps;
    }
  }

  // ----- the theorems -----

  /** Packets leave the table in the order they were sent, and the table is never full between
      calls. */
  lemma {:induction false} LeaveInOrder(steps: seq<Step>)
    ensures Sent(steps) == Handed(After(steps).batches) + After(steps).table
    ensures |After(steps).table| < MAX_PKT_BURST
  {
    if steps != [] {
      var t := After(steps[..|steps| - 1]);
      LeaveInOrder(steps[..|steps| - 1]);
      match steps[|steps| - 1]
      case Send(p, nic) => FlushHands(t.(table := t.table + [p]), nic);
      case FailedSend(m) => Dropped(t.batches, t.table);
      case Drain(nic) => FlushHands(t, nic);
    }
  }

  lemma FlushHands(t: Tx, nic: nat)
    ensures Handed(Flush(t, nic).batches) == Handed(t.batches) + t.table
    ensures Forgotten(Flush(t, nic).batches) == Forgotten(t.batches)
  {
    Flushed(t.batches, t.table, Min(nic, |t.table|));
  }

  /** The mbufs a run has given back after transmission, and those the ring still holds. */
  function Recycled(t: Tx): seq<Mbuf> { var log := Log(Accepted(t.batches)); Recorded(log[..Reused(|log|)]) }
  function Held(t: Tx): seq<Mbuf> { var log := Log(Accepted(t.batches)); Recorded(log[Reused(|log|)..]) }

  lemma {:induction false} RecordedAppend(a: seq<Option<Mbuf>>, b: seq<Option<Mbuf>>)
    ensures Recorded(a + b) == Recorded(a) + Recorded(b)
  {
    if b == [] {
      assert a + b == a;
    } else {
      RecordedAppend(a, b[..|b| - 1]);
      assert (a + b)[..|a + b| - 1] == a + b[..|b| - 1];
    }
  }

  lemma {:induction false} RecordedNones(n: nat)
    ensures Recorded(Blanks(n)) == []
  {
    if n > 0 {
      RecordedNones(n - 1);
      assert Blanks(n)[..n - 1] == Blanks(n - 1);
    }
  }

  lemma {:induction false} LogRecords(ps: seq<Packet>)
    ensures Recorded(Log(ps)) == Bsd(ps)
  {
    if ps != [] {
      var q, p := ps[..|ps| - 1], ps[|ps| - 1];
      LogRecords(q);
      OneRecorded(p);
      RecordedAppend(Log(q), Descriptors(p));
      BsdAppend(q, [p]);
      hide Recorded, Descriptors;
      assert q + [p] == ps;
    }
  }

  lemma OneRecorded(p: Packet)
    ensures Recorded(Descriptors(p)) == Bsd([p])
  {
    var n := if p.segs > 1 then p.segs - 1 else 0;
    RecordedNones(n);
    RecordedAppend(Blanks(n), [Some(p.bsd)]);
    assert [Some(p.bsd)][..0] == [];
  }

  /** The ring gives accepted mbufs back in the order the card took them, and splits them into
      those given back and those it holds. */
  lemma FreesInOrder(t: Tx)
    ensures Recycled(t) + Held(t) == Bsd(Accepted(t.batches))
  {
    var log := Log(Accepted(t.batches));
    LogRecords(Accepted(t.batches));
    var n := Reused(|log|);
    assert log == log[..n] + log[n..];
    RecordedAppend(log[..n], log[n..]);
  }

  /** What is recorded before position n: the packets whose last position is. */
  lemma {:induction false} RecordedBefore(ps: seq<Packet>, n: nat) returns (r: nat)
    requires n <= |Log(ps)|
    ensures r <= |ps| && Recorded(Log(ps)[..n]) == Bsd(ps[..r])
    ensures forall k: nat | k < |ps| :: k < r <==> LastOf(ps, k) < n
  {
    LogLength(ps);
    if ps == [] {
      r := 0;
    } else {
      var q, p := ps[..|ps| - 1], ps[|ps| - 1];
      LogLength(q);
      LogStep(ps);
      hide Log, Descriptors, Positions;
      assert ps[..|ps|] == ps;
      forall k: nat | k < |q| ensures LastOf(ps, k) == LastOf(q, k) < Positions(q) {
        assert q[..k + 1] == ps[..k + 1];
        PositionsGrow(q, k + 1);
      }
      assert LastOf(ps, |q|) == Positions(ps) - 1;
      if n == |Log(ps)| {
        LogRecords(ps);
        assert Log(ps)[..n] == Log(ps);
        r := |ps|;
      } else if n <= |Log(q)| {
        r := RecordedBefore(q, n);
        assert Log(ps)[..n] == Log(q)[..n] && q[..r] == ps[..r];
      } else {
        var blanks := Descriptors(p)[..n - |Log(q)|];
        assert Log(ps)[..n] == Log(q) + blanks && blanks == Blanks(|blanks|);
        LogRecords(q);
        RecordedNones(|blanks|);
        RecordedAppend(Log(q), blanks);
        r := |q|;
      }
    }
  }

  lemma SameTail(a: seq<Mbuf>, b: seq<Mbuf>, c: seq<Mbuf>)
    ensures a + b == a + c ==> b == c
  {
    assert b == (a + b)[|a|..] && c == (a + c)[|a|..];
  }

  /** After every run, an accepted mbuf has been given back exactly when at least 512 descriptor
      positions have been taken since its own last one; the ring holds the others. */
  lemma GivenBackExactly(steps: seq<Step>) returns (r: nat)
    ensures var t := After(steps); var ps := Accepted(t.batches);
      && r <= |ps| && Recycled(t) == Bsd(ps[..r]) && Held(t) == Bsd(ps[r..])
      && forall k: nat | k < |ps| :: k < r <==> Positions(ps) - 1 - LastOf(ps, k) >= 512
  {
    var t := After(steps);
    var ps := Accepted(t.batches);
    LogLength(ps);
    r := RecordedBefore(ps, Reused(|Log(ps)|));
    FreesInOrder(t);
    BsdAppend(ps[..r], ps[r..]);
    hide After, Accepted, Recorded, Log, Positions;
    assert ps == ps[..r] + ps[r..];
    SameTail(Recycled(t), Held(t), Bsd(ps[r..]));
  }

  /** What one more step moves: a send waits until 32 packets are there, which are then offered; a
      drain offers whatever waits; of what is offered the card takes as many as it can, from the
      front, and the rest is freed; a failing send forgets what waits and frees its own mbuf. */
  lemma StepMoves(steps: seq<Step>, s: Step)
    ensures var t, t' := After(steps), After(steps + [s]);
      && (s.Send? && |t.table| < 31 ==> t' == t.(table := t.table + [s.p]))
      && (s.Send? && |t.table| >= 31 ==> Offered(t, t', t.table + [s.p], s.nic))
      && (s.Drain? && t.table == [] ==> t' == t)
      && (s.Drain? && t.table != [] ==> Offered(t, t', t.table, s.nic))
      && (s.FailedSend? ==>
            && t'.table == [] && Forgotten(t'.batches) == Forgotten(t.batches) + t.table
            && Accepted(t'.batches) == Accepted(t.batches) && Refused(t'.batches) == Refused(t.batches)
            && t'.failed == t.failed + (if s.m.Some? then [s.m.value] else []))
  {
    var t := After(steps);
    assert (steps + [s])[..|steps|] == steps;
    LeaveInOrder(steps);
    match s
    case Send(p, nic) => Flushed(t.batches, t.table + [p], Min(nic, |t.table| + 1));
    case FailedSend(m) => Dropped(t.batches, t.table);
    case Drain(nic) => Flushed(t.batches, t.table, Min(nic, |t.table|));
  }

  /** ps was offered to a card that takes at most nic packets. */
  ghost predicate Offered(t: Tx, t': Tx, ps: seq<Packet>, nic: nat) {
    var n := if nic < |ps| then nic else |ps|;
    && t'.table == [] && t'.failed == t.failed && Forgotten(t'.batches) == Forgotten(t.batches)
    && Accepted(t'.batches) == Accepted(t.batches) + ps[..n] && Refused(t'.batches) == Refused(t.batches) + ps[n..]
  }

  /** The mbufs freed by failing sends are those given to them, in order. */
  function Failed(steps: seq<Step>): seq<Mbuf> {
    if steps == [] then []
    else
      Failed(steps[..|steps| - 1]) +
      (match steps[|steps| - 1] case FailedSend(Some(m)) => [m] case _ => [])
  }

  lemma {:induction false} FailedFrees(steps: seq<Step>)
    ensures After(steps).failed == Failed(steps)
  {
    if steps != [] { FailedFrees(steps[..|steps| - 1]); }
  }

  /** A card that always has room for a full table refuses nothing. */
  lemma {:induction false} RoomyCard(steps: seq<Step>)
    requires forall i | 0 <= i < |steps| && !steps[i].FailedSend? :: steps[i].nic >= 32
    ensures Refused(After(steps).batches) == []
  {
    if steps != [] {
      var q, s := steps[..|steps| - 1], steps[|steps| - 1];
      RoomyCard(q);
      LeaveInOrder(q);
      StepMoves(q, s);
      assert q + [s] == steps;
    }
  }

  lemma {:induction false} BatchesSplit(bs: seq<Batch>)
    ensures multiset(Bsd(Handed(bs))) ==
            multiset(Bsd(Accepted(bs))) + multiset(Bsd(Refused(bs))) + multiset(Bsd(Forgotten(bs)))
  {
    if bs != [] {
      var q, b := bs[..|bs| - 1], bs[|bs| - 1];
      BatchesSplit(q);
      BsdAppend(Handed(q), b.packets);
      BsdAppend(Accepted(q), TakenPart(b));
      BsdAppend(Refused(q), RefusedPart(b));
      BsdAppend(Forgotten(q), LostPart(b));
      match b
      case Burst(ps, n) =>
        BsdAppend(TakenPart(b), RefusedPart(b));
        assert ps == TakenPart(b) + RefusedPart(b);
      case Lost(ps) =>
    }
  }

  /** Every mbuf handed over by a successful send is in exactly one place: the burst table, the
      ring, given back after transmission, freed because the card refused it, or forgotten. */
  lemma Conservation(steps: seq<Step>)
    ensures var t := After(steps);
      multiset(Bsd(Sent(steps))) ==
      multiset(Bsd(t.table)) + multiset(Held(t)) + multiset(Recycled(t)) +
      multiset(Bsd(Refused(t.batches))) + multiset(Bsd(Forgotten(t.batches)))
  {
    var t := After(steps);
    LeaveInOrder(steps);
    BsdAppend(Handed(t.batches), t.table);
    BatchesSplit(t.batches);
    FreesInOrder(t);
  }

  ghost predicate NoneWaiting(steps: seq<Step>) {
    forall i | 0 <= i < |steps| && steps[i].FailedSend? :: After(steps[..i]).table == []
  }

  lemma StepForgets(t: Tx, s: Step)
    ensures Forgotten(Apply(t, s).batches) == Forgotten(t.batches) + if s.FailedSend? then t.table else []
  {
    match s
    case Send(p, nic) => FlushHands(t.(table := t.table + [p]), nic);
    case FailedSend(m) => Dropped(t.batches, t.table);
    case Drain(nic) => FlushHands(t, nic);
  }

  lemma NoneWaitingAppend(q: seq<Step>, s: Step)
    ensures NoneWaiting(q + [s]) <==> NoneWaiting(q) && (s.FailedSend? ==> After(q).table == [])
  {
    hide After;
    var steps := q + [s];
    assert steps[..|q|] == q && steps[|q|] == s;
    forall i | 0 <= i < |q| ensures steps[i] == q[i] && steps[..i] == q[..i] {}
  }

  /** A run forgets no mbuf exactly when every failing send found the burst table empty. */
  lemma {:induction false} ForgetsNothing(steps: seq<Step>)
    ensures Forgotten(After(steps).batches) == [] <==> NoneWaiting(steps)
  {
    if steps != [] {
      var q, s := steps[..|steps| - 1], steps[|steps| - 1];
      ForgetsNothing(q);
      assert steps == q + [s];
      NoneWaitingAppend(q, s);
      StepForgets(After(q), s);
    }
  }

  /** The smallest run that forgets an mbuf: one packet waiting when a send fails. */
  lemma FailedSendForgets(p: Packet, m: Option<Mbuf>)
    ensures var steps := [Step.Send(p, 0), FailedSend(m)];
      Sent(steps) == [p] && Forgotten(After(steps).batches) == [p]
  {
    var one := [Step.Send(p, 0)];
    var steps := one + [FailedSend(m)];
    assert one[..0] == [] && Sent(one) == Sent(one[..0]) + [p];
    assert steps == [Step.Send(p, 0), FailedSend(m)] && steps[..1] == one;
    assert After(one) == Tx([p], [], []);
    Dropped([], [p]);
  }

  /** When the ring is in step with its log, a slot holds an mbuf exactly when the mbuf is among
      those the log still holds. */
  lemma RingHolds(r: TxRing, m: Mbuf)
    requires r.Valid()
    ensures (exists i | 0 <= i < r.table.Length :: r.table[i] == Some(m)) <==>
            m in Recorded(r.log[Reused(|r.log|)..])
  {
    var lo, n := Reused(|r.log|), |r.log|;
    RecordedMembers(r.log[lo..], m);
    if i :| 0 <= i < r.table.Length && r.table[i] == Some(m) {
      var p := SlotPosition(n, i);
      assert r.log[lo..][p - lo] == Some(m);
    }
    if Some(m) in r.log[lo..] {
      var k :| 0 <= k < n - lo && r.log[lo..][k] == Some(m);
      assert r.table[Slot(lo + k)] == r.log[lo + k];
    }
  }

  /** The latest position that used slot i, if any has. */
  lemma SlotPosition(n: nat, i: nat) returns (p: nat)
    requires i < TX_QUEUE_SIZE && i < n
    ensures Reused(n) <= p < n && Slot(p) == i
  {
    p := n - 1 - (n - 1 - i) % TX_QUEUE_SIZE;
  }

  lemma {:induction false} RecordedMembers(log: seq<Option<Mbuf>>, m: Mbuf)
    ensures m in Recorded(log) <==> Some(m) in log
  {
    if log != [] {
      RecordedMembers(log[..|log| - 1], m);
      assert log == log[..|log| - 1] + [log[|log| - 1]];
    }
  }
}
