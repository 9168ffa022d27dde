/** Scatter/gather input and output: uiomove moves bytes between one buffer and a vector of memory
    areas, copyinuio sets such a vector up. */
module Uio {

  import opened Common

  const UINT_RANGE := 0x1_0000_0000
  const UIO_MAXIOV := 1024              // FreeBSD's sys/uio.h, not part of this repository

  /** struct iovec; base is an address in the flat memory the vector refers to. */
  datatype Iovec = Iovec(base: nat, len: nat)

  datatype Segment = UserSpace | SysSpace | NoCopy

  // ----- what a vector stands for -----

  function Total(v: seq<Iovec>): nat { if v == [] then 0 else v[0].len + Total(v[1..]) }

  lemma {:induction false} TotalSnoc(v: seq<Iovec>, i: nat)
    requires i < |v|
    ensures Total(v[..i + 1]) == Total(v[..i]) + v[i].len
    ensures Total(v[..i + 1]) <= Total(v)
  {
    if i == 0 {
      assert v[..1][1..] == [] && v[..0] == [];
    } else {
      TotalSnoc(v[1..], i - 1);
      assert v[..i + 1][1..] == v[1..][..i] && v[..i][1..] == v[1..][..i - 1];
    }
  }

  function Range(base: nat, len: nat): (r: seq<nat>)
    ensures |r| == len
  {
    seq(len, i requires 0 <= i < len => base + i)
  }

  /** The addresses a vector covers, in the order they are used. */
  function Addrs(v: seq<Iovec>): (r: seq<nat>)
    ensures |r| == Total(v)
  {
    if v == [] then [] else Range(v[0].base, v[0].len) + Addrs(v[1..])
  }

  ghost predicate Inside(at: seq<nat>, size: nat) { forall i | 0 <= i < |at| :: at[i] < size }

  /** Storing d[i] at address at[i], for each i in turn. */
  function Scatter(m: seq<Byte>, at: seq<nat>, d: seq<Byte>): (r: seq<Byte>)
    requires |at| == |d| && Inside(at, |m|)
    ensures |r| == |m|
  {
    if at == [] then m
    else Scatter(m, at[..|at| - 1], d[..|d| - 1])[at[|at| - 1] := d[|d| - 1]]
  }

  function Gather(m: seq<Byte>, at: seq<nat>): (r: seq<Byte>)
    requires Inside(at, |m|)
    ensures |r| == |at|
  {
    seq(|at|, i requires 0 <= i < |at| => m[at[i]])
  }

  /** The vector that is left when n bytes have been moved: full areas dropped only when a later
      byte is needed. */
  function Advance(v: seq<Iovec>, n: int): seq<Iovec>
    decreases |v|, if n > 0 then n else 0
  {
    if n <= 0 || Total(v) == 0 then v
    else if v[0].len == 0 then Advance(v[1..], n)
    else
      var cnt := Min(v[0].len, n);
      Advance(Bite(v, cnt), n - cnt)
  }

  lemma TakeHead(v: seq<Iovec>, cnt: nat)
    requires v != [] && cnt <= v[0].len
    ensures var v' := Bite(v, cnt);
      Total(v') == Total(v) - cnt && Addrs(v') == Addrs(v)[cnt..]
  {
    var v' := Bite(v, cnt);
    assert v'[1..] == v[1..];
    assert Range(v[0].base, v[0].len)[cnt..] == Range(v[0].base + cnt, v[0].len - cnt);
  }

  lemma EmptyHead(v: seq<Iovec>)
    requires v != [] && v[0].len == 0
    ensures Addrs(v) == Addrs(v[1..]) && Total(v) == Total(v[1..])
  {
  }

  /** v without the first n bytes of its head area. */
  function Bite(v: seq<Iovec>, n: nat): seq<Iovec>
    requires v != [] && n <= v[0].len
  {
    [Iovec(v[0].base + n, v[0].len - n)] + v[1..]
  }

  /** Byte i of area j is used after all bytes of the areas before j. */
  lemma {:induction false} AddrsAt(v: seq<Iovec>, j: nat, i: nat)
    requires j < |v| && i < v[j].len
    ensures Total(v[..j]) + i < |Addrs(v)| && Addrs(v)[Total(v[..j]) + i] == v[j].base + i
  {
    if j > 0 {
      AddrsAt(v[1..], j - 1, i);
      assert v[..j][1..] == v[1..][..j - 1];
    }
  }

  lemma AdvanceHead(v: seq<Iovec>, n: nat)
    requires n > 0 && v != [] && v[0].len > 0
    ensures Advance(v, n) == Advance(Bite(v, Min(v[0].len, n)), n - Min(v[0].len, n))
    ensures v[0].len <= Total(v)
  {
  }

  lemma AdvanceNone(v: seq<Iovec>, n: int)
    ensures n <= 0 || Total(v) == 0 ==> Advance(v, n) == v
    ensures Total(v) > 0 ==> v != []
    ensures n > 0 && Total(v) > 0 && v[0].len == 0 ==> Advance(v, n) == Advance(v[1..], n)
  {
  }

  /** Moving n bytes uses up the first n addresses, or all of them. */
  lemma {:induction false} AdvanceDrops(v: seq<Iovec>, n: nat)
    ensures Addrs(Advance(v, n)) == Addrs(v)[Min(n, Total(v))..]
    decreases |v|, n
  {
    hide Addrs, Total, Range, Advance;
    AdvanceNone(v, n);
    if n == 0 || Total(v) == 0 {
      assert Addrs(v)[0..] == Addrs(v);
    } else if v[0].len == 0 {
      EmptyHead(v);
      AdvanceDrops(v[1..], n);
    } else {
      var cnt := Min(v[0].len, n);
      TakeHead(v, cnt);
      AdvanceHead(v, n);
      AdvanceDrops(Bite(v, cnt), n - cnt);
      DropDrop(Addrs(v), cnt, Min(n - cnt, Total(v) - cnt));
    }
  }

  /** Moving stops in the area that holds the last byte moved, even when nothing is left of it. */
  lemma {:induction false} AdvanceExactly(v: seq<Iovec>, n: nat, j: nat)
    requires j < |v| && Total(v[..j]) < Min(n, Total(v)) <= Total(v[..j + 1])
    ensures var k := Min(n, Total(v)) - Total(v[..j]);
      k <= v[j].len && Advance(v, n) == [Iovec(v[j].base + k, v[j].len - k)] + v[j + 1..]
    decreases |v|
  {
    hide Advance, Total;
    TotalSnoc(v, j);
    if j == 0 {
      NoTotal(v);
      AdvanceInHead(v, n);
    } else {
      TotalFirst(v, j);
      TotalFirst(v, j + 1);
      TotalFirst(v, |v|);
      assert v[..|v|] == v && v[1..][..|v| - 1] == v[1..];
      AdvancePast(v, n);
      AdvanceExactly(v[1..], n - v[0].len, j - 1);
    }
  }

  lemma NoTotal(v: seq<Iovec>)
    ensures Total(v[..0]) == 0
  {
  }

  lemma TotalFirst(v: seq<Iovec>, j: nat)
    requires 0 < j <= |v|
    ensures Total(v[..j]) == v[0].len + Total(v[1..][..j - 1])
  {
    assert v[..j][1..] == v[1..][..j - 1];
  }

  lemma AdvanceInHead(v: seq<Iovec>, n: nat)
    requires v != [] && 0 < Min(n, Total(v)) <= v[0].len
    ensures Advance(v, n) == Bite(v, Min(n, Total(v)))
  {
    hide Advance, Total, Addrs, Bite;
    AdvanceHead(v, n);
    TakeHead(v, Min(v[0].len, n));
    AdvanceNone(Bite(v, Min(v[0].len, n)), n - Min(v[0].len, n));
  }

  lemma AdvancePast(v: seq<Iovec>, n: nat)
    requires v != [] && v[0].len < Min(n, Total(v))
    ensures Advance(v, n) == Advance(v[1..], n - v[0].len)
  {
    hide Advance, Total, Addrs;
    AdvanceNone(v, n);
    if v[0].len > 0 {
      AdvanceHead(v, n);
      TakeHead(v, v[0].len);
      assert Bite(v, v[0].len)[1..] == v[1..];
      AdvanceNone(Bite(v, v[0].len), n - v[0].len);
    }
  }

  lemma DropDrop(s: seq<nat>, a: nat, b: nat)
    requires a + b <= |s|
    ensures s[a..][b..] == s[a + b..]
  {
  }

  /** Moving a bytes and then b bytes leaves the vector as moving a + b bytes does. */
  lemma {:induction false} AdvanceComposes(v: seq<Iovec>, a: nat, b: nat)
    ensures Advance(Advance(v, a), b) == Advance(v, a + b)
    decreases |v|, a
  {
    if a > 0 && Total(v) != 0 {
      if v[0].len == 0 {
        AdvanceComposes(v[1..], a, b);
      } else {
        var cnt := Min(v[0].len, a);
        var v' := Bite(v, cnt);
        TakeHead(v, cnt);
        AdvanceComposes(v', a - cnt, b);
        if cnt == a { AdvanceSplit(v, a, b); }
      }
    }
  }

  /** The case in which the first move ends inside, or at the end of, the head area. */
  lemma {:induction false} AdvanceSplit(v: seq<Iovec>, a: nat, b: nat)
    requires v != [] && 0 < a <= v[0].len
    ensures Advance(Bite(v, a), b) == Advance(v, a + b)
  {
    var v' := Bite(v, a);
    TakeHead(v, a);
    assert v'[1..] == v[1..];
    if b > 0 {
      if v[0].len > a {
        var c := Min(v'[0].len, b);
        assert Min(v[0].len, a + b) == a + c;
        assert [Iovec(v'[0].base + c, v'[0].len - c)] + v'[1..] ==
               [Iovec(v[0].base + (a + c), v[0].len - (a + c))] + v[1..];
      }
    }
  }

  // ----- memory -----

  lemma {:induction false} ScatterJoin(m: seq<Byte>, a: seq<nat>, b: seq<nat>, d: seq<Byte>, e: seq<Byte>)
    requires |a| == |d| && |b| == |e| && Inside(a + b, |m|)
    ensures Inside(a, |m|) && Inside(b, |m|)
    ensures Scatter(Scatter(m, a, d), b, e) == Scatter(m, a + b, d + e)
  {
    forall i | 0 <= i < |a| ensures a[i] < |m| { assert (a + b)[i] == a[i]; }
    forall i | 0 <= i < |b| ensures b[i] < |m| { assert (a + b)[|a| + i] == b[i]; }
    if b == [] {
      assert a + b == a && d + e == d;
    } else {
      var n := |b| - 1;
      assert (a + b)[..|a + b| - 1] == a + b[..n] && (d + e)[..|d + e| - 1] == d + e[..n];
      ScatterJoin(m, a, b[..n], d, e[..n]);
    }
  }

  ghost predicate Distinct(at: seq<nat>) { forall i, j | 0 <= i < j < |at| :: at[i] != at[j] }

  lemma {:induction false} ScatterElsewhere(m: seq<Byte>, at: seq<nat>, d: seq<Byte>, x: nat)
    requires |at| == |d| && Inside(at, |m|) && x < |m| && x !in at
    ensures Scatter(m, at, d)[x] == m[x]
  {
    if at != [] { ScatterElsewhere(m, at[..|at| - 1], d[..|d| - 1], x); }
  }

  lemma {:induction false} GatherScattered(m: seq<Byte>, at: seq<nat>, d: seq<Byte>)
    requires |at| == |d| && Inside(at, |m|) && Distinct(at)
    ensures Gather(Scatter(m, at, d), at) == d
  {
    if at != [] {
      var n := |at| - 1;
      GatherScattered(m, at[..n], d[..n]);
      var r := Scatter(m, at[..n], d[..n]);
      forall i | 0 <= i < |at| ensures Gather(Scatter(m, at, d), at)[i] == d[i] {
        if i < n { assert Gather(r, at[..n])[i] == d[..n][i]; }
      }
    }
  }

  ghost predicate Restores(m: seq<Byte>, at: seq<nat>, d: seq<Byte>)
    requires |at| == |d| && Inside(at, |m|)
  {
    Gather(Scatter(m, at, d), at) == d
  }

  lemma OverlapLoses(m: seq<Byte>, at: seq<nat>, d: seq<Byte>, i: nat, j: nat)
    requires |at| == |d| && Inside(at, |m|) && i < j < |at| && at[i] == at[j] && d[i] != d[j]
    ensures !Restores(m, at, d)
  {
    var r := Scatter(m, at, d);
    assert Gather(r, at)[i] == r[at[i]] == Gather(r, at)[j];
  }

  /** Scattering data and gathering it again restores it, for all data, exactly when the areas
      moved through do not overlap. */
  lemma ScatterGather(m: seq<Byte>, at: seq<nat>)
    requires Inside(at, |m|)
    ensures (forall d: seq<Byte> | |d| == |at| :: Restores(m, at, d)) <==> Distinct(at)
  {
    if Distinct(at) {
      forall d: seq<Byte> | |d| == |at| ensures Restores(m, at, d) { GatherScattered(m, at, d); }
    } else {
      hide Restores;
      var i, j :| 0 <= i < j < |at| && at[i] == at[j];
      var d: seq<Byte> := seq(|at|, k => if k == j then 1 else 0);
      OverlapLoses(m, at, d, i, j);
    }
  }

  // ----- uiomove -----

  /** What memory and buffer hold when the bytes for the addresses in at have been moved. */
  ghost predicate Moved(read: bool, seg: Segment, m: seq<Byte>, c: seq<Byte>, m0: seq<Byte>, c0: seq<Byte>,
                        at: seq<nat>)
  {
    && Inside(at, |m0|)
    && if seg == NoCopy then m == m0 && c == c0
       else if |at| > |c0| then false
       else if read then m == Scatter(m0, at, c0[..|at|]) && c == c0
       else m == m0 && c == Gather(m0, at) + c0[|at|..]
  }

  /** What a move does, byte by byte: a read changes only the addresses used, the last byte for an
      address staying there, a write changes only the first |at| bytes of the buffer. */
  lemma MovedMeans(read: bool, seg: Segment, m: seq<Byte>, c: seq<Byte>, m0: seq<Byte>, c0: seq<Byte>, at: seq<nat>)
    requires Moved(read, seg, m, c, m0, c0, at)
    ensures |m| == |m0| && |c| == |c0| && (seg == NoCopy || !read ==> m == m0) && (seg == NoCopy || read ==> c == c0)
    ensures seg != NoCopy && read ==>
              && |at| <= |c0| && (forall x | 0 <= x < |m| && x !in at :: m[x] == m0[x])
              && forall i | 0 <= i < |at| && at[i] !in at[i + 1..] :: at[i] < |m| && m[at[i]] == c0[i]
    ensures seg != NoCopy && !read ==>
              && |at| <= |c0| && c[|at|..] == c0[|at|..]
              && forall i | 0 <= i < |at| :: at[i] < |m0| && c[i] == m0[at[i]]
  {
    if seg != NoCopy && read {
      forall x | 0 <= x < |m| && x !in at ensures m[x] == m0[x] { ScatterElsewhere(m0, at, c0[..|at|], x); }
      forall i | 0 <= i < |at| && at[i] !in at[i + 1..] ensures m[at[i]] == c0[i] {
        ScatterLast(m0, at, c0[..|at|], i);
      }
    }
  }

  lemma {:induction false} ScatterLast(m: seq<Byte>, at: seq<nat>, d: seq<Byte>, i: nat)
    requires |at| == |d| && Inside(at, |m|) && i < |at| && at[i] !in at[i + 1..]
    ensures Scatter(m, at, d)[at[i]] == d[i]
    decreases |at|
  {
    var n := |at| - 1;
    if i < n {
      assert at[i + 1..][n - i - 1] == at[n];
      assert at[..n][i + 1..] == at[i + 1..][..n - i - 1];
      ScatterLast(m, at[..n], d[..n], i);
    }
  }

  lemma MovedOne(read: bool, m: seq<Byte>, c: seq<Byte>, m0: seq<Byte>, c0: seq<Byte>, at: seq<nat>, x: nat)
    requires Moved(read, UserSpace, m, c, m0, c0, at) && x < |m0| && |at| < |c0|
    ensures |m| == |m0| && |c| == |c0|
    ensures read ==> Moved(read, UserSpace, m[x := c[|at|]], c, m0, c0, at + [x])
    ensures !read ==> Moved(read, UserSpace, m, c[|at| := m[x]], m0, c0, at + [x])
  {
    var n := |at|;
    assert (at + [x])[..n] == at && c0[..n + 1][..n] == c0[..n];
    assert !read ==> c[n := m[x]] == Gather(m0, at + [x]) + c0[n + 1..];
  }

  lemma RangeStep(base: nat, k: nat)
    ensures Range(base, k + 1) == Range(base, k) + [base + k]
  {
  }

  /** One bcopy of uiomove. */
  method CopyChunk(read: bool, cp: array<Byte>, done: nat, mem: array<Byte>, base: nat, cnt: nat,
                   ghost m0: seq<Byte>, ghost c0: seq<Byte>, ghost at: seq<nat>)
    requires cp != mem && |at| == done && done + cnt <= cp.Length && base + cnt <= mem.Length
    requires Moved(read, UserSpace, mem[..], cp[..], m0, c0, at)
    modifies cp, mem
    ensures Moved(read, UserSpace, mem[..], cp[..], m0, c0, at + Range(base, cnt))
  {
    hide Moved, Range;
    var k := 0;
    RangeNone(at, base);
    while k < cnt
      invariant 0 <= k <= cnt
      invariant Moved(read, UserSpace, mem[..], cp[..], m0, c0, at + Range(base, k))
    {
      ghost var at' := at + Range(base, k);
      MovedSizes(read, mem[..], cp[..], m0, c0, at');
      MovedOne(read, mem[..], cp[..], m0, c0, at', base + k);
      RangeStep(base, k);
      assert at' + [base + k] == at + Range(base, k + 1);
      if read { mem[base + k] := cp[done + k]; } else { cp[done + k] := mem[base + k]; }
      k := k + 1;
    }
  }

  lemma RangeNone(at: seq<nat>, base: nat)
    ensures at + Range(base, 0) == at
  {
  }

  lemma MovedSizes(read: bool, m: seq<Byte>, c: seq<Byte>, m0: seq<Byte>, c0: seq<Byte>, at: seq<nat>)
    requires Moved(read, UserSpace, m, c, m0, c0, at)
    ensures |m| == |m0| && |c| == |c0|
  {
  }

  lemma MovedLengths(read: bool, seg: Segment, m: seq<Byte>, c: seq<Byte>, m0: seq<Byte>, c0: seq<Byte>, at: seq<nat>)
    requires Moved(read, seg, m, c, m0, c0, at)
    ensures |m| == |m0| && |c| == |c0|
  {
  }

  lemma ChunkAddrs(a0: seq<nat>, done: nat, base: nat, len: nat, cnt: nat)
    requires done <= |a0| && Range(base, len) <= a0[done..] && cnt <= len
    ensures done + cnt <= |a0| && a0[..done] + Range(base, cnt) == a0[..done + cnt]
    ensures forall i | done <= i < done + cnt :: a0[i] == base + i - done
  {
    forall i | done <= i < done + cnt ensures a0[i] == base + i - done {
      assert a0[done..][i - done] == Range(base, len)[i - done];
    }
  }

  /** What uiomove found when it was called. */
  datatype Start = Start(v: seq<Iovec>, at: seq<nat>, m: seq<Byte>, c: seq<Byte>, resid: int, offset: int, n: int)

  /** struct uio */
  class Uio {
    const iovs: array<Iovec>
    var iov: nat                        // uio_iov, as an index
    var iovcnt: nat
    var resid: int
    var offset: int
    var read: bool                      // uio_rw == UIO_READ
    var seg: Segment

    constructor (iovs: array<Iovec>)
      ensures this.iovs == iovs && iov == 0 && iovcnt == iovs.Length && resid == 0 && offset == -1
      ensures seg == UserSpace && !read
    {
      this.iovs := iovs;
      iov, iovcnt, resid, offset, read, seg := 0, iovs.Length, 0, -1, false, UserSpace;
    }

    ghost function Vec(): seq<Iovec>
      requires iov + iovcnt <= iovs.Length
      reads this, iovs
    {
      iovs[iov..iov + iovcnt]
    }

    /** uio_resid is the sum of the remaining lengths, as copyinuio sets it up. */
    ghost predicate Valid()
      reads this, iovs
    {
      iov + iovcnt <= iovs.Length && resid == Total(Vec()) <= INT_MAX
    }

    lemma HeadFits()
      requires Valid() && resid != 0
      ensures iovcnt > 0 && iovs[iov] == Vec()[0] && iovs[iov].len <= resid
      ensures iovs[iov].len == 0 ==> Addrs(Vec()) == Addrs(Vec()[1..]) && Total(Vec()) == Total(Vec()[1..])
      ensures Range(iovs[iov].base, iovs[iov].len) <= Addrs(Vec())
    {
    }

    /** The bookkeeping after one bcopy. */
    method TakeBytes(cnt: nat)
      requires Valid() && resid != 0 && iovcnt > 0 && 0 < cnt <= iovs[iov].len <= resid
      modifies iovs, `resid, `offset
      ensures Valid() && Vec() == Bite(old(Vec()), cnt)
      ensures resid == old(resid) - cnt && offset == old(offset) + cnt
    {
      TakeHead(Vec(), cnt);
      iovs[iov] := Iovec(iovs[iov].base + cnt, iovs[iov].len - cnt);
      resid := resid - cnt;
      offset := offset + cnt;
      assert Vec() == Bite(old(Vec()), cnt);
    }

    /** Stepping over an area that is used up. */
    method SkipArea()
      requires Valid() && iovcnt > 0 && iovs[iov].len == 0
      modifies `iov, `iovcnt
      ensures Valid() && Vec() == old(Vec())[1..] && Addrs(Vec()) == old(Addrs(Vec()))
    {
      EmptyHead(Vec());
      iov := iov + 1;
      iovcnt := iovcnt - 1;
      assert Vec() == old(Vec())[1..];
    }

    /** The switch on uio_segflg. */
    method Chunk(cp: array<Byte>, done: nat, mem: array<Byte>, cnt: nat, ghost m0: seq<Byte>, ghost c0: seq<Byte>,
                 ghost a0: seq<nat>)
      requires Valid() && resid != 0 && cp != mem && iovcnt > 0 && cnt <= iovs[iov].len &&
               (seg == NoCopy || done + cnt <= cp.Length)
      requires done <= |a0| && a0[done..] == Addrs(Vec()) && Inside(a0, |m0|)
      requires Moved(read, seg, mem[..], cp[..], m0, c0, a0[..done])
      modifies cp, mem
      ensures done + cnt <= |a0| && Moved(read, seg, mem[..], cp[..], m0, c0, a0[..done + cnt])
    {
      HeadFits();
      var base := iovs[iov].base;
      ChunkAddrs(a0, done, base, iovs[iov].len, cnt);
      MovedLengths(read, seg, mem[..], cp[..], m0, c0, a0[..done]);
      assert Inside(a0[..done + cnt], |m0|);
      if seg == NoCopy { return; }
      if cnt > 0 { assert a0[done + cnt - 1] == base + cnt - 1; }
      CopyChunk(read, cp, done, mem, if cnt > 0 then base else 0, cnt, m0, c0, a0[..done]);
    }

    /** done bytes of the n asked for have been moved, left are still to do. */
    ghost predicate InMotion(mem: array<Byte>, cp: array<Byte>, st: Start, left: int, done: nat)
      reads this, iovs, mem, cp
    {
      && Valid() && cp != mem && |st.c| == cp.Length && |st.m| == mem.Length
      && (seg == NoCopy || Min(st.n, st.resid) <= |st.c|) && Inside(st.at, |st.m|)
      && done <= |st.at| && left == st.n - done && (st.n >= 0 ==> left >= 0) && (st.n < 0 ==> done == 0)
      && resid == st.resid - done && offset == st.offset + done
      && Advance(Vec(), left) == Advance(st.v, st.n) && Addrs(Vec()) == st.at[done..]
      && Moved(read, seg, mem[..], cp[..], st.m, st.c, st.at[..done])
    }

    lemma Bitten(cnt: nat, left: int, at: seq<nat>, done: nat)
      requires Valid() && resid != 0 && iovcnt > 0 && 0 < cnt == Min(iovs[iov].len, left)
      requires done <= |at| && Addrs(Vec()) == at[done..]
      ensures cnt <= iovs[iov].len <= resid && done + cnt <= |at|
      ensures Advance(Bite(Vec(), cnt), left - cnt) == Advance(Vec(), left)
      ensures Addrs(Bite(Vec(), cnt)) == at[done + cnt..]
    {
      HeadFits();
      AdvanceHead(Vec(), left);
      TakeHead(Vec(), cnt);
      DropDrop(at, done, cnt);
    }

    /** One turn of the loop that moves bytes. */
    method MoveTurn(cp: array<Byte>, mem: array<Byte>, cnt: nat, ghost st: Start, ghost left: int, done: nat)
      requires InMotion(mem, cp, st, left, done) && resid != 0 && iovcnt > 0 && 0 < cnt == Min(iovs[iov].len, left)
      modifies iovs, `resid, `offset, cp, mem
      ensures InMotion(mem, cp, st, left - cnt, done + cnt)
    {
      hide Moved, Advance, Addrs, Total, Range, Bite;
      Bitten(cnt, left, st.at, done);
      Chunk(cp, done, mem, cnt, st.m, st.c, st.at);
      TakeBytes(cnt);
    }

    /** The turn that steps over an empty area. */
    method SkipTurn(cp: array<Byte>, mem: array<Byte>, ghost st: Start, ghost left: int, ghost done: nat)
      requires InMotion(mem, cp, st, left, done) && resid != 0 && left > 0 && iovcnt > 0 && iovs[iov].len == 0
      modifies `iov, `iovcnt
      ensures InMotion(mem, cp, st, left, done) && iovcnt == old(iovcnt) - 1
    {
      hide Moved, Addrs, Range;
      SkipArea();
    }

    /** One turn of the loop of uiomove. */
    method Turn(cp: array<Byte>, mem: array<Byte>, left: int, done: nat, ghost st: Start)
      returns (left': int, done': nat)
      requires InMotion(mem, cp, st, left, done) && left > 0 && resid != 0
      modifies `iov, `iovcnt, `resid, `offset, iovs, cp, mem
      ensures InMotion(mem, cp, st, left', done')
      ensures iovcnt < old(iovcnt) || (iovcnt == old(iovcnt) && left' < left)
    {
      hide Moved, Advance, Addrs, Total, Range, Bite, InMotion, Valid;
      InBounds(cp, mem, st, left, done);
      left', done' := left, done;
      var cnt := iovs[iov].len % UINT_RANGE;
      if cnt == 0 {
        SkipTurn(cp, mem, st, left, done);
      } else {
        if cnt > left { cnt := left; }
        MoveTurn(cp, mem, cnt, st, left, done);
        left' := left - cnt;
        done' := done + cnt;
      }
    }

    /** uiomove: moves min(n, resid) bytes, in order, between cp and the areas. */
    method Uiomove(cp: array<Byte>, n: int, mem: array<Byte>) returns (error: int)
      requires Valid() && cp != mem && Inside(Addrs(Vec()), mem.Length)
      requires seg == NoCopy || Min(n, resid) <= cp.Length
      modifies this, iovs, cp, mem
      ensures Valid() && error == 0 && read == old(read) && seg == old(seg)
      ensures var k := Min(if n < 0 then 0 else n, old(resid));
        && resid == old(resid) - k && offset == old(offset) + k
        && Vec() == Advance(old(Vec()), n) && Addrs(Vec()) == old(Addrs(Vec()))[k..]
        && Moved(old(read), old(seg), mem[..], cp[..], old(mem[..]), old(cp[..]), old(Addrs(Vec()))[..k])
    {
      error := 0;
      var left: int, done: nat := n, 0;
      ghost var st := Start(Vec(), Addrs(Vec()), mem[..], cp[..], resid, offset, n);
      hide InMotion, Moved, Advance, Addrs, Total, Range, Vec;
      Begun(cp, mem, st);
      while left > 0 && resid != 0
        invariant InMotion(mem, cp, st, left, done) && read == old(read) && seg == old(seg)
        decreases iovcnt, left
      {
        left, done := Turn(cp, mem, left, done, st);
      }
      Ended(cp, mem, st, left, done);
    }

    lemma Begun(cp: array<Byte>, mem: array<Byte>, st: Start)
      requires Valid() && st == Start(Vec(), Addrs(Vec()), mem[..], cp[..], resid, offset, st.n)
      requires (seg == NoCopy || Min(st.n, st.resid) <= cp.Length) && cp != mem && Inside(st.at, mem.Length)
      ensures InMotion(mem, cp, st, st.n, 0)
    {
      assert st.at[..0] == [] && st.at[0..] == st.at;
      assert Gather(st.m, []) + st.c[0..] == st.c;
    }

    lemma InBounds(cp: array<Byte>, mem: array<Byte>, st: Start, left: int, done: nat)
      requires InMotion(mem, cp, st, left, done) && resid != 0
      ensures Valid() && iovcnt > 0 && iov < iovs.Length && iovs[iov].len <= INT_MAX
    {
      HeadFits();
    }

    lemma Ended(cp: array<Byte>, mem: array<Byte>, st: Start, left: int, done: nat)
      requires InMotion(mem, cp, st, left, done) && (left <= 0 || resid == 0) && |st.at| == st.resid
      ensures Valid() && done == Min(if st.n < 0 then 0 else st.n, st.resid)
      ensures resid == st.resid - done && offset == st.offset + done
      ensures Vec() == Advance(st.v, st.n) && Addrs(Vec()) == st.at[done..]
      ensures Moved(read, seg, mem[..], cp[..], st.m, st.c, st.at[..done])
    {
    }
  }

  // ----- several moves -----

  /** Two moves through the addresses x and then y do what one move through all of them does. */
  lemma MovedTwice(read: bool, seg: Segment, m0: seq<Byte>, m1: seq<Byte>, m2: seq<Byte>, c0: seq<Byte>, c1: seq<Byte>,
                   d0: seq<Byte>, d1: seq<Byte>, x: seq<nat>, y: seq<nat>)
    requires Moved(read, seg, m1, c1, m0, c0, x) && Moved(read, seg, m2, d1, m1, d0, y)
    requires |x| == |c0| || y == []
    ensures Moved(read, seg, m2, c1 + d1, m0, c0 + d0, x + y)
  {
    MovedLengths(read, seg, m1, c1, m0, c0, x);
    assert Inside(x + y, |m0|);
    if seg != NoCopy {
      if read { ReadTwice(m0, c0, d0, x, y); } else { WrittenTwice(m0, c0, d0, x, y); }
      hide Scatter, Gather;
    }
  }

  lemma MovedUnique(read: bool, seg: Segment, m: seq<Byte>, c: seq<Byte>, m': seq<Byte>, c': seq<Byte>,
                    m0: seq<Byte>, c0: seq<Byte>, at: seq<nat>)
    requires Moved(read, seg, m, c, m0, c0, at) && Moved(read, seg, m', c', m0, c0, at)
    ensures m == m' && c == c'
  {
    hide Scatter, Gather;
  }

  lemma ReadTwice(m: seq<Byte>, c: seq<Byte>, d: seq<Byte>, x: seq<nat>, y: seq<nat>)
    requires Inside(x, |m|) && Inside(y, |m|) && Inside(x + y, |m|) && |x| <= |c| && |y| <= |d| &&
             (|x| == |c| || y == [])
    ensures Scatter(Scatter(m, x, c[..|x|]), y, d[..|y|]) == Scatter(m, x + y, (c + d)[..|x + y|])
  {
    var e := (c + d)[..|x + y|];
    TakeBoth(c, d, |x|, |y|);
    ScatterJoin(m, x, y, c[..|x|], d[..|y|]);
    hide Scatter, Inside;
    assert e == c[..|x|] + d[..|y|];
    assert Scatter(m, x + y, e) == Scatter(m, x + y, c[..|x|] + d[..|y|]);
  }

  lemma TakeBoth(c: seq<Byte>, d: seq<Byte>, k: nat, l: nat)
    requires k <= |c| && l <= |d| && (k == |c| || l == 0)
    ensures (c + d)[..k + l] == c[..k] + d[..l]
  {
  }

  lemma WrittenTwice(m: seq<Byte>, c: seq<Byte>, d: seq<Byte>, x: seq<nat>, y: seq<nat>)
    requires Inside(x, |m|) && Inside(y, |m|) && Inside(x + y, |m|) && |x| <= |c| && |y| <= |d| &&
             (|x| == |c| || y == [])
    ensures Gather(m, x + y) + (c + d)[|x + y|..] == (Gather(m, x) + c[|x|..]) + (Gather(m, y) + d[|y|..])
  {
    GatherJoin(m, x, y);
    hide Gather;
    assert c[|x|..] + Gather(m, y) == Gather(m, y) + c[|x|..];
    assert (c + d)[|x + y|..] == c[|x|..] + d[|y|..];
  }

  lemma GatherJoin(m: seq<Byte>, x: seq<nat>, y: seq<nat>)
    requires Inside(x, |m|) && Inside(y, |m|) && Inside(x + y, |m|)
    ensures Gather(m, x + y) == Gather(m, x) + Gather(m, y)
  {
  }

  lemma SplitMove(at: seq<nat>, a: nat, b: nat, k: nat, l: nat)
    requires k == Min(a, |at|) && l == Min(b, |at| - k)
    ensures k + l == Min(a + b, |at|) && at[..k + l] == at[..k] + at[k..][..l]
    ensures |at[..k]| == a || at[k..][..l] == []
  {
  }

  /** Two uiomove calls, the first for all of c1 and the second for all of c2. */
  method MoveBoth(u: Uio, c1: array<Byte>, c2: array<Byte>, mem: array<Byte>)
    requires c1 != c2 && c1 != mem && c2 != mem && u.Valid() && Inside(Addrs(u.Vec()), mem.Length)
    modifies u, u.iovs, c1, c2, mem
    ensures u.Valid() && u.read == old(u.read) && u.seg == old(u.seg)
    ensures var n := c1.Length + c2.Length; var at := old(Addrs(u.Vec())); var k := Min(n, old(u.resid));
      && u.Vec() == Advance(old(u.Vec()), n) && u.resid == old(u.resid) - k && u.offset == old(u.offset) + k
      && 0 <= k <= |at|
      && Moved(u.read, u.seg, mem[..], c1[..] + c2[..], old(mem[..]), old(c1[..] + c2[..]), at[..k])
  {
    hide Addrs, Total, Advance, Moved, Range;
    ghost var v, at, m0, d1, d2 := u.Vec(), Addrs(u.Vec()), mem[..], c1[..], c2[..];
    var a, b := c1.Length, c2.Length;
    ghost var k := Min(a, |at|);
    ghost var l := Min(b, |at| - k);
    SplitMove(at, a, b, k, l);
    TotalIs(u);
    var e1 := u.Uiomove(c1, a, mem);
    ghost var m1 := mem[..];
    InsideLeft(at, k, mem.Length);
    var e2 := u.Uiomove(c2, b, mem);
    AdvanceComposes(v, a, b);
    MovedTwice(u.read, u.seg, m0, m1, mem[..], d1, c1[..], d2, c2[..], at[..k], at[k..][..l]);
  }

  /** Two uiomove calls, for a and then b bytes, against one for a + b bytes on another uio with an
      equal vector and an equal memory: vector, residual count, memory and buffers end up alike,
      also when the vector runs out on the way. */
  method MoveComposes(u: Uio, c1: array<Byte>, c2: array<Byte>, mem: array<Byte>, w: Uio, c: array<Byte>,
                      mem': array<Byte>)
    requires u != w && u.iovs != w.iovs && mem != mem' && c1 != c2 && c1 != c && c2 != c
    requires c1 != mem && c1 != mem' && c2 != mem && c2 != mem' && c != mem && c != mem'
    requires u.Valid() && w.Valid() && u.Vec() == w.Vec() && u.read == w.read && u.seg == w.seg && mem[..] == mem'[..]
    requires u.offset == w.offset && c[..] == c1[..] + c2[..] && Inside(Addrs(u.Vec()), mem.Length)
    modifies u, u.iovs, c1, c2, mem, w, w.iovs, c, mem'
    ensures u.Valid() && w.Valid() && u.Vec() == w.Vec() && u.resid == w.resid && u.offset == w.offset
    ensures mem[..] == mem'[..] && c[..] == c1[..] + c2[..]
  {
    hide Addrs, Total, Advance, Moved, Range;
    ghost var at, m0, c0 := Addrs(u.Vec()), mem[..], c[..];
    TotalIs(u);
    TotalIs(w);
    MoveBoth(u, c1, c2, mem);
    var e := w.Uiomove(c, c1.Length + c2.Length, mem');
    MovedUnique(u.read, u.seg, mem[..], c1[..] + c2[..], mem'[..], c[..], m0, c0, at[..Min(c.Length, |at|)]);
  }

  lemma TotalIs(u: Uio)
    requires u.Valid()
    ensures u.resid == |Addrs(u.Vec())|
  {
  }

  lemma InsideLeft(at: seq<nat>, k: nat, size: nat)
    requires Inside(at, size) && k <= |at|
    ensures Inside(at[k..], size)
  {
  }

  /** A read into the areas of one vector and then a write out of an equal vector: the write returns
      what was read in exactly when scattering and gathering restores it, which is the case for all
      data exactly when no two of the addresses used are equal (ScatterGather). */
  method ReadThenWrite(u: Uio, d: array<Byte>, w: Uio, e: array<Byte>, mem: array<Byte>)
    requires u != w && u.iovs != w.iovs && d != e && d != mem && e != mem && d.Length == e.Length
    requires u.Valid() && w.Valid() && u.Vec() == w.Vec() && u.read && !w.read && u.seg != NoCopy && w.seg != NoCopy
    requires Inside(Addrs(u.Vec()), mem.Length)
    modifies u, u.iovs, w, w.iovs, e, mem, d
    ensures var k := Min(d.Length, |old(Addrs(u.Vec()))|); var at := old(Addrs(u.Vec()))[..k];
      && d[..] == old(d[..]) && e[k..] == old(e[k..]) && Inside(at, |old(mem[..])|)
      && (e[..k] == d[..k] <==> Restores(old(mem[..]), at, old(d[..k])))
      && (Distinct(at) ==> e[..k] == d[..k])
  {
    hide Addrs, Total, Advance, Gather, Scatter, Range, Distinct;
    ghost var at, m0, d0, e0 := Addrs(u.Vec()), mem[..], d[..], e[..];
    TotalIs(u);
    var n := d.Length;
    ghost var k := Min(n, |at|);
    InsideTaken(at, k, mem.Length);
    var e1 := u.Uiomove(d, n, mem);
    var e2 := w.Uiomove(e, n, mem);
    assert e[..k] == Gather(mem[..], at[..k]) && e[k..] == e0[k..];
    if Distinct(at[..k]) { GatherScattered(m0, at[..k], d0[..k]); }
  }

  lemma InsideTaken(at: seq<nat>, k: nat, size: nat)
    requires Inside(at, size) && k <= |at|
    ensures Inside(at[..k], size)
  {
  }

  // ----- copyinuio -----

  datatype Errno = Success | EINVAL | ENOMEM

  /** copyinuio: refuses more than UIO_MAXIOV areas and, among the rest, exactly those vectors
      whose total length exceeds INT_MAX; otherwise the uio satisfies what uiomove relies on. */
  method CopyInUio(iovp: seq<Iovec>, mallocOk: bool) returns (error: Errno, uio: Uio?)
    ensures error == EINVAL <==> |iovp| > UIO_MAXIOV || (mallocOk && Total(iovp) > INT_MAX)
    ensures error == ENOMEM <==> |iovp| <= UIO_MAXIOV && !mallocOk
    ensures error == Success <==> uio != null
    ensures uio != null ==>
              fresh(uio) && fresh(uio.iovs) && uio.Valid() && uio.Vec() == iovp && uio.resid == Total(iovp) &&
              uio.offset == -1 && uio.seg == UserSpace
  {
    uio := null;
    if |iovp| > UIO_MAXIOV { return EINVAL, null; }
    if !mallocOk { return ENOMEM, null; }
    var iovs := new Iovec[|iovp|](i requires 0 <= i < |iovp| => iovp[i]);
    var u := new Uio(iovs);
    assert u.Vec() == iovp;
    var i := 0;
    while i < |iovp|
      invariant 0 <= i <= |iovp| && 0 <= u.resid == Total(iovp[..i]) <= INT_MAX
      invariant u.iov == 0 && u.iovcnt == |iovp| && u.offset == -1 && u.seg == UserSpace && iovs[..] == iovp
    {
      TotalSnoc(iovp, i);
      if iovs[i].len > INT_MAX - u.resid { return EINVAL, null; }
      u.resid := u.resid + iovs[i].len;
      i := i + 1;
    }
    assert iovp[..i] == iovp;
    return Success, u;
  }
}
