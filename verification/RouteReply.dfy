/** The reply to a routing request: update_rtm_from_rc fills the table of addresses, sizes the reply
    and writes it, over the request itself when there is room.  Addresses that are still taken from
    the request may be overwritten before they are read. */
module RouteReply {
  import opened Bits
  import opened Common
  import opened RouteMessage

  // Positions in the address table.
  const RTAX_DST := 0
  const RTAX_GATEWAY := 1
  const RTAX_NETMASK := 2
  const RTAX_GENMASK := 3
  const RTAX_IFP := 4
  const RTAX_IFA := 5
  const RTAX_AUTHOR := 6
  const RTAX_BRD := 7

  // ----- what the reply holds when addresses lie in the message that is rewritten -----

  /** What rt_xaddrs finds behind the header of a reply with the addresses in want. */
  function Reparse(buf: seq<Byte>, lim: nat, want: Addrs, hlen: nat): (p: Parsed)
    requires lim <= |buf|
    ensures |p.slots| == RTAX_MAX
  {
    Parse(buf, lim, Present(want), 0, hlen, NO_SLOTS)
  }

  /** A reply parses back to the addresses in want. */
  ghost predicate ParsesBack(buf: seq<Byte>, lim: nat, want: Addrs, hlen: nat)
    requires lim <= |buf| && |want| == RTAX_MAX
  {
    !Reparse(buf, lim, want, hlen).einval && Recovered(buf, want, Reparse(buf, lim, want, hlen).slots, RTAX_MAX)
  }

  /** It does exactly when they are the same addresses and none is empty. */
  lemma ParsesBackExactly(buf: seq<Byte>, lim: nat, seen: Addrs, want: Addrs, hlen: nat)
    requires |seen| == |want| == RTAX_MAX && AddrsOk(seen) && AddrsOk(want) && SamePresence(seen, want)
    requires hlen + |FlatAddrs(seen)| <= lim <= |buf| && buf[hlen..hlen + |FlatAddrs(seen)|] == FlatAddrs(seen)
    ensures ParsesBack(buf, lim, want, hlen) <==> seen == want && NoneEmpty(want, 0)
  {
    hide Present, FlatAddrs, Parse, NoneEmpty, IsSockaddr;
    PresentSame(seen, want);
    RoundTrip(buf, lim, seen, hlen);
    var slots := Reparse(buf, lim, want, hlen).slots;
    if HitsEmpty(seen, slots) { EmptyNotRecovered(buf, seen, want, slots); }
    if Recovered(buf, want, slots, RTAX_MAX) {
      forall i | 0 <= i < RTAX_MAX ensures seen[i] == want[i] {
        if seen[i].Some? { SameAddress(buf, slots[i].value.off, seen[i].value, want[i].value); }
      }
      assert seen == want;
    }
  }

  lemma EmptyNotRecovered(buf: seq<Byte>, seen: Addrs, want: Addrs, slots: seq<Option<Slot>>)
    requires |want| == |slots| == RTAX_MAX && SamePresence(seen, want) && HitsEmpty(seen, slots)
    ensures !Recovered(buf, want, slots, RTAX_MAX)
  {
    var k :| 0 <= k < |seen| && seen[k].Some? && slots[k] == Some(SaZero);
    assert want[k].Some? && !LeadsTo(buf, slots[k], want[k]);
  }

  lemma SameAddress(buf: seq<Byte>, off: nat, a: seq<Byte>, b: seq<Byte>)
    requires IsSockaddr(a) && IsSockaddr(b) && off + |a| <= |buf| && off + |b| <= |buf|
    requires buf[off..off + |a|] == a && buf[off..off + |b|] == b
    ensures a == b
  {
    assert a[0] == buf[off] == b[0];
  }

  /** Every address left in the message starts where, or behind where, the reply puts it. */
  ghost predicate Clear(m: seq<Byte>, refs: Refs, hlen: nat) {
    forall i | 0 <= i < |refs| && refs[i].Some? && refs[i].value.InMsg? :: ClearAt(m, refs, hlen, i)
  }

  ghost predicate ClearAt(m: seq<Byte>, refs: Refs, hlen: nat, i: nat)
    requires i < |refs| && refs[i].Some? && refs[i].value.InMsg?
  {
    refs[i].value.off >= hlen + |FlatAddrs(Resolve(m, refs[..i]))|
  }

  lemma ResolvePrefix(m: seq<Byte>, refs: Refs, i: nat)
    requires i <= |refs|
    ensures Resolve(m, refs[..i]) == Resolve(m, refs)[..i]
  {
  }

  lemma ResolveStep(m: seq<Byte>, refs: Refs, i: nat)
    requires i < |refs|
    ensures Resolve(m, refs[..i + 1]) ==
            Resolve(m, refs[..i]) + [if refs[i].Some? then Some(Deref(m, refs[i].value)) else None]
  {
  }

  /** Then the writing pass reads the addresses that were sized. */
  lemma {:induction false} ClearReads(m: seq<Byte>, size: nat, hlen: nat, refs: Refs, n: nat)
    requires size <= |m| && RefsOk(m, refs, hlen) && n <= |refs|
    requires forall i | 0 <= i < n && refs[i].Some? && refs[i].value.InMsg? :: ClearAt(m, refs, hlen, i)
    ensures Seen(m, size, hlen, refs[..n]) == Resolve(m, refs[..n])
  {
    hide FlatAddrs, Placed, Deref, Resolve;
    if n == 0 {
      assert refs[..0] == [] && |Resolve(m, [])| == 0;
    } else {
      ClearReads(m, size, hlen, refs, n - 1);
      assert refs[..n][..n - 1] == refs[..n - 1];
      ResolveStep(m, refs, n - 1);
      if refs[n - 1].Some? {
        PointsInside(m, refs, hlen, n - 1);
        if refs[n - 1].value.InMsg? {
          Undisturbed(m, size, hlen, Resolve(m, refs[..n - 1]), refs[n - 1].value.off);
        } else {
          DerefOwn(m, Placed(m, size, hlen, Resolve(m, refs[..n - 1])), refs[n - 1].value);
        }
      }
    }
  }

  lemma DerefOwn(m: seq<Byte>, m': seq<Byte>, r: Ref)
    requires r.Own?
    ensures Deref(m, r) == Deref(m', r) == r.bytes
  {
  }

  /** The addresses in the message are disjoint and in order, as rt_xaddrs finds them. */
  ghost predicate Apart(m: seq<Byte>, refs: Refs) {
    forall j, i | 0 <= j < i < |refs| && refs[j].Some? && refs[i].Some? &&
                  refs[j].value.InMsg? && refs[i].value.InMsg? ::
      refs[j].value.off + |Deref(m, refs[j].value)| <= refs[i].value.off
  }

  /** Which address of a flat list covers a position. */
  lemma {:induction false} Covering(info: Addrs, p: nat) returns (j: nat)
    requires p < |FlatAddrs(info)|
    ensures j < |info| && info[j].Some? && |FlatAddrs(info[..j])| <= p < |FlatAddrs(info[..j])| + |info[j].value|
  {
    var n := |info| - 1;
    if p < |FlatAddrs(info[..n])| {
      j := Covering(info[..n], p);
      assert info[..n][..j] == info[..j];
    } else {
      j := n;
    }
  }

  lemma {:induction false} FlatAt(info: Addrs, j: nat, k: nat)
    requires j < |info| && info[j].Some? && k < |info[j].value|
    ensures |FlatAddrs(info[..j])| + k < |FlatAddrs(info)|
    ensures FlatAddrs(info)[|FlatAddrs(info[..j])| + k] == info[j].value[k]
  {
    var n := |info| - 1;
    if j < n {
      assert info[..n][..j] == info[..j];
      FlatAt(info[..n], j, k);
    }
  }

  /** Equal but for what the addresses outside the message contain behind their lengths. */
  ghost predicate SameLengths(a: Refs, b: Refs) {
    |a| == |b| && forall i | 0 <= i < |a| :: Alike(a[i], b[i])
  }

  ghost predicate Alike(x: Option<Ref>, y: Option<Ref>) {
    x == y ||
    (x.Some? && y.Some? && x.value.Own? && y.value.Own? && |x.value.bytes| == |y.value.bytes| > 0 &&
     x.value.bytes[0] == y.value.bytes[0])
  }

  lemma {:induction false} AlikeFlat(m: seq<Byte>, a: Refs, b: Refs, n: nat)
    requires SameLengths(a, b) && n <= |a|
    ensures |FlatAddrs(Resolve(m, a[..n]))| == |FlatAddrs(Resolve(m, b[..n]))|
  {
    hide FlatAddrs, Resolve;
    if n == 0 {
      assert a[..0] == b[..0];
    } else {
      AlikeFlat(m, a, b, n - 1);
      ResolveStep(m, a, n - 1);
      ResolveStep(m, b, n - 1);
      assert Alike(a[n - 1], b[n - 1]);
      FlatSnoc(Resolve(m, a[..n - 1]), if a[n - 1].Some? then Some(Deref(m, a[n - 1].value)) else None);
      FlatSnoc(Resolve(m, b[..n - 1]), if b[n - 1].Some? then Some(Deref(m, b[n - 1].value)) else None);
    }
  }

  lemma AlikeKeeps(m: seq<Byte>, hlen: nat, a: Refs, b: Refs)
    requires SameLengths(a, b) && RefsOk(m, a, hlen)
    ensures RefsOk(m, b, hlen) && (Clear(m, a, hlen) ==> Clear(m, b, hlen))
    ensures Needed(hlen, Resolve(m, b)) == Needed(hlen, Resolve(m, a))
    ensures NoneEmpty(Resolve(m, b), 0) <==> NoneEmpty(Resolve(m, a), 0)
  {
    hide FlatAddrs, SaSize;
    assert a[..|a|] == a && b[..|b|] == b;
    AlikeFlat(m, a, b, |a|);
    var x, y := Resolve(m, a), Resolve(m, b);
    forall i | 0 <= i < |a|
      ensures b[i].Some? ==> RefOk(m, b[i].value, hlen)
      ensures x[i].Some? == y[i].Some?
      ensures x[i].Some? ==> |x[i].value| == |y[i].value| > 0 && x[i].value[0] == y[i].value[0]
    {
      assert Alike(a[i], b[i]);
      if a[i].Some? { PointsInside(m, a, hlen, i); }
    }
    if Clear(m, a, hlen) {
      forall i | 0 <= i < |b| && b[i].Some? && b[i].value.InMsg? ensures ClearAt(m, b, hlen, i) {
        assert Alike(a[i], b[i]) && ClearAt(m, a, hlen, i);
        AlikeFlat(m, a, b, i);
      }
    }
  }

  /** What is read at index i: the address as it is once those before it have been written. */
  lemma {:induction false} SeenAt(m: seq<Byte>, size: nat, hlen: nat, refs: Refs, i: nat)
    requires size <= |m| && i < |refs| && refs[i].Some?
    ensures Seen(m, size, hlen, refs)[i] ==
            Some(Deref(Placed(m, size, hlen, Seen(m, size, hlen, refs[..i])), refs[i].value))
  {
    hide Placed, Deref;
    var n := |refs| - 1;
    if i < n {
      assert refs[..n][..i] == refs[..i];
      SeenAt(m, size, hlen, refs[..n], i);
    }
  }

  lemma {:induction false} FirstUnclear(m: seq<Byte>, refs: Refs, hlen: nat, n: nat) returns (i: nat)
    requires n <= |refs| && !Clear(m, refs, hlen)
    requires forall k | 0 <= k < n && refs[k].Some? && refs[k].value.InMsg? :: ClearAt(m, refs, hlen, k)
    ensures i < |refs| && refs[i].Some? && refs[i].value.InMsg? && !ClearAt(m, refs, hlen, i)
    ensures forall k | 0 <= k < i && refs[k].Some? && refs[k].value.InMsg? :: ClearAt(m, refs, hlen, k)
    decreases |refs| - n
  {
    hide ClearAt;
    if n < |refs| && refs[n].Some? && refs[n].value.InMsg? && !ClearAt(m, refs, hlen, n) {
      i := n;
    } else if n < |refs| {
      i := FirstUnclear(m, refs, hlen, n + 1);
    }
  }

  /** The buffer when the first unclear address is read. */
  lemma BeforeUnclear(m: seq<Byte>, size: nat, hlen: nat, refs: Refs, i: nat)
    requires RefsOk(m, refs, hlen) && hlen + |FlatAddrs(Resolve(m, refs))| <= size <= |m| && i < |refs| && refs[i].Some?
    requires forall k | 0 <= k < i && refs[k].Some? && refs[k].value.InMsg? :: ClearAt(m, refs, hlen, k)
    ensures var past := Resolve(m, refs[..i]);
      && hlen + |FlatAddrs(past)| <= size
      && Seen(m, size, hlen, refs)[i] == Some(Deref(Patch(m, hlen, FlatAddrs(past)), refs[i].value))
  {
    hide FlatAddrs, Placed, Deref, Patch, Resolve;
    ClearReads(m, size, hlen, refs, i);
    ResolvePrefix(m, refs, i);
    FlatPrefix(Resolve(m, refs), i);
    PlacedFits(m, size, hlen, Resolve(m, refs[..i]));
    SeenAt(m, size, hlen, refs, i);
  }

  lemma SameByte(b: seq<Byte>, m: seq<Byte>, off: nat, t: nat)
    requires |b| == |m| && off + t < |m| && t < 8 && Deref(b, InMsg(off)) == Deref(m, InMsg(off))
    ensures b[off + t] == m[off + t]
  {
    assert Deref(b, InMsg(off))[t] == b[off + t] && Deref(m, InMsg(off))[t] == m[off + t];
  }

  lemma PatchAt(m: seq<Byte>, lo: nat, s: seq<Byte>, k: nat)
    requires lo + |s| <= |m| && k < |s|
    ensures Patch(m, lo, s)[lo + k] == s[k]
  {
  }

  /** The address outside the message that is copied over the start of the first unclear one. */
  lemma Coverer(m: seq<Byte>, hlen: nat, refs: Refs, i: nat) returns (j: nat, start: nat)
    requires RefsOk(m, refs, hlen) && Apart(m, refs)
    requires i < |refs| && refs[i].Some? && refs[i].value.InMsg? && !ClearAt(m, refs, hlen, i)
    requires forall k | 0 <= k < i && refs[k].Some? && refs[k].value.InMsg? :: ClearAt(m, refs, hlen, k)
    ensures j < i && refs[j].Some? && refs[j].value.Own? && start == |FlatAddrs(Resolve(m, refs[..j]))|
    ensures hlen + start <= refs[i].value.off < hlen + start + |refs[j].value.bytes|
  {
    hide FlatAddrs, SaSize;
    var past := Resolve(m, refs[..i]);
    j := Covering(past, refs[i].value.off - hlen);
    assert refs[..i][..j] == refs[..j];
    ResolvePrefix(m, refs[..i], j);
    start := |FlatAddrs(past[..j])|;
    assert past[j].value == Deref(m, refs[j].value);
    assert refs[j].value.InMsg? ==> ClearAt(m, refs, hlen, j);
  }

  /** Reading the address at i unchanged means finding in the message what was copied over it. */
  lemma ByteRead(m: seq<Byte>, size: nat, hlen: nat, refs: Refs, i: nat, j: nat, start: nat, q: nat)
    requires RefsOk(m, refs, hlen) && hlen + |FlatAddrs(Resolve(m, refs))| <= size <= |m|
    requires j < i < |refs| && refs[i].Some? && refs[i].value.InMsg? && refs[j].Some? && refs[j].value.Own?
    requires forall k | 0 <= k < i && refs[k].Some? && refs[k].value.InMsg? :: ClearAt(m, refs, hlen, k)
    requires start == |FlatAddrs(Resolve(m, refs[..j]))| && q < |refs[j].value.bytes|
    requires refs[i].value.off <= hlen + start + q < refs[i].value.off + 8 <= |m|
    ensures Seen(m, size, hlen, refs) == Resolve(m, refs) ==> m[hlen + start + q] == refs[j].value.bytes[q]
  {
    hide FlatAddrs, Placed, Deref, Patch, Seen, RefsOk, ClearAt, SaSize;
    BeforeUnclear(m, size, hlen, refs, i);
    var past, off := Resolve(m, refs[..i]), refs[i].value.off;
    assert refs[..i][..j] == refs[..j];
    ResolvePrefix(m, refs[..i], j);
    DerefOwn(m, m, refs[j].value);
    FlatAt(past, j, q);
    PatchAt(m, hlen, FlatAddrs(past), start + q);
    if Seen(m, size, hlen, refs) == Resolve(m, refs) {
      SameByte(Patch(m, hlen, FlatAddrs(past)), m, off, hlen + start + q - off);
    }
  }

  lemma OtherKeeps(m: seq<Byte>, hlen: nat, refs: Refs, other: Refs, i: nat, j: nat)
    requires SameLengths(refs, other) && RefsOk(m, refs, hlen) && j < i < |refs|
    requires forall k | 0 <= k < i && refs[k].Some? && refs[k].value.InMsg? :: ClearAt(m, refs, hlen, k)
    ensures RefsOk(m, other, hlen) && |FlatAddrs(Resolve(m, other))| == |FlatAddrs(Resolve(m, refs))|
    ensures |FlatAddrs(Resolve(m, other[..j]))| == |FlatAddrs(Resolve(m, refs[..j]))|
    ensures forall k | 0 <= k < i && other[k].Some? && other[k].value.InMsg? :: ClearAt(m, other, hlen, k)
  {
    hide FlatAddrs, Resolve, RefsOk, Clear, NoneEmpty;
    AlikeKeeps(m, hlen, refs, other);
    assert refs[..|refs|] == refs && other[..|refs|] == other;
    AlikeFlat(m, refs, other, |refs|);
    AlikeFlat(m, refs, other, j);
    forall k | 0 <= k < i && other[k].Some? && other[k].value.InMsg? ensures ClearAt(m, other, hlen, k) {
      assert Alike(refs[k], other[k]) && ClearAt(m, refs, hlen, k);
      AlikeFlat(m, refs, other, k);
    }
  }

  /** Unless all is clear, contents of the same lengths exist with which the writing pass reads
      other addresses than those that were sized. */
  lemma Disturbed(m: seq<Byte>, size: nat, hlen: nat, refs: Refs) returns (other: Refs)
    requires RefsOk(m, refs, hlen) && Apart(m, refs) && !Clear(m, refs, hlen)
    requires hlen + |FlatAddrs(Resolve(m, refs))| <= size <= |m|
    ensures SameLengths(refs, other) && Seen(m, size, hlen, other) != Resolve(m, other)
  {
    hide FlatAddrs, Placed, Deref, Patch, Seen, Apart, RefsOk, Clear, ClearAt, SaSize;
    other := refs;
    if Seen(m, size, hlen, refs) == Resolve(m, refs) {
      var i := FirstUnclear(m, refs, hlen, 0);
      var j, start := Coverer(m, hlen, refs, i);
      PointsInside(m, refs, hlen, j);
      PointsInside(m, refs, hlen, i);
      var bytes, off := refs[j].value.bytes, refs[i].value.off;
      var q := if off == hlen + start then 1 else off - hlen - start;
      var c: nat := bytes[q];
      other := refs[j := Some(Own(bytes[q := (c + 1) % 256]))];
      ByteRead(m, size, hlen, refs, i, j, start, q);
      OtherKeeps(m, hlen, refs, other, i, j);
      ByteRead(m, size, hlen, other, i, j, start, q);
    }
  }

  /** The message is rewritten in place and its reply parses back to the addresses that were sized. */
  ghost predicate RewrittenWell(m: seq<Byte>, size: nat, hlen: nat, refs: Refs)
    requires |refs| == RTAX_MAX && 4 <= hlen && 4 <= size <= |m|
  {
    var seen := Seen(m, size, hlen, refs);
    var plen := Needed(hlen, seen);
    Fits(hlen, seen);
    plen <= size && ParsesBack(Written(m, hlen, seen, plen, m[3]), plen, Resolve(m, refs), hlen)
  }

  lemma Fits(hlen: nat, info: Addrs)
    ensures hlen + |FlatAddrs(info)| <= Needed(hlen, info)
  {
  }

  lemma ReadsWell(m: seq<Byte>, size: Option<nat>, hlen: nat, refs: Refs)
    requires RefsOk(m, refs, hlen) && (size.Some? ==> size.value <= |m|)
    ensures AddrsOk(Reads(m, size, hlen, refs)) && AddrsOk(Resolve(m, refs))
    ensures SamePresence(Reads(m, size, hlen, refs), Resolve(m, refs))
    ensures Present(Reads(m, size, hlen, refs)) == Present(Resolve(m, refs))
  {
    ReadsOk(m, size, hlen, refs);
    ReadsOk(m, None, hlen, refs);
    hide Seen;
    PresentSame(Reads(m, size, hlen, refs), Resolve(m, refs));
  }

  lemma RewrittenExactly(m: seq<Byte>, size: nat, hlen: nat, refs: Refs)
    requires |refs| == RTAX_MAX && 4 <= hlen && 4 <= size <= |m| && RefsOk(m, refs, hlen)
    requires Needed(hlen, Resolve(m, refs)) <= size
    ensures RewrittenWell(m, size, hlen, refs) <==>
            Seen(m, size, hlen, refs) == Resolve(m, refs) && NoneEmpty(Resolve(m, refs), 0)
  {
    hide FlatAddrs, Seen, Resolve, Written, RoundUp, ParsesBack, AddrsOk, RefsOk, NoneEmpty;
    var seen := Seen(m, size, hlen, refs);
    var plen := Needed(hlen, seen);
    ReadsWell(m, Some(size), hlen, refs);
    Fits(hlen, seen);
    if plen <= size {
      WrittenParts(m, hlen, seen, plen, m[3]);
      ParsesBackExactly(Written(m, hlen, seen, plen, m[3]), plen, seen, Resolve(m, refs), hlen);
    }
  }

  /** A reply for which the request's own storage suffices parses back, whatever the route's
      addresses of these lengths contain, exactly when every address that is still taken from the
      request starts at or behind its place in the reply (and no address is empty).  The writing
      pass then also needs what the sizing pass found. */
  lemma InPlaceExactly(m: seq<Byte>, size: nat, hlen: nat, refs: Refs)
    requires |refs| == RTAX_MAX && 4 <= hlen && 4 <= size <= |m| && RefsOk(m, refs, hlen) && Apart(m, refs)
    requires Needed(hlen, Resolve(m, refs)) <= size
    ensures (forall other | SameLengths(refs, other) :: RewrittenWell(m, size, hlen, other)) <==>
            Clear(m, refs, hlen) && NoneEmpty(Resolve(m, refs), 0)
    ensures Clear(m, refs, hlen) ==> Needed(hlen, Seen(m, size, hlen, refs)) == Needed(hlen, Resolve(m, refs))
  {
    hide FlatAddrs, Seen, Resolve, RewrittenWell, RefsOk, NoneEmpty, Clear, RoundUp, Apart;
    if Clear(m, refs, hlen) {
      AllClear(m, size, hlen, refs);
      if NoneEmpty(Resolve(m, refs), 0) {
        forall other | SameLengths(refs, other) ensures RewrittenWell(m, size, hlen, other) {
          AlikeKeeps(m, hlen, refs, other);
          AllClear(m, size, hlen, other);
          RewrittenExactly(m, size, hlen, other);
        }
      }
    }
    if forall other | SameLengths(refs, other) :: RewrittenWell(m, size, hlen, other) {
      AlikeSelf(refs);
      RewrittenExactly(m, size, hlen, refs);
      if !Clear(m, refs, hlen) {
        Fits(hlen, Resolve(m, refs));
        var other := Disturbed(m, size, hlen, refs);
        AlikeKeeps(m, hlen, refs, other);
        RewrittenExactly(m, size, hlen, other);
      }
    }
  }

  lemma AlikeSelf(refs: Refs)
    ensures SameLengths(refs, refs)
  {
  }

  lemma AllClear(m: seq<Byte>, size: nat, hlen: nat, refs: Refs)
    requires size <= |m| && RefsOk(m, refs, hlen) && Clear(m, refs, hlen)
    ensures Seen(m, size, hlen, refs) == Resolve(m, refs)
  {
    hide Seen, Resolve, RefsOk;
    assert refs[..|refs|] == refs;
    ClearReads(m, size, hlen, refs, |refs|);
  }

  // ----- the address table of a request -----

  /** The static sa_zero. */
  const SA_ZERO: seq<Byte> := [0, 0, 0, 0, 0, 0, 0, 0]

  function Pointer(slot: Option<Slot>): Option<Ref> {
    match slot
    case None => None
    case Some(At(off)) => Some(InMsg(off))
    case Some(SaZero) => Some(Own(SA_ZERO))
  }

  /** The table rt_xaddrs leaves. */
  function Pointers(slots: seq<Option<Slot>>): (refs: Refs)
    ensures |refs| == |slots|
  {
    seq(|slots|, i requires 0 <= i < |slots| => Pointer(slots[i]))
  }

  /** The interface of a route: its link address, what rtm_get_jailed finds for it (None: it fails),
      and for a point-to-point interface the address of the other end. */
  datatype Iface = Iface(addr: seq<Byte>, ifa: Option<seq<Byte>>, pointToPoint: bool, dst: Option<seq<Byte>>)

  /** What update_rtm_from_rc takes from a route; a host route has no mask. */
  datatype Route = Route(dst: seq<Byte>, gateway: seq<Byte>, mask: Option<seq<Byte>>, ifp: Option<Iface>)

  ghost predicate OptionOk(a: Option<seq<Byte>>) { a.Some? ==> IsSockaddr(a.value) }

  ghost predicate RouteOk(route: Route) {
    && IsSockaddr(route.dst) && IsSockaddr(route.gateway) && OptionOk(route.mask)
    && (route.ifp.Some? ==>
          IsSockaddr(route.ifp.value.addr) && OptionOk(route.ifp.value.ifa) && OptionOk(route.ifp.value.dst))
  }

  function Outside(a: Option<seq<Byte>>): Option<Ref> { if a.Some? then Some(Own(a.value)) else None }

  /** The table with the route's addresses filled in; None when the interface has none to give. */
  function Filled(refs: Refs, route: Route, wantIf: bool): (r: Option<Refs>)
    requires |refs| == RTAX_MAX
    ensures r.Some? ==> |r.value| == RTAX_MAX
  {
    var t := refs[RTAX_DST := Some(Own(route.dst))][RTAX_NETMASK := Outside(route.mask)]
                 [RTAX_GATEWAY := Some(Own(route.gateway))][RTAX_GENMASK := None];
    if !wantIf then Some(t)
    else
      match route.ifp
      case None => Some(t[RTAX_IFP := None][RTAX_IFA := None])
      case Some(ifp) =>
        if ifp.ifa.None? then None
        else
          var u := t[RTAX_IFP := Some(Own(ifp.addr))][RTAX_IFA := Outside(ifp.ifa)];
          Some(if ifp.pointToPoint then u[RTAX_BRD := Outside(ifp.dst)] else u)
  }

  method FillTable(info: array<Option<Ref>>, route: Route, wantIf: bool) returns (ok: bool)
    requires info.Length == RTAX_MAX
    modifies info
    ensures ok <==> Filled(old(info[..]), route, wantIf).Some?
    ensures ok ==> info[..] == Filled(old(info[..]), route, wantIf).value
  {
    info[RTAX_DST] := Some(Own(route.dst));
    info[RTAX_NETMASK] := Outside(route.mask);
    info[RTAX_GATEWAY] := Some(Own(route.gateway));
    info[RTAX_GENMASK] := None;
    if wantIf {
      match route.ifp {
        case None => info[RTAX_IFP], info[RTAX_IFA] := None, None;
        case Some(ifp) =>
          info[RTAX_IFP] := Some(Own(ifp.addr));
          if ifp.ifa.None? { return false; }
          info[RTAX_IFA] := Outside(ifp.ifa);
          if ifp.pointToPoint { info[RTAX_BRD] := Outside(ifp.dst); }
      }
    }
    ok := true;
  }

  /** Which interface addresses a request asks for. */
  predicate WantsIf(addrs: nat) { And(addrs, Pow2(RTAX_IFP)) != 0 || And(addrs, Pow2(RTAX_IFA)) != 0 }

  /** Slots lead to whole, disjoint addresses in order, and only requested ones are set. */
  ghost predicate SlotsOk(buf: seq<Byte>, hlen: nat, addrs: nat, slots: seq<Option<Slot>>) {
    && (forall k: nat | k < |slots| && slots[k].Some? :: And(addrs, Pow2(k)) != 0)
    && (forall k | 0 <= k < |slots| && slots[k].Some? && slots[k].value.At? ::
          EndsBy(buf, hlen, slots[k].value.off, |buf|))
    && (forall j, k | 0 <= j < k < |slots| && slots[j].Some? && slots[k].Some? &&
                      slots[j].value.At? && slots[k].value.At? ::
          EndsBy(buf, hlen, slots[j].value.off, slots[k].value.off))
  }

  /** A whole address at off that ends at or before end. */
  ghost predicate EndsBy(buf: seq<Byte>, hlen: nat, off: nat, end: nat) {
    hlen <= off < |buf| && off + SaSize(buf[off]) <= end
  }

  lemma {:induction false} SlotsApart(buf: seq<Byte>, lim: nat, addrs: nat, i: nat, cp: nat,
                                      slots: seq<Option<Slot>>, hlen: nat)
    requires lim <= |buf| && |buf| % 8 == 0 && cp % 8 == 0 && |slots| == RTAX_MAX && i <= RTAX_MAX && hlen <= cp
    requires SlotsOk(buf, hlen, addrs, slots) && forall k | i <= k < RTAX_MAX :: slots[k] == None
    requires forall k | 0 <= k < i && slots[k].Some? && slots[k].value.At? :: EndsBy(buf, hlen, slots[k].value.off, cp)
    ensures SlotsOk(buf, hlen, addrs, Parse(buf, lim, addrs, i, cp, slots).slots)
    decreases RTAX_MAX - i
  {
    hide And, Pow2, SaSize;
    if i == RTAX_MAX || cp >= lim {
    } else if And(addrs, Pow2(i)) == 0 {
      SlotsApart(buf, lim, addrs, i + 1, cp, slots, hlen);
    } else if cp + buf[cp] as nat > lim {
    } else if buf[cp] == 0 {
      assert SlotsOk(buf, hlen, addrs, slots[i := Some(SaZero)]);
    } else {
      PaddedInside(cp, buf[cp], |buf|);
      SlotsApart(buf, lim, addrs, i + 1, cp + SaSize(buf[cp]), slots[i := Some(At(cp))], hlen);
    }
  }

  lemma PaddedInside(cp: nat, saLen: Byte, size: nat)
    requires cp % 8 == 0 && size % 8 == 0 && cp + saLen as nat <= size && saLen > 0
    ensures cp + SaSize(saLen) <= size && (cp + SaSize(saLen)) % 8 == 0
  {
  }

  /** Of the addresses in the request only its author and broadcast address are left once the table
      is filled; they lie behind the header, whole, disjoint and in order. */
  lemma LeftInRequest(buf: seq<Byte>, lim: nat, addrs: nat, hlen: nat, route: Route)
    requires lim <= |buf| && |buf| % 8 == 0 && hlen % 8 == 0 && RouteOk(route)
    ensures var slots := Parse(buf, lim, addrs, 0, hlen, NO_SLOTS).slots;
      var r := Filled(Pointers(slots), route, WantsIf(addrs));
      r.Some? ==>
        && RefsOk(buf, r.value, hlen) && Apart(buf, r.value)
        && forall k | 0 <= k < RTAX_MAX && r.value[k].Some? && r.value[k].value.InMsg? ::
             (k == RTAX_AUTHOR || k == RTAX_BRD) && slots[k] == Some(At(r.value[k].value.off))
  {
    hide And, Pow2, SaSize, Parse, IsSockaddr, Filled, RouteOk;
    var slots := Parse(buf, lim, addrs, 0, hlen, NO_SLOTS).slots;
    SlotsApart(buf, lim, addrs, 0, hlen, NO_SLOTS, hlen);
    PointersOk(buf, hlen, addrs, slots);
    FilledOk(buf, Pointers(slots), route, WantsIf(addrs), hlen);
    FilledLeaves(Pointers(slots), route, WantsIf(addrs));
    hide Deref;
    assert slots[RTAX_IFP].Some? ==> And(addrs, Pow2(RTAX_IFP)) != 0;
    assert slots[RTAX_IFA].Some? ==> And(addrs, Pow2(RTAX_IFA)) != 0;
  }

  lemma PointersOk(buf: seq<Byte>, hlen: nat, addrs: nat, slots: seq<Option<Slot>>)
    requires SlotsOk(buf, hlen, addrs, slots)
    ensures RefsOk(buf, Pointers(slots), hlen) && Apart(buf, Pointers(slots))
  {
    assert IsSockaddr(SA_ZERO);
    hide IsSockaddr, And, Pow2;
    forall k | 0 <= k < |slots| && slots[k].Some? && slots[k].value.At?
      ensures |Deref(buf, InMsg(slots[k].value.off))| == SaSize(buf[slots[k].value.off])
    {
      assert EndsBy(buf, hlen, slots[k].value.off, |buf|);
    }
  }

  lemma FilledLeaves(refs: Refs, route: Route, wantIf: bool)
    requires |refs| == RTAX_MAX
    ensures var r := Filled(refs, route, wantIf);
      r.Some? ==> forall k | 0 <= k < RTAX_MAX && r.value[k].Some? && r.value[k].value.InMsg? ::
        k >= (if wantIf then RTAX_AUTHOR else RTAX_IFP) && r.value[k] == refs[k]
  {
  }

  lemma FilledOk(m: seq<Byte>, refs: Refs, route: Route, wantIf: bool, hlen: nat)
    requires |refs| == RTAX_MAX && RefsOk(m, refs, hlen) && RouteOk(route)
    ensures Filled(refs, route, wantIf).Some? ==> RefsOk(m, Filled(refs, route, wantIf).value, hlen)
  {
    hide IsSockaddr, SaSize;
  }

  // ----- which address stands where -----

  /** The filled table, slot by slot: destination, gateway and netmask of the route, no genmask; when
      bit 4 or 5 of the request's mask asks for the interface, its addresses, or none without one, and
      for a point-to-point interface the other end as broadcast address; all else as in the request. */
  lemma FilledExactly(refs: Refs, route: Route, addrs: nat)
    requires |refs| == RTAX_MAX
    ensures var r := Filled(refs, route, WantsIf(addrs)); var asked := Bit(addrs, 4) || Bit(addrs, 5);
      && (r.None? <==> asked && route.ifp.Some? && route.ifp.value.ifa.None?)
      && (r.Some? ==>
            && r.value[0] == Some(Own(route.dst)) && r.value[1] == Some(Own(route.gateway))
            && r.value[2] == (if route.mask.Some? then Some(Own(route.mask.value)) else None)
            && r.value[3] == None && r.value[6] == refs[6]
            && (!asked ==> r.value[4] == refs[4] && r.value[5] == refs[5] && r.value[7] == refs[7])
            && (asked && route.ifp.None? ==> r.value[4] == None && r.value[5] == None && r.value[7] == refs[7])
            && (asked && route.ifp.Some? ==>
                  var ifp := route.ifp.value;
                  && r.value[4] == Some(Own(ifp.addr)) && r.value[5] == Some(Own(ifp.ifa.value))
                  && r.value[7] == (if !ifp.pointToPoint then refs[7]
                                    else if ifp.dst.Some? then Some(Own(ifp.dst.value)) else None)))
  {
    hide And, Pow2, Bit;
    AndOneBit(addrs, RTAX_IFP);
    AndOneBit(addrs, RTAX_IFA);
  }

  /** The addresses that the slots found in a reply lead to, in terms of the route and of what the
      request held. */
  ghost predicate Carries(buf: seq<Byte>, slots: seq<Option<Slot>>, request: Addrs, route: Route, asked: bool)
    requires |slots| == |request| == RTAX_MAX
  {
    && LeadsTo(buf, slots[0], Some(route.dst)) && LeadsTo(buf, slots[1], Some(route.gateway))
    && LeadsTo(buf, slots[2], route.mask) && slots[3] == None && LeadsTo(buf, slots[6], request[6])
    && (!asked ==>
          LeadsTo(buf, slots[4], request[4]) && LeadsTo(buf, slots[5], request[5]) &&
          LeadsTo(buf, slots[7], request[7]))
    && (asked && route.ifp.None? ==> slots[4] == None && slots[5] == None && LeadsTo(buf, slots[7], request[7]))
    && (asked && route.ifp.Some? ==>
          && LeadsTo(buf, slots[4], Some(route.ifp.value.addr)) && LeadsTo(buf, slots[5], route.ifp.value.ifa)
          && LeadsTo(buf, slots[7], if route.ifp.value.pointToPoint then route.ifp.value.dst else request[7]))
  }

  lemma CarriesAll(buf: seq<Byte>, lim: nat, hlen: nat, m: seq<Byte>, refs: Refs, route: Route, addrs: nat)
    requires |refs| == RTAX_MAX && Filled(refs, route, WantsIf(addrs)).Some?
    ensures var want := Resolve(m, Filled(refs, route, WantsIf(addrs)).value);
      lim <= |buf| && ParsesBack(buf, lim, want, hlen) ==>
        Carries(buf, Parse(buf, lim, Present(want), 0, hlen, NO_SLOTS).slots, Resolve(m, refs), route,
                Bit(addrs, 4) || Bit(addrs, 5))
  {
    hide Parse, Present, Bit, WantsIf, Filled;
    FilledExactly(refs, route, addrs);
    var want := Resolve(m, Filled(refs, route, WantsIf(addrs)).value);
    if lim <= |buf| && ParsesBack(buf, lim, want, hlen) {
      var slots := Reparse(buf, lim, want, hlen).slots;
      forall k | 0 <= k < RTAX_MAX ensures LeadsTo(buf, slots[k], want[k]) {}
      hide LeadsTo, Deref;
      OwnTable(m, Filled(refs, route, WantsIf(addrs)).value);
      NoneLeads(buf);
    }
  }

  lemma OwnTable(m: seq<Byte>, refs: Refs)
    ensures forall k | 0 <= k < |refs| && refs[k].Some? && refs[k].value.Own? ::
              Resolve(m, refs)[k] == Some(refs[k].value.bytes)
  {
  }

  lemma NoneLeads(buf: seq<Byte>)
    ensures forall slot :: LeadsTo(buf, slot, None) <==> slot == None
  {
  }

  lemma RtHeader(rtmType: Byte, z: Sizes)
    requires KindOf(rtmType) == Other
    ensures forall listing :: HeaderLen(KindOf(rtmType), z, listing) == z.rt
  {
  }

  // ----- the reply to a routing request -----

  datatype Errno = Success | ENOBUFS | NoAddress

  /** rtm_msglen of a message, nothing for one too short to have any. */
  function MsgLenOf(m: seq<Byte>): nat { if |m| >= 2 then MsgLen(m) else 0 }

  lemma MsgLenIs(m: seq<Byte>)
    requires |m| >= 2
    ensures MsgLenOf(m) == MsgLen(m)
  {
  }

  /** Copies the message to larger storage. */
  method Grow(tmem: array<Byte>, len: nat) returns (mem: array<Byte>)
    requires 4 <= MsgLenOf(tmem[..]) <= tmem.Length < len
    ensures fresh(mem) && mem.Length == len && forall k | 0 <= k < MsgLenOf(tmem[..]) :: mem[k] == tmem[k]
  {
    mem := new Byte[len](_ => 0);
    CopyPrefix(tmem, mem, MsgLen(tmem[..]));
  }

  method CopyPrefix(from: array<Byte>, to: array<Byte>, n: nat)
    requires n <= from.Length && n <= to.Length && from != to
    modifies to
    ensures forall k | 0 <= k < n :: to[k] == from[k]
  {
    var i := 0;
    while i < n
      invariant 0 <= i <= n && forall k | 0 <= k < i :: to[k] == from[k]
    {
      to[i] := from[i];
      i := i + 1;
    }
  }

  /** The storage's size when the reply is written over the request, which it is when it fits. */
  function Rewrites(size: nat, plen: nat): Option<nat> { if plen <= size then Some(size) else None }

  /** What the storage of a request m holds once the addresses in seen have been written for the reply
      with those in want.  When they fit, the header has the reply's length and the request's type,
      and the reply parses back exactly when want was read and has no empty address; when they do
      not, the header is still the request's.  The rest of the header is kept. */
  ghost predicate Answered(m: seq<Byte>, mem: seq<Byte>, hlen: nat, seen: Addrs, want: Addrs)
    requires |want| == RTAX_MAX && 4 <= hlen <= |mem| && 4 <= MsgLenOf(m) <= |m|
  {
    var plen := Needed(hlen, seen);
    Fits(hlen, seen);
    && (plen <= |mem| ==>
          && mem[..4] == Header(plen, RTM_VERSION, m[3])
          && MsgLenOf(mem) == plen % 65536 && mem[2] == 5 && mem[3] == m[3]
          && mem[hlen..hlen + |FlatAddrs(seen)|] == FlatAddrs(seen)
          && (ParsesBack(mem, plen, want, hlen) <==> seen == want && NoneEmpty(want, 0)))
    && (plen > |mem| ==> mem[..4] == m[..4])
    && (forall k | 4 <= k < hlen && k < MsgLenOf(m) :: mem[k] == m[k])
  }

  lemma Reply(m: seq<Byte>, m0: seq<Byte>, mem: seq<Byte>, hlen: nat, seen: Addrs, want: Addrs)
    requires |seen| == |want| == RTAX_MAX && AddrsOk(seen) && AddrsOk(want) && SamePresence(seen, want)
    requires 4 <= hlen <= |m0| == |mem| && 4 <= MsgLenOf(m) <= |m| <= |m0|
    requires forall k | 0 <= k < MsgLenOf(m) :: m0[k] == m[k]
    requires var plen := Needed(hlen, seen);
      if plen <= |m0| then hlen + |FlatAddrs(seen)| <= |m0| && mem == Written(m0, hlen, seen, plen, m0[3])
      else mem[..hlen] == m0[..hlen]
    ensures Answered(m, mem, hlen, seen, want)
  {
    hide Written, Header, FlatAddrs, Present, ParsesBack, NoneEmpty, AddrsOk, MsgLenOf, RoundUp;
    var plen := Needed(hlen, seen);
    Fits(hlen, seen);
    MsgLenIs(mem);
    if plen <= |m0| {
      WrittenParts(m0, hlen, seen, plen, m0[3]);
      forall k | 4 <= k < hlen ensures mem[k] == m0[k] { assert mem[4..hlen][k - 4] == m0[4..hlen][k - 4]; }
      ParsesBackExactly(mem, plen, seen, want, hlen);
    } else {
      forall k | 0 <= k < hlen ensures mem[k] == m0[k] { assert mem[..hlen][k] == m0[..hlen][k]; }
    }
  }

  /** update_rtm_from_rc up to the writing of the addresses: fill the table from the route, size the
      message, grow the buffer if needed, write.  It fails with ENOBUFS exactly when the sized
      message exceeds maxlen or a needed allocation fails.  The second pass's result is not looked
      at: seen are the addresses it read, which are those that were sized if the buffer grew. */
  method UpdateRtm(z: Sizes, info: array<Option<Ref>>, route: Route, rtmAddrs: nat, rtm: Walkarg,
                   maxlen: nat, listing: bool, mallocOk: bool)
    returns (error: Errno, w: Walkarg, addrs: nat, ghost seen: Addrs)
    requires info.Length == RTAX_MAX && SizesOk(z) && RouteOk(route) && RefsOk(rtm.tmem[..], info[..], z.rt)
    requires rtm.tmemsize == rtm.tmem.Length && 4 <= MsgLenOf(rtm.tmem[..]) <= rtm.tmemsize
    requires KindOf(rtm.tmem[3]) == Other       // a route request: RTM_GET or RTM_DELETE
    modifies info, rtm.tmem
    ensures error == NoAddress <==>
              (Bit(rtmAddrs, 4) || Bit(rtmAddrs, 5)) && route.ifp.Some? && route.ifp.value.ifa.None?
    ensures error == NoAddress <==> Filled(old(info[..]), route, WantsIf(rtmAddrs)).None?
    ensures error != Success ==> rtm.tmem[..] == old(rtm.tmem[..])
    ensures error != NoAddress ==>
              var refs := Filled(old(info[..]), route, WantsIf(rtmAddrs)).value;
              var m := old(rtm.tmem[..]);
              var want := Resolve(m, refs);
              var plen := Needed(z.rt, want);
              && info[..] == refs
              && (error == ENOBUFS <==> plen > maxlen || (plen > rtm.tmemsize && !mallocOk))
              && (error == Success ==>
                    && seen == Reads(m, Rewrites(rtm.tmemsize, plen), z.rt, refs) && addrs == Present(want)
                    && w.tmem.Length == w.tmemsize == Max(rtm.tmemsize, plen)
                    && Answered(m, w.tmem[..], z.rt, seen, want)
                    && (plen > rtm.tmemsize || Clear(m, refs, z.rt) ==> seen == want)
                    && (Needed(z.rt, seen) <= w.tmemsize && ParsesBack(w.tmem[..], Needed(z.rt, seen), want, z.rt) ==>
                          Carries(w.tmem[..], Parse(w.tmem[..], Needed(z.rt, seen), addrs, 0, z.rt, NO_SLOTS).slots,
                                  Resolve(m, old(info[..])), route, Bit(rtmAddrs, 4) || Bit(rtmAddrs, 5))))
  {
    hide Patch, Written, Header, FlatAddrs, Present, NoneEmpty, AddrsOk, RoundUp, Seen, Resolve, Filled, ParsesBack,
         RefsOk, WantsIf, RouteOk, MsgLenOf, Answered, Clear, Parse, Carries, KindOf, Laid;
    ghost var m := rtm.tmem[..];
    w, addrs, seen := rtm, 0, [];
    FilledOk(m, info[..], route, WantsIf(rtmAddrs), z.rt);
    FilledExactly(info[..], route, rtmAddrs);
    RtHeader(rtm.tmem[3], z);
    var ok := FillTable(info, route, WantsIf(rtmAddrs));
    if !ok { return NoAddress, rtm, 0, []; }
    var refs, len := info[..], 0;
    addrs, len, ok, seen := RtsockMsgBuffer(z, rtm.tmem[3], refs, rtm.tmem, null);
    if len > maxlen { return ENOBUFS, rtm, addrs, seen; }
    Fits(z.rt, seen);
    var mem, allocLen := rtm.tmem, rtm.tmemsize;
    if len > allocLen {
      if !mallocOk { return ENOBUFS, rtm, addrs, seen; }
      mem := Grow(rtm.tmem, len);
      allocLen := len;
    }
    w := new Walkarg(mem, allocLen, listing);
    ghost var m0, plen := mem[..], len;
    addrs, len, ok, seen := RtsockMsgBuffer(z, mem[3], refs, rtm.tmem, w);
    ReadsWell(m, Rewrites(rtm.tmemsize, plen), z.rt, refs);
    if Clear(m, refs, z.rt) { AllClear(m, rtm.tmemsize, z.rt, refs); }
    Reply(m, m0, w.tmem[..], z.rt, seen, Resolve(m, refs));
    CarriesAll(w.tmem[..], Needed(z.rt, seen), z.rt, m, old(info[..]), route, rtmAddrs);
    error := Success;
  }

  /** A request for a host route with a destination of 16 bytes and, right behind it, an author of 8,
      on a route whose gateway has 16 bytes: the gateway is written over the author, which then
      claims 16 bytes.  The sizing pass finds 8 bytes less than the writing pass writes, so with a
      maxlen of just the size found the reply exceeds it, and it does not parse back. */
  lemma AuthorOverwritten(m: seq<Byte>, hlen: nat, dst: seq<Byte>, gateway: seq<Byte>)
    requires hlen >= 4 && hlen % 8 == 0 && hlen + 48 <= |m| && m[hlen + 16] == 8
    requires |dst| == |gateway| == 16 && dst[0] == gateway[0] == 16
    ensures var request: Refs := [Some(InMsg(hlen)), None, None, None, None, None, Some(InMsg(hlen + 16)), None];
      var refs := Filled(request, Route(dst, gateway, None, None), false).value;
      && Needed(hlen, Resolve(m, refs)) == hlen + 40 && Needed(hlen, Seen(m, |m|, hlen, refs)) == hlen + 48
      && !RewrittenWell(m, |m|, hlen, refs)
  {
    hide FlatAddrs, Seen, Placed, Patch, RewrittenWell, Deref, SaSize;
    var refs: Refs := [Some(Own(dst)), Some(Own(gateway)), None, None, None, None, Some(InMsg(hlen + 16)), None];
    assert refs == Filled([Some(InMsg(hlen)), None, None, None, None, None, Some(InMsg(hlen + 16)), None],
                          Route(dst, gateway, None, None), false).value;
    ReplyOverAuthor(m, hlen, dst, gateway, refs);
  }

  lemma Sixteen(b: seq<Byte>, off: nat)
    requires off < |b|
    ensures |Deref(b, InMsg(off))| == SaSize(b[off])
    ensures SaSize(8) == 8 && SaSize(16) == 16
  {
  }

  lemma ReplyOverAuthor(m: seq<Byte>, hlen: nat, dst: seq<Byte>, gateway: seq<Byte>, refs: Refs)
    requires hlen >= 4 && hlen % 8 == 0 && hlen + 48 <= |m| && m[hlen + 16] == 8
    requires |dst| == |gateway| == 16 && dst[0] == gateway[0] == 16
    requires |refs| == RTAX_MAX && refs[RTAX_DST] == Some(Own(dst)) && refs[RTAX_GATEWAY] == Some(Own(gateway))
    requires refs[RTAX_AUTHOR] == Some(InMsg(hlen + 16)) && refs[RTAX_BRD] == None
    requires forall k | RTAX_NETMASK <= k < RTAX_AUTHOR :: refs[k] == None
    ensures Needed(hlen, Resolve(m, refs)) == hlen + 40 && Needed(hlen, Seen(m, |m|, hlen, refs)) == hlen + 48
    ensures !RewrittenWell(m, |m|, hlen, refs)
  {
    hide FlatAddrs, Seen, Placed, Patch, RewrittenWell, Deref, SaSize;
    Sixteen(m, hlen + 16);
    Sixteen(Patch(m, hlen, dst + gateway), hlen + 16);
    DerefOwn(m, m, refs[RTAX_DST].value);
    DerefOwn(m, m, refs[RTAX_GATEWAY].value);
    var want, seen := Resolve(m, refs), Seen(m, |m|, hlen, refs);
    FlatTable(want, dst, gateway, want[RTAX_AUTHOR].value);
    ResolvePrefix(m, refs, RTAX_AUTHOR);
    BeforeUnclear(m, |m|, hlen, refs, RTAX_AUTHOR);
    PatchAt(m, hlen, dst + gateway, 16);
    ClearReads(m, |m|, hlen, refs, RTAX_AUTHOR);
    SeenPrefix(m, |m|, hlen, refs, RTAX_AUTHOR);
    ReadsOk(m, Some(|m|), hlen, refs);
    forall k | 0 <= k < RTAX_AUTHOR ensures seen[k] == want[k] { assert seen[k] == seen[..RTAX_AUTHOR][k]; }
    FlatTable(seen, dst, gateway, seen[RTAX_AUTHOR].value);
    RewrittenExactly(m, |m|, hlen, refs);
  }

  /** The addresses of a host route's reply that repeats the author. */
  ghost predicate IsTable(t: Addrs, dst: seq<Byte>, gateway: seq<Byte>, author: seq<Byte>) {
    && |t| == RTAX_MAX && t[RTAX_DST] == Some(dst) && t[RTAX_GATEWAY] == Some(gateway)
    && (forall k | RTAX_NETMASK <= k < RTAX_AUTHOR :: t[k] == None)
    && t[RTAX_AUTHOR] == Some(author) && t[RTAX_BRD] == None
  }

  lemma FlatTable(t: Addrs, dst: seq<Byte>, gateway: seq<Byte>, author: seq<Byte>)
    requires IsTable(t, dst, gateway, author)
    ensures FlatAddrs(t) == dst + gateway + author && FlatAddrs(t[..RTAX_AUTHOR]) == dst + gateway
  {
    hide FlatAddrs, Present;
    NothingFlat();
    assert t[..0] == [] && t[..RTAX_MAX] == t;
    FlatStep(t, RTAX_DST);
    FlatStep(t, RTAX_GATEWAY);
    FlatNones(t, RTAX_NETMASK, RTAX_AUTHOR);
    FlatStep(t, RTAX_AUTHOR);
    FlatStep(t, RTAX_BRD);
  }

  /** Absent addresses take no room. */
  lemma {:induction false} FlatNones(info: Addrs, lo: nat, hi: nat)
    requires lo <= hi <= |info| && forall k | lo <= k < hi :: info[k] == None
    ensures FlatAddrs(info[..hi]) == FlatAddrs(info[..lo])
  {
    hide FlatAddrs, Present;
    if lo < hi {
      FlatStep(info, hi - 1);
      FlatNones(info, lo, hi - 1);
    }
  }

  lemma {:induction false} SeenPrefix(m: seq<Byte>, size: nat, hlen: nat, refs: Refs, i: nat)
    requires size <= |m| && i <= |refs|
    ensures Seen(m, size, hlen, refs)[..i] == Seen(m, size, hlen, refs[..i])
  {
    hide Placed, Deref;
    if i < |refs| {
      assert refs[..|refs| - 1][..i] == refs[..i];
      SeenPrefix(m, size, hlen, refs[..|refs| - 1], i);
    } else {
      assert refs[..i] == refs;
    }
  }
}
