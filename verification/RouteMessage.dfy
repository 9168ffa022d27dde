/** Routing messages: rtsock_msg_buffer sizes or writes the sockaddrs of a message, from pointers that
    may lead into that message, and rt_xaddrs finds them again. */
module RouteMessage {
  import opened Bits
  import opened Common

  const RTAX_MAX := 8
  const RTM_VERSION := 5

  function RoundUp(n: nat): (r: nat)
    ensures n <= r < n + 8 && r % 8 == 0
  {
    (n + 7) / 8 * 8
  }

  /** SA_SIZE: what a sockaddr of this sa_len takes up in a message. */
  function SaSize(saLen: Byte): (r: nat)
    ensures r >= 8 && r >= saLen && r % 8 == 0 && (r == 8 || r < saLen + 8)
  {
    if saLen == 0 then 8 else RoundUp(saLen)
  }

  /** The bytes of a sockaddr, from its sa_len on, up to its size in a message. */
  ghost predicate IsSockaddr(a: seq<Byte>) { |a| > 0 && |a| == SaSize(a[0]) }

  type Addrs = seq<Option<seq<Byte>>>

  ghost predicate AddrsOk(info: Addrs) {
    forall i | 0 <= i < |info| && info[i].Some? :: IsSockaddr(info[i].value)
  }

  /** The addresses that are present, one after the other. */
  function FlatAddrs(info: Addrs): seq<Byte> {
    if info == [] then []
    else FlatAddrs(info[..|info| - 1]) + (match info[|info| - 1] case None => [] case Some(a) => a)
  }

  /** rti_addrs: bit i says that address i is present. */
  function Present(info: Addrs): (m: nat)
    ensures m < Pow2(|info|)
  {
    if info == [] then 0
    else Present(info[..|info| - 1]) + if info[|info| - 1].Some? then Pow2(|info| - 1) else 0
  }

  lemma {:induction false} TopBit(x: nat, n: nat, j: nat)
    requires x < Pow2(n)
    ensures Bit(x + Pow2(n), j) <==> j == n || Bit(x, j)
    ensures j >= n ==> !Bit(x, j)
  {
    if n == 0 {
      if j > 0 { ZeroHasNoBits(j - 1); }
    } else {
      HalfSum(x, n);
      if j > 0 { TopBit(x / 2, n - 1, j - 1); }
    }
  }

  lemma HalfSum(x: nat, n: nat)
    requires n > 0 && x < Pow2(n)
    ensures (x + Pow2(n)) / 2 == x / 2 + Pow2(n - 1) && (x + Pow2(n)) % 2 == x % 2 && x / 2 < Pow2(n - 1)
  {
  }

  lemma {:induction false} PresentBits(info: Addrs, i: nat)
    ensures Bit(Present(info), i) <==> i < |info| && info[i].Some?
  {
    if info == [] {
      ZeroHasNoBits(i);
    } else {
      PresentBits(info[..|info| - 1], i);
      TopBit(Present(info[..|info| - 1]), |info| - 1, i);
    }
  }

  // ----- message headers -----

  /** Which of the header structures a message type uses. */
  datatype Kind = Addr | IfInfo | NewMaddr | Other

  const RTM_NEWADDR := 12
  const RTM_DELADDR := 13
  const RTM_IFINFO := 14
  const RTM_NEWMADDR := 15

  /** The switch on the message type. */
  function KindOf(rtmType: Byte): Kind {
    if rtmType == RTM_DELADDR || rtmType == RTM_NEWADDR then Addr
    else if rtmType == RTM_IFINFO then IfInfo
    else if rtmType == RTM_NEWMADDR then NewMaddr
    else Other
  }

  /** sizeof the header structures. */
  datatype Sizes = Sizes(ifa: nat, ifal: nat, ifm: nat, ifml: nat, ifma: nat, rt: nat)

  function HeaderLen(kind: Kind, z: Sizes, listing: bool): nat {
    match kind
    case Addr => if listing then z.ifal else z.ifa
    case IfInfo => if listing then z.ifml else z.ifm
    case NewMaddr => z.ifma
    case Other => z.rt
  }

  /** Every header structure starts with the same fields. */
  ghost predicate SizesOk(z: Sizes) {
    z.ifa >= 4 && z.ifal >= 4 && z.ifm >= 4 && z.ifml >= 4 && z.ifma >= 4 && z.rt >= 4
  }

  /** The first fields of a header: the 16-bit message length, least significant byte first, the
      version and the type. */
  function Header(msglen: nat, version: Byte, rtmType: Byte): seq<Byte> {
    [msglen % 256, msglen / 256 % 256, version, rtmType]
  }

  /** rtm_msglen */
  function MsgLen(m: seq<Byte>): nat
    requires |m| >= 2
  {
    var lo: nat, hi: nat := m[0], m[1];
    lo + 256 * hi
  }

  lemma MsgLenOfHeader(n: nat, version: Byte, rtmType: Byte)
    ensures MsgLen(Header(n, version, rtmType)) == n % 65536
  {
    var q, r := n / 256, n % 256;
    DivModUnique(n, 65536, q / 256, 256 * (q % 256) + r);
  }

  /** The size a message needs. */
  function Needed(hlen: nat, info: Addrs): nat { RoundUp(hlen + |FlatAddrs(info)|) }

  /** struct walkarg with the message buffer it points to. */
  class Walkarg {
    const tmem: array<Byte>
    const tmemsize: nat
    const listing: bool                 // w_op == NET_RT_IFLISTL

    constructor (tmem: array<Byte>, tmemsize: nat, listing: bool)
      requires tmemsize <= tmem.Length
      ensures this.tmem == tmem && this.tmemsize == tmemsize && this.listing == listing
    {
      this.tmem, this.tmemsize, this.listing := tmem, tmemsize, listing;
    }
  }

  lemma FlatStep(info: Addrs, i: nat)
    requires i < |info|
    ensures FlatAddrs(info[..i + 1]) ==
            if info[i].Some? then FlatAddrs(info[..i]) + info[i].value else FlatAddrs(info[..i])
    ensures Present(info[..i + 1]) == Present(info[..i]) + if info[i].Some? then Pow2(i) else 0
  {
    assert info[..i + 1][..i] == info[..i];
  }

  /** m with the bytes from lo on replaced by s. */
  function Patch(m: seq<Byte>, lo: nat, s: seq<Byte>): (r: seq<Byte>)
    requires lo + |s| <= |m|
    ensures |r| == |m| && r[lo..lo + |s|] == s && r[..lo] == m[..lo] && r[lo + |s|..] == m[lo + |s|..]
  {
    m[..lo] + s + m[lo + |s|..]
  }

  lemma PatchTwice(m: seq<Byte>, lo: nat, s: seq<Byte>, t: seq<Byte>)
    requires lo + |s| + |t| <= |m|
    ensures Patch(Patch(m, lo, s), lo + |s|, t) == Patch(m, lo, s + t)
  {
  }

  /** bcopy of one address into the message. */
  method Copy(a: seq<Byte>, mem: array<Byte>, cp: nat)
    requires cp + |a| <= mem.Length
    modifies mem
    ensures mem[..] == Patch(old(mem[..]), cp, a)
  {
    var k := 0;
    while k < |a|
      invariant 0 <= k <= |a|
      invariant forall q | 0 <= q < mem.Length ::
                  mem[q] == if cp <= q < cp + k then a[q - cp] else old(mem[q])
    {
      mem[cp + k] := a[k];
      k := k + 1;
    }
  }

  // ----- pointers to addresses -----

  /** What rti_info[i] points to: memory of its own, or a place in a message. */
  datatype Ref = Own(bytes: seq<Byte>) | InMsg(off: nat)

  type Refs = seq<Option<Ref>>

  /** n bytes of a message from off on.  Those past its end are never copied; here they are zero. */
  function Slice(m: seq<Byte>, off: nat, n: nat): (r: seq<Byte>)
    ensures |r| == n
    ensures off + n <= |m| ==> r == m[off..off + n]
  {
    seq(n, k requires 0 <= k < n => if off + k < |m| then m[off + k] else 0)
  }

  /** The address a pointer leads to while the message holds m. */
  function Deref(m: seq<Byte>, r: Ref): (a: seq<Byte>)
    ensures r.InMsg? ==> |a| > 0 && |a| == SaSize(a[0])
  {
    match r
    case Own(bytes) => bytes
    case InMsg(off) => Slice(m, off, SaSize(if off < |m| then m[off] else 0))
  }

  function Resolve(m: seq<Byte>, refs: Refs): (info: Addrs)
    ensures |info| == |refs|
  {
    seq(|refs|, i requires 0 <= i < |refs| => if refs[i].Some? then Some(Deref(m, refs[i].value)) else None)
  }

  ghost predicate RefOk(m: seq<Byte>, r: Ref, hlen: nat) {
    match r
    case Own(bytes) => IsSockaddr(bytes)
    case InMsg(off) => hlen <= off < |m| && off + SaSize(m[off]) <= |m|
  }

  /** Pointers into the message lead to whole addresses behind its header. */
  ghost predicate RefsOk(m: seq<Byte>, refs: Refs, hlen: nat) {
    forall i | 0 <= i < |refs| && refs[i].Some? :: RefOk(m, refs[i].value, hlen)
  }

  ghost predicate SamePresence<T, U>(a: seq<Option<T>>, b: seq<Option<U>>) {
    |a| == |b| && forall i | 0 <= i < |a| :: a[i].Some? == b[i].Some?
  }

  lemma {:induction false} PresentSame(a: Addrs, b: Addrs)
    requires SamePresence(a, b)
    ensures Present(a) == Present(b)
  {
    if a != [] { PresentSame(a[..|a| - 1], b[..|b| - 1]); }
  }

  // ----- writing -----

  /** The buffer once the addresses in seen have been visited: each that still fits is copied behind
      those before it. */
  function Placed(m: seq<Byte>, size: nat, hlen: nat, seen: Addrs): (r: seq<Byte>)
    requires size <= |m|
    ensures |r| == |m|
  {
    if seen == [] then m
    else
      var past := Placed(m, size, hlen, seen[..|seen| - 1]);
      var at := hlen + |FlatAddrs(seen[..|seen| - 1])|;
      match seen[|seen| - 1]
      case None => past
      case Some(a) => if at + |a| <= size then Patch(past, at, a) else past
  }

  /** The addresses the writing pass reads when the pointers lead into the very message it writes:
      each is read when all before it have been copied. */
  function Seen(m: seq<Byte>, size: nat, hlen: nat, refs: Refs): (info: Addrs)
    requires size <= |m|
    ensures |info| == |refs|
  {
    if refs == [] then []
    else
      var past := Seen(m, size, hlen, refs[..|refs| - 1]);
      past + [if refs[|refs| - 1].Some? then Some(Deref(Placed(m, size, hlen, past), refs[|refs| - 1].value)) else None]
  }

  /** The addresses a pass reads; size is the buffer's when it writes into the message itself. */
  function Reads(m: seq<Byte>, size: Option<nat>, hlen: nat, refs: Refs): (info: Addrs)
    requires size.Some? ==> size.value <= |m|
    ensures |info| == |refs|
  {
    match size
    case None => Resolve(m, refs)
    case Some(n) => Seen(m, n, hlen, refs)
  }

  /** The message as it is when the addresses in seen have been visited. */
  function Now(m: seq<Byte>, size: Option<nat>, hlen: nat, seen: Addrs): (r: seq<Byte>)
    requires size.Some? ==> size.value <= |m|
    ensures |r| == |m|
  {
    match size
    case None => m
    case Some(n) => Placed(m, n, hlen, seen)
  }

  lemma ReadsStep(m: seq<Byte>, size: Option<nat>, hlen: nat, refs: Refs, i: nat)
    requires i < |refs| && (size.Some? ==> size.value <= |m|)
    ensures var past := Reads(m, size, hlen, refs[..i]);
      Reads(m, size, hlen, refs[..i + 1]) ==
      past + [if refs[i].Some? then Some(Deref(Now(m, size, hlen, past), refs[i].value)) else None]
  {
    assert refs[..i + 1][..i] == refs[..i];
  }

  lemma ReadsNone(m: seq<Byte>, size: Option<nat>, hlen: nat)
    requires size.Some? ==> size.value <= |m|
    ensures Reads(m, size, hlen, []) == []
  {
  }

  lemma {:induction false} ReadsOk(m: seq<Byte>, size: Option<nat>, hlen: nat, refs: Refs)
    requires RefsOk(m, refs, hlen) && (size.Some? ==> size.value <= |m|)
    ensures AddrsOk(Reads(m, size, hlen, refs)) && SamePresence(Reads(m, size, hlen, refs), refs)
  {
    hide Seen, Deref, Placed, SaSize, Resolve;
    if refs == [] {
      ReadsNone(m, size, hlen);
    } else {
      var n := |refs| - 1;
      ReadsOk(m, size, hlen, refs[..n]);
      ReadsStep(m, size, hlen, refs, n);
      assert refs[..n + 1] == refs;
      if refs[n].Some? { DerefOk(Now(m, size, hlen, Reads(m, size, hlen, refs[..n])), m, refs[n].value, hlen); }
    }
  }

  /** The address behind each pointer: memory of its own does not change, and a place in a message that
      is not written meanwhile holds what it held. */
  lemma {:induction false} ReadsMeans(m: seq<Byte>, size: Option<nat>, hlen: nat, refs: Refs)
    requires RefsOk(m, refs, hlen) && (size.Some? ==> size.value <= |m|)
    ensures SamePresence(Reads(m, size, hlen, refs), refs)
    ensures forall i | 0 <= i < |refs| && refs[i].Some? && refs[i].value.Own? ::
              Reads(m, size, hlen, refs)[i] == Some(refs[i].value.bytes)
    ensures size.None? ==> forall i | 0 <= i < |refs| && refs[i].Some? && refs[i].value.InMsg? ::
              var off := refs[i].value.off;
              Reads(m, size, hlen, refs)[i] == Some(m[off..off + SaSize(m[off])])
  {
    ReadsOk(m, size, hlen, refs);
    hide Seen, Placed, SaSize;
    if size.Some? && refs != [] {
      var n := |refs| - 1;
      ReadsMeans(m, size, hlen, refs[..n]);
      ReadsStep(m, size, hlen, refs, n);
      assert refs[..n + 1] == refs;
    }
  }

  lemma DerefOk(m: seq<Byte>, m0: seq<Byte>, r: Ref, hlen: nat)
    requires RefOk(m0, r, hlen)
    ensures IsSockaddr(Deref(m, r))
  {
  }

  lemma FlatSnoc(seen: Addrs, x: Option<seq<Byte>>)
    ensures FlatAddrs(seen + [x]) == if x.Some? then FlatAddrs(seen) + x.value else FlatAddrs(seen)
    ensures Present(seen + [x]) == Present(seen) + if x.Some? then Pow2(|seen|) else 0
  {
    assert (seen + [x])[..|seen|] == seen;
  }

  lemma PlacedSnoc(m: seq<Byte>, size: nat, hlen: nat, seen: Addrs, x: Option<seq<Byte>>)
    requires size <= |m|
    ensures var past, at := Placed(m, size, hlen, seen), hlen + |FlatAddrs(seen)|;
      Placed(m, size, hlen, seen + [x]) ==
      if x.Some? && at + |x.value| <= size then Patch(past, at, x.value) else past
  {
    assert (seen + [x])[..|seen|] == seen;
  }

  /** Nothing before the first address or from the end of the last on has changed. */
  lemma {:induction false} PlacedElsewhere(m: seq<Byte>, size: nat, hlen: nat, seen: Addrs, k: nat)
    requires size <= |m| && k < |m| && (k < hlen || k >= hlen + |FlatAddrs(seen)|)
    ensures Placed(m, size, hlen, seen)[k] == m[k]
  {
    if seen != [] {
      hide Patch;
      var n := |seen| - 1;
      assert seen == seen[..n] + [seen[n]];
      FlatSnoc(seen[..n], seen[n]);
      PlacedSnoc(m, size, hlen, seen[..n], seen[n]);
      PlacedElsewhere(m, size, hlen, seen[..n], k);
      var at := hlen + |FlatAddrs(seen[..n])|;
      if seen[n].Some? && at + |seen[n].value| <= size {
        PatchElsewhere(Placed(m, size, hlen, seen[..n]), at, seen[n].value, k);
      }
    }
  }

  lemma PatchElsewhere(m: seq<Byte>, lo: nat, s: seq<Byte>, k: nat)
    requires lo + |s| <= |m| && k < |m| && (k < lo || k >= lo + |s|)
    ensures Patch(m, lo, s)[k] == m[k]
  {
  }

  /** Addresses that fit are all in the buffer, one after the other. */
  lemma {:induction false} PlacedFits(m: seq<Byte>, size: nat, hlen: nat, seen: Addrs)
    requires hlen + |FlatAddrs(seen)| <= size <= |m|
    ensures Placed(m, size, hlen, seen) == Patch(m, hlen, FlatAddrs(seen))
  {
    if seen == [] {
      assert Patch(m, hlen, []) == m;
    } else {
      hide Patch;
      var n := |seen| - 1;
      assert seen == seen[..n] + [seen[n]];
      FlatSnoc(seen[..n], seen[n]);
      PlacedSnoc(m, size, hlen, seen[..n], seen[n]);
      PlacedFits(m, size, hlen, seen[..n]);
      if seen[n].Some? { PatchTwice(m, hlen, FlatAddrs(seen[..n]), seen[n].value); }
    }
  }

  /** Where the writing pass is when the addresses in seen have been visited; cp is -1 (NULL) once
      one did not fit. */
  ghost predicate Progress(size: nat, hlen: nat, seen: Addrs, cp: int, buflen: int) {
    && (cp == -1 ==> hlen + |FlatAddrs(seen)| > size)
    && (cp != -1 ==> cp == hlen + |FlatAddrs(seen)| && buflen == size - cp && (FlatAddrs(seen) != [] ==> cp <= size))
  }

  /** SA_SIZE of the address a pointer leads to, read off its first byte. */
  method SizeAt(msg: array<Byte>, r: Ref) returns (dlen: nat)
    requires match r case Own(bytes) => IsSockaddr(bytes) case InMsg(off) => off < msg.Length
    ensures dlen == |Deref(msg[..], r)| > 0
  {
    match r
    case Own(bytes) => dlen := SaSize(bytes[0]);
    case InMsg(off) => dlen := SaSize(msg[off]);
  }

  /** An address that starts where or behind the next one is copied to reads as it did at first. */
  lemma Undisturbed(m: seq<Byte>, size: nat, hlen: nat, seen: Addrs, off: nat)
    requires size <= |m| && RefOk(m, InMsg(off), hlen) && off >= hlen + |FlatAddrs(seen)|
    ensures Deref(Placed(m, size, hlen, seen), InMsg(off)) == Deref(m, InMsg(off))
  {
    hide FlatAddrs, Placed, SaSize;
    var now := Placed(m, size, hlen, seen);
    forall k | off <= k < |m| ensures now[k] == m[k] { PlacedElsewhere(m, size, hlen, seen, k); }
    assert Slice(now, off, SaSize(m[off])) == Slice(m, off, SaSize(m[off]));
  }

  /** A copy that fits stays inside the message: an address that has been overwritten, and may claim
      any length, lies before the place it is copied to. */
  lemma CopyInside(m: seq<Byte>, size: nat, hlen: nat, seen: Addrs, off: nat)
    requires size <= |m| && RefOk(m, InMsg(off), hlen)
    requires hlen + |FlatAddrs(seen)| + |Deref(Placed(m, size, hlen, seen), InMsg(off))| <= size
    ensures off + |Deref(Placed(m, size, hlen, seen), InMsg(off))| <= |m|
  {
    hide FlatAddrs, Placed, SaSize;
    if off >= hlen + |FlatAddrs(seen)| { Undisturbed(m, size, hlen, seen, off); }
  }

  /** bcopy of one address of the message to cp. */
  method CopyFrom(msg: array<Byte>, mem: array<Byte>, r: Ref, dlen: nat, cp: nat)
    requires dlen == |Deref(msg[..], r)| && cp + dlen <= mem.Length
    requires r.InMsg? ==> r.off + dlen <= msg.Length
    modifies mem
    ensures mem[..] == Patch(old(mem[..]), cp, Deref(old(msg[..]), r))
  {
    match r
    case Own(bytes) => Copy(bytes, mem, cp);
    case InMsg(off) => Copy(msg[off..off + dlen], mem, cp);
  }

  /** One address of the writing pass. */
  method Visit(w: Walkarg, msg: array<Byte>, hlen: nat, r: Ref, dlen: nat, cp: int, buflen: int,
               ghost m0: seq<Byte>, ghost g0: seq<Byte>, ghost seen: Addrs)
    returns (cp': int, buflen': int)
    requires w.tmemsize <= w.tmem.Length == |m0| && RefOk(g0, r, hlen) && dlen == |Deref(msg[..], r)| > 0
    requires w.tmem[..] == Placed(m0, w.tmemsize, hlen, seen)
    requires if w.tmem == msg then m0 == g0 else msg[..] == g0
    requires Progress(w.tmemsize, hlen, seen, cp, buflen)
    modifies w.tmem
    ensures w.tmem[..] == Placed(m0, w.tmemsize, hlen, seen + [Some(Deref(old(msg[..]), r))])
    ensures Progress(w.tmemsize, hlen, seen + [Some(Deref(old(msg[..]), r))], cp', buflen')
  {
    hide FlatAddrs, Placed, Patch, SaSize, Deref, Progress, RefOk;
    ghost var x := Some(Deref(msg[..], r));
    Proceeds(w.tmemsize, hlen, seen, x.value, cp, buflen);
    PlacedSnoc(m0, w.tmemsize, hlen, seen, x);
    cp', buflen' := cp, buflen;
    if cp != -1 && buflen >= dlen {
      if r.InMsg? { FitsInside(w.tmem == msg, m0, g0, msg[..], w.tmemsize, hlen, seen, r.off); }
      CopyFrom(msg, w.tmem, r, dlen, cp);
      cp' := cp + dlen;
      buflen' := buflen - dlen;
    } else if cp != -1 {
      cp' := -1;
    }
  }

  lemma Proceeds(size: nat, hlen: nat, seen: Addrs, a: seq<Byte>, cp: int, buflen: int)
    requires Progress(size, hlen, seen, cp, buflen) && |a| > 0
    ensures if cp != -1 && buflen >= |a| then
              cp == hlen + |FlatAddrs(seen)| && cp + |a| <= size &&
              Progress(size, hlen, seen + [Some(a)], cp + |a|, buflen - |a|)
            else
              hlen + |FlatAddrs(seen)| + |a| > size && Progress(size, hlen, seen + [Some(a)], -1, buflen)
  {
    hide FlatAddrs;
    FlatSnoc(seen, Some(a));
  }

  lemma FitsInside(inPlace: bool, m0: seq<Byte>, g0: seq<Byte>, msg: seq<Byte>, size: nat, hlen: nat, seen: Addrs,
                   off: nat)
    requires size <= |m0| && RefOk(g0, InMsg(off), hlen)
    requires if inPlace then m0 == g0 && msg == Placed(m0, size, hlen, seen) else msg == g0
    requires hlen + |FlatAddrs(seen)| + |Deref(msg, InMsg(off))| <= size
    ensures off + |Deref(msg, InMsg(off))| <= |msg|
  {
    hide FlatAddrs, Placed;
    if inPlace { CopyInside(m0, size, hlen, seen, off); }
  }

  lemma NothingFlat()
    ensures FlatAddrs([]) == []
  {
  }

  lemma Nothing(m: seq<Byte>, size: nat, hlen: nat)
    requires size <= |m|
    ensures FlatAddrs([]) == [] && Present([]) == 0
    ensures Placed(m, size, hlen, []) == m && Progress(size, hlen, [], hlen, size - hlen)
  {
  }

  lemma Finished(m0: seq<Byte>, size: nat, hlen: nat, seen: Addrs, cp: int, buflen: int)
    requires size <= |m0| && Progress(size, hlen, seen, cp, buflen)
    ensures var len := hlen + |FlatAddrs(seen)|; var fits := cp != -1 && buflen >= RoundUp(len) - len;
      (fits <==> RoundUp(len) <= size) &&
      (fits ==> len <= |m0| && Placed(m0, size, hlen, seen) == Patch(m0, hlen, FlatAddrs(seen))) &&
      (hlen <= |m0| ==> Placed(m0, size, hlen, seen)[..hlen] == m0[..hlen])
  {
    hide FlatAddrs, Placed, Patch;
    if hlen + |FlatAddrs(seen)| <= size { PlacedFits(m0, size, hlen, seen); }
    if hlen <= |m0| {
      forall k | 0 <= k < hlen
        ensures Placed(m0, size, hlen, seen)[k] == m0[k]
      {
        PlacedElsewhere(m0, size, hlen, seen, k);
      }
    }
  }

  /** The size of w's buffer when that is the message the pointers lead into. */
  function InPlace(w: Walkarg?, msg: array<Byte>): Option<nat> {
    if w != null && w.tmem == msg then Some(w.tmemsize) else None
  }

  lemma InPlaceMeans(w: Walkarg?, msg: array<Byte>)
    ensures InPlace(w, msg) == if w == null || w.tmem != msg then None else Some(w.tmemsize)
  {
  }

  /** The loop of rtsock_msg_buffer. */
  method VisitAll(refs: Refs, msg: array<Byte>, w: Walkarg?, hlen: nat, cp0: int, buflen0: int)
    returns (addrs: nat, len: nat, cp: int, buflen: int, ghost seen: Addrs)
    requires |refs| == RTAX_MAX && RefsOk(msg[..], refs, hlen) && (w == null ==> cp0 == -1)
    requires w != null ==> w.tmemsize <= w.tmem.Length && Progress(w.tmemsize, hlen, [], cp0, buflen0)
    modifies if w == null then {} else {w.tmem}
    ensures seen == Reads(old(msg[..]), InPlace(w, msg), hlen, refs)
    ensures addrs == Present(seen) && len == hlen + |FlatAddrs(seen)| && (w == null ==> cp == -1)
    ensures w != null ==> w.tmem[..] == Placed(old(w.tmem[..]), w.tmemsize, hlen, seen)
    ensures w != null ==> Progress(w.tmemsize, hlen, seen, cp, buflen)
  {
    hide Progress, Pow2, FlatAddrs, Present, Reads, Deref, Placed, SaSize, RefsOk, RefOk;
    ghost var g0, size, m0 := msg[..], InPlace(w, msg), if w != null then w.tmem[..] else [];
    Nothing(m0, if w != null then w.tmemsize else 0, hlen);
    ReadsNone(g0, size, hlen);
    addrs, len, cp, buflen, seen := 0, hlen, cp0, buflen0, [];
    var i := 0;
    assert refs[..0] == [];
    while i < RTAX_MAX
      invariant 0 <= i <= RTAX_MAX && |seen| == i && seen == Reads(g0, size, hlen, refs[..i])
      invariant addrs == Present(seen) && len == hlen + |FlatAddrs(seen)| && (w == null ==> cp == -1)
      invariant w != null ==> w.tmem[..] == Placed(m0, w.tmemsize, hlen, seen)
      invariant w != null ==> Progress(w.tmemsize, hlen, seen, cp, buflen)
      invariant size.None? ==> msg[..] == g0
    {
      ReadsStep(g0, size, hlen, refs, i);
      ghost var x := if refs[i].Some? then Some(Deref(msg[..], refs[i].value)) else None;
      FlatSnoc(seen, x);
      if refs[i].Some? {
        var r := refs[i].value;
        PointsInside(g0, refs, hlen, i);
        var dlen := SizeAt(msg, r);
        addrs := addrs + Pow2(i);              // rti_addrs |= 1 << i: all set bits are lower
        if w != null { cp, buflen := Visit(w, msg, hlen, r, dlen, cp, buflen, m0, g0, seen); }
        len := len + dlen;
      } else if w != null {
        Absent(m0, w.tmemsize, hlen, seen, cp, buflen);
      }
      seen := seen + [x];
      i := i + 1;
    }
    assert refs[..i] == refs;
  }

  lemma PointsInside(m: seq<Byte>, refs: Refs, hlen: nat, i: nat)
    requires RefsOk(m, refs, hlen) && i < |refs| && refs[i].Some?
    ensures RefOk(m, refs[i].value, hlen)
    ensures match refs[i].value case Own(bytes) => IsSockaddr(bytes) case InMsg(off) => off < |m|
  {
  }

  lemma Absent(m0: seq<Byte>, size: nat, hlen: nat, seen: Addrs, cp: int, buflen: int)
    requires size <= |m0| && Progress(size, hlen, seen, cp, buflen)
    ensures Placed(m0, size, hlen, seen + [None]) == Placed(m0, size, hlen, seen)
    ensures Progress(size, hlen, seen + [None], cp, buflen)
  {
    FlatSnoc(seen, None);
    PlacedSnoc(m0, size, hlen, seen, None);
  }

  /** What a successful writing pass leaves in the buffer. */
  function Written(m: seq<Byte>, hlen: nat, info: Addrs, plen: nat, rtmType: Byte): (r: seq<Byte>)
    requires 4 <= hlen && hlen + |FlatAddrs(info)| <= |m|
    ensures |r| == |m|
  {
    Patch(Patch(m, hlen, FlatAddrs(info)), 0, Header(plen, RTM_VERSION, rtmType))
  }

  method PutHeader(mem: array<Byte>, plen: nat, rtmType: Byte)
    requires mem.Length >= 4
    modifies mem
    ensures mem[..] == Patch(old(mem[..]), 0, Header(plen, RTM_VERSION, rtmType))
  {
    mem[0], mem[1], mem[2], mem[3] := plen % 256, plen / 256 % 256, RTM_VERSION, rtmType;
  }

  /** The end of the writing pass: room for the padding, then the header. */
  method Close(w: Walkarg, hlen: nat, rtmType: Byte, len: nat, cp0: int, buflen: int, ghost m0: seq<Byte>,
               ghost seen: Addrs)
    returns (ok: bool)
    requires 4 <= hlen && len == hlen + |FlatAddrs(seen)| && w.tmemsize <= w.tmem.Length == |m0|
    requires w.tmem[..] == Placed(m0, w.tmemsize, hlen, seen) && Progress(w.tmemsize, hlen, seen, cp0, buflen)
    modifies w.tmem
    ensures ok <==> RoundUp(len) <= w.tmemsize
    ensures ok ==> len <= |m0| && w.tmem[..] == Written(m0, hlen, seen, RoundUp(len), rtmType)
    ensures !ok && hlen <= |m0| ==> w.tmem[..hlen] == m0[..hlen]
  {
    hide Progress, Placed, Patch, FlatAddrs, RoundUp, Header;
    Finished(m0, w.tmemsize, hlen, seen, cp0, buflen);
    var cp := cp0;
    if cp != -1 && buflen < RoundUp(len) - len { cp := -1; }
    ok := cp != -1;
    if ok { PutHeader(w.tmem, RoundUp(len), rtmType); }
  }

  /** rtsock_msg_buffer once the header's length is known. */
  method Pass(hlen: nat, rtmType: Byte, refs: Refs, msg: array<Byte>, w: Walkarg?)
    returns (addrs: nat, plen: nat, ok: bool, ghost seen: Addrs)
    requires |refs| == RTAX_MAX && 4 <= hlen && RefsOk(msg[..], refs, hlen)
    requires w != null ==> w.tmemsize <= w.tmem.Length
    modifies if w == null then {} else {w.tmem}
    ensures seen == Reads(old(msg[..]), InPlace(w, msg), hlen, refs)
    ensures addrs == Present(seen) && plen == Needed(hlen, seen) && (ok <==> w == null || plen <= w.tmemsize)
    ensures ok && w != null ==>
              hlen + |FlatAddrs(seen)| <= |old(w.tmem[..])| &&
              w.tmem[..] == Written(old(w.tmem[..]), hlen, seen, plen, rtmType)
    ensures !ok && hlen <= w.tmem.Length ==> w.tmem[..hlen] == old(w.tmem[..hlen])
  {
    hide Progress, FlatAddrs, Present, RoundUp, Reads, Placed, RefsOk, InPlace, Written;
    var buflen, cp := 0, -1;
    if w != null {
      buflen := w.tmemsize - hlen;
      cp := hlen;
      Nothing(w.tmem[..], w.tmemsize, hlen);
    }
    var len;
    addrs, len, cp, buflen, seen := VisitAll(refs, msg, w, hlen, cp, buflen);
    plen := RoundUp(len);
    ok := true;
    if w != null { ok := Close(w, hlen, rtmType, len, cp, buflen, old(w.tmem[..]), seen); }
  }

  /** A message of size plen with the addresses in seen behind a header of hlen bytes; mem is the buffer
      when it has been written. */
  ghost predicate Laid(hlen: nat, seen: Addrs, plen: nat, mem: Option<seq<Byte>>, rtmType: Byte) {
    var end := hlen + |FlatAddrs(seen)|;
    && end <= plen < end + 8 && plen % 8 == 0
    && (mem.Some? ==>
          && 4 <= hlen && end <= |mem.value| && mem.value[hlen..end] == FlatAddrs(seen)
          && MsgLen(mem.value) == plen % 65536 && mem.value[2] == 5 && mem.value[3] == rtmType)
  }

  lemma LaidOut(m: seq<Byte>, hlen: nat, seen: Addrs, plen: nat, rtmType: Byte)
    requires 4 <= hlen && plen == Needed(hlen, seen)
    ensures Laid(hlen, seen, plen, None, rtmType)
    ensures hlen + |FlatAddrs(seen)| <= |m| ==>
              Laid(hlen, seen, plen, Some(Written(m, hlen, seen, plen, rtmType)), rtmType)
  {
    hide FlatAddrs, Written;
    if hlen + |FlatAddrs(seen)| <= |m| { WrittenParts(m, hlen, seen, plen, rtmType); }
  }

  /** rtsock_msg_buffer, for pointers that may lead into the message msg, which may be w's buffer.
      Without w it computes the size; with w it also writes, and reports whether the message fitted.
      The header's size depends on the type of the message and on whether it is for a list. */
  method RtsockMsgBuffer(z: Sizes, rtmType: Byte, refs: Refs, msg: array<Byte>, w: Walkarg?)
    returns (addrs: nat, plen: nat, ok: bool, ghost seen: Addrs)
    requires |refs| == RTAX_MAX && SizesOk(z) && (w != null ==> w.tmemsize <= w.tmem.Length)
    requires RefsOk(msg[..], refs, HeaderLen(KindOf(rtmType), z, w != null && w.listing))
    modifies if w == null then {} else {w.tmem}
    ensures seen == Reads(old(msg[..]), InPlace(w, msg), HeaderLen(KindOf(rtmType), z, w != null && w.listing), refs)
    ensures SamePresence(seen, refs) && addrs == Present(seen)
    ensures forall i | 0 <= i < |refs| && refs[i].Some? && refs[i].value.Own? :: seen[i] == Some(refs[i].value.bytes)
    ensures (w == null || w.tmem != msg) ==> forall i | 0 <= i < |refs| && refs[i].Some? && refs[i].value.InMsg? ::
              var off := refs[i].value.off; seen[i] == Some(old(msg[..])[off..off + SaSize(old(msg[..])[off])])
    ensures plen == Needed(HeaderLen(KindOf(rtmType), z, w != null && w.listing), seen)
    ensures ok <==> w == null || plen <= w.tmemsize
    ensures var mem := if ok && w != null then Some(w.tmem[..]) else None; var listing := w != null && w.listing;
      && (rtmType == 12 || rtmType == 13 ==> Laid(if listing then z.ifal else z.ifa, seen, plen, mem, rtmType))
      && (rtmType == 14 ==> Laid(if listing then z.ifml else z.ifm, seen, plen, mem, rtmType))
      && (rtmType == 15 ==> Laid(z.ifma, seen, plen, mem, rtmType))
      && (rtmType < 12 || rtmType > 15 ==> Laid(z.rt, seen, plen, mem, rtmType))
    ensures ok && w != null ==>
              var hlen := HeaderLen(KindOf(rtmType), z, w.listing);
              4 <= hlen && hlen + |FlatAddrs(seen)| <= |old(w.tmem[..])| &&
              w.tmem[..] == Written(old(w.tmem[..]), hlen, seen, plen, rtmType)
    ensures !ok && HeaderLen(KindOf(rtmType), z, w.listing) <= w.tmem.Length ==>
              var hlen := HeaderLen(KindOf(rtmType), z, w.listing); w.tmem[..hlen] == old(w.tmem[..hlen])
  {
    hide FlatAddrs, Present, HeaderLen, Reads, RefsOk, InPlace, Written, Needed, Laid, KindOf;
    var hlen := HeaderLen(KindOf(rtmType), z, w != null && w.listing);
    HeaderSizes(rtmType, z, w != null && w.listing);
    InPlaceMeans(w, msg);
    ReadsMeans(msg[..], InPlace(w, msg), hlen, refs);
    addrs, plen, ok, seen := Pass(hlen, rtmType, refs, msg, w);
    LaidOut(if w != null then old(w.tmem[..]) else [], hlen, seen, plen, rtmType);
  }

  lemma HeaderSizes(rtmType: Byte, z: Sizes, listing: bool)
    requires SizesOk(z)
    ensures var hlen := HeaderLen(KindOf(rtmType), z, listing);
      && hlen >= 4
      && (rtmType == 12 || rtmType == 13 ==> hlen == if listing then z.ifal else z.ifa)
      && (rtmType == 14 ==> hlen == if listing then z.ifml else z.ifm)
      && (rtmType == 15 ==> hlen == z.ifma)
      && (rtmType < 12 || rtmType > 15 ==> hlen == z.rt)
  {
  }

  /** Where the parts of a written message are. */
  lemma WrittenParts(m: seq<Byte>, hlen: nat, info: Addrs, plen: nat, rtmType: Byte)
    requires 4 <= hlen && hlen + |FlatAddrs(info)| <= |m|
    ensures var r := Written(m, hlen, info, plen, rtmType);
      && r[..4] == Header(plen, RTM_VERSION, rtmType) && MsgLen(r) == plen % 65536 && r[2] == 5 && r[3] == rtmType
      && r[4..hlen] == m[4..hlen] && r[hlen..hlen + |FlatAddrs(info)|] == FlatAddrs(info)
      && r[hlen + |FlatAddrs(info)|..] == m[hlen + |FlatAddrs(info)|..]
  {
    hide FlatAddrs;
    MsgLenOfHeader(plen, RTM_VERSION, rtmType);
  }

  // ----- extraction -----

  /** What rti_info[i] points to: the message at an offset, or the static sa_zero. */
  datatype Slot = At(off: nat) | SaZero

  datatype Parsed = Parsed(einval: bool, slots: seq<Option<Slot>>)

  function Parse(buf: seq<Byte>, lim: nat, addrs: nat, i: nat, cp: nat, slots: seq<Option<Slot>>): (p: Parsed)
    requires lim <= |buf| && |slots| == RTAX_MAX && i <= RTAX_MAX
    ensures |p.slots| == RTAX_MAX
    decreases RTAX_MAX - i
  {
    if i == RTAX_MAX || cp >= lim then Parsed(false, slots)
    else if And(addrs, Pow2(i)) == 0 then Parse(buf, lim, addrs, i + 1, cp, slots)
    else if cp + buf[cp] as nat > lim then Parsed(true, slots)
    else if buf[cp] == 0 then Parsed(false, slots[i := Some(SaZero)])
    else Parse(buf, lim, addrs, i + 1, cp + SaSize(buf[cp]), slots[i := Some(At(cp))])
  }

  /** rt_xaddrs over the bytes cp0..cplim of a message. */
  method RtXaddrs(buf: array<Byte>, cp0: nat, cplim: nat, addrs: nat, info: array<Option<Slot>>) returns (einval: bool)
    requires cplim <= buf.Length && info.Length == RTAX_MAX
    modifies info
    ensures Parsed(einval, info[..]) == Parse(buf[..], cplim, addrs, 0, cp0, old(info[..]))
  {
    hide And, Pow2, SaSize;
    var cp: nat, i: nat := cp0, 0;
    while i < RTAX_MAX && cp < cplim
      invariant 0 <= i <= RTAX_MAX
      invariant Parse(buf[..], cplim, addrs, i, cp, info[..]) == Parse(buf[..], cplim, addrs, 0, cp0, old(info[..]))
    {
      if And(addrs, Pow2(i)) != 0 {
        var saLen := buf[cp];
        if cp + saLen as nat > cplim { return true; }
        if saLen == 0 {
          info[i] := Some(SaZero);
          return false;
        }
        info[i] := Some(At(cp));
        cp := cp + SaSize(saLen);
      }
      i := i + 1;
    }
    einval := false;
  }

  const NO_SLOTS: seq<Option<Slot>> := [None, None, None, None, None, None, None, None]

  ghost predicate Inside(buf: seq<Byte>, lo: nat, lim: nat, slot: Option<Slot>)
    requires lim <= |buf|
  {
    slot.Some? && slot.value.At? ==>
      lo <= slot.value.off < lim && buf[slot.value.off] != 0 && slot.value.off + buf[slot.value.off] as nat <= lim
  }

  /** Whatever the message contains, the addresses found lie inside it and are not empty. */
  lemma {:induction false} SlotsInside(buf: seq<Byte>, lim: nat, addrs: nat, i: nat, cp: nat,
                                       slots: seq<Option<Slot>>, lo: nat)
    requires lim <= |buf| && |slots| == RTAX_MAX && i <= RTAX_MAX && lo <= cp
    requires forall k | 0 <= k < RTAX_MAX :: Inside(buf, lo, lim, slots[k])
    ensures forall k | 0 <= k < RTAX_MAX :: Inside(buf, lo, lim, Parse(buf, lim, addrs, i, cp, slots).slots[k])
    decreases RTAX_MAX - i
  {
    if i == RTAX_MAX || cp >= lim {
    } else if And(addrs, Pow2(i)) == 0 {
      SlotsInside(buf, lim, addrs, i + 1, cp, slots, lo);
    } else if cp + buf[cp] as nat > lim {
    } else if buf[cp] == 0 {
      assert Inside(buf, lo, lim, Some(SaZero));
    } else {
      assert Inside(buf, lo, lim, Some(At(cp)));
      SlotsInside(buf, lim, addrs, i + 1, cp + SaSize(buf[cp]), slots[i := Some(At(cp))], lo);
    }
  }

  /** Where address i has to start: behind the last address found before it. */
  function StartOf(buf: seq<Byte>, slots: seq<Option<Slot>>, cp0: nat, i: nat): nat
    requires i <= |slots|
  {
    if i == 0 then cp0
    else
      match slots[i - 1]
      case Some(At(off)) => off + SaSize(if off < |buf| then buf[off] else 0)
      case _ => StartOf(buf, slots, cp0, i - 1)
  }

  ghost predicate EmptyBefore(slots: seq<Option<Slot>>, i: nat)
    requires i <= |slots|
  {
    exists j :: 0 <= j < i && slots[j] == Some(SaZero)
  }

  /** The message ends within the address that has to start at cp. */
  predicate Overruns(buf: seq<Byte>, lim: nat, cp: nat)
    requires lim <= |buf|
  {
    cp < lim && cp + buf[cp] as nat > lim
  }

  /** What slot i has to be, given those before it. */
  ghost predicate SlotRight(buf: seq<Byte>, lim: nat, addrs: nat, cp0: nat, slots: seq<Option<Slot>>, i: nat)
    requires lim <= |buf| && i < |slots|
  {
    var cp := StartOf(buf, slots, cp0, i);
    if !Bit(addrs, i) || EmptyBefore(slots, i) || cp >= lim || Overruns(buf, lim, cp) then slots[i] == None
    else if buf[cp] == 0 then slots[i] == Some(SaZero)
    else slots[i] == Some(At(cp))
  }

  ghost predicate Fails(buf: seq<Byte>, lim: nat, addrs: nat, cp0: nat, slots: seq<Option<Slot>>, i: nat)
    requires lim <= |buf| && i < |slots|
  {
    Bit(addrs, i) && !EmptyBefore(slots, i) && Overruns(buf, lim, StartOf(buf, slots, cp0, i))
  }

  /** Parsing fills the requested slots one behind the other, until the message ends or an address is
      empty, and fails exactly when a requested address runs over the end. */
  lemma ParseExactly(buf: seq<Byte>, lim: nat, addrs: nat, cp0: nat)
    requires lim <= |buf|
    ensures var p := Parse(buf, lim, addrs, 0, cp0, NO_SLOTS);
      && (forall k: nat | k < RTAX_MAX :: SlotRight(buf, lim, addrs, cp0, p.slots, k))
      && (p.einval <==> exists k: nat :: k < RTAX_MAX && Fails(buf, lim, addrs, cp0, p.slots, k))
  {
    ParseFrom(buf, lim, addrs, 0, cp0, NO_SLOTS, cp0);
  }

  lemma {:induction false} StartSame(buf: seq<Byte>, a: seq<Option<Slot>>, b: seq<Option<Slot>>, cp0: nat, i: nat)
    requires i <= |a| && i <= |b| && forall k | 0 <= k < i :: a[k] == b[k]
    ensures StartOf(buf, a, cp0, i) == StartOf(buf, b, cp0, i)
  {
    if i > 0 { StartSame(buf, a, b, cp0, i - 1); }
  }

  lemma {:induction false} StartStays(buf: seq<Byte>, slots: seq<Option<Slot>>, cp0: nat, i: nat, k: nat)
    requires i <= k <= |slots| && forall j | i <= j < k :: slots[j].None? || slots[j] == Some(SaZero)
    ensures StartOf(buf, slots, cp0, k) == StartOf(buf, slots, cp0, i)
    decreases k
  {
    if i < k { StartStays(buf, slots, cp0, i, k - 1); }
  }

  /** The slots before i are settled; those from i on are still empty. */
  ghost predicate Settled(buf: seq<Byte>, lim: nat, addrs: nat, i: nat, cp: nat, slots: seq<Option<Slot>>, cp0: nat)
    requires lim <= |buf| && i <= |slots|
  {
    && cp == StartOf(buf, slots, cp0, i) && !EmptyBefore(slots, i)
    && (forall k | i <= k < |slots| :: slots[k] == None)
    && (forall k: nat | k < i :: SlotRight(buf, lim, addrs, cp0, slots, k) && !Fails(buf, lim, addrs, cp0, slots, k))
  }

  /** What holds of a slot depends on those up to it only. */
  lemma SlotSame(buf: seq<Byte>, lim: nat, addrs: nat, cp0: nat, a: seq<Option<Slot>>, b: seq<Option<Slot>>, i: nat)
    requires lim <= |buf| && i < |a| && |b| == |a| && forall k | 0 <= k <= i :: a[k] == b[k]
    ensures SlotRight(buf, lim, addrs, cp0, a, i) == SlotRight(buf, lim, addrs, cp0, b, i)
    ensures Fails(buf, lim, addrs, cp0, a, i) == Fails(buf, lim, addrs, cp0, b, i)
  {
    hide Bit;
    StartSame(buf, a, b, cp0, i);
    assert EmptyBefore(a, i) == EmptyBefore(b, i);
  }

  /** Settling slot i and going on. */
  lemma GoesOn(buf: seq<Byte>, lim: nat, addrs: nat, i: nat, cp: nat, slots: seq<Option<Slot>>, slot: Option<Slot>,
               cp0: nat)
    requires lim <= |buf| && i < |slots| && Settled(buf, lim, addrs, i, cp, slots, cp0) && cp < lim
    requires if slot.None? then !Bit(addrs, i)
             else Bit(addrs, i) && slot == Some(At(cp)) && !Overruns(buf, lim, cp) && buf[cp] != 0
    ensures Settled(buf, lim, addrs, i + 1, if slot.None? then cp else cp + SaSize(buf[cp]), slots[i := slot], cp0)
  {
    hide Bit, SaSize;
    var next := slots[i := slot];
    StartSame(buf, slots, next, cp0, i);
    forall k: nat | k < i ensures SlotRight(buf, lim, addrs, cp0, next, k) && !Fails(buf, lim, addrs, cp0, next, k) {
      SlotSame(buf, lim, addrs, cp0, slots, next, k);
    }
    assert !EmptyBefore(next, i);
    assert SlotRight(buf, lim, addrs, cp0, next, i) && !Fails(buf, lim, addrs, cp0, next, i);
  }

  /** Settling slot i and stopping there: the message has ended, or the address overruns it or is empty. */
  lemma Stops(buf: seq<Byte>, lim: nat, addrs: nat, i: nat, cp: nat, slots: seq<Option<Slot>>, slot: Option<Slot>,
              cp0: nat)
    requires lim <= |buf| && |slots| == RTAX_MAX && i <= |slots| && Settled(buf, lim, addrs, i, cp, slots, cp0)
    requires i < |slots| ==>
               if slot.None? then cp >= lim || (Bit(addrs, i) && Overruns(buf, lim, cp))
               else Bit(addrs, i) && slot == Some(SaZero) && cp < lim && !Overruns(buf, lim, cp) && buf[cp] == 0
    ensures var last := if i < |slots| then slots[i := slot] else slots;
      && (forall k: nat | k < RTAX_MAX :: SlotRight(buf, lim, addrs, cp0, last, k))
      && ((exists k: nat :: k < RTAX_MAX && Fails(buf, lim, addrs, cp0, last, k)) <==>
            i < RTAX_MAX && slot.None? && cp < lim)
  {
    hide Bit, SaSize;
    var last := if i < |slots| then slots[i := slot] else slots;
    StartSame(buf, slots, last, cp0, i);
    forall k: nat | k < i ensures SlotRight(buf, lim, addrs, cp0, last, k) && !Fails(buf, lim, addrs, cp0, last, k) {
      SlotSame(buf, lim, addrs, cp0, slots, last, k);
    }
    if i < RTAX_MAX {
      assert !EmptyBefore(last, i);
      forall k: nat | i <= k < RTAX_MAX
        ensures SlotRight(buf, lim, addrs, cp0, last, k)
        ensures Fails(buf, lim, addrs, cp0, last, k) ==> slot.None? && cp < lim
      {
        StartStays(buf, last, cp0, i, k);
        if slot.Some? && k > i { assert last[i] == Some(SaZero); }
        assert EmptyBefore(last, k) <==> slot.Some? && k > i;
      }
      if slot.None? && cp < lim { assert Fails(buf, lim, addrs, cp0, last, i); }
    }
  }

  lemma {:induction false} ParseFrom(buf: seq<Byte>, lim: nat, addrs: nat, i: nat, cp: nat, slots: seq<Option<Slot>>,
                                     cp0: nat)
    requires lim <= |buf| && |slots| == RTAX_MAX && i <= RTAX_MAX && Settled(buf, lim, addrs, i, cp, slots, cp0)
    ensures var p := Parse(buf, lim, addrs, i, cp, slots);
      && (forall k: nat | k < RTAX_MAX :: SlotRight(buf, lim, addrs, cp0, p.slots, k))
      && (p.einval <==> exists k: nat :: k < RTAX_MAX && Fails(buf, lim, addrs, cp0, p.slots, k))
    decreases RTAX_MAX - i
  {
    hide And, Pow2, SaSize, Bit;
    if i < RTAX_MAX { AndOneBit(addrs, i); }
    if i == RTAX_MAX || cp >= lim || (And(addrs, Pow2(i)) != 0 && Overruns(buf, lim, cp)) {
      if i < RTAX_MAX { assert slots[i := None] == slots; }
      Stops(buf, lim, addrs, i, cp, slots, None, cp0);
    } else if And(addrs, Pow2(i)) == 0 {
      GoesOn(buf, lim, addrs, i, cp, slots, None, cp0);
      assert slots[i := None] == slots;
      ParseFrom(buf, lim, addrs, i + 1, cp, slots, cp0);
    } else if buf[cp] == 0 {
      Stops(buf, lim, addrs, i, cp, slots, Some(SaZero), cp0);
    } else {
      GoesOn(buf, lim, addrs, i, cp, slots, Some(At(cp)), cp0);
      ParseFrom(buf, lim, addrs, i + 1, cp + SaSize(buf[cp]), slots[i := Some(At(cp))], cp0);
    }
  }

  // ----- what was written is found again -----

  /** The slot leads to the address x in the message; an absent address has no slot. */
  ghost predicate LeadsTo(buf: seq<Byte>, slot: Option<Slot>, x: Option<seq<Byte>>) {
    match x
    case None => slot == None
    case Some(a) => slot.Some? && slot.value.At? && slot.value.off + |a| <= |buf| &&
                    buf[slot.value.off..slot.value.off + |a|] == a
  }

  /** Slot by slot, the message holds the address the slot points to. */
  ghost predicate Recovered(buf: seq<Byte>, info: Addrs, slots: seq<Option<Slot>>, n: nat)
    requires n <= |info| && n <= |slots|
  {
    forall i | 0 <= i < n :: LeadsTo(buf, slots[i], info[i])
  }

  /** Parsing stopped at an address of zero length. */
  ghost predicate HitsEmpty(info: Addrs, slots: seq<Option<Slot>>)
    requires |info| <= |slots|
  {
    exists k :: 0 <= k < |info| && info[k].Some? && slots[k] == Some(SaZero)
  }

  ghost predicate NoneEmpty(info: Addrs, from: nat) {
    forall i | from <= i < |info| && info[i].Some? && |info[i].value| > 0 :: info[i].value[0] != 0
  }

  lemma {:induction false} FlatPrefix(info: Addrs, i: nat)
    requires i <= |info|
    ensures FlatAddrs(info[..i]) <= FlatAddrs(info)
  {
    if i < |info| {
      assert info[..|info| - 1][..i] == info[..i];
      FlatPrefix(info[..|info| - 1], i);
    } else {
      assert info[..i] == info;
    }
  }

  /** The address at index i starts where the addresses before it end. */
  lemma AddressAt(buf: seq<Byte>, info: Addrs, hlen: nat, i: nat)
    requires hlen + |FlatAddrs(info)| <= |buf| && buf[hlen..hlen + |FlatAddrs(info)|] == FlatAddrs(info)
    requires i < |info| && info[i].Some?
    ensures var cp, a := hlen + |FlatAddrs(info[..i])|, info[i].value;
      cp + |a| <= hlen + |FlatAddrs(info)| && buf[cp..cp + |a|] == a && hlen + |FlatAddrs(info[..i + 1])| == cp + |a|
  {
    hide FlatAddrs;
    FlatStep(info, i);
    FlatPrefix(info, i + 1);
    SliceAt(buf, hlen, FlatAddrs(info), FlatAddrs(info[..i]), info[i].value);
  }

  lemma SliceAt(buf: seq<Byte>, lo: nat, all: seq<Byte>, f: seq<Byte>, a: seq<Byte>)
    requires lo + |all| <= |buf| && buf[lo..lo + |all|] == all && f + a <= all
    ensures lo + |f| + |a| <= |buf| && buf[lo + |f|..lo + |f| + |a|] == a
  {
    forall k | 0 <= k < |a| ensures buf[lo + |f| + k] == a[k] {
      assert all[|f| + k] == (f + a)[|f| + k] == a[k];
      assert buf[lo..lo + |all|][|f| + k] == buf[lo + |f| + k];
    }
  }

  lemma IsPresent(info: Addrs, i: nat)
    requires i < |info|
    ensures And(Present(info), Pow2(i)) == 0 <==> info[i].None?
  {
    AndOneBit(Present(info), i);
    PresentBits(info, i);
  }

  lemma {:induction false} ParseFinds(buf: seq<Byte>, lim: nat, info: Addrs, hlen: nat, i: nat,
                                      slots: seq<Option<Slot>>)
    requires |info| == |slots| == RTAX_MAX && AddrsOk(info) && i <= RTAX_MAX
    requires hlen + |FlatAddrs(info)| <= lim <= |buf| && buf[hlen..hlen + |FlatAddrs(info)|] == FlatAddrs(info)
    requires Recovered(buf, info, slots, i) && forall k | i <= k < RTAX_MAX :: slots[k] == None
    ensures var p := Parse(buf, lim, Present(info), i, hlen + |FlatAddrs(info[..i])|, slots);
      !p.einval && (Recovered(buf, info, p.slots, RTAX_MAX) <==> NoneEmpty(info, i)) &&
      (NoneEmpty(info, i) || HitsEmpty(info, p.slots))
    decreases RTAX_MAX - i
  {
    hide And, Pow2, Present, FlatAddrs, SaSize, Recovered, NoneEmpty, HitsEmpty;
    var cp := hlen + |FlatAddrs(info[..i])|;
    if i == RTAX_MAX {
      NoneEmptyEnd(info);
    } else {
      IsPresent(info, i);
      FlatStep(info, i);
      if info[i].None? {
        if cp >= lim {
          NoneLeft(info, hlen, lim, i);
          AllRecovered(buf, info, slots, i);
        } else {
          RecoveredOne(buf, info, slots, i, None);
          assert slots[i := None] == slots;
          ParseFinds(buf, lim, info, hlen, i + 1, slots);
        }
      } else {
        AddressAt(buf, info, hlen, i);
        var a := info[i].value;
        assert buf[cp] == buf[cp..cp + |a|][0] == a[0];
        if a[0] == 0 {
          EmptyLost(buf, info, slots, i);
        } else {
          RecoveredOne(buf, info, slots, i, Some(At(cp)));
          ParseFinds(buf, lim, info, hlen, i + 1, slots[i := Some(At(cp))]);
        }
      }
    }
  }

  lemma NoneEmptyEnd(info: Addrs)
    ensures NoneEmpty(info, |info|)
  {
  }

  lemma AllRecovered(buf: seq<Byte>, info: Addrs, slots: seq<Option<Slot>>, i: nat)
    requires |info| == |slots| == RTAX_MAX && i <= RTAX_MAX && Recovered(buf, info, slots, i)
    requires forall k | i <= k < RTAX_MAX :: slots[k] == None && info[k] == None
    ensures Recovered(buf, info, slots, RTAX_MAX) && NoneEmpty(info, i)
  {
  }

  lemma RecoveredOne(buf: seq<Byte>, info: Addrs, slots: seq<Option<Slot>>, i: nat, slot: Option<Slot>)
    requires |info| == |slots| == RTAX_MAX && i < RTAX_MAX && Recovered(buf, info, slots, i)
    requires LeadsTo(buf, slot, info[i]) && (info[i].Some? ==> |info[i].value| > 0 && info[i].value[0] != 0)
    ensures Recovered(buf, info, slots[i := slot], i + 1)
    ensures NoneEmpty(info, i) <==> NoneEmpty(info, i + 1)
  {
  }

  lemma EmptyLost(buf: seq<Byte>, info: Addrs, slots: seq<Option<Slot>>, i: nat)
    requires |info| == |slots| == RTAX_MAX && i < RTAX_MAX && AddrsOk(info) && info[i].Some? && info[i].value[0] == 0
    ensures !Recovered(buf, info, slots[i := Some(SaZero)], RTAX_MAX) && !NoneEmpty(info, i)
    ensures HitsEmpty(info, slots[i := Some(SaZero)])
  {
  }

  lemma {:induction false} NoneLeft(info: Addrs, hlen: nat, lim: nat, i: nat)
    requires AddrsOk(info) && i <= |info| && hlen + |FlatAddrs(info)| <= lim <= hlen + |FlatAddrs(info[..i])|
    ensures forall k | i <= k < |info| :: info[k].None?
    decreases |info| - i
  {
    hide FlatAddrs;
    FlatPrefix(info, i);
    if i < |info| {
      FlatStep(info, i);
      FlatPrefix(info, i + 1);
      NoneLeft(info, hlen, lim, i + 1);
    }
  }

  /** rt_xaddrs on a message that rtsock_msg_buffer wrote never fails; it recovers every address,
      slot by slot and byte by byte, exactly when none of them has a zero sa_len. */
  lemma RoundTrip(buf: seq<Byte>, lim: nat, info: Addrs, hlen: nat)
    requires |info| == RTAX_MAX && AddrsOk(info)
    requires hlen + |FlatAddrs(info)| <= lim <= |buf| && buf[hlen..hlen + |FlatAddrs(info)|] == FlatAddrs(info)
    ensures var p := Parse(buf, lim, Present(info), 0, hlen, NO_SLOTS);
      !p.einval && (Recovered(buf, info, p.slots, RTAX_MAX) <==> NoneEmpty(info, 0)) &&
      (NoneEmpty(info, 0) || HitsEmpty(info, p.slots))
  {
    assert info[..0] == [];
    ParseFinds(buf, lim, info, hlen, 0, NO_SLOTS);
  }

  /** One address with a zero length is written as eight bytes, and parsing stops at it. */
  lemma EmptyAddressIsLost()
    ensures var a: seq<Byte> := [0, 0, 0, 0, 0, 0, 0, 0];
      var info: Addrs := [Some(a), None, None, None, None, None, None, None];
      var p := Parse(a, 8, Present(info), 0, 0, NO_SLOTS);
      && AddrsOk(info) && FlatAddrs(info) == a && !p.einval && !Recovered(a, info, p.slots, RTAX_MAX)
  {
    var a: seq<Byte> := [0, 0, 0, 0, 0, 0, 0, 0];
    var info: Addrs := [Some(a), None, None, None, None, None, None, None];
    FlatOne(info, a);
    RoundTrip(a, 8, info, 0);
  }

  /** Only the first address is present. */
  lemma {:induction false} FlatOne(info: Addrs, a: seq<Byte>)
    requires |info| >= 1 && info[0] == Some(a) && forall k | 1 <= k < |info| :: info[k] == None
    ensures FlatAddrs(info) == a
  {
    if |info| == 1 {
      assert FlatAddrs(info[..0]) == [];
    } else {
      FlatOne(info[..|info| - 1], a);
    }
  }
}
