/** The zero-copy send buffer: a chain of mbufs filled by successive writes through a saved cursor. */
module ZcMbuf {

  import opened Common

  /** struct mbuf; data is the space from the start of its data to the end of its storage. */
  class Mbuf {
    const data: array<Byte>
    var len: nat                        // m_len
    var next: Mbuf?                     // m_next

    constructor (capacity: nat)
      ensures fresh(data) && data.Length == capacity && len == 0 && next == null
    {
      data := new Byte[capacity](_ => 0);
      len := 0;
      next := null;
    }
  }

  function Sum(s: seq<nat>): nat { if s == [] then 0 else Sum(s[..|s| - 1]) + s[|s| - 1] }

  // ----- how a chain of given capacities holds t bytes -----

  /** lens and cursor of a chain that holds t bytes: full before the cursor, empty after it, and
      the cursor no further along than the bytes need. */
  ghost predicate Filled(caps: seq<nat>, lens: seq<nat>, cur: nat, t: nat) {
    && |caps| == |lens| && cur < |caps|
    && (forall i | 0 <= i < cur :: lens[i] == caps[i])
    && (forall i | cur < i < |caps| :: lens[i] == 0)
    && lens[cur] <= caps[cur] && Sum(caps[..cur]) + lens[cur] == t
    && (cur > 0 ==> lens[cur] > 0)
  }

  lemma {:induction false} SumGrows(s: seq<nat>, i: nat, j: nat)
    requires i <= j <= |s|
    ensures Sum(s[..i]) <= Sum(s[..j])
  {
    if i < j {
      assert s[..j][..j - 1] == s[..j - 1];
      SumGrows(s, i, j - 1);
    }
  }

  lemma CursorBounds(caps: seq<nat>, t: nat, lens: seq<nat>, cur: nat)
    requires Filled(caps, lens, cur, t)
    ensures t <= Sum(caps[..cur + 1]) && (cur > 0 ==> Sum(caps[..cur]) < t)
  {
    assert caps[..cur + 1][..cur] == caps[..cur];
  }

  /** The capacities and the number of bytes written determine every length and the cursor. */
  lemma FilledUnique(caps: seq<nat>, t: nat, lens: seq<nat>, cur: nat, lens': seq<nat>, cur': nat)
    requires Filled(caps, lens, cur, t) && Filled(caps, lens', cur', t)
    ensures lens == lens' && cur == cur'
  {
    CursorBounds(caps, t, lens, cur);
    CursorBounds(caps, t, lens', cur');
    if cur < cur' { SumGrows(caps, cur + 1, cur'); }
    if cur' < cur { SumGrows(caps, cur' + 1, cur); }
  }

  // ----- the bytes in a chain -----

  ghost predicate Sized(ch: seq<Mbuf>)
    reads ch
  {
    forall i | 0 <= i < |ch| :: ch[i].len <= ch[i].data.Length
  }

  ghost function Bytes(ch: seq<Mbuf>): seq<Byte>
    requires Sized(ch)
    reads ch, set i | 0 <= i < |ch| :: ch[i].data
  {
    if ch == [] then [] else Bytes(ch[..|ch| - 1]) + ch[|ch| - 1].data[..ch[|ch| - 1].len]
  }

  ghost function Caps(ch: seq<Mbuf>): seq<nat> { seq(|ch|, i requires 0 <= i < |ch| => ch[i].data.Length) }

  ghost function Lens(ch: seq<Mbuf>): seq<nat>
    reads ch
  {
    seq(|ch|, i requires 0 <= i < |ch| reads ch => ch[i].len)
  }

  lemma {:induction false} BytesLength(ch: seq<Mbuf>)
    requires Sized(ch)
    ensures |Bytes(ch)| == Sum(Lens(ch))
  {
    if ch != [] {
      BytesLength(ch[..|ch| - 1]);
      assert Lens(ch)[..|ch| - 1] == Lens(ch[..|ch| - 1]);
    }
  }

  /** Empty mbufs at the end hold nothing. */
  lemma {:induction false} EmptyTail(ch: seq<Mbuf>, k: nat)
    requires Sized(ch) && k <= |ch| && forall i | k <= i < |ch| :: ch[i].len == 0
    ensures Sized(ch[..k]) && Bytes(ch) == Bytes(ch[..k])
    decreases |ch|
  {
    if k < |ch| {
      EmptyTail(ch[..|ch| - 1], k);
      assert ch[..|ch| - 1][..k] == ch[..k];
    } else {
      assert ch[..k] == ch;
    }
  }

  /** Distinct mbufs with distinct storage, linked in order. */
  ghost predicate Chained(ch: seq<Mbuf>)
    reads ch
  {
    && (forall i, j | 0 <= i < j < |ch| :: ch[i] != ch[j] && ch[i].data != ch[j].data)
    && (forall i | 0 <= i < |ch| :: ch[i].next == if i + 1 < |ch| then ch[i + 1] else null)
  }

  lemma BytesUpTo(ch: seq<Mbuf>, i: nat)
    requires Sized(ch) && i < |ch| && forall k | i < k < |ch| :: ch[k].len == 0
    ensures Sized(ch[..i]) && Bytes(ch) == Bytes(ch[..i]) + ch[i].data[..ch[i].len]
  {
    EmptyTail(ch, i + 1);
    assert ch[..i + 1][..i] == ch[..i];
  }

  /** bcopy behind the bytes an mbuf already holds. */
  method FillMbuf(mb: Mbuf, data: seq<Byte>, from: nat, length: nat)
    requires from + length <= |data| && mb.len + length <= mb.data.Length
    modifies mb`len, mb.data
    ensures mb.len == old(mb.len) + length
    ensures mb.data[..mb.len] == old(mb.data[..mb.len]) + data[from..from + length]
  {
    ghost var before := mb.data[..];
    var k := 0;
    while k < length
      invariant 0 <= k <= length && mb.len == old(mb.len)
      invariant forall q | 0 <= q < mb.data.Length ::
                  mb.data[q] == if mb.len <= q < mb.len + k then data[from + q - mb.len] else before[q]
    {
      mb.data[mb.len + k] := data[from + k];
      k := k + 1;
    }
    Behind(mb.data[..], before, mb.len, data, from, length);
    mb.len := mb.len + length;
  }

  lemma Behind(after: seq<Byte>, before: seq<Byte>, len: nat, data: seq<Byte>, from: nat, n: nat)
    requires |after| == |before| && len + n <= |after| && from + n <= |data|
    requires forall q | 0 <= q < len + n :: after[q] == if len <= q then data[from + q - len] else before[q]
    ensures after[..len + n] == before[..len] + data[from..from + n]
  {
  }

  /** Appending to the mbuf at index i, with nothing after it, appends to the bytes of the chain. */
  method Append(ghost ch: seq<Mbuf>, ghost i: nat, mb: Mbuf, data: seq<Byte>, from: nat, length: nat)
    requires Chained(ch) && Sized(ch) && i < |ch| && ch[i] == mb
    requires forall k | i < k < |ch| :: ch[k].len == 0
    requires from + length <= |data| && mb.len + length <= mb.data.Length
    modifies mb`len, mb.data
    ensures Chained(ch) && Sized(ch) && mb.len == old(mb.len) + length
    ensures Bytes(ch) == old(Bytes(ch)) + data[from..from + length]
  {
    hide Bytes;
    BytesUpTo(ch, i);
    ghost var before, own := Bytes(ch[..i]), mb.data[..mb.len];
    FillMbuf(mb, data, from, length);
    BytesUpTo(ch, i);
    assert before + own + data[from..from + length] == before + (own + data[from..from + length]);
  }

  /** Mid-write: t bytes are in the chain and mb, at index i, is the next to be filled. */
  ghost predicate Filling(caps: seq<nat>, lens: seq<nat>, i: nat, t: nat) {
    && |caps| == |lens| && i < |caps|
    && (forall k | 0 <= k < i :: lens[k] == caps[k])
    && (forall k | i < k < |caps| :: lens[k] == 0)
    && lens[i] <= caps[i] && Sum(caps[..i]) + lens[i] == t
  }

  /** Having filled the mbuf at index i with bytes still to come, there is a next one. */
  lemma FillingNext(caps: seq<nat>, lens: seq<nat>, i: nat, t: nat)
    requires Filling(caps, lens, i, t) && lens[i] == caps[i] && t < Sum(caps)
    ensures i + 1 < |caps| && Filling(caps, lens, i + 1, t)
  {
    assert caps[..i + 1][..i] == caps[..i];
    assert caps[..|caps|] == caps;
  }

  /** struct lazybsd_zc_mbuf */
  class ZcBuf {
    var bsdMbuf: Mbuf?
    var bsdMbufOff: Mbuf?
    var off: nat
    var len: int
    ghost var chain: seq<Mbuf>
    ghost var cur: nat

    constructor () {
      bsdMbuf, bsdMbufOff, off, len := null, null, 0, 0;
      chain, cur := [], 0;
    }

    ghost predicate Valid()
      reads this, chain
    {
      && Chained(chain) && Sized(chain)
      && off <= Max(len, 0) <= Sum(Caps(chain))
      && Filled(Caps(chain), Lens(chain), cur, off)
      && bsdMbuf == chain[0] && bsdMbufOff == chain[cur]
    }
  }

  lemma EmptyChain(ch: seq<Mbuf>)
    requires Sized(ch) && |ch| > 0 && forall i | 0 <= i < |ch| :: ch[i].len == 0
    ensures Filled(Caps(ch), Lens(ch), 0, 0) && Bytes(ch) == []
  {
    EmptyTail(ch, 0);
  }

  lemma AtStart(m: ZcBuf)
    requires |m.chain| > 0 && Chained(m.chain) && Sized(m.chain) && forall i | 0 <= i < |m.chain| :: m.chain[i].len == 0
    requires m.bsdMbuf == m.bsdMbufOff == m.chain[0] && m.cur == m.off == 0 && Max(m.len, 0) <= Sum(Caps(m.chain))
    ensures m.Valid() && Bytes(m.chain) == []
  {
    EmptyChain(m.chain);
  }

  /** lazybsd_zc_mbuf_get; mb, with its chain ch, is what m_getm2 returned: null, or an empty chain
      with room for max(len, 1) bytes. */
  method ZcMbufGet(m: ZcBuf?, len: int, mb: Mbuf?, ghost ch: seq<Mbuf>) returns (r: int)
    requires mb != null ==>
               Chained(ch) && Sized(ch) && |ch| > 0 && ch[0] == mb && Sum(Caps(ch)) >= Max(len, 1) &&
               forall i | 0 <= i < |ch| :: ch[i].len == 0
    modifies m
    ensures r == 0 <==> m != null && mb != null
    ensures r == 0 || r == -1
    ensures r == 0 ==> m.Valid() && m.chain == ch && m.off == 0 && m.len == len && Bytes(m.chain) == []
  {
    hide Bytes, Sum, Chained, Sized, Filled, Caps, Lens;
    if m == null || mb == null { return -1; }
    m.bsdMbuf, m.bsdMbufOff := mb, mb;
    m.off := 0;
    m.len := len;
    m.chain, m.cur := ch, 0;
    AtStart(m);
    r := 0;
  }

  /** One turn of the loop of lazybsd_zc_mbuf_write. */
  method FillOne(ghost ch: seq<Mbuf>, ghost i: nat, mb: Mbuf, data: seq<Byte>, from: nat, ghost t: nat)
    returns (length: nat)
    requires Chained(ch) && Sized(ch) && i < |ch| && ch[i] == mb && from <= |data|
    requires Filling(Caps(ch), Lens(ch), i, t)
    modifies mb`len, mb.data
    ensures Chained(ch) && Sized(ch) && length == Min(old(mb.data.Length - mb.len), |data| - from)
    ensures Filling(Caps(ch), Lens(ch), i, t + length) && mb.len == old(mb.len) + length
    ensures Bytes(ch) == old(Bytes(ch)) + data[from..from + length]
  {
    assert forall k | i < k < |ch| :: ch[k].len == Lens(ch)[k];
    length := Min(mb.data.Length - mb.len, |data| - from);
    ghost var lens := Lens(ch);
    Append(ch, i, mb, data, from, length);
    assert Lens(ch) == lens[i := mb.len];
  }

  /** The state of the loop of lazybsd_zc_mbuf_write with progress bytes of data written. */
  ghost predicate Writing(ch: seq<Mbuf>, i: nat, mb: Mbuf?, start: nat, off: nat, progress: nat)
    reads ch
  {
    && Chained(ch) && Sized(ch) && start <= i < |ch| && ch[i] == mb
    && Filling(Caps(ch), Lens(ch), i, off + progress)
    && (0 < i == start ==> ch[i].len > 0)
  }

  /** Going on to the next mbuf while bytes are left. */
  lemma WritingNext(ch: seq<Mbuf>, i: nat, mb: Mbuf, start: nat, off: nat, progress: nat)
    requires Writing(ch, i, mb, start, off, progress) && mb.len == mb.data.Length && off + progress < Sum(Caps(ch))
    ensures Writing(ch, i + 1, mb.next, start, off, progress)
  {
    FillingNext(Caps(ch), Lens(ch), i, off + progress);
  }

  /** One turn of the loop; done tells whether it ends there. */
  method WriteTurn(ghost ch: seq<Mbuf>, ghost i: nat, mb: Mbuf, data: seq<Byte>, progress: nat,
                   ghost start: nat, ghost off: nat, ghost bytes: seq<Byte>)
    returns (progress': nat, done: bool)
    requires Writing(ch, i, mb, start, off, progress) && progress <= |data| && off + |data| <= Sum(Caps(ch))
    requires Bytes(ch) == bytes + data[..progress] && (i > start ==> progress < |data|)
    modifies mb`len, mb.data
    ensures progress <= progress' <= |data| && (done <==> progress' == |data|)
    ensures Chained(ch) && Sized(ch) && Bytes(ch) == bytes + data[..progress']
    ensures done ==> i < |ch| && Filled(Caps(ch), Lens(ch), i, off + |data|)
    ensures !done ==> Writing(ch, i + 1, mb.next, start, off, progress')
  {
    hide Filling, Bytes, Chained, Sum;
    var length := FillOne(ch, i, mb, data, progress, off + progress);
    progress' := progress + length;
    Joined(bytes, data, progress, length);
    done := progress' == |data|;
    if done { WritingEnds(ch, i, off + |data|); } else { WritingNext(ch, i, mb, start, off, progress'); }
  }

  lemma Joined(bytes: seq<Byte>, data: seq<Byte>, p: nat, n: nat)
    requires p + n <= |data|
    ensures bytes + data[..p] + data[p..p + n] == bytes + data[..p + n]
  {
  }

  lemma WritingEnds(ch: seq<Mbuf>, i: nat, t: nat)
    requires Sized(ch) && i < |ch| && Filling(Caps(ch), Lens(ch), i, t) && (i > 0 ==> ch[i].len > 0)
    ensures Filled(Caps(ch), Lens(ch), i, t)
  {
  }

  ghost function Frame(ch: seq<Mbuf>): set<object> {
    (set i | 0 <= i < |ch| :: ch[i] as object) + (set i | 0 <= i < |ch| :: ch[i].data as object)
  }

  /** The loop of lazybsd_zc_mbuf_write. */
  method WriteLoop(ghost ch: seq<Mbuf>, first: Mbuf, data: seq<Byte>, ghost start: nat, ghost off: nat)
    returns (last: Mbuf, ghost i: nat)
    requires Writing(ch, start, first, start, off, 0) && off + |data| <= Sum(Caps(ch))
    modifies Frame(ch)
    ensures Chained(ch) && Sized(ch) && Bytes(ch) == old(Bytes(ch)) + data
    ensures i < |ch| && last == ch[i] && Filled(Caps(ch), Lens(ch), i, off + |data|)
  {
    hide Filling, Bytes, Chained, Sum, Filled;
    i, last := start, first;
    ghost var bytes := Bytes(ch);
    var progress: nat, mb: Mbuf? := 0, first;
    assert bytes + data[..0] == bytes;
    while mb != null
      invariant mb != null && Writing(ch, i, mb, start, off, progress) && progress <= |data|
      invariant Bytes(ch) == bytes + data[..progress] && (i > start ==> progress < |data|)
      decreases |ch| - i
    {
      last := mb;
      var done;
      progress, done := WriteTurn(ch, i, mb, data, progress, start, off, bytes);
      if done {
        assert data[..progress] == data;
        return;
      }
      mb := mb.next;
      i := i + 1;
    }
  }

  /** The accepted case of lazybsd_zc_mbuf_write. */
  method WriteAll(zm: ZcBuf, data: seq<Byte>)
    requires zm.Valid() && zm.off + |data| <= zm.len
    modifies zm, Frame(zm.chain)
    ensures zm.Valid() && zm.chain == old(zm.chain) && zm.len == old(zm.len)
    ensures Bytes(zm.chain) == old(Bytes(zm.chain)) + data && zm.off == old(zm.off) + |data|
  {
    hide Bytes, Chained, Sum, Sized, Filled, Filling, Caps, Lens, Frame;
    ReadyToWrite(zm);
    var last;
    ghost var i;
    last, i := WriteLoop(zm.chain, zm.bsdMbufOff, data, zm.cur, zm.off);
    zm.off := zm.off + |data|;
    zm.bsdMbufOff := last;
    zm.cur := i;
  }

  /** lazybsd_zc_mbuf_write: refuses what would exceed the size asked for, and otherwise appends
      all of data; the cursor stays on the chain. */
  method ZcMbufWrite(zm: ZcBuf?, data: seq<Byte>) returns (r: int)
    requires zm != null ==> zm.Valid()
    modifies zm, if zm == null then {} else Frame(zm.chain)
    ensures zm == null ==> r == -1
    ensures zm != null ==> zm.Valid() && zm.chain == old(zm.chain) && zm.len == old(zm.len) && zm.bsdMbufOff != null
    ensures zm != null && old(zm.off) + |data| > zm.len ==>
              r == -1 && Bytes(zm.chain) == old(Bytes(zm.chain)) && zm.off == old(zm.off) && zm.cur == old(zm.cur)
    ensures zm != null && old(zm.off) + |data| <= zm.len ==>
              r == |data| && Bytes(zm.chain) == old(Bytes(zm.chain)) + data && zm.off == old(zm.off) + |data|
  {
    r := -1;
    if zm != null && zm.off + |data| <= zm.len {
      hide Frame, Bytes;
      WriteAll(zm, data);
      r := |data|;
    }
  }

  lemma ReadyToWrite(zm: ZcBuf)
    requires zm.Valid()
    ensures zm !in Frame(zm.chain)
    ensures zm.bsdMbufOff != null && Writing(zm.chain, zm.cur, zm.bsdMbufOff, zm.cur, zm.off, 0)
  {
  }

  lemma {:induction false} FlatPrefix(pieces: seq<seq<Byte>>, k: nat)
    requires k <= |pieces|
    ensures |Flat(pieces[..k])| <= |Flat(pieces)|
  {
    if k < |pieces| {
      assert pieces[..|pieces| - 1][..k] == pieces[..k];
      FlatPrefix(pieces[..|pieces| - 1], k);
    } else {
      assert pieces[..k] == pieces;
    }
  }

  /** The cursor is the mbuf that holds the last byte written: those before it are full, those after it
      are empty, and it is not empty itself unless it is the first. */
  lemma CursorExactly(zm: ZcBuf)
    requires zm.Valid()
    ensures zm.cur < |zm.chain| && zm.bsdMbufOff == zm.chain[zm.cur] && zm.bsdMbuf == zm.chain[0]
    ensures forall i | 0 <= i < zm.cur :: zm.chain[i].len == zm.chain[i].data.Length
    ensures forall i | zm.cur < i < |zm.chain| :: zm.chain[i].len == 0
    ensures zm.cur > 0 ==> zm.chain[zm.cur].len > 0
  {
    forall i | 0 <= i < zm.cur ensures zm.chain[i].len == zm.chain[i].data.Length {
      assert Lens(zm.chain)[i] == Caps(zm.chain)[i];
    }
    forall i | zm.cur < i < |zm.chain| ensures zm.chain[i].len == 0 { assert Lens(zm.chain)[i] == 0; }
  }

  /** Any sequence of writes that fits leaves the chain holding the concatenation of the pieces. */
  method WriteEach(zm: ZcBuf, pieces: seq<seq<Byte>>)
    requires zm.Valid() && zm.off + |Flat(pieces)| <= zm.len
    modifies zm, Frame(zm.chain)
    ensures zm.Valid() && zm.chain == old(zm.chain) && zm.len == old(zm.len)
    ensures Bytes(zm.chain) == old(Bytes(zm.chain)) + Flat(pieces) && zm.off == old(zm.off) + |Flat(pieces)|
  {
    hide Frame, Bytes, Chained, Filled, Caps, Lens, Sum, Sized;
    var k := 0;
    assert pieces[..0] == [];
    while k < |pieces|
      invariant 0 <= k <= |pieces| && zm.Valid() && zm.chain == old(zm.chain) && zm.len == old(zm.len)
      invariant Bytes(zm.chain) == old(Bytes(zm.chain)) + Flat(pieces[..k])
      invariant zm.off == old(zm.off) + |Flat(pieces[..k])|
    {
      assert pieces[..k + 1][..k] == pieces[..k];
      FlatPrefix(pieces, k + 1);
      var r := ZcMbufWrite(zm, pieces[k]);
      k := k + 1;
    }
    assert pieces[..k] == pieces;
  }

  lemma SumFilled(ch: seq<Mbuf>, cur: nat, t: nat)
    requires Sized(ch) && Filled(Caps(ch), Lens(ch), cur, t)
    ensures |Bytes(ch)| == t
  {
    EmptyLens(ch, cur);
    EmptyTail(ch, cur + 1);
    BytesLength(ch[..cur + 1]);
    assert Lens(ch[..cur + 1])[..cur] == Caps(ch)[..cur];
  }

  lemma EmptyLens(ch: seq<Mbuf>, cur: nat)
    requires Sized(ch) && cur < |ch| && forall i | cur < i < |ch| :: Lens(ch)[i] == 0
    ensures forall i | cur + 1 <= i < |ch| :: ch[i].len == 0
  {
    forall i | cur + 1 <= i < |ch| ensures ch[i].len == 0 { assert Lens(ch)[i] == ch[i].len; }
  }

  lemma {:induction false} PiecesEqual(a: seq<Mbuf>, b: seq<Mbuf>)
    requires Sized(a) && Sized(b) && |a| == |b| && Bytes(a) == Bytes(b)
    requires forall i | 0 <= i < |a| :: a[i].len == b[i].len
    ensures forall i | 0 <= i < |a| :: a[i].data[..a[i].len] == b[i].data[..b[i].len]
  {
    if a != [] {
      var n := |a| - 1;
      var x, y := a[n].data[..a[n].len], b[n].data[..b[n].len];
      assert Bytes(a[..n]) + x == Bytes(b[..n]) + y;
      CutTail(Bytes(a[..n]), x, Bytes(b[..n]), y);
      PiecesEqual(a[..n], b[..n]);
    }
  }

  lemma CutTail(p: seq<Byte>, x: seq<Byte>, q: seq<Byte>, y: seq<Byte>)
    requires p + x == q + y && |x| == |y|
    ensures p == q && x == y
  {
    assert |p| == |q|;
    assert p == (p + x)[..|p|] && x == (p + x)[|p|..];
  }

  /** Two chains of the same capacities into which the same bytes have been written, in whatever
      pieces, are alike: every mbuf holds the same bytes, and the cursors stand at the same place. */
  lemma WritesCompose(a: ZcBuf, b: ZcBuf)
    requires a.Valid() && b.Valid() && Caps(a.chain) == Caps(b.chain) && Bytes(a.chain) == Bytes(b.chain)
    ensures a.off == b.off && a.cur == b.cur && Lens(a.chain) == Lens(b.chain)
    ensures forall i | 0 <= i < |a.chain| ::
              a.chain[i].len == b.chain[i].len && a.chain[i].data[..a.chain[i].len] == b.chain[i].data[..b.chain[i].len]
  {
    SumFilled(a.chain, a.cur, a.off);
    SumFilled(b.chain, b.cur, b.off);
    FilledUnique(Caps(a.chain), a.off, Lens(a.chain), a.cur, Lens(b.chain), b.cur);
    assert |a.chain| == |Caps(a.chain)| == |b.chain|;
    forall i | 0 <= i < |a.chain| ensures a.chain[i].len == b.chain[i].len {
      assert Lens(a.chain)[i] == Lens(b.chain)[i];
    }
    PiecesEqual(a.chain, b.chain);
  }
}
