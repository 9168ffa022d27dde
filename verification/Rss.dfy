/** Receive-side steering: the Toeplitz hash, the symmetric key, the indirection table that is
    installed in the card, and the software predictor that must agree with it. */
module Rss {
  import opened Bits
  import opened Common

  // ----- bits of byte strings, most significant first -----

  function BitAt(s: seq<Byte>, len: nat, i: nat): (b: nat)
    requires len <= |s|
    ensures b <= 1
  {
    if i / 8 < len && Bit(s[i / 8], 7 - i % 8) then 1 else 0
  }

  /** The n-bit word that starts at bit i of the key; bits past the key's end are zero. */
  function Window(key: seq<Byte>, len: nat, i: nat, n: nat): nat
    requires len <= |key|
  {
    if n == 0 then 0 else 2 * Window(key, len, i, n - 1) + BitAt(key, len, i + n - 1)
  }

  /** The exclusive or of the 32-bit key windows at off + i, over the set bits i < t of the data. */
  function Fold(key: seq<Byte>, len: nat, data: seq<Byte>, off: nat, t: nat): nat
    requires len <= |key|
  {
    if t == 0 then 0
    else Xor(Fold(key, len, data, off, t - 1),
             if BitAt(data, |data|, t - 1) == 1 then Window(key, len, off + t - 1, 32) else 0)
  }

  /** toeplitz_hash always reads four key bytes. */
  function KeyLen(keylen: nat): nat { if keylen < 4 then 4 else keylen }

  /** What toeplitz_hash is for. */
  function Toeplitz(keylen: nat, key: seq<Byte>, data: seq<Byte>): nat
    requires KeyLen(keylen) <= |key|
  {
    Fold(key, KeyLen(keylen), data, 0, 8 * |data|)
  }

  // ----- windows -----

  lemma DoublePower(n: nat, x: nat)
    ensures 2 * (Pow2(n) * x) == Pow2(n + 1) * x
  {
    MulShuffle(2, Pow2(n), x);
  }

  lemma {:induction false} WindowFirst(key: seq<Byte>, len: nat, i: nat, n: nat)
    requires len <= |key|
    ensures Window(key, len, i, n + 1) == Pow2(n) * BitAt(key, len, i) + Window(key, len, i + 1, n)
  {
    if n > 0 {
      WindowFirst(key, len, i, n - 1);
      DoublePower(n - 1, BitAt(key, len, i));
      assert i + 1 + (n - 1) == i + n;
    }
  }

  lemma {:induction false} WindowBelow(key: seq<Byte>, len: nat, i: nat, n: nat)
    requires len <= |key|
    ensures Window(key, len, i, n) < Pow2(n)
  {
    if n > 0 { WindowBelow(key, len, i, n - 1); }
  }

  /** Shifting the window register left by one bit and bringing in the next key bit. */
  lemma WindowShift(key: seq<Byte>, len: nat, i: nat)
    requires len <= |key|
    ensures (2 * Window(key, len, i, 32)) % TWO32 + BitAt(key, len, i + 32) == Window(key, len, i + 1, 32)
    ensures (2 * Window(key, len, i, 32)) % TWO32 % 2 == 0
  {
    var w, b := Window(key, len, i + 1, 31), BitAt(key, len, i);
    WindowFirst(key, len, i, 31);
    assert Window(key, len, i + 1, 32) == 2 * w + BitAt(key, len, i + 32);
    WindowBelow(key, len, i + 1, 31);
    Pow2At32();
    assert Pow2(31) == TWO31;
    ShiftOut(Window(key, len, i, 32), b, w);
  }

  lemma ShiftOut(v: nat, b: nat, w: nat)
    requires b <= 1 && w < TWO31 && v == TWO31 * b + w
    ensures (2 * v) % TWO32 == 2 * w
  {
  }

  lemma {:induction false} WindowJoin(key: seq<Byte>, len: nat, i: nat, n: nat, m: nat)
    requires len <= |key|
    ensures Window(key, len, i, n + m) == Pow2(m) * Window(key, len, i, n) + Window(key, len, i + n, m)
  {
    hide Window, BitAt;
    if m == 0 {
      WindowNone(key, len, i + n);
      assert n + 0 == n;
    } else {
      WindowJoin(key, len, i, n, m - 1);
      WindowSnoc(key, len, i, n + m);
      WindowSnoc(key, len, i + n, m);
      assert i + n + m - 1 == i + (n + m) - 1 && n + m - 1 == n + (m - 1);
      var w, rest, bit := Window(key, len, i, n), Window(key, len, i + n, m - 1), BitAt(key, len, i + n + m - 1);
      JoinStep(m, w, Window(key, len, i, n + m - 1), rest, bit);
    }
  }

  lemma WindowNone(key: seq<Byte>, len: nat, i: nat)
    requires len <= |key|
    ensures Window(key, len, i, 0) == 0 && Pow2(0) == 1
  {
  }

  lemma JoinStep(m: nat, w: nat, joined: nat, rest: nat, bit: nat)
    requires m > 0 && joined == Pow2(m - 1) * w + rest
    ensures 2 * joined + bit == Pow2(m) * w + (2 * rest + bit)
  {
    hide Pow2;
    DoublePower(m - 1, w);
  }

  lemma WindowSnoc(key: seq<Byte>, len: nat, i: nat, n: nat)
    requires len <= |key| && n > 0
    ensures Window(key, len, i, n) == 2 * Window(key, len, i, n - 1) + BitAt(key, len, i + n - 1)
  {
  }

  /** Logical shift right. */
  function Shr(x: nat, k: nat): nat { if k == 0 then x else Shr(x / 2, k - 1) }

  lemma {:induction false} ShrStep(x: nat, k: nat)
    ensures Shr(x, k) == 2 * Shr(x, k + 1) + if Bit(x, k) then 1 else 0
  {
    if k > 0 { ShrStep(x / 2, k - 1); } else { assert Shr(x, 1) == Shr(x / 2, 0); }
  }

  lemma {:induction false} ShrOut(x: nat, k: nat)
    requires x < Pow2(k)
    ensures Shr(x, k) == 0
  {
    if k > 0 { ShrOut(x / 2, k - 1); }
  }

  lemma {:induction false} WindowOfByte(key: seq<Byte>, len: nat, j: nat, n: nat)
    requires len <= |key| && j < len && n <= 8
    ensures Window(key, len, 8 * j, n) == Shr(key[j], 8 - n)
  {
    if n == 0 {
      assert Pow2(8) == 256;
      ShrOut(key[j], 8);
    } else {
      WindowOfByte(key, len, j, n - 1);
      ShrStep(key[j], 8 - n);
      DivModUnique(8 * j + n - 1, 8, j, n - 1);
    }
  }

  /** Four bytes as a big-endian word, as toeplitz_hash loads the start of the key. */
  function WordAt(key: seq<Byte>, j: nat): nat
    requires j + 4 <= |key|
  {
    var a: nat, b: nat, c: nat, d: nat := key[j], key[j + 1], key[j + 2], key[j + 3];
    16777216 * a + 65536 * b + 256 * c + d
  }

  lemma NextByte(key: seq<Byte>, len: nat, j: nat, n: nat)
    requires len <= |key| && j + n < len
    ensures Window(key, len, 8 * j, 8 * n + 8) == 256 * Window(key, len, 8 * j, 8 * n) + key[j + n]
  {
    hide Window, Pow2, Shr, BitAt;
    Pow2At8();
    WindowJoin(key, len, 8 * j, 8 * n, 8);
    WholeByte(key, len, j + n);
    assert 8 * j + 8 * n == 8 * (j + n);
  }

  lemma Pow2At8()
    ensures Pow2(8) == 256
  {
  }

  lemma WholeByte(key: seq<Byte>, len: nat, j: nat)
    requires len <= |key| && j < len
    ensures Window(key, len, 8 * j, 8) == key[j]
  {
    hide Window;
    WindowOfByte(key, len, j, 8);
  }

  lemma WindowOfWord(key: seq<Byte>, len: nat, j: nat)
    requires len <= |key| && j + 4 <= len
    ensures Window(key, len, 8 * j, 32) == WordAt(key, j)
  {
    hide Window, BitAt;
    WholeByte(key, len, j);
    NextByte(key, len, j, 1);
    NextByte(key, len, j, 2);
    NextByte(key, len, j, 3);
  }

  /** toeplitz_hash */
  method ToeplitzHash(keylen: nat, key: seq<Byte>, data: seq<Byte>) returns (hash: nat)
    requires KeyLen(keylen) <= |key|
    ensures hash == Toeplitz(keylen, key, data)
  {
    hide Fold, Window, BitAt, Xor, And, Bit, Pow2;
    ghost var len := KeyLen(keylen);
    FoldEmpty(key, len, data, 0);
    WindowOfWord(key, len, 0);
    hash := 0;
    var v := WordAt(key, 0);
    var i := 0;
    while i < |data|
      invariant 0 <= i <= |data|
      invariant hash == Fold(key, len, data, 0, 8 * i) && v == Window(key, len, 8 * i, 32)
    {
      var b := 0;
      while b < 8
        invariant 0 <= b <= 8
        invariant hash == Fold(key, len, data, 0, 8 * i + b) && v == Window(key, len, 8 * i + b, 32)
      {
        FoldStep(key, len, data, i, b);
        KeyStep(keylen, key, i, b);
        if And(data[i], Pow2(7 - b)) != 0 { hash := Xor(hash, v); }
        v := (2 * v) % TWO32;
        if i + 4 < keylen && And(key[i + 4], Pow2(7 - b)) != 0 { v := v + 1 - v % 2; }
        b := b + 1;
      }
      i := i + 1;
    }
  }

  lemma FoldEmpty(key: seq<Byte>, len: nat, data: seq<Byte>, off: nat)
    requires len <= |key|
    ensures Fold(key, len, data, off, 0) == 0
  {
  }

  lemma FoldStep(key: seq<Byte>, len: nat, data: seq<Byte>, i: nat, b: nat)
    requires len <= |key| && i < |data| && b < 8
    ensures Fold(key, len, data, 0, 8 * i + b + 1) ==
            (if And(data[i], Pow2(7 - b)) != 0
             then Xor(Fold(key, len, data, 0, 8 * i + b), Window(key, len, 8 * i + b, 32))
             else Fold(key, len, data, 0, 8 * i + b))
  {
    hide Window, And, Bit;
    DivModUnique(8 * i + b, 8, i, b);
    AndOneBit(data[i], 7 - b);
    XorZero(Fold(key, len, data, 0, 8 * i + b));
  }

  lemma XorZero(x: nat)
    ensures Xor(x, 0) == x == Xor(0, x)
  {
  }

  lemma KeyStep(keylen: nat, key: seq<Byte>, i: nat, b: nat)
    requires KeyLen(keylen) <= |key| && b < 8
    ensures var len := KeyLen(keylen); var v := (2 * Window(key, len, 8 * i + b, 32)) % TWO32;
      Window(key, len, 8 * i + b + 1, 32) ==
      if i + 4 < keylen && And(key[i + 4], Pow2(7 - b)) != 0 then v + 1 - v % 2 else v
  {
    var len := KeyLen(keylen);
    WindowShift(key, len, 8 * i + b);
    hide Window, And, Bit;
    DivModUnique(8 * i + b + 32, 8, i + 4, b);
    if i + 4 < keylen { AndOneBit(key[i + 4], 7 - b); }
  }

  // ----- linearity -----

  lemma ByteXor(a: Byte, b: Byte)
    ensures Xor(a, b) < 256
  {
    assert Pow2(8) == 256;
    XorBelow(a, b, 8);
  }

  function XorBytes(a: seq<Byte>, b: seq<Byte>): (r: seq<Byte>)
    requires |a| == |b|
    ensures |r| == |a|
  {
    if a == [] then [] else ByteXor(a[0], b[0]); [Xor(a[0], b[0])] + XorBytes(a[1..], b[1..])
  }

  lemma {:induction false} XorBytesAt(a: seq<Byte>, b: seq<Byte>, i: nat)
    requires |a| == |b| && i < |a|
    ensures XorBytes(a, b)[i] == Xor(a[i], b[i])
  {
    hide Xor;
    if i > 0 { XorBytesAt(a[1..], b[1..], i - 1); }
  }

  lemma FoldUnroll(key: seq<Byte>, len: nat, data: seq<Byte>, t: nat)
    requires len <= |key| && t > 0
    ensures Fold(key, len, data, 0, t) ==
            Xor(Fold(key, len, data, 0, t - 1),
                if BitAt(data, |data|, t - 1) == 1 then Window(key, len, t - 1, 32) else 0)
  {
  }

  lemma BitAtXor(a: seq<Byte>, b: seq<Byte>, i: nat)
    requires |a| == |b| && i < 8 * |a|
    ensures BitAt(XorBytes(a, b), |a|, i) == if BitAt(a, |a|, i) == BitAt(b, |b|, i) then 0 else 1
  {
    XorBytesAt(a, b, i / 8);
    XorBit(a[i / 8], b[i / 8], 7 - i % 8);
  }

  lemma {:induction false} FoldLinear(key: seq<Byte>, len: nat, a: seq<Byte>, b: seq<Byte>, t: nat)
    requires len <= |key| && |a| == |b| && t <= 8 * |a|
    ensures Fold(key, len, XorBytes(a, b), 0, t) == Xor(Fold(key, len, a, 0, t), Fold(key, len, b, 0, t))
  {
    if t == 0 {
      FoldEmpty(key, len, a, 0);
    } else {
      FoldLinear(key, len, a, b, t - 1);
      FoldLinearStep(key, len, a, b, t);
    }
  }

  lemma FoldLinearStep(key: seq<Byte>, len: nat, a: seq<Byte>, b: seq<Byte>, t: nat)
    requires len <= |key| && |a| == |b| && 0 < t <= 8 * |a|
    requires Fold(key, len, XorBytes(a, b), 0, t - 1) == Xor(Fold(key, len, a, 0, t - 1), Fold(key, len, b, 0, t - 1))
    ensures Fold(key, len, XorBytes(a, b), 0, t) == Xor(Fold(key, len, a, 0, t), Fold(key, len, b, 0, t))
  {
    hide Window, Xor, BitAt, Fold, XorBytes;
    var fa, fb, w := Fold(key, len, a, 0, t - 1), Fold(key, len, b, 0, t - 1), Window(key, len, t - 1, 32);
    var p, q := BitAt(a, |a|, t - 1) == 1, BitAt(b, |b|, t - 1) == 1;
    BitAtXor(a, b, t - 1);
    FoldUnroll(key, len, a, t);
    FoldUnroll(key, len, b, t);
    FoldUnroll(key, len, XorBytes(a, b), t);
    ChoiceXor(fa, fb, w, p, q);
  }

  lemma ChoiceXor(fa: nat, fb: nat, w: nat, p: bool, q: bool)
    ensures Xor(Xor(fa, fb), if p != q then w else 0) ==
            Xor(Xor(fa, if p then w else 0), Xor(fb, if q then w else 0))
  {
    XorPairs(fa, fb, if p then w else 0, if q then w else 0);
    XorSelf(w);
    XorZero(w);
    XorZero(0);
  }

  /** hash(a xor b) = hash(a) xor hash(b) */
  lemma ToeplitzLinear(keylen: nat, key: seq<Byte>, a: seq<Byte>, b: seq<Byte>)
    requires KeyLen(keylen) <= |key| && |a| == |b|
    ensures Toeplitz(keylen, key, XorBytes(a, b)) == Xor(Toeplitz(keylen, key, a), Toeplitz(keylen, key, b))
  {
    FoldLinear(key, KeyLen(keylen), a, b, 8 * |a|);
  }

  lemma {:induction false} WindowBit(key: seq<Byte>, len: nat, i: nat, n: nat, m: nat)
    requires len <= |key| && m < n
    ensures Bit(Window(key, len, i, n), n - 1 - m) <==> BitAt(key, len, i + m) == 1
  {
    hide BitAt;
    if m < n - 1 { WindowBit(key, len, i, n - 1, m); }
  }

  /** A single set bit of the data, counted from its first byte's most significant end, selects the 32
      key bits that start where it stands, those past the key being zero.  With ToeplitzLinear this
      determines the hash of all data. */
  lemma ToeplitzOneBit(keylen: nat, key: seq<Byte>, data: seq<Byte>, i: nat, m: nat)
    requires Max(keylen, 4) <= |key| && i < 8 * |data| && m < 32
    requires forall q | 0 <= q < |data| :: data[q] == if q == i / 8 then Pow2(7 - i % 8) else 0
    ensures var hash, b := Toeplitz(keylen, key, data), i + m;
      hash < TWO32 && (Bit(hash, 31 - m) <==> b / 8 < Max(keylen, 4) && Bit(key[b / 8], 7 - b % 8))
  {
    hide Window, Fold, Pow2, Bit;
    assert data == Unit(|data|, i);
    FoldUnit(key, KeyLen(keylen), |data|, i, 0, 8 * |data|);
    WindowBit(key, KeyLen(keylen), i, 32, m);
    WindowBelow(key, KeyLen(keylen), i, 32);
    Pow2At32();
  }

  // ----- symmetry -----

  lemma {:induction false} FoldConcat(key: seq<Byte>, len: nat, a: seq<Byte>, b: seq<Byte>, off: nat, t: nat)
    requires len <= |key| && t <= 8 * |a| + 8 * |b|
    ensures Fold(key, len, a + b, off, t) ==
            if t <= 8 * |a| then Fold(key, len, a, off, t)
            else Xor(Fold(key, len, a, off, 8 * |a|), Fold(key, len, b, off + 8 * |a|, t - 8 * |a|))
  {
    hide Window, Xor, Bit;
    if t > 0 {
      FoldConcat(key, len, a, b, off, t - 1);
      BitAtConcat(a, b, t - 1);
      var fa := Fold(key, len, a, off, 8 * |a|);
      if t == 8 * |a| + 1 { XorZero(fa); }
      if t > 8 * |a| {
        var u := t - 8 * |a|;
        var x := if BitAt(b, |b|, u - 1) == 1 then Window(key, len, off + t - 1, 32) else 0;
        assert off + t - 1 == (off + 8 * |a|) + u - 1;
        XorAssociates(fa, Fold(key, len, b, off + 8 * |a|, u - 1), x);
        assert Fold(key, len, b, off + 8 * |a|, u) == Xor(Fold(key, len, b, off + 8 * |a|, u - 1), x);
        if u == 1 { XorZero(x); }
      }
    }
  }

  lemma BitAtConcat(a: seq<Byte>, b: seq<Byte>, i: nat)
    ensures BitAt(a + b, |a + b|, i) == if i < 8 * |a| then BitAt(a, |a|, i) else BitAt(b, |b|, i - 8 * |a|)
  {
    hide Bit;
    if i >= 8 * |a| { DivModUnique(i, 8, |a| + (i - 8 * |a|) / 8, (i - 8 * |a|) % 8); }
  }

  predicate SameWindow(key: seq<Byte>, len: nat, off: nat, off': nat, i: nat)
    requires len <= |key|
  {
    Window(key, len, off + i, 32) == Window(key, len, off' + i, 32)
  }

  lemma {:induction false} FoldMoved(key: seq<Byte>, len: nat, data: seq<Byte>, off: nat, off': nat, t: nat)
    requires len <= |key|
    requires forall i: nat | i < t :: SameWindow(key, len, off, off', i)
    ensures Fold(key, len, data, off, t) == Fold(key, len, data, off', t)
  {
    if t > 0 {
      FoldMoved(key, len, data, off, off', t - 1);
      hide Window, Xor, BitAt;
      assert SameWindow(key, len, off, off', t - 1);
      assert off + t - 1 == off + (t - 1) && off' + t - 1 == off' + (t - 1);
    }
  }

  /** An IPv4 flow as lazybsd_rss_check lays it out: addresses, then ports, in network order. */
  datatype Flow = Flow(saddr: seq<Byte>, daddr: seq<Byte>, sport: seq<Byte>, dport: seq<Byte>) {
    predicate Ok() { |saddr| == 4 && |daddr| == 4 && |sport| == 2 && |dport| == 2 }

    function Bytes(): seq<Byte> { saddr + daddr + sport + dport }

    function Reverse(): Flow { Flow(daddr, saddr, dport, sport) }
  }

  function FlowHash(keylen: nat, key: seq<Byte>, f: Flow): nat
    requires KeyLen(keylen) <= |key|
  {
    Toeplitz(keylen, key, f.Bytes())
  }

  /** The windows under the two addresses agree, and so do those under the two ports. */
  ghost predicate SymmetricWindows(keylen: nat, key: seq<Byte>)
    requires KeyLen(keylen) <= |key|
  {
    (forall i: nat | i < 32 :: SameWindow(key, KeyLen(keylen), 0, 32, i)) &&
    (forall i: nat | i < 16 :: SameWindow(key, KeyLen(keylen), 64, 80, i))
  }

  lemma FlowHashParts(keylen: nat, key: seq<Byte>, f: Flow)
    requires KeyLen(keylen) <= |key| && f.Ok()
    ensures var len := KeyLen(keylen);
      FlowHash(keylen, key, f) ==
      Xor(Xor(Fold(key, len, f.saddr, 0, 32), Fold(key, len, f.daddr, 32, 32)),
          Xor(Fold(key, len, f.sport, 64, 16), Fold(key, len, f.dport, 80, 16)))
  {
    hide Fold, Xor, Window;
    var len := KeyLen(keylen);
    var ad := f.saddr + f.daddr;
    FoldConcat(key, len, f.saddr, f.daddr, 0, 64);
    FoldConcat(key, len, f.sport, f.dport, 64, 32);
    FoldConcat(key, len, ad, f.sport + f.dport, 0, 96);
    assert f.Bytes() == ad + (f.sport + f.dport);
  }

  /** A key with symmetric windows hashes both directions of every flow alike. */
  lemma SymmetricHash(keylen: nat, key: seq<Byte>, f: Flow)
    requires KeyLen(keylen) <= |key| && f.Ok() && SymmetricWindows(keylen, key)
    ensures FlowHash(keylen, key, f) == FlowHash(keylen, key, f.Reverse())
  {
    hide Fold, Xor, Window;
    var len := KeyLen(keylen);
    FlowHashParts(keylen, key, f);
    FlowHashParts(keylen, key, f.Reverse());
    FoldMoved(key, len, f.saddr, 0, 32, 32);
    FoldMoved(key, len, f.daddr, 0, 32, 32);
    FoldMoved(key, len, f.sport, 64, 80, 16);
    FoldMoved(key, len, f.dport, 64, 80, 16);
    XorCommutes(Fold(key, len, f.saddr, 0, 32), Fold(key, len, f.daddr, 0, 32));
    XorCommutes(Fold(key, len, f.sport, 64, 16), Fold(key, len, f.dport, 64, 16));
  }

  /** n bytes with only bit i set; none when i is past their end. */
  function Unit(n: nat, i: nat): (s: seq<Byte>)
    ensures |s| == n
  {
    seq(n, j => if j == i / 8 then OneBit(7 - i % 8) else 0)
  }

  function OneBit(k: nat): Byte
    requires k <= 7
  {
    assert Pow2(7) == 128;
    Pow2Grows(k, 7);
    Pow2(k)
  }

  lemma {:induction false} BitOfPow2(k: nat, j: nat)
    ensures Bit(Pow2(k), j) <==> j == k
  {
    if k > 0 && j > 0 { BitOfPow2(k - 1, j - 1); }
    else if j > 0 { assert Pow2(0) / 2 == 0; ZeroHasNoBits(j - 1); }
  }

  lemma UnitBits(n: nat, i: nat, j: nat)
    requires j < 8 * n
    ensures BitAt(Unit(n, i), n, j) == if i == j then 1 else 0
  {
    if j / 8 == i / 8 { BitOfPow2(7 - i % 8, 7 - j % 8); } else { ZeroHasNoBits(7 - j % 8); }
  }

  lemma {:induction false} FoldUnit(key: seq<Byte>, len: nat, n: nat, i: nat, off: nat, t: nat)
    requires len <= |key| && t <= 8 * n
    ensures Fold(key, len, Unit(n, i), off, t) == if i < t then Window(key, len, off + i, 32) else 0
  {
    if t > 0 {
      FoldUnit(key, len, n, i, off, t - 1);
      UnitBits(n, i, t - 1);
      hide Window, Xor, Bit, Unit;
      if i < t { XorZero(Window(key, len, off + i, 32)); }
      XorZero(0);
    }
  }

  /** Whether a key makes the hash symmetric for every 4-tuple is decided by 48 comparisons of
      its windows. */
  lemma SymmetricExactly(keylen: nat, key: seq<Byte>)
    requires KeyLen(keylen) <= |key|
    ensures (forall f: Flow | f.Ok() :: FlowHash(keylen, key, f) == FlowHash(keylen, key, f.Reverse()))
            <==> SymmetricWindows(keylen, key)
  {
    hide Fold, Xor, Window;
    if SymmetricWindows(keylen, key) {
      forall f: Flow | f.Ok() ensures FlowHash(keylen, key, f) == FlowHash(keylen, key, f.Reverse()) {
        SymmetricHash(keylen, key, f);
      }
    }
    if forall f: Flow | f.Ok() :: FlowHash(keylen, key, f) == FlowHash(keylen, key, f.Reverse()) {
      forall i: nat | i < 32 ensures SameWindow(key, KeyLen(keylen), 0, 32, i) {
        ProbeAddress(keylen, key, i);
      }
      forall i: nat | i < 16 ensures SameWindow(key, KeyLen(keylen), 64, 80, i) {
        ProbePort(keylen, key, i);
      }
    }
  }

  lemma ProbeAddress(keylen: nat, key: seq<Byte>, i: nat)
    requires KeyLen(keylen) <= |key| && i < 32
    requires forall f: Flow | f.Ok() :: FlowHash(keylen, key, f) == FlowHash(keylen, key, f.Reverse())
    ensures SameWindow(key, KeyLen(keylen), 0, 32, i)
  {
    hide Fold, Xor, Window, Unit, FlowHash;
    var len, f := KeyLen(keylen), Flow(Unit(4, i), Unit(4, 32), Unit(2, 16), Unit(2, 16));
    FlowHashParts(keylen, key, f);
    FlowHashParts(keylen, key, f.Reverse());
    FoldUnit(key, len, 4, i, 0, 32);
    FoldUnit(key, len, 4, i, 32, 32);
    NoUnits(key, len);
    XorZeros(Window(key, len, i, 32));
    XorZeros(Window(key, len, 32 + i, 32));
    assert FlowHash(keylen, key, f) == FlowHash(keylen, key, f.Reverse());
  }

  lemma ProbePort(keylen: nat, key: seq<Byte>, i: nat)
    requires KeyLen(keylen) <= |key| && i < 16
    requires forall f: Flow | f.Ok() :: FlowHash(keylen, key, f) == FlowHash(keylen, key, f.Reverse())
    ensures SameWindow(key, KeyLen(keylen), 64, 80, i)
  {
    hide Fold, Xor, Window, Unit, FlowHash;
    var len, f := KeyLen(keylen), Flow(Unit(4, 32), Unit(4, 32), Unit(2, i), Unit(2, 16));
    FlowHashParts(keylen, key, f);
    FlowHashParts(keylen, key, f.Reverse());
    FoldUnit(key, len, 2, i, 64, 16);
    FoldUnit(key, len, 2, i, 80, 16);
    NoUnits(key, len);
    XorZeros(Window(key, len, 64 + i, 32));
    XorZeros(Window(key, len, 80 + i, 32));
    assert FlowHash(keylen, key, f) == FlowHash(keylen, key, f.Reverse());
  }

  /** The parts of a probe that have no bit set contribute nothing. */
  lemma NoUnits(key: seq<Byte>, len: nat)
    requires len <= |key|
    ensures Fold(key, len, Unit(4, 32), 0, 32) == Fold(key, len, Unit(4, 32), 32, 32) == 0
    ensures Fold(key, len, Unit(2, 16), 64, 16) == Fold(key, len, Unit(2, 16), 80, 16) == 0
  {
    hide Fold, Window, Unit;
    FoldUnit(key, len, 4, 32, 0, 32);
    FoldUnit(key, len, 4, 32, 32, 32);
    FoldUnit(key, len, 2, 16, 64, 16);
    FoldUnit(key, len, 2, 16, 80, 16);
  }

  lemma XorZeros(x: nat)
    ensures Xor(Xor(x, 0), Xor(0, 0)) == Xor(Xor(0, x), Xor(0, 0)) == x
    ensures Xor(Xor(0, 0), Xor(x, 0)) == Xor(Xor(0, 0), Xor(0, x)) == x
  {
    XorZero(x);
    XorZero(0);
  }

  /** symmetric_rsskey: 0x6d 0x5a repeated. */
  const SYMMETRIC_RSSKEY: seq<Byte> := seq(52, i => if i % 2 == 0 then 0x6d else 0x5a)

  const DEFAULT_RSSKEY_40BYTES: seq<Byte> := [
    0xd1, 0x81, 0xc6, 0x2c, 0xf7, 0xf4, 0xdb, 0x5b, 0x19, 0x83, 0xa2, 0xfc, 0x94, 0x3e, 0x1a, 0xdb,
    0xd9, 0x38, 0x9e, 0x6b, 0xd1, 0x03, 0x9c, 0x2c, 0xa7, 0x44, 0x99, 0xad, 0x59, 0x3d, 0x56, 0xd9,
    0xf3, 0x25, 0x3c, 0x06, 0x2a, 0xdc, 0x1f, 0xfc]

  const DEFAULT_RSSKEY_52BYTES: seq<Byte> := [
    0x44, 0x39, 0x79, 0x6b, 0xb5, 0x4c, 0x50, 0x23, 0xb6, 0x75, 0xea, 0x5b, 0x12,
    0x4f, 0x9f, 0x30, 0xb8, 0xa2, 0xc0, 0x3d, 0xdf, 0xdc, 0x4d, 0x02, 0xa0, 0x8c] + [
    0x9b, 0x33, 0x4a, 0xf6, 0x4a, 0x4c, 0x05, 0xc6, 0xfa, 0x34, 0x39, 0x58, 0xd8,
    0x55, 0x7d, 0x99, 0x58, 0x3a, 0xe1, 0x38, 0xc9, 0x2e, 0x81, 0x15, 0x03, 0x66]

  ghost predicate TwoBytePeriod(key: seq<Byte>, len: nat)
    requires len <= |key|
  {
    forall j | 0 <= j < len - 2 :: key[j] == key[j + 2]
  }

  lemma {:induction false} PeriodicWindow(key: seq<Byte>, len: nat, i: nat, n: nat)
    requires len <= |key| && TwoBytePeriod(key, len) && i + 16 + n <= 8 * len
    ensures Window(key, len, i, n) == Window(key, len, i + 16, n)
  {
    hide Bit;
    if n > 0 {
      PeriodicWindow(key, len, i, n - 1);
      var j := i + n - 1;
      assert (j + 16) / 8 == j / 8 + 2 && (j + 16) % 8 == j % 8;
      assert i + 16 + n - 1 == j + 16;
    }
  }

  /** Every key of at least 16 bytes that repeats every two bytes is symmetric. */
  lemma PeriodicKeyIsSymmetric(keylen: nat, key: seq<Byte>)
    requires 16 <= keylen <= |key| && TwoBytePeriod(key, keylen)
    ensures SymmetricWindows(keylen, key)
  {
    hide Window;
    forall i: nat | i < 32 ensures SameWindow(key, keylen, 0, 32, i) {
      PeriodicWindow(key, keylen, i, 32);
      PeriodicWindow(key, keylen, i + 16, 32);
    }
    forall i: nat | i < 16 ensures SameWindow(key, keylen, 64, 80, i) {
      PeriodicWindow(key, keylen, 64 + i, 32);
    }
  }

  /** With the symmetric key and either configured length, both directions of every flow have
      the same hash. */
  lemma SymmetricKeyWorks(keylen: nat, f: Flow)
    requires (keylen == 40 || keylen == 52) && f.Ok()
    ensures FlowHash(keylen, SYMMETRIC_RSSKEY, f) == FlowHash(keylen, SYMMETRIC_RSSKEY, f.Reverse())
  {
    PeriodicKeyIsSymmetric(keylen, SYMMETRIC_RSSKEY);
    SymmetricHash(keylen, SYMMETRIC_RSSKEY, f);
  }

  /** The default keys are not symmetric. */
  lemma DefaultKeysAreNot()
    ensures !SymmetricWindows(40, DEFAULT_RSSKEY_40BYTES)
    ensures !SymmetricWindows(52, DEFAULT_RSSKEY_52BYTES)
  {
    hide Window;
    assert DEFAULT_RSSKEY_40BYTES[0] == 0xd1 && DEFAULT_RSSKEY_40BYTES[4] == 0xf7;
    assert DEFAULT_RSSKEY_52BYTES[0] == 0x44 && DEFAULT_RSSKEY_52BYTES[4] == 0xb5;
    NotSymmetric(40, DEFAULT_RSSKEY_40BYTES);
    NotSymmetric(52, DEFAULT_RSSKEY_52BYTES);
  }

  lemma NotSymmetric(keylen: nat, key: seq<Byte>)
    requires 8 <= keylen <= |key| && key[0] != key[4]
    ensures !SymmetricWindows(keylen, key)
  {
    WindowOfWord(key, keylen, 0);
    WindowOfWord(key, keylen, 4);
    hide Window;
    var a: nat, b: nat := key[0], key[4];
    assert WordAt(key, 0) / 16777216 == a && WordAt(key, 4) / 16777216 == b;
    assert KeyLen(keylen) == keylen && !SameWindow(key, keylen, 0, 32, 0);
  }

  // ----- the indirection table and its predictor -----

  const RETA_GROUP_SIZE := 64

  function Groups(retaSize: nat): nat { if retaSize / RETA_GROUP_SIZE > 1 then retaSize / RETA_GROUP_SIZE else 1 }

  /** The queue the installed table holds at an entry. */
  function Entry(reta: array2<nat>, e: nat): nat
    requires reta.Length1 == RETA_GROUP_SIZE && e / RETA_GROUP_SIZE < reta.Length0
    reads reta
  {
    reta[e / RETA_GROUP_SIZE, e % RETA_GROUP_SIZE]
  }

  /** set_rss_table, up to handing the table to the card; a card without a table gets none. */
  method SetRssTable(retaSize: nat, nbQueues: nat) returns (installed: bool, mask: array<nat>, reta: array2<nat>)
    requires retaSize < 65536 && 0 < nbQueues < 65536
    ensures installed <==> retaSize > 0
    ensures fresh(mask) && fresh(reta)
    ensures mask.Length == reta.Length0 == (if installed then Max(1, retaSize / 64) else 0)
    ensures reta.Length0 == (if installed then Groups(retaSize) else 0) && reta.Length1 == RETA_GROUP_SIZE
    ensures forall g, b | 0 <= g < reta.Length0 && 0 <= b < 64 :: reta[g, b] == (64 * g + b) % nbQueues
    ensures forall g | 0 <= g < mask.Length :: mask[g] == 0xffff_ffff_ffff_ffff
    ensures forall e: nat | e / RETA_GROUP_SIZE < reta.Length0 :: Entry(reta, e) == e % nbQueues
  {
    installed := retaSize != 0;
    var n := if installed then Groups(retaSize) else 0;
    mask := new nat[n];
    reta := new nat[n, RETA_GROUP_SIZE];
    var hash := 0;
    var i := 0;
    while i < n
      invariant 0 <= i <= n && hash == RETA_GROUP_SIZE * i
      invariant forall g | 0 <= g < i :: mask[g] == 0xffff_ffff_ffff_ffff
      invariant forall g, b | 0 <= g < i && 0 <= b < RETA_GROUP_SIZE ::
                  reta[g, b] == (RETA_GROUP_SIZE * g + b) % nbQueues
    {
      mask[i] := 0xffff_ffff_ffff_ffff;
      var j := 0;
      while j < RETA_GROUP_SIZE
        invariant 0 <= j <= RETA_GROUP_SIZE && hash == RETA_GROUP_SIZE * i + j
        invariant forall g | 0 <= g <= i :: mask[g] == 0xffff_ffff_ffff_ffff
        invariant forall g, b | 0 <= g < i && 0 <= b < RETA_GROUP_SIZE ::
                    reta[g, b] == (RETA_GROUP_SIZE * g + b) % nbQueues
        invariant forall b | 0 <= b < j :: reta[i, b] == (RETA_GROUP_SIZE * i + b) % nbQueues
      {
        reta[i, j] := hash % nbQueues;
        hash := hash + 1;
        j := j + 1;
      }
      i := i + 1;
    }
  }

  /** The last lines of lazybsd_rss_check, for a flow with this hash. */
  predicate RssCheck(hash: nat, nbQueues: nat, retaSize: nat, queueid: nat) {
    nbQueues <= 1 || And(hash, AsUnsigned(retaSize - 1)) % nbQueues == queueid
  }

  /** Table sizes are 16-bit powers of two, so the mask keeps the low k bits of the hash. */
  lemma LowBits(hash: nat, k: nat)
    requires k <= 15
    ensures And(hash, AsUnsigned(Pow2(k) - 1)) == hash % Pow2(k)
  {
    Pow2Grows(k, 32);
    Pow2At32();
    AndMask(hash, k);
    hide Pow2, And;
    SmallUnsigned(Pow2(k) - 1);
  }

  lemma SmallUnsigned(x: nat)
    requires x < TWO32
    ensures AsUnsigned(x) == x
  {
  }

  lemma EntryInTable(hash: nat, k: nat)
    ensures (hash % Pow2(k)) / RETA_GROUP_SIZE < Groups(Pow2(k))
  {
    assert Pow2(6) == 64;
    if k >= 6 {
      Pow2Add(6, k - 6);
      DivBelow(hash % Pow2(k), Pow2(k - 6));
    } else {
      Pow2Grows(k, 6);
    }
  }

  lemma DivBelow(e: nat, m: nat)
    requires e < RETA_GROUP_SIZE * m
    ensures e / RETA_GROUP_SIZE < m && RETA_GROUP_SIZE * m / RETA_GROUP_SIZE == m
  {
  }

  /** For every hash, power-of-two table size and queue count, the predictor claims a flow for one of
      the queues exactly when the table entry selected by the hash's low bits holds that queue. */
  lemma PredictorAgrees(hash: nat, nbQueues: nat, k: nat, reta: array2<nat>, queueid: nat)
    requires queueid < nbQueues && k <= 15 && reta.Length0 == Groups(Pow2(k)) && reta.Length1 == RETA_GROUP_SIZE
    requires forall e: nat | e / RETA_GROUP_SIZE < reta.Length0 :: Entry(reta, e) == e % nbQueues
    ensures (hash % Pow2(k)) / RETA_GROUP_SIZE < reta.Length0
    ensures RssCheck(hash, nbQueues, Pow2(k), queueid) <==> Entry(reta, hash % Pow2(k)) == queueid
  {
    LowBits(hash, k);
    EntryInTable(hash, k);
    hide And, Pow2, Groups;
    if nbQueues == 1 { ModOne(hash % Pow2(k)); }
  }

  lemma ModOne(x: nat)
    ensures x % 1 == 0
  {
  }

  /** With at most one queue every flow is claimed, whatever is asked. */
  lemma OneQueueClaimsAll(hash: nat, nbQueues: nat, retaSize: nat, queueid: nat)
    requires nbQueues <= 1
    ensures RssCheck(hash, nbQueues, retaSize, queueid)
  {
  }

  /** Exactly one of the queues there are claims each flow, whatever its hash and the table's size:
      the low bits of the hash, or all of it when there is no table, modulo the number of queues. */
  lemma OneQueueEach(hash: nat, nbQueues: nat, retaSize: nat) returns (q: nat)
    requires nbQueues >= 1
    ensures q < nbQueues
    ensures forall p: nat | p < nbQueues :: RssCheck(hash, nbQueues, retaSize, p) <==> p == q
    ensures forall k: nat | k <= 15 && retaSize == Pow2(k) :: q == hash % Pow2(k) % nbQueues
    ensures retaSize == 0 && hash < TWO32 ==> q == hash % nbQueues
  {
    hide And, Pow2;
    q := And(hash, AsUnsigned(retaSize - 1)) % nbQueues;
    if nbQueues == 1 { ModOne(And(hash, AsUnsigned(retaSize - 1))); }
    forall k: nat | k <= 15 && retaSize == Pow2(k) ensures q == hash % Pow2(k) % nbQueues { LowBits(hash, k); }
    if retaSize == 0 && hash < TWO32 { AllBits(hash); }
  }

  lemma AllBits(hash: nat)
    requires hash < TWO32
    ensures And(hash, AsUnsigned(-1)) == hash
  {
    hide And, Pow2, AsUnsigned;
    Pow2At32();
    AndMask(hash, 32);
    MinusOne(hash);
  }

  lemma MinusOne(x: nat)
    requires x < TWO32
    ensures AsUnsigned(-1) == TWO32 - 1 && x % TWO32 == x
  {
  }

  /** lazybsd_rss_check */
  method LazybsdRssCheck(f: Flow, keylen: nat, key: seq<Byte>, nbQueues: nat, retaSize: nat, queueid: nat)
    returns (claimed: bool)
    requires f.Ok() && KeyLen(keylen) <= |key| && retaSize < 65536
    ensures nbQueues <= 1 ==> claimed
    ensures nbQueues > 1 ==>
              var hash := Toeplitz(keylen, key, f.saddr + f.daddr + f.sport + f.dport);
              claimed <==> And(hash, if retaSize == 0 then 0xffff_ffff else retaSize - 1) % nbQueues == queueid
    ensures claimed <==> RssCheck(FlowHash(keylen, key, f), nbQueues, retaSize, queueid)
  {
    if nbQueues <= 1 { return true; }
    var data := f.saddr + f.daddr + f.sport + f.dport;
    var hash := ToeplitzHash(keylen, key, data);
    claimed := And(hash, AsUnsigned(retaSize - 1)) % nbQueues == queueid;
  }

  /** With the symmetric key the queue that claims a flow claims its replies. */
  lemma RepliesSameQueue(keylen: nat, f: Flow, nbQueues: nat, retaSize: nat, queueid: nat)
    requires (keylen == 40 || keylen == 52) && f.Ok()
    ensures RssCheck(FlowHash(keylen, SYMMETRIC_RSSKEY, f), nbQueues, retaSize, queueid) <==>
            RssCheck(FlowHash(keylen, SYMMETRIC_RSSKEY, f.Reverse()), nbQueues, retaSize, queueid)
  {
    SymmetricKeyWorks(keylen, f);
  }
}
