/** The integer conversions of kvprintf, with ksprintn's digit buffer. */
module Printf {
  import opened Bits
  import opened Common

  const MAXNBUF := 65                   // sizeof(intmax_t) * NBBY + 1
  const TWO63 := 0x8000_0000_0000_0000
  const TWO64 := 0x1_0000_0000_0000_0000

  // ----- digits -----

  const LOWER := "0123456789abcdefghijklmnopqrstuvwxyz"
  const UPPER := "0123456789ABCDEFGHIJKLMNOPQRSTUVWXYZ"

  /** hex2ascii, then toupper when asked. */
  function DigitChar(d: nat, upper: bool): char
    requires d < 36
  {
    if upper then UPPER[d] else LOWER[d]
  }

  /** The value of a digit character of either case. */
  function DigitValue(c: char): nat {
    if '0' <= c <= '9' then c as int - '0' as int
    else if 'a' <= c <= 'z' then c as int - 'a' as int + 10
    else if 'A' <= c <= 'Z' then c as int - 'A' as int + 10
    else 0
  }

  lemma DigitReadsBack(d: nat, upper: bool)
    requires d < 36
    ensures DigitValue(DigitChar(d, upper)) == d
    ensures DigitChar(d, upper) != ' ' && DigitChar(d, upper) != '-' && DigitChar(d, upper) != '\0'
    ensures d < 16 ==> DigitChar(d, upper) != 'x'
  {
    hide DigitChar;
    LowerDigit(d);
    UpperDigit(d);
  }

  lemma LowerDigit(d: nat)
    requires d < 36
    ensures DigitChar(d, false) == if d < 10 then ('0' as int + d) as char else ('a' as int + d - 10) as char
  {
  }

  lemma UpperDigit(d: nat)
    requires d < 36
    ensures DigitChar(d, true) == if d < 10 then ('0' as int + d) as char else ('A' as int + d - 10) as char
  {
  }

  /** The usual notation of a number, most significant digit first. */
  function Digits(n: nat, base: nat, upper: bool): (s: string)
    requires 2 <= base <= 36
    ensures |s| >= 1
  {
    if n < base then [DigitChar(n, upper)]
    else
      DivSmaller(n, base);
      Digits(n / base, base, upper) + [DigitChar(n % base, upper)]
  }

  lemma DivSmaller(n: nat, base: nat)
    requires base >= 2
    ensures n > 0 ==> n / base < n
    ensures n % base < base
  {
    var q := n / base;
    assert n == base * q + n % base;
    MulNonNegative(base - 2, q);
    assert base * q == 2 * q + (base - 2) * q;
  }

  /** The number a digit string denotes. */
  function Value(s: string, base: nat): nat {
    if s == "" then 0 else Value(s[..|s| - 1], base) * base + DigitValue(s[|s| - 1])
  }

  lemma ValueSnoc(s: string, c: char, base: nat)
    ensures Value(s + [c], base) == Value(s, base) * base + DigitValue(c)
  {
    assert (s + [c])[..|s|] == s;
  }

  lemma DivMul(n: nat, base: nat)
    requires base > 0
    ensures (n / base) * base + n % base == n
  {
  }

  lemma DigitsSplit(n: nat, base: nat, upper: bool)
    requires 2 <= base <= 36
    ensures n < base ==> Digits(n, base, upper) == [DigitChar(n, upper)]
    ensures n >= base ==> Digits(n, base, upper) == Digits(n / base, base, upper) + [DigitChar(n % base, upper)]
  {
  }

  lemma ValueOne(c: char, base: nat)
    ensures Value([c], base) == DigitValue(c)
  {
    assert [c][..0] == "";
    assert Value("", base) * base == 0;
  }

  lemma {:induction false} DigitsReadBack(n: nat, base: nat, upper: bool)
    requires 2 <= base <= 36
    ensures Value(Digits(n, base, upper), base) == n
    decreases n
  {
    hide DigitChar, DigitValue, Digits, Value;
    DigitsSplit(n, base, upper);
    if n < base {
      DigitReadsBack(n, upper);
      ValueOne(DigitChar(n, upper), base);
    } else {
      var q, r := n / base, n % base;
      DivMul(n, base);
      Smaller(n, base);
      DigitsReadBack(q, base, upper);
      DigitReadsBack(r, upper);
      ValueSnoc(Digits(q, base, upper), DigitChar(r, upper), base);
    }
  }

  /** A digit of the base, a letter of the asked case from ten on. */
  predicate InCase(c: char, base: nat, upper: bool) {
    if c <= '9' then '0' <= c && c as int - '0' as int < base
    else if upper then 'A' <= c && c as int - 'A' as int + 10 < base
    else 'a' <= c && c as int - 'a' as int + 10 < base
  }

  /** The notation holds digits of the base in the asked case only and no needless zero; with
      DigitsReadBack this leaves one string for a number. */
  lemma {:induction false} DigitsInCase(n: nat, base: nat, upper: bool)
    requires 2 <= base <= 36
    ensures forall i | 0 <= i < |Digits(n, base, upper)| :: InCase(Digits(n, base, upper)[i], base, upper)
    ensures if n == 0 then Digits(n, base, upper) == "0" else Digits(n, base, upper)[0] != '0'
  {
    hide DigitChar;
    if n < base {
      DigitInCase(n, base, upper);
    } else {
      Smaller(n, base);
      AtLeastOne(n, base);
      DigitsInCase(n / base, base, upper);
      DigitInCase(n % base, base, upper);
    }
  }

  lemma DigitInCase(d: nat, base: nat, upper: bool)
    requires d < base <= 36
    ensures InCase(DigitChar(d, upper), base, upper) && (DigitChar(d, upper) == '0' <==> d == 0)
  {
    LowerDigit(d);
    UpperDigit(d);
    hide DigitChar;
  }

  /** Digits are neither blanks nor signs, and those of base 16 or below are never an x. */
  predicate IsDigit(c: char, base: nat) { c != ' ' && c != '-' && c != '\0' && (base <= 16 ==> c != 'x') }

  lemma DigitsPlain(n: nat, base: nat, upper: bool)
    requires 2 <= base <= 36
    ensures forall i | 0 <= i < |Digits(n, base, upper)| :: IsDigit(Digits(n, base, upper)[i], base)
  {
    DigitsInCase(n, base, upper);
    hide Digits;
  }

  // ----- ksprintn -----

  /** The characters of the buffer from position p down to 1, as `while (*p) PCHAR(*p--)` prints them. */
  function Down(buf: seq<char>, p: nat): string
    requires p < |buf|
  {
    if p == 0 then "" else [buf[p]] + Down(buf, p - 1)
  }

  lemma {:induction false} DownFrame(a: seq<char>, b: seq<char>, p: nat)
    requires p < |a| && p < |b| && forall k | 1 <= k <= p :: a[k] == b[k]
    ensures Down(a, p) == Down(b, p)
  {
    if p > 0 { DownFrame(a, b, p - 1); }
  }

  lemma HalfBelow(n: nat, base: nat, k: nat)
    requires base >= 2 && k > 0 && n < Pow2(k)
    ensures n / base < Pow2(k - 1)
  {
    var q := n / base;
    assert n == base * q + n % base;
    MulNonNegative(base - 2, q);
    assert base * q == 2 * q + (base - 2) * q;
    assert Pow2(k) == 2 * Pow2(k - 1);
  }

  /** One turn of ksprintn's loop, leaving the rest of the number. */
  method PutDigit(nbuf: array<char>, p: nat, n: nat, base: nat, upper: bool) returns (rest: nat)
    requires p < 64 < nbuf.Length && n < Pow2(64 - p) && 2 <= base <= 36
    modifies nbuf
    ensures nbuf[0] == old(nbuf[0]) && rest < Pow2(63 - p) && rest <= n && (n != 0 ==> rest < n)
    ensures Digits(n, base, upper) + old(Down(nbuf[..], p)) ==
            (if rest != 0 then Digits(rest, base, upper) else "") + Down(nbuf[..], p + 1)
  {
    hide Pow2, Digits, Down, DigitChar;
    Smaller(n, base);
    rest := n / base;
    HalfBelow(n, base, 64 - p);
    Pushed(nbuf[..], p + 1, n, base, upper);
    nbuf[p + 1] := DigitChar(n % base, upper);
  }

  /** ksprintn: writes the digits backwards behind a NUL, never past the 65-byte buffer. */
  method Ksprintn(nbuf: array<char>, num: nat, base: nat, upper: bool) returns (p: nat)
    requires nbuf.Length >= MAXNBUF && num < Pow2(64) && 2 <= base <= 36
    modifies nbuf
    ensures 1 <= p <= 64 && nbuf[0] == '\0' && p == |Digits(num, base, upper)|
    ensures Down(nbuf[..], p) == Digits(num, base, upper)
  {
    hide Pow2, Digits, Down, DigitChar;
    p := 0;
    nbuf[0] := '\0';
    var n: nat := num;
    var more := true;
    NothingDown(nbuf[..], Digits(num, base, upper));
    while more
      invariant p <= 64 && nbuf[0] == '\0' && (more <==> p == 0 || n != 0) && n < Pow2(64 - p)
      invariant Digits(num, base, upper) == (if more then Digits(n, base, upper) else "") + Down(nbuf[..], p)
      decreases more, n
    {
      PositiveRoom(n, p);
      n := PutDigit(nbuf, p, n, base, upper);
      p := p + 1;
      more := n != 0;
    }
    DownLength(nbuf[..], p);
  }

  lemma NothingDown(buf: seq<char>, s: string)
    requires |buf| > 0
    ensures s == s + Down(buf, 0)
  {
  }

  lemma Smaller(n: nat, base: nat)
    requires base >= 2
    ensures 0 <= n / base <= n && (n != 0 ==> n / base < n) && 0 <= n % base < base
  {
    DivMul(n, base);
    var q := n / base;
    assert q * base == q + q * (base - 1);
    MulNonNegative(q, base - 1);
    if q > 0 { MulNonNegative(q - 1, base - 1); assert q * (base - 1) == (q - 1) * (base - 1) + (base - 1); }
  }

  /** One more digit in the buffer. */
  lemma Pushed(before: seq<char>, p: nat, n: nat, base: nat, upper: bool)
    requires 2 <= base <= 36 && 0 < p < |before|
    ensures Digits(n, base, upper) + Down(before, p - 1) ==
            (if n / base != 0 then Digits(n / base, base, upper) else "") +
            Down(before[p := DigitChar(n % base, upper)], p)
  {
    LastDigit(n, base, upper);
    hide Digits, DigitChar;
    var after := before[p := DigitChar(n % base, upper)];
    DownFrame(before, after, p - 1);
    var hi := if n / base != 0 then Digits(n / base, base, upper) else "";
    assert hi + [after[p]] + Down(after, p - 1) == hi + ([after[p]] + Down(after, p - 1));
  }

  lemma PositiveRoom(n: nat, p: nat)
    requires p <= 64 && n < Pow2(64 - p) && (p == 0 || n != 0)
    ensures p < 64
  {
  }

  lemma LastDigit(n: nat, base: nat, upper: bool)
    requires 2 <= base <= 36
    ensures Digits(n, base, upper) ==
            (if n / base != 0 then Digits(n / base, base, upper) else "") + [DigitChar(n % base, upper)]
  {
    if n < base { DivModUnique(n, base, 0, n); } else { AtLeastOne(n, base); }
  }

  lemma AtLeastOne(n: nat, base: nat)
    requires 0 < base <= n
    ensures n / base != 0
  {
  }

  lemma {:induction false} DownLength(buf: seq<char>, p: nat)
    requires p < |buf|
    ensures |Down(buf, p)| == p
  {
    if p > 0 { DownLength(buf, p - 1); }
  }

  // ----- the field -----

  function Repeat(c: char, n: int): (s: string)
    ensures |s| == Max(n, 0)
    ensures forall i | 0 <= i < |s| :: s[i] == c
  {
    if n <= 0 then "" else Repeat(c, n - 1) + [c]
  }

  /** The flags of a conversion: '#', '-', '0', signed treatment, and capital digits. */
  datatype Flags = Flags(sharp: bool, ladjust: bool, zero: bool, sign: bool, upper: bool)

  /** A C integer as the uintmax_t that va_arg delivers. */
  function Arg(v: int): (num: nat)
    ensures num < TWO64
  {
    v % TWO64
  }

  predicate Negative(num: nat, f: Flags) { f.sign && num >= TWO63 }

  function Magnitude(num: nat, f: Flags): nat
    requires num < TWO64
  {
    if Negative(num, f) then TWO64 - num else num
  }

  function Sign(num: nat, f: Flags): string { if Negative(num, f) then "-" else "" }

  function Prefix(num: nat, base: nat, sharp: bool): string {
    if sharp && num != 0 then (if base == 8 then "0" else if base == 16 then "0x" else "") else ""
  }

  /** The precision in force: the zero flag, unless left-adjusted, replaces it by what the width
      leaves. */
  function Precision(width: int, dwidth: int, lead: int, f: Flags): int {
    if !f.ladjust && f.zero then width - lead else dwidth
  }

  /** sign, prefix, zeros up to the precision, digits; blanks up to the width. */
  function FieldOf(neg: bool, mag: nat, base: nat, width: int, dwidth: int, f: Flags): string
    requires 2 <= base <= 36
  {
    var lead := (if neg then "-" else "") + Prefix(mag, base, f.sharp);
    var digits := Digits(mag, base, f.upper);
    var precision := Precision(width, dwidth, |lead|, f);
    var blanks := Repeat(' ', width - (|lead| + Max(precision, |digits|)));
    (if f.ladjust then "" else blanks) + lead + Repeat('0', precision - |digits|) + digits +
    (if f.ladjust then blanks else "")
  }

  /** The field printed for an argument. */
  function Field(num: nat, base: nat, width: int, dwidth: int, f: Flags): string
    requires num < TWO64 && 2 <= base <= 36
  {
    FieldOf(Negative(num, f), Magnitude(num, f), base, width, dwidth, f)
  }

  /** PCHAR in a loop. */
  method Put(out: string, c: char, n: int) returns (r: string)
    ensures r == out + Repeat(c, n)
  {
    r := out;
    var k := n;
    while k > 0
      invariant k <= Max(n, 0) && (n <= 0 ==> k == n) && (n > 0 ==> k >= 0) && r == out + Repeat(c, n - k)
    {
      r := r + [c];
      k := k - 1;
    }
  }

  /** `while (*p) PCHAR(*p--)` */
  method PutDown(out: string, nbuf: array<char>, p0: nat) returns (r: string)
    requires p0 < nbuf.Length && nbuf[0] == '\0' && forall k | 1 <= k <= p0 :: nbuf[k] != '\0'
    ensures r == out + Down(nbuf[..], p0)
  {
    r := out;
    var p := p0;
    while nbuf[p] != '\0'
      invariant 0 <= p <= p0 && r + Down(nbuf[..], p) == out + Down(nbuf[..], p0)
      decreases p
    {
      assert r + ([nbuf[p]] + Down(nbuf[..], p - 1)) == (r + [nbuf[p]]) + Down(nbuf[..], p - 1);
      r := r + [nbuf[p]];
      p := p - 1;
    }
  }

  function Lead(num: nat, base: nat, f: Flags): string
    requires num < TWO64
  {
    Sign(num, f) + Prefix(Magnitude(num, f), base, f.sharp)
  }

  /** The sign and the prefix. */
  method PutLead(out: string, neg: bool, num: nat, base: nat, sharp: bool) returns (r: string)
    ensures r == out + ((if neg then "-" else "") + Prefix(num, base, sharp))
  {
    r := out;
    if neg { r := r + "-"; }
    if sharp && num != 0 {
      if base == 8 { r := r + "0"; } else if base == 16 { r := r + "0x"; }
    }
  }

  /** The output loops of kvprintf's number conversion, in their order. */
  method PutField(nbuf: array<char>, n: nat, neg: bool, num: nat, base: nat, width: int, dwidth: int, f: Flags)
    returns (out: string)
    requires n < nbuf.Length && nbuf[0] == '\0' && forall k | 1 <= k <= n :: nbuf[k] != '\0'
    ensures var blanks := Repeat(' ', width);
      out == (if f.ladjust then "" else blanks) + ((if neg then "-" else "") + Prefix(num, base, f.sharp)) +
             Repeat('0', dwidth) + Down(nbuf[..], n) + (if f.ladjust then blanks else "")
  {
    hide Repeat, Down;
    out := "";
    if !f.ladjust { out := Put(out, ' ', width); }
    Unit(Repeat(' ', width));
    out := PutLead(out, neg, num, base, f.sharp);
    out := Put(out, '0', dwidth);
    out := PutDown(out, nbuf, n);
    Unit(out);
    if f.ladjust { out := Put(out, ' ', width); }
  }

  lemma Unit(s: string)
    ensures "" + s == s == s + ""
  {
  }

  /** How much room the prefix and the sign take. */
  method LeadWidth(neg: bool, num: nat, base: nat, sharp: bool) returns (tmp: nat)
    ensures tmp == |(if neg then "-" else "") + Prefix(num, base, sharp)|
  {
    tmp := 0;
    if sharp && num != 0 {
      if base == 8 { tmp := tmp + 1; } else if base == 16 { tmp := tmp + 2; }
    }
    if neg { tmp := tmp + 1; }
  }

  /** kvprintf once the sign has been taken off. */
  method PrintMagnitude(nbuf: array<char>, neg: bool, num: nat, base: nat, width0: int, dwidth0: int, f: Flags)
    returns (out: string)
    requires nbuf.Length >= MAXNBUF && num < TWO64 && 2 <= base <= 36
    modifies nbuf
    ensures out == FieldOf(neg, num, base, width0, dwidth0, f)
  {
    hide FieldOf, Prefix, Digits, Down, Repeat, Pow2;
    var width, dwidth := width0, dwidth0;
    SixtyFour(num);
    var n := Ksprintn(nbuf, num, base, f.upper);
    NoNuls(nbuf[..], n, num, base, f.upper);
    var tmp := LeadWidth(neg, num, base, f.sharp);
    if !f.ladjust && f.zero { dwidth := width - tmp; }
    width := width - (tmp + Max(dwidth, n));
    dwidth := dwidth - n;
    out := PutField(nbuf, n, neg, num, base, width, dwidth, f);
    Assembled(neg, num, base, width0, dwidth0, f, tmp, n);
  }

  lemma Assembled(neg: bool, mag: nat, base: nat, width: int, dwidth: int, f: Flags, tmp: nat, n: nat)
    requires 2 <= base <= 36 && n == |Digits(mag, base, f.upper)|
    requires tmp == |(if neg then "-" else "") + Prefix(mag, base, f.sharp)|
    ensures var precision := if !f.ladjust && f.zero then width - tmp else dwidth;
      var blanks := Repeat(' ', width - (tmp + Max(precision, n)));
      FieldOf(neg, mag, base, width, dwidth, f) ==
      (if f.ladjust then "" else blanks) + ((if neg then "-" else "") + Prefix(mag, base, f.sharp)) +
      Repeat('0', precision - n) + Digits(mag, base, f.upper) + (if f.ladjust then blanks else "")
  {
    hide Prefix, Digits, Repeat;
  }

  /** kvprintf from the label `number` on. */
  method PrintNumber(nbuf: array<char>, arg: nat, base: nat, width: int, dwidth: int, f: Flags) returns (out: string)
    requires nbuf.Length >= MAXNBUF && arg < TWO64 && 2 <= base <= 36
    modifies nbuf
    ensures out == Field(arg, base, width, dwidth, f)
  {
    var num, neg := arg, false;
    if f.sign && num >= TWO63 {
      neg := true;
      num := TWO64 - num;
    }
    out := PrintMagnitude(nbuf, neg, num, base, width, dwidth, f);
  }

  lemma SixtyFour(num: nat)
    ensures num < TWO64 ==> num < Pow2(64)
  {
    Pow2At32();
    Pow2Add(32, 32);
  }

  lemma {:induction false} DownAt(buf: seq<char>, p: nat, k: nat)
    requires 1 <= k <= p < |buf|
    ensures p - k < |Down(buf, p)| && Down(buf, p)[p - k] == buf[k]
  {
    if k < p { DownAt(buf, p - 1, k); }
  }

  lemma NoNuls(buf: seq<char>, p: nat, n: nat, base: nat, upper: bool)
    requires p < |buf| && 2 <= base <= 36 && Down(buf, p) == Digits(n, base, upper)
    ensures forall k | 1 <= k <= p :: buf[k] != '\0'
  {
    DigitsPlain(n, base, upper);
    hide Digits, Down;
    forall k | 1 <= k <= p ensures buf[k] != '\0' {
      DownAt(buf, p, k);
      assert IsDigit(Digits(n, base, upper)[p - k], base);
    }
  }

  // ----- what a reader gets back -----

  function TrimLeft(s: string): string {
    if s != "" && s[0] == ' ' then TrimLeft(s[1..]) else s
  }

  /** The characters up to the first blank. */
  function Word(s: string): string {
    if s == "" || s[0] == ' ' then "" else [s[0]] + Word(s[1..])
  }

  function Signed(neg: bool, m: nat): int {
    var k: int := m;
    if neg then -k else k
  }

  /** Reads a number the usual way: blanks, a sign, 0x in base 16, digits. */
  function ReadBack(s: string, base: nat): int {
    var t := TrimLeft(s);
    var neg := t != "" && t[0] == '-';
    var u := if neg then t[1..] else t;
    var w := if base == 16 && |u| >= 2 && u[0] == '0' && u[1] == 'x' then u[2..] else u;
    Signed(neg, Value(Word(w), base))
  }

  lemma {:induction false} TrimBlanks(n: int, s: string)
    requires s != "" && s[0] != ' '
    ensures TrimLeft(Repeat(' ', n) + s) == s
  {
    if n > 0 {
      TrimBlanks(n - 1, s);
      var t := Repeat(' ', n) + s;
      assert t[1..] == Repeat(' ', n - 1) + s;
    } else {
      assert Repeat(' ', n) + s == s;
    }
  }

  lemma {:induction false} WordAlone(d: string, n: int)
    requires forall i | 0 <= i < |d| :: d[i] != ' '
    ensures Word(d + Repeat(' ', n)) == d
  {
    if d == "" {
      assert d + Repeat(' ', n) == Repeat(' ', n);
    } else {
      WordAlone(d[1..], n);
      assert (d + Repeat(' ', n))[1..] == d[1..] + Repeat(' ', n);
    }
  }

  lemma {:induction false} ValueZeros(n: int, s: string, base: nat)
    ensures Value(Repeat('0', n) + s, base) == Value(s, base)
  {
    if s == "" {
      assert Repeat('0', n) + s == Repeat('0', n);
      ZerosAreZero(n, base);
    } else {
      var q := s[..|s| - 1];
      ValueZeros(n, q, base);
      var t := Repeat('0', n) + s;
      assert t[..|t| - 1] == Repeat('0', n) + q;
    }
  }

  lemma {:induction false} ZerosAreZero(n: int, base: nat)
    ensures Value(Repeat('0', n), base) == 0
  {
    if n > 0 {
      ZerosAreZero(n - 1, base);
      ValueSnoc(Repeat('0', n - 1), '0', base);
    }
  }

  /** What stands between the blanks reads back to the number. */
  lemma BodyReadsBack(neg: bool, pre: string, zeros: int, mag: nat, base: nat, upper: bool, tail: int)
    requires 2 <= base <= 36
    requires pre == "" || (base == 16 && pre == "0x") || (base == 8 && pre == "0")
    ensures var body := (if neg then "-" else "") + pre + Repeat('0', zeros) + Digits(mag, base, upper);
      body[0] != ' ' && ReadBack(body + Repeat(' ', tail), base) == Signed(neg, mag)
  {
    hide Digits, Value, Word, ReadBack, Repeat, IsDigit;
    var digits := Digits(mag, base, upper);
    var d := Repeat('0', zeros) + digits;
    DigitsReadBack(mag, base, upper);
    ValueZeros(zeros, digits, base);
    PaddedDigits(mag, base, upper, zeros);
    WordReads(neg, pre, d, base, tail);
    var lead := (if neg then "-" else "") + pre;
    assert lead + Repeat('0', zeros) + digits == lead + d;
  }

  lemma PaddedDigits(mag: nat, base: nat, upper: bool, zeros: int)
    requires 2 <= base <= 36
    ensures var d := Repeat('0', zeros) + Digits(mag, base, upper);
      d != "" && forall i | 0 <= i < |d| :: d[i] == '0' || IsDigit(d[i], base)
  {
    DigitsPlain(mag, base, upper);
    hide Digits;
  }

  /** ReadBack behind the blanks and the sign. */
  function ReadMagnitude(u: string, base: nat): nat {
    var w := if base == 16 && |u| >= 2 && u[0] == '0' && u[1] == 'x' then u[2..] else u;
    Value(Word(w), base)
  }

  lemma ReadSign(neg: bool, u: string, base: nat)
    requires u != "" && u[0] != ' ' && u[0] != '-'
    ensures ReadBack((if neg then "-" else "") + u, base) == Signed(neg, ReadMagnitude(u, base))
  {
    var t := (if neg then "-" else "") + u;
    assert TrimLeft(t) == t;
    if neg { assert t[1..] == u; } else { assert t == u; }
  }

  lemma MagnitudeReads(pre: string, d: string, base: nat, tail: int)
    requires d != "" && forall i | 0 <= i < |d| :: d[i] == '0' || IsDigit(d[i], base)
    requires pre == "" || (base == 16 && pre == "0x") || (base == 8 && pre == "0")
    ensures ReadMagnitude(pre + d + Repeat(' ', tail), base) == Value(d, base)
  {
    hide Value, Word, Repeat;
    var blanks := Repeat(' ', tail);
    if base == 16 && pre == "0x" {
      assert (pre + d + blanks)[2..] == d + blanks;
      WordAlone(d, tail);
    } else {
      NoHexPrefix(pre + d, tail, base);
      WordAlone(pre + d, tail);
      if pre == "0" { ValueZero(d, base); } else { assert pre + d == d; }
    }
  }

  lemma WordReads(neg: bool, pre: string, d: string, base: nat, tail: int)
    requires d != "" && forall i | 0 <= i < |d| :: d[i] == '0' || IsDigit(d[i], base)
    requires pre == "" || (base == 16 && pre == "0x") || (base == 8 && pre == "0")
    ensures var body := (if neg then "-" else "") + pre + d;
      body[0] != ' ' && ReadBack(body + Repeat(' ', tail), base) == Signed(neg, Value(d, base))
  {
    hide Value, Word, Repeat, ReadBack, ReadMagnitude;
    var u := pre + d + Repeat(' ', tail);
    MagnitudeReads(pre, d, base, tail);
    ReadSign(neg, u, base);
    assert (if neg then "-" else "") + pre + d + Repeat(' ', tail) == (if neg then "-" else "") + u;
  }

  lemma NoHexPrefix(d: string, tail: int, base: nat)
    requires d != "" && forall i | 0 <= i < |d| :: d[i] == '0' || IsDigit(d[i], base)
    ensures base == 16 && |d + Repeat(' ', tail)| >= 2 ==> (d + Repeat(' ', tail))[1] != 'x'
  {
  }

  lemma {:induction false} ValueZero(d: string, base: nat)
    ensures Value("0" + d, base) == Value(d, base)
  {
    assert Repeat('0', 0) == "" && Repeat('0', 1) == "" + ['0'] == "0";
    ValueZeros(1, d, base);
  }

  /** Every conversion reads back to its argument, sign included: for every 64-bit argument, base,
      width, precision and combination of flags. */
  lemma FieldReadsBack(v: int, base: nat, width: int, dwidth: int, f: Flags)
    requires 2 <= base <= 36
    requires if f.sign then -TWO63 <= v < TWO63 else 0 <= v < TWO64
    ensures ReadBack(Field(Arg(v), base, width, dwidth, f), base) == v
  {
    hide Digits, ReadBack, Repeat, TrimLeft;
    var num := Arg(v);
    var neg, mag := Negative(num, f), Magnitude(num, f);
    assert v == Signed(neg, mag) by { SignedArg(v); }
    var pre := Prefix(mag, base, f.sharp);
    var lead := Sign(num, f) + pre;
    var digits := Digits(mag, base, f.upper);
    var precision := Precision(width, dwidth, |lead|, f);
    var n := width - (|lead| + Max(precision, |digits|));
    var body := lead + Repeat('0', precision - |digits|) + digits;
    assert body == (if neg then "-" else "") + pre + Repeat('0', precision - |digits|) + digits;
    BodyReadsBack(neg, pre, precision - |digits|, mag, base, f.upper, if f.ladjust then n else 0);
    FieldShape(num, base, width, dwidth, f, body, n);
    if !f.ladjust { LeadingBlanks(n, body, base); }
  }

  lemma SignedArg(v: int)
    requires -TWO63 <= v < TWO64
    ensures Arg(v) == if v < 0 then v + TWO64 else v
  {
  }

  lemma FieldShape(num: nat, base: nat, width: int, dwidth: int, f: Flags, body: string, n: int)
    requires num < TWO64 && 2 <= base <= 36
    requires var lead, digits := Lead(num, base, f), Digits(Magnitude(num, f), base, f.upper);
      var precision := Precision(width, dwidth, |lead|, f);
      body == lead + Repeat('0', precision - |digits|) + digits && n == width - (|lead| + Max(precision, |digits|))
    ensures Field(num, base, width, dwidth, f) == if f.ladjust then body + Repeat(' ', n) else Repeat(' ', n) + body
  {
    hide Digits, Repeat, FieldOf, Prefix;
    var lead, digits := Lead(num, base, f), Digits(Magnitude(num, f), base, f.upper);
    Assembled(Negative(num, f), Magnitude(num, f), base, width, dwidth, f, |lead|, |digits|);
    Unit(lead);
    Unit(Repeat(' ', n) + body);
    Behind(Repeat(' ', n), lead, Repeat('0', Precision(width, dwidth, |lead|, f) - |digits|), digits);
  }

  lemma Behind(blanks: string, lead: string, zeros: string, digits: string)
    ensures blanks + lead + zeros + digits == blanks + (lead + zeros + digits)
  {
  }

  lemma LeadingBlanks(n: int, body: string, base: nat)
    requires body != "" && body[0] != ' '
    ensures ReadBack(Repeat(' ', n) + body, base) == ReadBack(body + Repeat(' ', 0), base)
  {
    TrimBlanks(n, body);
    assert body + Repeat(' ', 0) == body;
  }

  /** A field is as wide as asked for and never wider than its contents need; with the zero flag
      and without left adjustment the zeros fill the width instead of the precision. */
  lemma FieldWidth(num: nat, base: nat, width: int, dwidth: int, f: Flags)
    requires num < TWO64 && 2 <= base <= 36
    ensures var lead := |Lead(num, base, f)|; var n := |Digits(Magnitude(num, f), base, f.upper)|;
      |Field(num, base, width, dwidth, f)| ==
      if !f.ladjust && f.zero then Max(width, lead + n) else Max(width, lead + Max(dwidth, n))
  {
    hide Digits, Prefix;
  }

  /** What is printed, in the order in which it stands there: blanks unless left-adjusted, the sign,
      the prefix, zeros, the digits, blanks if left-adjusted.  The zero flag counts only without left
      adjustment, and there the zeros take all the room that blanks would. */
  lemma FieldExactly(v: int, base: nat, width: int, dwidth: int, f: Flags)
    requires 2 <= base <= 36
    requires if f.sign then -TWO63 <= v < TWO63 else 0 <= v < TWO64
    ensures var sign := if v < 0 then "-" else "";
      var prefix := if !f.sharp || v == 0 then "" else if base == 8 then "0" else if base == 16 then "0x" else "";
      var digits := Digits(if v < 0 then -v else v, base, f.upper);
      var n := |sign| + |prefix| + |digits|;
      var zeros := Max(0, if f.zero && !f.ladjust then width - n else dwidth - |digits|);
      var blanks := Max(0, width - n - zeros);
      Field(Arg(v), base, width, dwidth, f) ==
      Repeat(' ', if f.ladjust then 0 else blanks) + (sign + prefix) + Repeat('0', zeros) + digits +
      Repeat(' ', if f.ladjust then blanks else 0)
  {
    hide Digits, Arg, Field, FieldOf, Repeat, Prefix;
    var mag := if v < 0 then -v else v;
    Prefixes(mag, base, f.sharp);
    Arguments(v, base, width, dwidth, f);
    FieldParts(v < 0, mag, base, width, dwidth, f);
  }

  lemma FieldParts(neg: bool, mag: nat, base: nat, width: int, dwidth: int, f: Flags)
    requires 2 <= base <= 36
    ensures var lead := (if neg then "-" else "") + Prefix(mag, base, f.sharp);
      var digits := Digits(mag, base, f.upper);
      var n := |lead| + |digits|;
      var zeros := Max(0, if f.zero && !f.ladjust then width - n else dwidth - |digits|);
      var blanks := Max(0, width - n - zeros);
      FieldOf(neg, mag, base, width, dwidth, f) ==
      Repeat(' ', if f.ladjust then 0 else blanks) + lead + Repeat('0', zeros) + digits +
      Repeat(' ', if f.ladjust then blanks else 0)
  {
    hide Digits, FieldOf, Repeat, Prefix;
    var digits := Digits(mag, base, f.upper);
    var lead := (if neg then "-" else "") + Prefix(mag, base, f.sharp);
    Assembled(neg, mag, base, width, dwidth, f, |lead|, |digits|);
    var precision := if !f.ladjust && f.zero then width - |lead| else dwidth;
    Clipped('0', precision - |digits|);
    Clipped(' ', width - (|lead| + Max(precision, |digits|)));
    NoneRepeated(' ');
  }

  lemma Prefixes(num: nat, base: nat, sharp: bool)
    ensures Prefix(num, base, sharp) ==
            if !sharp || num == 0 then "" else if base == 8 then "0" else if base == 16 then "0x" else ""
  {
  }

  lemma Arguments(v: int, base: nat, width: int, dwidth: int, f: Flags)
    requires 2 <= base <= 36
    requires if f.sign then -TWO63 <= v < TWO63 else 0 <= v < TWO64
    ensures Field(Arg(v), base, width, dwidth, f) ==
            FieldOf(v < 0, if v < 0 then -v else v, base, width, dwidth, f)
  {
    hide FieldOf;
    SignedArg(v);
  }

  lemma Clipped(c: char, n: int)
    ensures Repeat(c, n) == Repeat(c, Max(0, n))
  {
  }

  lemma NoneRepeated(c: char)
    ensures Repeat(c, 0) == ""
  {
  }
}
