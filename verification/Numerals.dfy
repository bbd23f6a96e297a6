/** Numbers as text: simple_strtoul of vsprintf.c, and what the formats %x, %u and %0nx print. */
module Numerals {
  import opened Machine

  /** The value of a hexadecimal digit, or -1. */
  function Digit(c: byte): int {
    if 48 <= c <= 57 then c - 48 else if 65 <= c <= 70 then c - 55 else if 97 <= c <= 102 then c - 87 else -1
  }

  predicate IsXdigit(c: byte) { Digit(c) >= 0 }

  /** A number and the text behind it. */
  datatype Num = Num(value: u32, rest: seq<byte>)

  /** The digit loop of simple_strtoul, in 32 bits. */
  function Scan(acc: u32, s: seq<byte>, base: nat): (n: Num)
    ensures |n.rest| <= |s|
    decreases |s|
  {
    if s != [] && 0 <= Digit(s[0]) < base then Scan(Wrap(acc * base + Digit(s[0])), s[1..], base) else Num(acc, s)
  }

  /** simple_strtoul, with a base of 0 to follow the prefix. */
  function Strtoul(s: seq<byte>, base: nat): (n: Num)
    ensures |n.rest| <= |s|
  {
    if s == [] || s[0] != 48 then Scan(0, s, if base == 0 then 10 else base)
    else if |s| >= 3 && s[1] == 120 && IsXdigit(s[2]) then Scan(0, s[2..], 16)
    else Scan(0, s[1..], if base == 0 then 8 else base)
  }

  function Pow16(n: nat): (p: nat)
    ensures p >= 1
  {
    if n == 0 then 1 else 16 * Pow16(n - 1)
  }

  function HexChar(d: int): (c: byte)
    requires 0 <= d < 16
    ensures Digit(c) == d && c != 120 && c > 32 && c != 44
  {
    if d < 10 then 48 + d else 87 + d
  }

  /** A number printed with `n` hexadecimal digits. */
  function Hex(v: nat, n: nat): (s: seq<byte>)
    requires v < Pow16(n)
    ensures |s| == n
    decreases n
  {
    if n == 0 then []
    else
      FirstDigit(v, Pow16(n - 1));
      [HexChar(v / Pow16(n - 1))] + Hex(v % Pow16(n - 1), n - 1)
  }

  lemma {:induction false} FirstDigit(v: nat, p: nat)
    requires p > 0 && v < 16 * p
    ensures 0 <= v / p < 16 && 0 <= v % p < p && v == (v / p) * p + v % p
  {
    QuotientAndRemainder(v, p);
    MulOrder(p, 16, v / p);
  }

  /** The text behind a number does not go on with a digit. */
  predicate Ends(x: seq<byte>) {
    x == [] || !IsXdigit(x[0])
  }

  /** Reading digits inverts printing them. */
  lemma {:induction false} ScanHex(acc: u32, v: nat, n: nat, x: seq<byte>, value: u32)
    requires v < Pow16(n) && value == acc * Pow16(n) + v && Ends(x)
    ensures Scan(acc, Hex(v, n) + x, 16) == Num(value, x)
    decreases n
  {
    if n == 0 {
      assert Hex(v, n) + x == x;
    } else {
      var p := Pow16(n - 1);
      var d, low := v / p, v % p;
      FirstDigit(v, p);
      NextDigit(acc, d, low, p, value);
      HexSplits(v, n, x);
      ScanOne(acc, d, Hex(low, n - 1) + x);
      ScanHex(acc * 16 + d, low, n - 1, x, value);
    }
  }

  lemma {:induction false} HexSplits(v: nat, n: nat, x: seq<byte>)
    requires n > 0 && v < Pow16(n)
    ensures var p := Pow16(n - 1);
            && 0 <= v / p < 16 && 0 <= v % p < p
            && Hex(v, n) + x == [HexChar(v / p)] + (Hex(v % p, n - 1) + x)
  {
    FirstDigit(v, Pow16(n - 1));
  }

  lemma {:induction false} ScanOne(acc: u32, d: nat, t: seq<byte>)
    requires d < 16 && acc * 16 + d < 0x1_0000_0000
    ensures Scan(acc, [HexChar(d)] + t, 16) == Scan(acc * 16 + d, t, 16)
  {
    assert ([HexChar(d)] + t)[1..] == t;
    DivSmall(acc * 16 + d, WORD_SIZE);
  }

  lemma {:induction false} NextDigit(acc: nat, d: nat, low: nat, p: nat, value: u32)
    requires p >= 1 && acc * (16 * p) + (d * p + low) == value
    ensures (acc * 16 + d) * p + low == value
    ensures acc * 16 + d < 0x1_0000_0000
  {
    assert acc * (16 * p) == (acc * 16) * p;
    assert (acc * 16 + d) * p == (acc * 16) * p + d * p;
    MulOrder(acc * 16 + d, 1, p);
  }

  // ---- Without leading zeros ---------------------------------------------------------

  /** A number printed in some base. */
  function Digits(v: nat, base: nat): (s: seq<byte>)
    requires 2 <= base <= 16
    ensures s != []
    decreases v
  {
    if v < base then [HexChar(v)]
    else
      QuotientShrinks(v, base);
      Digits(v / base, base) + [HexChar(v % base)]
  }

  lemma {:induction false} QuotientShrinks(v: nat, base: nat)
    requires 2 <= base <= v
    ensures 0 < v / base < v && v == (v / base) * base + v % base
  {
    QuotientAndRemainder(v, base);
    MulOrder(v / base, 2, base);
    MulOrder(base, v / base, 0);
  }

  /** Reading the digits inverts printing them, whatever follows. */
  lemma {:induction false} ScanDigits(v: u32, base: nat, x: seq<byte>)
    requires 2 <= base <= 16
    ensures Scan(0, Digits(v, base) + x, base) == Scan(v, x, base)
    decreases v
  {
    if v < base {
      DigitRead(0, v, base, x, v);
    } else {
      QuotientShrinks(v, base);
      var d := [HexChar(v % base)];
      assert Digits(v, base) + x == Digits(v / base, base) + (d + x);
      ScanDigits(v / base, base, d + x);
      DigitRead(v / base, v % base, base, x, v);
    }
  }

  lemma {:induction false} DigitRead(acc: u32, d: nat, base: nat, x: seq<byte>, v: u32)
    requires 2 <= base <= 16 && d < base && v == acc * base + d
    ensures Scan(acc, [HexChar(d)] + x, base) == Scan(v, x, base)
  {
    assert ([HexChar(d)] + x)[1..] == x;
    DivSmall(v, WORD_SIZE);
  }

  function Power(base: nat, k: nat): nat {
    if k == 0 then 1 else base * Power(base, k - 1)
  }

  lemma {:induction false} DigitsFit(v: nat, base: nat, k: nat)
    requires 2 <= base <= 16 && k >= 1 && v < Power(base, k)
    ensures |Digits(v, base)| <= k
    decreases k
  {
    if v >= base {
      QuotientShrinks(v, base);
      MulOrder(base, Power(base, k - 1), v / base);
      DigitsFit(v / base, base, k - 1);
    }
  }

  lemma {:induction false} TenDigits()
    ensures Power(10, 10) == 10_000_000_000
  {
    assert Power(10, 5) == 100_000;
  }

  predicate AllPlain(s: seq<byte>, base: nat) {
    forall c :: c in s ==> 0 <= Digit(c) < base && 48 <= c && c != 120
  }

  lemma {:induction false} PlainHasNoNul(s: seq<byte>, base: nat)
    requires AllPlain(s, base)
    ensures 0 !in s
  {
  }

  /** The first digit is a zero only if it is the only one. */
  lemma {:induction false} DigitsPlain(v: nat, base: nat)
    requires 2 <= base <= 16
    ensures AllPlain(Digits(v, base), base)
    ensures Digits(v, base)[0] == 48 <==> v == 0
    ensures v == 0 ==> Digits(v, base) == [48]
    decreases v
  {
    if v >= base {
      QuotientShrinks(v, base);
      DigitsPlain(v / base, base);
    }
  }


  /** A printed number is read back, also in front of other text. */
  lemma {:induction false} DigitsRead(v: u32, base: nat, x: seq<byte>)
    requires base == 10 || base == 16
    requires Ends(x) && (x != [] ==> x[0] != 120)
    ensures Strtoul(Digits(v, base) + x, base) == Num(v, x)
  {
    DigitsPlain(v, base);
    ScanDigits(v, base, x);
    if v == 0 { assert (Digits(v, base) + x)[1..] == x; }
  }

  /** A 32-bit number has at most ten decimal digits. */
  lemma {:induction false} DecimalFits(v: u32, base: nat)
    requires base == 10
    ensures 0 !in Digits(v, base) && |Digits(v, base)| <= 10
  {
    AtMostTen(v, base);
    DigitsPlain(v, base);
    PlainHasNoNul(Digits(v, base), base);
  }

  lemma {:induction false} AtMostTen(v: u32, base: nat)
    requires base == 10
    ensures |Digits(v, base)| <= 10
  {
    TenDigits();
    DigitsFit(v, base, 10);
  }

  /** "%d" of a 32-bit value. */
  function SignedDigits(v: u32): seq<byte> {
    if v < 0x8000_0000 then Digits(v, 10) else [45] + Digits(0x1_0000_0000 - v, 10)
  }

  lemma {:induction false} SignedFits(v: u32)
    ensures 0 !in SignedDigits(v) && |SignedDigits(v)| <= 11
  {
    DecimalFits(if v < 0x8000_0000 then v else 0x1_0000_0000 - v, 10);
  }

  // ---- Numerals as in C --------------------------------------------------------------

  /** The digits, small and capital. */
  lemma {:induction false} DigitIs(d: nat, c: byte)
    requires d < 16
    ensures Digit("0123456789abcdef"[d] as int) == d && Digit("0123456789ABCDEF"[d] as int) == d
    ensures Digit(c) == d ==> c == "0123456789abcdef"[d] as int || c == "0123456789ABCDEF"[d] as int
  {
  }

  predicate AllDigits(ds: seq<byte>, base: nat) {
    forall c :: c in ds ==> 0 <= Digit(c) < base
  }

  lemma {:induction false} DigitsSplit(ds: seq<byte>, base: nat)
    requires ds != [] && AllDigits(ds, base)
    ensures AllDigits(ds[..|ds| - 1], base) && 0 <= Digit(ds[|ds| - 1]) < base
  {
    assert ds[|ds| - 1] in ds;
  }

  /** The number that digits stand for in a base. */
  function Positional(ds: seq<byte>, base: nat): nat
    requires AllDigits(ds, base)
  {
    if ds == [] then 0
    else
      var init, last := ds[..|ds| - 1], ds[|ds| - 1];
      DigitsSplit(ds, base);
      Positional(init, base) * base + Digit(last)
  }

  /** The text behind a number goes on neither with a digit nor with an 'x'. */
  predicate Stops(x: seq<byte>) {
    x == [] || (!IsXdigit(x[0]) && x[0] != 120)
  }

  /** The digit loop computes that number, modulo 2^32. */
  lemma {:induction false} ScanPositional(ds: seq<byte>, base: nat, x: seq<byte>)
    requires base > 0 && AllDigits(ds, base)
    ensures Scan(0, ds + x, base) == Scan(Wrap(Positional(ds, base)), x, base)
    decreases |ds|
  {
    if ds == [] {
      assert ds + x == x;
    } else {
      var init, last := ds[..|ds| - 1], ds[|ds| - 1];
      DigitsSplit(ds, base);
      assert ds + x == init + ([last] + x);
      ScanPositional(init, base, [last] + x);
      assert ([last] + x)[1..] == x;
      WrapStep(Positional(init, base), base, Digit(last));
    }
  }

  lemma {:induction false} WrapStep(p: nat, base: nat, d: nat)
    ensures Wrap(Wrap(p) * base + d) == Wrap(p * base + d)
  {
    var q, r := p / WORD_SIZE, Wrap(p);
    var q2, r2 := (r * base + d) / WORD_SIZE, Wrap(r * base + d);
    QuotientAndRemainder(p, WORD_SIZE);
    QuotientAndRemainder(r * base + d, WORD_SIZE);
    Distributes(q, r, base, WORD_SIZE);
    assert p * base + d == WORD_SIZE * (q * base + q2) + r2;
    RemainderUnique(p * base + d, WORD_SIZE, q * base + q2, r2);
  }

  lemma {:induction false} Distributes(q: nat, r: nat, base: nat, m: nat)
    ensures (m * q + r) * base == m * (q * base) + r * base
  {
  }

  /** The three ways to write a number in C: decimal, octal after a 0, hexadecimal after 0x. */
  datatype Numeral = Decimal(digits: seq<byte>) | Octal(digits: seq<byte>) | Hexadecimal(digits: seq<byte>)

  function Radix(n: Numeral): nat {
    if n.Decimal? then 10 else if n.Octal? then 8 else 16
  }

  predicate IsNumeral(n: Numeral) {
    && AllDigits(n.digits, Radix(n)) && (!n.Octal? ==> n.digits != [])
    && (n.Decimal? ==> n.digits[0] != '0' as int)
  }

  function Spelled(n: Numeral): seq<byte> {
    match n
    case Decimal(ds) => ds
    case Octal(ds) => ['0' as int] + ds
    case Hexadecimal(ds) => ['0' as int, 'x' as int] + ds
  }

  /** Its value in 32 bits. */
  function Worth(n: Numeral): u32
    requires IsNumeral(n)
  {
    Wrap(Positional(n.digits, Radix(n)))
  }

  lemma {:induction false} HexPrefix(h: seq<byte>)
    requires h != [] && IsXdigit(h[0])
    ensures Strtoul([48, 120] + h, 0) == Scan(0, h, 16)
  {
    assert ([48, 120] + h)[2..] == h;
  }

  lemma {:induction false} OctalPrefix(t: seq<byte>)
    requires t == [] || t[0] != 120
    ensures Strtoul([48] + t, 0) == Scan(0, t, 8)
  {
    assert ([48] + t)[1..] == t;
  }

  /** The prefix decides the base. */
  lemma {:induction false} PrefixReads(n: Numeral, x: seq<byte>)
    requires IsNumeral(n) && Stops(x)
    ensures Strtoul(Spelled(n) + x, 0) == Scan(0, n.digits + x, Radix(n))
  {
    var ds := n.digits;
    assert ds != [] ==> ds[0] in ds && (ds + x)[0] == ds[0];
    match n
    case Decimal(_) =>
    case Octal(_) =>
      assert Spelled(n) + x == [48] + (ds + x);
      OctalPrefix(ds + x);
    case Hexadecimal(_) =>
      assert Spelled(n) + x == [48, 120] + (ds + x);
      HexPrefix(ds + x);
  }

  /** simple_strtoul with base 0 reads every numeral as its value, and stops behind it. */
  lemma {:induction false} NumeralReads(n: Numeral, x: seq<byte>)
    requires IsNumeral(n) && Stops(x)
    ensures Strtoul(Spelled(n) + x, 0) == Num(Worth(n), x)
  {
    PrefixReads(n, x);
    ScanPositional(n.digits, Radix(n), x);
  }

  /** With base 16, hexadecimal digits are read as their value also without the prefix. */
  lemma {:induction false} PlainHexReads(ds: seq<byte>, x: seq<byte>)
    requires AllDigits(ds, 16) && ds != [] && Stops(x)
    ensures Strtoul(ds + x, 16) == Num(Wrap(Positional(ds, 16)), x)
  {
    var s := ds + x;
    assert ds[0] in ds;
    ScanPositional(ds, 16, x);
    if s[0] == 48 {
      assert |s| > 1 ==> s[1] != 120 by { assert |ds| > 1 ==> ds[1] in ds; }
      assert Scan(0, s, 16) == Scan(0, s[1..], 16);
    }
  }

  /** Every number can be written in all of these ways. */
  lemma {:induction false} DigitsPositional(v: nat, base: nat)
    requires 2 <= base <= 16
    ensures AllDigits(Digits(v, base), base) && Positional(Digits(v, base), base) == v
    decreases v
  {
    DigitsPlain(v, base);
    if v < base {
      assert Digits(v, base)[..0] == [];
    } else {
      QuotientShrinks(v, base);
      DigitsPositional(v / base, base);
      var d := HexChar(v % base);
      assert Digits(v, base)[..|Digits(v, base)| - 1] == Digits(v / base, base);
    }
  }

  /** Small letters as capitals. */
  function Capital(c: byte): byte { if 97 <= c <= 102 then c - 32 else c }

  function Capitals(ds: seq<byte>): (r: seq<byte>)
    ensures |r| == |ds|
  {
    seq(|ds|, i requires 0 <= i < |ds| => Capital(ds[i]))
  }

  lemma {:induction false} CapitalsPositional(ds: seq<byte>, base: nat)
    requires AllDigits(ds, base)
    ensures AllDigits(Capitals(ds), base) && Positional(Capitals(ds), base) == Positional(ds, base)
    decreases |ds|
  {
    forall c | c in Capitals(ds) ensures 0 <= Digit(c) < base {
      var i :| 0 <= i < |ds| && Capitals(ds)[i] == c;
      assert ds[i] in ds;
    }
    if ds != [] {
      var init := ds[..|ds| - 1];
      assert forall c :: c in init ==> c in ds;
      assert ds[|ds| - 1] in ds;
      CapitalsPositional(init, base);
      assert Capitals(ds)[..|ds| - 1] == Capitals(init);
    }
  }

  /** So base 0 reads the decimal digits of a number above 0, a 0 with its octal digits, and 0x with its
      hexadecimal digits in small or capital letters, each as that number. */
  lemma {:induction false} EveryNumberReads(v: u32, x: seq<byte>)
    requires Stops(x)
    ensures v > 0 ==> Strtoul(Digits(v, 10) + x, 0) == Num(v, x)
    ensures Strtoul(['0' as int] + Digits(v, 8) + x, 0) == Num(v, x)
    ensures Strtoul(['0' as int, 'x' as int] + Digits(v, 16) + x, 0) == Num(v, x)
    ensures Strtoul(['0' as int, 'x' as int] + Capitals(Digits(v, 16)) + x, 0) == Num(v, x)
  {
    if v > 0 { SpelledReads(Decimal(Digits(v, 10)), v, 10, x); }
    SpelledReads(Octal(Digits(v, 8)), v, 8, x);
    SpelledReads(Hexadecimal(Digits(v, 16)), v, 16, x);
    SpelledReads(Hexadecimal(Capitals(Digits(v, 16))), v, 16, x);
  }

  lemma {:induction false} SpelledReads(n: Numeral, v: u32, base: nat, x: seq<byte>)
    requires base == Radix(n) && Stops(x) && (n.Decimal? ==> v > 0)
    requires n.digits == Digits(v, base) || (n.Hexadecimal? && n.digits == Capitals(Digits(v, base)))
    ensures IsNumeral(n) && Strtoul(Spelled(n) + x, 0) == Num(v, x)
  {
    DigitsPositional(v, base);
    DigitsPlain(v, base);
    CapitalsPositional(Digits(v, base), base);
    DivSmall(v, WORD_SIZE);
    NumeralReads(n, x);
  }

  /** What "%d" prints is read back: the digits of a number below 2^31, or those of its negative after a
      minus sign. */
  lemma {:induction false} SignedReads(v: u32)
    ensures v < 0x8000_0000 ==> Strtoul(SignedDigits(v), 10) == Num(v, [])
    ensures v >= 0x8000_0000 ==>
      SignedDigits(v)[0] == '-' as int && Strtoul(SignedDigits(v)[1..], 10) == Num(0x1_0000_0000 - v, [])
  {
    var n := if v < 0x8000_0000 then v else 0x1_0000_0000 - v;
    DigitsRead(n, 10, []);
    assert Digits(n, 10) + [] == Digits(n, 10);
    assert v >= 0x8000_0000 ==> SignedDigits(v)[1..] == Digits(n, 10);
  }
}
