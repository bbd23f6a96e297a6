/** Machine integers shared by all the models: unsigned bytes and 32-bit words as
    bounded integers, and the bitwise operators the sources apply to them. */
module Machine {

  type byte = x: int | 0 <= x < 256

  const WORD_SIZE: nat := 0x1_0000_0000

  type u32 = x: int | 0 <= x < 0x1_0000_0000

  datatype Option<T> = None | Some(value: T)

  /** The sum of some bytes, from which checksums are made. */
  function Sum(bs: seq<byte>): nat {
    if bs == [] then 0 else bs[0] + Sum(bs[1..])
  }

  lemma {:induction false} SumAppend(a: seq<byte>, b: seq<byte>)
    ensures Sum(a + b) == Sum(a) + Sum(b)
  {
    if a == [] {
      assert a + b == b;
    } else {
      SumAppend(a[1..], b);
      assert (a + b)[1..] == a[1..] + b;
    }
  }

  function Min(a: int, b: int): int { if a < b then a else b }

  /** Reduction of an integer to 32 bits, as unsigned arithmetic does it. */
  function Wrap(x: int): u32 {
    x % WORD_SIZE
  }

  /** Unsigned 32-bit addition and subtraction. */
  function Add32(a: u32, b: u32): u32 {
    if a + b < 0x1_0000_0000 then a + b else a + b - 0x1_0000_0000
  }

  function Sub32(a: u32, b: u32): u32 {
    if a >= b then a - b else a - b + 0x1_0000_0000
  }

  function Pow2(k: nat): (p: nat)
    ensures p >= 1
  {
    if k == 0 then 1 else 2 * Pow2(k - 1)
  }

  /** Bitwise `&` on non-negative integers. */
  function And(a: nat, b: nat): nat {
    if a == 0 || b == 0 then 0
    else (if a % 2 == 1 && b % 2 == 1 then 1 else 0) + 2 * And(a / 2, b / 2)
  }

  /** Bitwise `|` on non-negative integers. */
  function Or(a: nat, b: nat): nat
    decreases a + b
  {
    if a == 0 then b else if b == 0 then a
    else (if a % 2 == 1 || b % 2 == 1 then 1 else 0) + 2 * Or(a / 2, b / 2)
  }

  lemma {:induction false} Pow2Split(k: nat, m: nat)
    ensures Pow2(k + m) == Pow2(k) * Pow2(m)
  {
    if k > 0 {
      Pow2Split(k - 1, m);
      assert Pow2(k + m) == 2 * (Pow2(k - 1) * Pow2(m));
    }
  }

  lemma {:induction false} Pow2Values()
    ensures Pow2(8) == 0x100 && Pow2(16) == 0x1_0000 && Pow2(30) == 0x4000_0000 && Pow2(32) == 0x1_0000_0000
  {
    assert Pow2(8) == 0x100;
    Pow2Split(8, 8);
    Pow2Split(16, 8);
    Pow2Split(24, 6);
    Pow2Split(16, 16);
  }

  lemma {:induction false} DivSmall(n: nat, d: nat)
    requires n < d
    ensures n / d == 0 && n % d == n
  {
    RemainderUnique(n, d, 0, n);
  }

  /** Masking with a power of two less one is the remainder: the sources index their
      power-of-two buffers with `x & (len - 1)`, the models with `x % len`. */
  lemma {:induction false} MaskIsRemainder(x: nat, k: nat)
    ensures And(x, Pow2(k) - 1) == x % Pow2(k)
  {
    var q := MaskSplits(x, k);
    RemainderUnique(x, Pow2(k), q, And(x, Pow2(k) - 1));
  }

  lemma {:induction false} MaskSplits(x: nat, k: nat) returns (q: nat)
    ensures x == Pow2(k) * q + And(x, Pow2(k) - 1) && And(x, Pow2(k) - 1) < Pow2(k)
  {
    if k == 0 {
      q := x;
    } else {
      var p := Pow2(k - 1);
      q := MaskSplits(x / 2, k - 1);
      AndOdd(x, p - 1);
      Doubled(x, p, q, And(x / 2, p - 1));
    }
  }

  lemma {:induction false} Doubled(x: nat, p: nat, q: nat, r: nat)
    requires x / 2 == p * q + r && r < p
    ensures x == (2 * p) * q + (x % 2 + 2 * r) && x % 2 + 2 * r < 2 * p
  {
    assert (2 * p) * q == 2 * (p * q);
  }

  lemma {:induction false} AndOdd(x: nat, m: nat)
    ensures And(x, 2 * m + 1) == x % 2 + 2 * And(x / 2, m)
  {
    assert (2 * m + 1) % 2 == 1 && (2 * m + 1) / 2 == m;
  }

  /** Division with remainder is unique. */
  lemma {:induction false} RemainderUnique(x: int, d: int, q: int, r: int)
    requires d > 0 && 0 <= r < d && x == d * q + r
    ensures x / d == q && x % d == r
  {
    var k := q - x / d;
    assert d * k == x % d - r by {
      assert x == d * (x / d) + x % d;
      assert d * (q - x / d) == d * q - d * (x / d);
    }
    MultipleAtLeast(d, k);
  }

  lemma {:induction false} MultipleAtLeast(d: int, k: int)
    requires d > 0
    ensures k >= 1 ==> d * k >= d
    ensures k <= -1 ==> d * k <= -d
  {
    if k >= 1 { assert d * k >= d * 1; }
    if k <= -1 { assert d * k <= d * -1; }
  }

  lemma {:induction false} MulOrder(d: nat, a: int, b: int)
    ensures a <= b ==> d * a <= d * b
  {
    if a <= b { assert d * (b - a) == d * b - d * a && d * (b - a) >= 0; }
  }

  lemma {:induction false} QuotientAndRemainder(x: nat, d: nat)
    requires d > 0
    ensures x == d * (x / d) + x % d && 0 <= x % d < d && x / d >= 0
  {
  }

  /** Or-ing together two values that share no bit adds them. */
  lemma {:induction false} OrOfDisjoint(a: nat, b: nat)
    requires And(a, b) == 0
    ensures Or(a, b) == a + b
    decreases a + b
  {
    if a != 0 && b != 0 { OrOfDisjoint(a / 2, b / 2); }
  }

  // ---- Big-endian words --------------------------------------------------------------

  function BigEndian(v: u32): (b: seq<byte>)
    ensures |b| == 4
  {
    Halves(v / 0x1_0000) + Halves(v % 0x1_0000)
  }

  function Halves(half: nat): (b: seq<byte>)
    requires half < 0x1_0000
    ensures |b| == 2
  {
    [half / 0x100, half % 0x100]
  }

  function FromBigEndian(b: seq<byte>): u32
    requires |b| == 4
  {
    ((b[0] as int) * 0x100 + b[1]) * 0x1_0000 + ((b[2] as int) * 0x100 + b[3])
  }

  lemma {:induction false} BigEndianOf(b: seq<byte>)
    requires |b| == 4
    ensures BigEndian(FromBigEndian(b)) == b
  {
    var high, low := (b[0] as int) * 0x100 + b[1], (b[2] as int) * 0x100 + b[3];
    RemainderUnique(FromBigEndian(b), 0x1_0000, high, low);
    RemainderUnique(high, 0x100, b[0], b[1]);
    RemainderUnique(low, 0x100, b[2], b[3]);
  }

  lemma {:induction false} FromBigEndianOf(v: u32)
    ensures FromBigEndian(BigEndian(v)) == v
  {
    var high, low := v / 0x1_0000, v % 0x1_0000;
    assert (high / 0x100) * 0x100 + high % 0x100 == high && (low / 0x100) * 0x100 + low % 0x100 == low;
  }
}
