/** Words as sequences of bits, the least significant one first, and as numbers. */
module BitWords {
  import opened Machine

  /** A word, bit by bit; the index is the weight. */
  type Word = w: seq<bool> | |w| == 32 witness seq(32, _ => false)

  /** The `n` low bits of a number. */
  function Bits(v: nat, n: nat): (b: seq<bool>)
    ensures |b| == n
    decreases n
  {
    if n == 0 then [] else [v % 2 == 1] + Bits(v / 2, n - 1)
  }

  function Number(b: seq<bool>): nat {
    if b == [] then 0 else (if b[0] then 1 else 0) + 2 * Number(b[1..])
  }

  lemma {:induction false} NumberOfBits(v: nat, n: nat)
    requires v < Pow2(n)
    ensures Number(Bits(v, n)) == v
    decreases n
  {
    if n > 0 {
      NumberOfBits(v / 2, n - 1);
      assert Bits(v, n)[1..] == Bits(v / 2, n - 1);
    }
  }

  lemma {:induction false} NumberBound(b: seq<bool>)
    ensures Number(b) < Pow2(|b|)
  {
    if b != [] { NumberBound(b[1..]); }
  }

  lemma {:induction false} LowBits(v: nat, n: nat)
    ensures Number(Bits(v, n)) == v % Pow2(n)
    decreases n
  {
    if n > 0 {
      LowBits(v / 2, n - 1);
      assert Bits(v, n)[1..] == Bits(v / 2, n - 1);
      var p := Pow2(n - 1);
      QuotientAndRemainder(v / 2, p);
      Halved(v, p, v / 2 / p, (v / 2) % p);
    }
  }

  lemma {:induction false} Halved(v: nat, p: nat, q: nat, r: nat)
    requires p > 0 && r < p && v / 2 == p * q + r
    ensures v % (2 * p) == v % 2 + 2 * r
  {
    Doubled(v, p, q, r);
    RemainderUnique(v, 2 * p, q, v % 2 + 2 * r);
  }

  lemma {:induction false} NumberSplits(a: seq<bool>, b: seq<bool>)
    ensures Number(a + b) == Number(a) + Pow2(|a|) * Number(b)
  {
    if a == [] { assert a + b == b; } else {
      assert (a + b)[1..] == a[1..] + b;
      NumberSplits(a[1..], b);
      Twice(Pow2(|a| - 1), Number(b));
    }
  }

  lemma {:induction false} Twice(p: nat, q: nat)
    ensures (2 * p) * q == 2 * (p * q)
  {
  }

  /** Some bits of a word, as a number. */
  lemma {:induction false} PartIs(w: seq<bool>, from: nat, n: nat)
    requires from + n <= |w|
    ensures Number(w[from..from + n]) == (Number(w) / Pow2(from)) % Pow2(n)
  {
    var low, part, high := w[..from], w[from..from + n], w[from + n..];
    assert w == low + (part + high);
    NumberSplits(low, part + high);
    NumberSplits(part, high);
    NumberBound(low);
    NumberBound(part);
    QuotientIs(Number(w), Pow2(from), Number(part + high), Number(low));
    RemainderUnique(Number(part + high), Pow2(n), Number(high), Number(part));
  }

  lemma {:induction false} QuotientIs(v: int, d: nat, q: int, r: nat)
    requires v == r + d * q && r < d
    ensures v / d == q
  {
    RemainderUnique(v, d, q, r);
  }
}
