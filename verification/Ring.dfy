/** Rings: reading consecutive positions of an array whose index is taken modulo its length. */
module Ring {
  import opened Machine

  /** The place of the i-th item after a free-running position. */
  function Spot(from: int, i: int, len: nat): nat
    requires len > 0
  {
    (from + i) % len
  }

  /** `n` items starting at the free-running position `from`. */
  function Slice<T>(data: seq<T>, from: int, n: nat): seq<T>
    requires |data| > 0
  {
    seq(n, i requires 0 <= i < n => data[Spot(from, i, |data|)])
  }

  /** Where the i-th position after `x` is. */
  lemma {:induction false} Shift(x: int, i: int, len: nat)
    requires len > 0 && 0 <= i < len
    ensures (x + i) % len == if x % len + i < len then x % len + i else x % len + i - len
  {
    var q, r := x / len, x % len;
    assert x == len * q + r;
    if r + i < len {
      RemainderUnique(x + i, len, q, r + i);
    } else {
      assert len * (q + 1) == len * q + len;
      RemainderUnique(x + i, len, q + 1, r + i - len);
    }
  }

  lemma {:induction false} Distinct(x: int, i: int, j: int, len: nat)
    requires len > 0 && 0 <= i < j < len
    ensures (x + i) % len != (x + j) % len
  {
    Shift(x, i, len);
    Shift(x, j, len);
  }

  /** Adding a multiple of the length does not move a position. */
  lemma {:induction false} Around(x: int, k: int, len: nat)
    requires len > 0
    ensures (x + len * k) % len == x % len
  {
    var q, r := x / len, x % len;
    assert x + len * k == len * (q + k) + r by { assert len * (q + k) == len * q + len * k; }
    RemainderUnique(x + len * k, len, q + k, r);
  }

  lemma {:induction false} ModuloMultiple(x: int, size: nat, len: nat, m: nat) returns (k: int)
    requires size > 0 && len * m == size
    ensures x == x % size + len * k
  {
    var q := x / size;
    k := m * q;
    assert x == size * q + x % size;
    assert len * (m * q) == (len * m) * q;
  }

  /** A 32-bit counter that wraps around still points to the right places of a power-of-two ring. */
  lemma {:induction false} WrapAround(x: int, bits: nat)
    requires bits <= 32
    ensures (x - 0x1_0000_0000) % Pow2(bits) == x % Pow2(bits)
  {
    Pow2Values();
    Pow2Split(bits, 32 - bits);
    Around(x - 0x1_0000_0000, Pow2(32 - bits), Pow2(bits));
  }

  lemma {:induction false} SliceWrap<T>(data: seq<T>, a: u32, b: u32, n: nat, bits: nat)
    requires bits <= 32 && |data| == Pow2(bits)
    ensures Slice(data, Add32(a, b), n) == Slice(data, a + b, n)
  {
    var x, y := Add32(a, b), a + b;
    forall i | 0 <= i < n ensures Spot(x, i, |data|) == Spot(y, i, |data|) { WrapAround(y + i, bits); }
  }

  lemma {:induction false} SliceJoin<T>(data: seq<T>, from: int, n: nat, m: nat)
    requires |data| > 0
    ensures Slice(data, from, n + m) == Slice(data, from, n) + Slice(data, from + n, m)
  {
    var next, len := from + n, |data|;
    forall j | 0 <= j < m ensures Spot(next, j, len) == Spot(from, n + j, len) {}
  }

  // ---- Copying into a ring -----------------------------------------------------------

  /** `after` is `before` with `src` copied in at index `p0`, the way two memcpy calls do it: as much
      as fits up to the end of the array and the rest at its start. */
  ghost predicate CopiedIn<T>(before: seq<T>, after: seq<T>, p0: nat, src: seq<T>) {
    var len := |before|;
    && |after| == len && p0 < len && |src| <= len
    && var n1 := if |src| < len - p0 then |src| else len - p0;
       forall p :: 0 <= p < len ==>
         after[p] == (if p0 <= p < p0 + n1 then src[p - p0] else if p < |src| - n1 then src[n1 + p] else before[p])
  }

  /** The copied items can be read back from where they were put. */
  lemma {:induction false} CopiedSlice<T>(before: seq<T>, after: seq<T>, p0: nat, src: seq<T>, at: int)
    requires CopiedIn(before, after, p0, src) && |src| < |before| && p0 == at % |before|
    ensures Slice(after, at, |src|) == src
  {
    forall i | 0 <= i < |src| ensures after[Spot(at, i, |after|)] == src[i] {
      Shift(at, i, |before|);
    }
  }

  /** The items in front of them, as far as there is room, are still there. */
  lemma {:induction false} CopiedKeeps<T>(before: seq<T>, after: seq<T>, p0: nat, src: seq<T>, at: int, d: nat)
    requires CopiedIn(before, after, p0, src) && d + |src| <= |before| && p0 == at % |before|
    ensures Slice(after, at - d, d) == Slice(before, at - d, d)
  {
    var from, len := at - d, |before|;
    forall j | 0 <= j < d ensures after[Spot(from, j, len)] == before[Spot(from, j, len)] {
      NotOverwritten(at, d, j, |src|, len);
    }
  }

  lemma {:induction false} NotOverwritten(at: int, d: nat, j: nat, n: nat, len: nat)
    requires 0 < len && j < d && d + n <= len
    ensures var p, p0 := (at - d + j) % len, at % len;
            var n1 := if n < len - p0 then n else len - p0;
            !(p0 <= p < p0 + n1) && !(p < n - n1)
  {
    var p, p0 := (at - d + j) % len, at % len;
    var n1 := if n < len - p0 then n else len - p0;
    if p0 <= p < p0 + n1 || p < n - n1 {
      var i := if p0 <= p < p0 + n1 then p - p0 else n1 + p;
      Shift(at, i, len);
      Distinct(at - d, j, d + i, len);
    }
  }

  /** Copying out in two pieces, as two memcpy calls do it. */
  function CopyOut<T>(data: seq<T>, p0: nat, n: nat): seq<T>
    requires p0 < |data| && n <= |data|
  {
    var n1 := if n < |data| - p0 then n else |data| - p0;
    data[p0..p0 + n1] + data[..n - n1]
  }

  lemma {:induction false} CopiedOut<T>(data: seq<T>, p0: nat, n: nat, at: int)
    requires p0 < |data| && n <= |data| && p0 == at % |data|
    ensures CopyOut(data, p0, n) == Slice(data, at, n)
  {
    var len, out := |data|, CopyOut(data, p0, n);
    forall i | 0 <= i < n ensures out[i] == data[Spot(at, i, len)] {
      Shift(at, i, len);
    }
  }

  /** Taking only 16 bits of the counter first makes no difference. */
  lemma {:induction false} Word16(x: int, bits: nat)
    requires bits <= 16
    ensures (x % 0x1_0000) % Pow2(bits) == x % Pow2(bits)
  {
    var len, m := Pow2(bits), Pow2(16 - bits);
    Pow2Values();
    Pow2Split(bits, 16 - bits);
    var k := ModuloMultiple(x, 0x1_0000, len, m);
    Around(x % 0x1_0000, k, len);
  }

  /** The index the sources compute: sixteen bits of the counter, masked with the length less one. */
  function Index(x: int, bits: nat): (p: nat)
    requires bits <= 16
    ensures p < Pow2(bits)
  {
    MaskIsRemainder(x % 0x1_0000, bits);
    And(x % 0x1_0000, Pow2(bits) - 1)
  }

  lemma {:induction false} IndexIsSpot(x: int, bits: nat)
    requires bits <= 16
    ensures Index(x, bits) == x % Pow2(bits)
  {
    Word16(x, bits);
    MaskIsRemainder(x % 0x1_0000, bits);
  }

  /** `(WORD)(x & (len - 1))` for a difference of counters; exact as long as it is below the length. */
  function Masked(x: u32, bits: nat): nat {
    And(x, Pow2(bits) - 1) % 0x1_0000
  }

  lemma {:induction false} MaskedExact(x: u32, bits: nat)
    requires x < Pow2(bits) <= 0x8000
    ensures Masked(x, bits) == x
  {
    assert And(x, Pow2(bits) - 1) == x by { MaskOfSmall(x, bits); }
  }

  lemma {:induction false} MaskOfSmall(x: nat, bits: nat)
    requires x < Pow2(bits)
    ensures And(x, Pow2(bits) - 1) == x
  {
    MaskIsRemainder(x, bits);
    DivSmall(x, Pow2(bits));
  }
}
