/** The alternative RAM test of cmd_mem.c over faulty memory: words live in cells behind an
    arbitrary address map, and any bit of a cell may be stuck. */
module RamTest {
  import opened Machine
  import opened BitWords

  /** A number as a word. */
  function WordOf(n: nat): Word {
    seq(32, b requires 0 <= b < 32 => (n / Pow2(b)) % 2 == 1)
  }

  function Not(w: Word): Word {
    seq(32, b requires 0 <= b < 32 => !w[b])
  }

  /** The word is the number, modulo 2^32. */
  lemma {:induction false} WordIs(n: nat)
    ensures Number(WordOf(n)) == n % 0x1_0000_0000
  {
    WordFrom(n, 0);
    assert WordOf(n)[0..] == WordOf(n);
    Pow2Values();
  }

  lemma {:induction false} WordFrom(n: nat, b: nat)
    requires b <= 32
    ensures Number(WordOf(n)[b..]) == (n / Pow2(b)) % Pow2(32 - b)
    decreases 32 - b
  {
    if b < 32 {
      var w := WordOf(n);
      WordFrom(n, b + 1);
      assert w[b..][1..] == w[b + 1..];
      LowBit(n, Pow2(b), Pow2(31 - b));
    }
  }

  lemma {:induction false} LowBit(n: nat, d: nat, p: nat)
    requires d > 0 && p > 0
    ensures (n / d) % (2 * p) == (n / d) % 2 + 2 * ((n / (2 * d)) % p)
  {
    var q := n / d;
    HalfAgain(n, d);
    QuotientAndRemainder(q / 2, p);
    Halved(q, p, q / 2 / p, (q / 2) % p);
  }

  lemma {:induction false} HalfAgain(n: nat, p: nat)
    requires p > 0
    ensures n / (2 * p) == (n / p) / 2
  {
    var q := n / p;
    QuotientAndRemainder(n, p);
    assert n == (2 * p) * (q / 2) + (p * (q % 2) + n % p) by { HalvesOf(p, q); }
    RemainderUnique(n, 2 * p, q / 2, p * (q % 2) + n % p);
  }

  lemma {:induction false} HalvesOf(p: nat, q: nat)
    ensures p * q == (2 * p) * (q / 2) + p * (q % 2) && p * (q % 2) <= p
  {
    assert q == 2 * (q / 2) + q % 2;
    assert p * (2 * (q / 2) + q % 2) == (2 * p) * (q / 2) + p * (q % 2);
  }

  /** The complement of a word. */
  lemma {:induction false} NotIs(w: seq<bool>, v: seq<bool>)
    requires |v| == |w| && forall i :: 0 <= i < |w| ==> v[i] == !w[i]
    ensures Number(w) + Number(v) == Pow2(|w|) - 1
  {
    if w != [] { NotIs(w[1..], v[1..]); }
  }

  const PATTERN: Word := WordOf(0xaaaa_aaaa)
  const ANTI_PATTERN: Word := WordOf(0x5555_5555)

  /** The number of words the address-line test looks at, and the size of the region that is
      filled; `end - start` is 32-bit arithmetic and a word has four bytes. */
  function ProbeLimit(start: u32, end: u32): (len: nat)
    ensures len < Pow2(30)
  {
    Pow2Values();
    Wrap(end - start) / 4
  }

  function NumWords(start: u32, end: u32): nat {
    ProbeLimit(start, end) + 1
  }

  lemma {:induction false} Pow2Monotone(i: nat, j: nat)
    requires i < j
    ensures 2 * Pow2(i) <= Pow2(j)
  {
    if i + 1 < j { Pow2Monotone(i, j - 1); }
  }

  /** Patterns of the fill test never reach the top bit. */
  lemma {:induction false} TopBitClear(n: nat)
    requires n <= Pow2(30)
    ensures !WordOf(n)[31]
  {
    assert Pow2(31) == 2 * Pow2(30);
    DivSmall(n, Pow2(31));
  }

  /** Faulty hardware: which cell answers at a word offset, and which bits of a cell are stuck. */
  datatype Device = Device(cellOf: nat -> int, stuck: (int, nat) -> Option<bool>)

  type Cells = map<int, Word>

  function Content(d: Device, cells: Cells, offset: nat): Word {
    if d.cellOf(offset) in cells then cells[d.cellOf(offset)] else WordOf(0)
  }

  /** What the bus delivers: stuck bits win over what was stored. */
  function SeenBit(d: Device, cells: Cells, offset: nat, b: nat): bool
    requires b < 32
  {
    var s := d.stuck(d.cellOf(offset), b);
    if s.Some? then s.value else Content(d, cells, offset)[b]
  }

  function Seen(d: Device, cells: Cells, offset: nat): Word {
    seq(32, b requires 0 <= b < 32 => SeenBit(d, cells, offset, b))
  }

  /** The cell behind this offset has no stuck bit. */
  ghost predicate Healthy(d: Device, offset: nat) {
    forall b: nat :: b < 32 ==> d.stuck(d.cellOf(offset), b).None?
  }

  ghost predicate Injective(d: Device, n: nat) {
    forall i: nat, j: nat :: i < j < n ==> d.cellOf(i) != d.cellOf(j)
  }

  /** Every word of the region has a cell of its own, and no bit is stuck. */
  ghost predicate Sound(d: Device, n: nat) {
    Injective(d, n) && forall i: nat :: i < n ==> Healthy(d, i)
  }

  // ---- A pass over the region --------------------------------------------------------

  /** What the passes write and expect: the offset counted from 1, its complement, or zero. */
  datatype Filling = Pattern | AntiPattern | Zero

  function Value(f: Filling, i: nat): Word {
    match f
    case Pattern => WordOf(i + 1)
    case AntiPattern => Not(WordOf(i + 1))
    case Zero => WordOf(0)
  }

  /** The cells after `Value(write, i)` has been stored at each of the first `k` offsets in turn. */
  function Swept(d: Device, cells: Cells, write: Filling, k: nat): Cells {
    if k == 0 then cells else Swept(d, cells, write, k - 1)[d.cellOf(k - 1) := Value(write, k - 1)]
  }

  /** How many of the first `k` offsets, read just before they are rewritten, do not show `Value(want, i)`. */
  function Misses(d: Device, cells: Cells, want: Filling, write: Filling, k: nat): nat {
    if k == 0 then 0
    else
      Misses(d, cells, want, write, k - 1) + MissAt(d, Swept(d, cells, write, k - 1), want, k - 1)
  }

  function MissAt(d: Device, cells: Cells, want: Filling, i: nat): nat {
    if Seen(d, cells, i) == Value(want, i) then 0 else 1
  }

  /** A pass has come as far as offset `k`. */
  predicate Passed(d: Device, before: Cells, cells: Cells, want: Filling, write: Filling, k: nat, errs: nat) {
    cells == Swept(d, before, write, k) && errs == Misses(d, before, want, write, k)
  }

  lemma {:induction false} PassedOn(d: Device, before: Cells, cells: Cells, want: Filling, write: Filling, k: nat,
                                    errs: nat)
    requires Passed(d, before, cells, want, write, k, errs)
    ensures Passed(d, before, cells[d.cellOf(k) := Value(write, k)], want, write, k + 1,
                   errs + MissAt(d, cells, want, k))
  {
  }

  lemma {:induction false} SweptInjective(d: Device, cells: Cells, write: Filling, n: nat, k: nat, i: nat)
    requires Injective(d, n) && k <= n && i < n
    ensures Content(d, Swept(d, cells, write, k), i) == if i < k then Value(write, i) else Content(d, cells, i)
  {
    if k > 0 {
      SweptInjective(d, cells, write, n, k - 1, i);
      if i < k - 1 { assert d.cellOf(i) != d.cellOf(k - 1); }
      if k - 1 < i { assert d.cellOf(k - 1) != d.cellOf(i); }
    }
  }

  /** Whatever the address map, a swept offset holds something the sweep has written. */
  lemma {:induction false} SweptWrites(d: Device, cells: Cells, write: Filling, k: nat, i: nat) returns (j: nat)
    requires i < k
    ensures j < k && Content(d, Swept(d, cells, write, k), i) == Value(write, j)
  {
    if d.cellOf(i) == d.cellOf(k - 1) { j := k - 1; } else { j := SweptWrites(d, cells, write, k - 1, i); }
  }

  lemma {:induction false} NoMiss(d: Device, cells: Cells, want: Filling, write: Filling, k: nat, i: nat)
    requires Misses(d, cells, want, write, k) == 0 && i < k
    ensures Seen(d, Swept(d, cells, write, i), i) == Value(want, i)
  {
    if i < k - 1 { NoMiss(d, cells, want, write, k - 1, i); }
  }

  lemma {:induction false} HealthySeen(d: Device, cells: Cells, offset: nat)
    requires Healthy(d, offset)
    ensures Seen(d, cells, offset) == Content(d, cells, offset)
  {
  }

  lemma {:induction false} NotMissed(d: Device, cells: Cells, want: Filling, write: Filling, n: nat, k: nat)
    requires Sound(d, n) && k < n && Content(d, cells, k) == Value(want, k)
    ensures MissAt(d, Swept(d, cells, write, k), want, k) == 0
  {
    SweptInjective(d, cells, write, n, k, k);
    HealthySeen(d, Swept(d, cells, write, k), k);
  }

  /** On a sound device a pass that expects what is there misses nothing. */
  lemma {:induction false} SoundMissesNothing(d: Device, cells: Cells, want: Filling, write: Filling, n: nat, k: nat)
    requires Sound(d, n) && k <= n && forall i: nat :: i < n ==> Content(d, cells, i) == Value(want, i)
    ensures Misses(d, cells, want, write, k) == 0
  {
    if k > 0 {
      SoundMissesNothing(d, cells, want, write, n, k - 1);
      NotMissed(d, cells, want, write, n, k - 1);
    }
  }

  // ---- What silence shows ------------------------------------------------------------

  lemma {:induction false} StuckShows(d: Device, cells: Cells, offset: nat, b: nat)
    requires b < 32 && d.stuck(d.cellOf(offset), b).Some?
    ensures Seen(d, cells, offset)[b] == d.stuck(d.cellOf(offset), b).value
  {
  }

  /** Reading a pattern and its complement from one cell leaves no bit to be stuck. */
  lemma {:induction false} BothSeen(d: Device, c1: Cells, c2: Cells, offset: nat)
    requires Seen(d, c1, offset) == Value(Pattern, offset) && Seen(d, c2, offset) == Value(AntiPattern, offset)
    ensures Healthy(d, offset)
  {
    forall b: nat | b < 32 ensures d.stuck(d.cellOf(offset), b).None? {
      assert Value(AntiPattern, offset)[b] == !Value(Pattern, offset)[b];
      if d.stuck(d.cellOf(offset), b).Some? {
        StuckShows(d, c1, offset, b);
        StuckShows(d, c2, offset, b);
      }
    }
  }

  /** A healthy cell shared with an earlier offset gives itself away in the second pass: it holds
      an inverted pattern, whose top bit is set, where a pattern is expected. */
  lemma {:induction false} SharedCellShows(d: Device, cells: Cells, i: nat, j: nat)
    requires i < j < Pow2(30) && d.cellOf(i) == d.cellOf(j) && Healthy(d, j)
    ensures Seen(d, Swept(d, cells, AntiPattern, j), j) != Value(Pattern, j)
  {
    var swept := Swept(d, cells, AntiPattern, j);
    var k := SweptWrites(d, cells, AntiPattern, j, i);
    HealthySeen(d, swept, j);
    assert Content(d, swept, j) == Content(d, swept, i) == Value(AntiPattern, k);
    TopBitsDiffer(j, k);
  }

  lemma {:induction false} TopBitsDiffer(j: nat, k: nat)
    requires j < Pow2(30) && k < Pow2(30)
    ensures Value(AntiPattern, k) != Value(Pattern, j)
  {
    TopBitClear(j + 1);
    TopBitClear(k + 1);
    assert Not(WordOf(k + 1))[31] == !WordOf(k + 1)[31];
  }

  /** The three passes of the fill test; the second and third count errors. */
  function FillErrors(d: Device, cells: Cells, n: nat): nat {
    var filled := Swept(d, cells, Pattern, n);
    var inverted := Swept(d, filled, AntiPattern, n);
    Misses(d, filled, Pattern, AntiPattern, n) + Misses(d, inverted, AntiPattern, Zero, n)
  }

  function FillLeaves(d: Device, cells: Cells, n: nat): Cells {
    Swept(d, Swept(d, Swept(d, cells, Pattern, n), AntiPattern, n), Zero, n)
  }

  lemma {:induction false} SilentThenSound(d: Device, cells: Cells, n: nat)
    requires n <= Pow2(30) && FillErrors(d, cells, n) == 0
    ensures Sound(d, n)
  {
    var filled := Swept(d, cells, Pattern, n);
    var inverted := Swept(d, filled, AntiPattern, n);
    forall i: nat | i < n ensures Healthy(d, i) {
      NoMiss(d, filled, Pattern, AntiPattern, n, i);
      NoMiss(d, inverted, AntiPattern, Zero, n, i);
      BothSeen(d, Swept(d, filled, AntiPattern, i), Swept(d, inverted, Zero, i), i);
    }
    forall i: nat, j: nat | i < j < n ensures d.cellOf(i) != d.cellOf(j) {
      NoMiss(d, filled, Pattern, AntiPattern, n, j);
      if d.cellOf(i) == d.cellOf(j) { SharedCellShows(d, filled, i, j); }
    }
  }

  lemma {:induction false} SoundThenSilent(d: Device, cells: Cells, n: nat)
    requires Sound(d, n)
    ensures FillErrors(d, cells, n) == 0
    ensures forall i: nat :: i < n ==> Seen(d, FillLeaves(d, cells, n), i) == WordOf(0)
  {
    var filled := Swept(d, cells, Pattern, n);
    var inverted := Swept(d, filled, AntiPattern, n);
    forall i: nat | i < n
      ensures Content(d, filled, i) == Value(Pattern, i) && Content(d, inverted, i) == Value(AntiPattern, i)
      ensures Seen(d, FillLeaves(d, cells, n), i) == WordOf(0)
    {
      SweptInjective(d, cells, Pattern, n, n, i);
      SweptInjective(d, filled, AntiPattern, n, n, i);
      SweptInjective(d, inverted, Zero, n, n, i);
      HealthySeen(d, FillLeaves(d, cells, n), i);
    }
    SoundMissesNothing(d, filled, Pattern, AntiPattern, n, n);
    SoundMissesNothing(d, inverted, AntiPattern, Zero, n, n);
  }

  // ---- The address-line test ---------------------------------------------------------

  /** The cell behind the i-th probed offset 1, 2, 4, ... */
  function Probe(d: Device, i: nat): int {
    d.cellOf(Pow2(i))
  }

  /** No two of the offsets 0, 1, 2, 4, ... below `len` share a cell. */
  ghost predicate DistinctProbes(d: Device, len: nat) {
    && (forall j: nat :: Pow2(j) < len ==> Probe(d, j) != d.cellOf(0))
    && (forall i: nat, j: nat :: i < j && Pow2(j) < len ==> Probe(d, i) != Probe(d, j))
  }

  ghost predicate HealthyProbes(d: Device, count: nat) {
    forall j: nat :: j < count ==> Healthy(d, Pow2(j))
  }

  /** How many offsets are probed. */
  function ProbeCount(len: nat, from: nat): nat
    decreases len - Pow2(from)
  {
    if Pow2(from) >= len then from else ProbeCount(len, from + 1)
  }

  lemma {:induction false} ProbeCountExact(len: nat, from: nat, j: nat)
    requires from == 0 || Pow2(from - 1) < len
    ensures Pow2(j) < len <==> j < ProbeCount(len, from)
    decreases len - Pow2(from)
  {
    if Pow2(from) >= len {
      if j > from { Pow2Monotone(from, j); }
      if j < from - 1 { Pow2Monotone(j, from - 1); }
    } else {
      ProbeCountExact(len, from + 1, j);
    }
  }

  /** Probes other than number `skip` that do not show PATTERN, among the first `k`. */
  function Mismatches(d: Device, cells: Cells, skip: int, k: nat): nat {
    if k == 0 then 0
    else
      Mismatches(d, cells, skip, k - 1)
      + (if Seen(d, cells, Pow2(k - 1)) != PATTERN && k - 1 != skip then 1 else 0)
  }

  ghost predicate AllPattern(d: Device, cells: Cells, count: nat) {
    forall i: nat :: i < count ==> Content(d, cells, Pow2(i)) == PATTERN
  }

  lemma {:induction false} PatternPut(d: Device, cells: Cells, k: nat)
    requires AllPattern(d, cells, k)
    ensures AllPattern(d, cells[Probe(d, k) := PATTERN], k + 1)
  {
  }

  lemma {:induction false} PatternsDiffer()
    ensures PATTERN != ANTI_PATTERN
  {
    assert !PATTERN[0] && ANTI_PATTERN[0];
  }

  /** With all probes at PATTERN, marking one cell shows up at exactly the probes behind it. */
  lemma {:induction false} MarkShows(d: Device, cells: Cells, count: nat, cell: int, skip: int, k: nat)
    requires AllPattern(d, cells, count) && HealthyProbes(d, count) && k <= count
    ensures Mismatches(d, cells[cell := ANTI_PATTERN], skip, k) == 0
       <==> forall j: nat :: j < k && j != skip ==> Probe(d, j) != cell
  {
    if k > 0 {
      MarkShows(d, cells, count, cell, skip, k - 1);
      HealthySeen(d, cells[cell := ANTI_PATTERN], Pow2(k - 1));
      PatternsDiffer();
      assert Content(d, cells, Pow2(k - 1)) == PATTERN;
      assert Probe(d, k - 1) == d.cellOf(Pow2(k - 1));
    }
  }

  class Ram {
    const device: Device
    var cells: Cells

    constructor (device: Device, cells: Cells)
      ensures this.device == device && this.cells == cells
    {
      this.device, this.cells := device, cells;
    }

    method Write(offset: nat, w: Word)
      modifies this
      ensures cells == old(cells)[device.cellOf(offset) := w]
    {
      cells := cells[device.cellOf(offset) := w];
    }

    method Read(offset: nat) returns (w: Word)
      ensures w == Seen(device, cells, offset)
    {
      w := Seen(device, cells, offset);
    }

    /** The checking loops: every probe but the one at offset `skip` must show PATTERN. With
        `skip` zero, which is no probe, none is exempt. */
    method CheckProbes(len: nat, skip: nat, ghost number: int) returns (errs: nat)
      requires len < Pow2(30) && SkipIs(skip, number)
      ensures errs == Mismatches(device, cells, number, ProbeCount(len, 0))
    {
      errs := 0;
      var offset := 1;
      ghost var k: nat := 0;
      while offset < len
        invariant offset == Pow2(k) && ProbeCount(len, k) == ProbeCount(len, 0)
        invariant errs == Mismatches(device, cells, number, k)
        decreases len - offset
      {
        SkipExact(skip, number, k);
        var temp := Read(offset);
        if temp != PATTERN && offset != skip { errs := errs + 1; }
        NextProbe(len, k);
        offset, k := Shl(offset), k + 1;
      }
    }

    /** PATTERN goes to every probe. */
    method WriteProbes(len: nat)
      requires len < Pow2(30)
      modifies this
      ensures AllPattern(device, cells, ProbeCount(len, 0))
    {
      var offset := 1;
      ghost var k: nat := 0;
      while offset < len
        invariant offset == Pow2(k) && ProbeCount(len, k) == ProbeCount(len, 0)
        invariant AllPattern(device, cells, k)
        decreases len - offset
      {
        PatternPut(device, cells, k);
        Write(offset, PATTERN);
        NextProbe(len, k);
        offset, k := Shl(offset), k + 1;
      }
    }

    /** Marks one offset, checks the probes, and puts the pattern back. */
    method MarkAndCheck(len: nat, offset: nat, ghost number: int) returns (errs: nat)
      requires len < Pow2(30) && SkipIs(offset, number)
      requires AllPattern(device, cells, ProbeCount(len, 0))
      modifies this
      ensures AllPattern(device, cells, ProbeCount(len, 0))
      ensures HealthyProbes(device, ProbeCount(len, 0)) ==>
        (errs == 0 <==> Unshared(device, ProbeCount(len, 0), device.cellOf(offset), number))
    {
      ghost var before := cells;
      ghost var count := ProbeCount(len, 0);
      Write(offset, ANTI_PATTERN);
      errs := CheckProbes(len, offset, number);
      if HealthyProbes(device, count) {
        MarkShows(device, before, count, device.cellOf(offset), number, count);
      }
      Write(offset, PATTERN);
      PatternBack(device, before, count, device.cellOf(offset));
    }

    /** Each probe is marked in turn and must not show anywhere else. */
    method CheckShorted(len: nat) returns (errs: nat)
      requires len < Pow2(30) && AllPattern(device, cells, ProbeCount(len, 0))
      modifies this
      ensures HealthyProbes(device, ProbeCount(len, 0)) ==>
        (errs == 0 <==> DistinctBefore(device, ProbeCount(len, 0), ProbeCount(len, 0)))
    {
      ghost var count := ProbeCount(len, 0);
      errs := 0;
      var testOffset := 1;
      ghost var k: nat := 0;
      while testOffset < len
        invariant testOffset == Pow2(k) && ProbeCount(len, k) == count
        invariant AllPattern(device, cells, count)
        invariant HealthyProbes(device, count) ==> (errs == 0 <==> DistinctBefore(device, count, k))
        decreases len - testOffset
      {
        var more := MarkAndCheck(len, testOffset, k);
        errs := errs + more;
        DistinctStep(device, count, k);
        NextProbe(len, k);
        testOffset, k := Shl(testOffset), k + 1;
      }
    }

    /** The address-line test: with sound cells behind the probes and any address map, no error is
        counted if and only if no two of the offsets 0, 1, 2, 4, ... below `len` share a cell. */
    method AddressTest(len: nat) returns (errs: nat)
      requires len < Pow2(30)
      modifies this
      ensures HealthyProbes(device, ProbeCount(len, 0)) ==> (errs == 0 <==> DistinctProbes(device, len))
    {
      WriteProbes(len);
      errs := MarkAndCheck(len, 0, -1);
      var shorted := CheckShorted(len);
      errs := errs + shorted;
      DistinctMeaning(device, len);
    }

    // ---- The fill test -------------------------------------------------------------

    /** The first pass: word `i` gets `i + 1`. */
    method Fill(numWords: nat)
      modifies this
      ensures cells == Swept(device, old(cells), Pattern, numWords)
    {
      var pattern, offset := 1, 0;
      while offset < numWords
        invariant 0 <= offset <= numWords && pattern == offset + 1
        invariant cells == Swept(device, old(cells), Pattern, offset)
      {
        Write(offset, WordOf(pattern));
        pattern, offset := pattern + 1, offset + 1;
      }
    }

    /** A word is compared with what it should be, and rewritten. */
    method Visit(offset: nat, expected: Word, value: Word, ghost want: Filling, ghost write: Filling)
      returns (miss: nat)
      requires expected == Value(want, offset) && value == Value(write, offset)
      modifies this
      ensures miss == MissAt(device, old(cells), want, offset)
      ensures cells == old(cells)[device.cellOf(offset) := Value(write, offset)]
    {
      var temp := Read(offset);
      miss := if temp != expected then 1 else 0;
      Write(offset, value);
    }

    /** The second pass: each word is compared and replaced by its complement. */
    method CheckAndInvert(numWords: nat) returns (errs: nat)
      modifies this
      ensures cells == Swept(device, old(cells), AntiPattern, numWords)
      ensures errs == Misses(device, old(cells), Pattern, AntiPattern, numWords)
    {
      var pattern, offset := 1, 0;
      errs := 0;
      while offset < numWords
        invariant 0 <= offset <= numWords && pattern == offset + 1
        invariant Passed(device, old(cells), cells, Pattern, AntiPattern, offset, errs)
      {
        PassedOn(device, old(cells), cells, Pattern, AntiPattern, offset, errs);
        var miss := Visit(offset, WordOf(pattern), Not(WordOf(pattern)), Pattern, AntiPattern);
        errs := errs + miss;
        pattern, offset := pattern + 1, offset + 1;
      }
    }

    /** The third pass: each word is compared with the complement and cleared. */
    method CheckAndZero(numWords: nat) returns (errs: nat)
      modifies this
      ensures cells == Swept(device, old(cells), Zero, numWords)
      ensures errs == Misses(device, old(cells), AntiPattern, Zero, numWords)
    {
      var pattern, offset := 1, 0;
      errs := 0;
      while offset < numWords
        invariant 0 <= offset <= numWords && pattern == offset + 1
        invariant Passed(device, old(cells), cells, AntiPattern, Zero, offset, errs)
      {
        PassedOn(device, old(cells), cells, AntiPattern, Zero, offset, errs);
        var miss := Visit(offset, Not(WordOf(pattern)), WordOf(0), AntiPattern, Zero);
        errs := errs + miss;
        pattern, offset := pattern + 1, offset + 1;
      }
    }

    /** The fill test: for any aliasing and any stuck bits, no error is counted if and only if every
        word has its own cell and no bit is stuck, and such a region is left all zero. */
    method FillTest(numWords: nat) returns (errs: nat)
      requires numWords <= Pow2(30)
      modifies this
      ensures errs == 0 <==> Sound(device, numWords)
      ensures Sound(device, numWords) ==> forall i: nat :: i < numWords ==> Seen(device, cells, i) == WordOf(0)
    {
      Fill(numWords);
      var inverted := CheckAndInvert(numWords);
      var zeroed := CheckAndZero(numWords);
      errs := inverted + zeroed;
      FillVerdict(device, old(cells), numWords);
      assert cells == FillLeaves(device, old(cells), numWords);
    }

    /** One iteration of the alternative test after its data-line part, for any start and end: silence if
        and only if the words at the addresses start, start + 4, ... up to end have healthy cells of their
        own, and then all of them are left zero. */
    method Iteration(ghost bus: Bus, start: u32, end: u32) returns (errs: nat)
      requires device == From(bus, start)
      modifies this
      ensures errs == 0 <==> SoundRegion(bus, start, end)
      ensures SoundRegion(bus, start, end) ==>
        forall a: u32 :: InRegion(start, end, a) ==> Delivered(bus, cells, a) == WordOf(0)
    {
      var len, numWords := ProbeLimit(start, end), NumWords(start, end);
      var lines := AddressTest(len);
      if Sound(device, numWords) { SoundHasDistinctProbes(device, len); }
      var fills := FillTest(numWords);
      errs := lines + fills;
      RegionSoundIff(bus, start, end);
      if Sound(device, numWords) { RegionZero(bus, cells, start, end); }
    }
  }

  lemma {:induction false} FillVerdict(d: Device, cells: Cells, n: nat)
    requires n <= Pow2(30)
    ensures FillErrors(d, cells, n) == 0 <==> Sound(d, n)
    ensures Sound(d, n) ==> forall i: nat :: i < n ==> Seen(d, FillLeaves(d, cells, n), i) == WordOf(0)
  {
    if FillErrors(d, cells, n) == 0 { SilentThenSound(d, cells, n); }
    if Sound(d, n) { SoundThenSilent(d, cells, n); }
  }

  // ---- The region in addresses -------------------------------------------------------

  /** The memory as the processor sees it: which cell answers at an address. */
  datatype Bus = Bus(cellAt: u32 -> int, stuck: (int, nat) -> Option<bool>)

  /** The address of `start[i]`. */
  function WordAddress(start: u32, i: nat): u32 {
    Wrap(start + 4 * i)
  }

  /** The memory from an address on, word by word. */
  function From(bus: Bus, start: u32): Device {
    Device((i: nat) => bus.cellAt(WordAddress(start, i)), bus.stuck)
  }

  /** The word addresses of the region, which may go around the end of the address space. */
  predicate InRegion(start: u32, end: u32, a: u32) {
    Sub32(a, start) <= Sub32(end, start) && Sub32(a, start) % 4 == 0
  }

  /** For a region that does not, they are start, start + 4, ... up to end. */
  lemma {:induction false} RegionIs(start: u32, end: u32, a: u32)
    requires start <= end
    ensures InRegion(start, end, a) <==> start <= a <= end && (a - start) % 4 == 0
  {
    DivSmall(end - start, WORD_SIZE);
    if start <= a {
      DivSmall(a - start, WORD_SIZE);
    } else {
      RemainderUnique(a - start, WORD_SIZE, -1, a - start + WORD_SIZE);
    }
  }

  /** Each word of the region has a cell of its own, and no bit of these cells is stuck. */
  ghost predicate SoundRegion(bus: Bus, start: u32, end: u32) {
    && (forall a: u32, b: u32 :: InRegion(start, end, a) && InRegion(start, end, b) && a != b ==>
          bus.cellAt(a) != bus.cellAt(b))
    && (forall a: u32, k: nat :: InRegion(start, end, a) && k < 32 ==> bus.stuck(bus.cellAt(a), k).None?)
  }

  /** What a load from an address delivers. */
  function Delivered(bus: Bus, cells: Cells, a: u32): Word {
    var cell := bus.cellAt(a);
    var held := if cell in cells then cells[cell] else WordOf(0);
    seq(32, k requires 0 <= k < 32 => var s := bus.stuck(cell, k); if s.Some? then s.value else held[k])
  }

  /** The region has exactly `NumWords` words: the i-th one is in it if and only if i is below that. */
  lemma {:induction false} NumWordsExact(start: u32, end: u32, i: nat)
    ensures i < NumWords(start, end) <==> 4 * i <= Sub32(end, start)
    ensures i < NumWords(start, end) ==>
      InRegion(start, end, WordAddress(start, i)) && Sub32(WordAddress(start, i), start) == 4 * i
  {
    if 4 * i <= Sub32(end, start) {
      var q := if start + 4 * i < WORD_SIZE then 0 else 1;
      RemainderUnique(start + 4 * i, WORD_SIZE, q, start + 4 * i - WORD_SIZE * q);
      RemainderUnique(Wrap(start + 4 * i) - start, WORD_SIZE, -q, 4 * i);
    }
  }

  /** Every address of the region is that of one of its words. */
  lemma {:induction false} IndexOf(start: u32, end: u32, a: u32) returns (i: nat)
    requires InRegion(start, end, a)
    ensures i < NumWords(start, end) && WordAddress(start, i) == a && 4 * i == Sub32(a, start)
  {
    i := Sub32(a, start) / 4;
    NumWordsExact(start, end, i);
    var q := if a >= start then 0 else 1;
    RemainderUnique(a - start, WORD_SIZE, -q, a - start + WORD_SIZE * q);
    RemainderUnique(start + 4 * i, WORD_SIZE, q, a);
  }

  lemma {:induction false} RegionSoundIff(bus: Bus, start: u32, end: u32)
    ensures Sound(From(bus, start), NumWords(start, end)) <==> SoundRegion(bus, start, end)
  {
    if Sound(From(bus, start), NumWords(start, end)) { SoundRegionIf(bus, start, end); }
    if SoundRegion(bus, start, end) { SoundIf(bus, start, end); }
  }

  lemma {:induction false} SoundIf(bus: Bus, start: u32, end: u32)
    requires SoundRegion(bus, start, end)
    ensures Sound(From(bus, start), NumWords(start, end))
  {
    var d, n := From(bus, start), NumWords(start, end);
    forall i: nat | i < n ensures Healthy(d, i) {
      NumWordsExact(start, end, i);
      assert d.cellOf(i) == bus.cellAt(WordAddress(start, i));
    }
    forall i: nat, j: nat | i < j < n ensures d.cellOf(i) != d.cellOf(j) {
      NumWordsExact(start, end, i);
      NumWordsExact(start, end, j);
      assert d.cellOf(i) == bus.cellAt(WordAddress(start, i)) && d.cellOf(j) == bus.cellAt(WordAddress(start, j));
    }
  }

  lemma {:induction false} SoundRegionIf(bus: Bus, start: u32, end: u32)
    requires Sound(From(bus, start), NumWords(start, end))
    ensures SoundRegion(bus, start, end)
  {
    var d := From(bus, start);
    forall a: u32, b: u32 | InRegion(start, end, a) && InRegion(start, end, b) && a != b
      ensures bus.cellAt(a) != bus.cellAt(b)
    {
      var i := IndexOf(start, end, a);
      var j := IndexOf(start, end, b);
      assert d.cellOf(i) == bus.cellAt(a) && d.cellOf(j) == bus.cellAt(b);
    }
    forall a: u32, k: nat | InRegion(start, end, a) && k < 32 ensures bus.stuck(bus.cellAt(a), k).None? {
      var i := IndexOf(start, end, a);
      assert Healthy(d, i) && d.cellOf(i) == bus.cellAt(a);
    }
  }

  lemma {:induction false} RegionZero(bus: Bus, cells: Cells, start: u32, end: u32)
    requires forall i: nat :: i < NumWords(start, end) ==> Seen(From(bus, start), cells, i) == WordOf(0)
    ensures forall a: u32 :: InRegion(start, end, a) ==> Delivered(bus, cells, a) == WordOf(0)
  {
    forall a: u32 | InRegion(start, end, a) ensures Delivered(bus, cells, a) == WordOf(0) {
      var i := IndexOf(start, end, a);
      var d := From(bus, start);
      assert d.cellOf(i) == bus.cellAt(a);
      assert Seen(d, cells, i) == Delivered(bus, cells, a);
    }
  }

  /** The address whose line `j + 2` differs from the start, and whether it is probed: the word there and the
      word behind it begin inside the region. */
  function LineAddress(start: u32, j: nat): u32 {
    Wrap(start + Pow2(j + 2))
  }

  predicate Probed(start: u32, end: u32, j: nat) {
    Pow2(j + 2) + 4 <= Sub32(end, start)
  }

  lemma {:induction false} ProbedIff(bus: Bus, start: u32, end: u32, j: nat)
    ensures Pow2(j) < ProbeLimit(start, end) <==> Probed(start, end, j)
    ensures Probe(From(bus, start), j) == bus.cellAt(LineAddress(start, j))
  {
    assert Pow2(j + 2) == 2 * Pow2(j + 1) == 4 * Pow2(j);
    assert WordAddress(start, Pow2(j)) == LineAddress(start, j);
  }

  /** The words at the start and at start + 4, start + 8, start + 16, ... that are probed have different
      cells. */
  ghost predicate DistinctLines(bus: Bus, start: u32, end: u32) {
    && (forall j: nat :: Probed(start, end, j) ==> bus.cellAt(LineAddress(start, j)) != bus.cellAt(start))
    && (forall i: nat, j: nat :: i < j && Probed(start, end, j) ==>
          bus.cellAt(LineAddress(start, i)) != bus.cellAt(LineAddress(start, j)))
  }

  /** This is what the address-line test looks for. */
  lemma {:induction false} DistinctLinesMeaning(bus: Bus, start: u32, end: u32)
    ensures DistinctProbes(From(bus, start), ProbeLimit(start, end)) <==> DistinctLines(bus, start, end)
  {
    var d, len := From(bus, start), ProbeLimit(start, end);
    assert WordAddress(start, 0) == start && d.cellOf(0) == bus.cellAt(WordAddress(start, 0));
    if DistinctProbes(d, len) {
      forall j: nat | Probed(start, end, j) ensures bus.cellAt(LineAddress(start, j)) != bus.cellAt(start) {
        ProbedIff(bus, start, end, j);
      }
      forall i: nat, j: nat | i < j && Probed(start, end, j)
        ensures bus.cellAt(LineAddress(start, i)) != bus.cellAt(LineAddress(start, j))
      {
        ProbedIff(bus, start, end, i);
        ProbedIff(bus, start, end, j);
      }
    }
    if DistinctLines(bus, start, end) { DistinctProbesIf(bus, start, end); }
  }

  lemma {:induction false} DistinctProbesIf(bus: Bus, start: u32, end: u32)
    requires DistinctLines(bus, start, end)
    ensures DistinctProbes(From(bus, start), ProbeLimit(start, end))
  {
    var d, len := From(bus, start), ProbeLimit(start, end);
    assert WordAddress(start, 0) == start && d.cellOf(0) == bus.cellAt(WordAddress(start, 0));
    forall j: nat | Pow2(j) < len ensures Probe(d, j) != d.cellOf(0) { ProbedIff(bus, start, end, j); }
    forall i: nat, j: nat | i < j && Pow2(j) < len ensures Probe(d, i) != Probe(d, j) {
      ProbedIff(bus, start, end, i);
      ProbedIff(bus, start, end, j);
    }
  }

  /** `offset <<= 1` in 32 bits. */
  function Shl(x: nat): u32 {
    Wrap(x * 2)
  }

  /** The exempted offset and the number of the probe it is, or -1 when it is offset 0. */
  ghost predicate SkipIs(skip: nat, number: int) {
    if number < 0 then skip == 0 else skip == Pow2(number)
  }

  lemma {:induction false} SkipExact(skip: nat, number: int, k: nat)
    requires SkipIs(skip, number)
    ensures Pow2(k) == skip <==> k == number
  {
    if number >= 0 {
      if k < number { Pow2Monotone(k, number); }
      if number < k { Pow2Monotone(number, k); }
    }
  }

  /** Doubling a probe below the limit does not overflow, so that the loops end. */
  lemma {:induction false} NextProbe(len: nat, k: nat)
    requires Pow2(k) < len < Pow2(30)
    ensures Shl(Pow2(k)) == Pow2(k + 1) && ProbeCount(len, k + 1) == ProbeCount(len, k)
  {
    Pow2Values();
  }

  /** The probes other than number `skip` do not use this cell. */
  ghost predicate Unshared(d: Device, count: nat, cell: int, skip: int) {
    forall j: nat :: j < count && j != skip ==> Probe(d, j) != cell
  }

  ghost predicate DistinctBefore(d: Device, count: nat, k: nat) {
    forall i: nat :: i < k ==> Unshared(d, count, Probe(d, i), i)
  }

  lemma {:induction false} DistinctStep(d: Device, count: nat, k: nat)
    ensures DistinctBefore(d, count, k + 1)
       <==> DistinctBefore(d, count, k) && Unshared(d, count, d.cellOf(Pow2(k)), k)
  {
    assert Probe(d, k) == d.cellOf(Pow2(k));
  }

  lemma {:induction false} PatternBack(d: Device, cells: Cells, count: nat, cell: int)
    requires AllPattern(d, cells, count)
    ensures AllPattern(d, cells[cell := ANTI_PATTERN][cell := PATTERN], count)
  {
    var after := cells[cell := ANTI_PATTERN][cell := PATTERN];
    forall i: nat | i < count ensures Content(d, after, Pow2(i)) == PATTERN {
      assert Content(d, cells, Pow2(i)) == PATTERN;
    }
  }

  lemma {:induction false} DistinctMeaning(d: Device, len: nat)
    ensures var count := ProbeCount(len, 0);
            (Unshared(d, count, d.cellOf(0), -1) && DistinctBefore(d, count, count)) <==> DistinctProbes(d, len)
  {
    var count := ProbeCount(len, 0);
    forall j: nat ensures Pow2(j) < len <==> j < count { ProbeCountExact(len, 0, j); }
    if DistinctBefore(d, count, count) {
      forall i: nat, j: nat | i < j && Pow2(j) < len ensures Probe(d, i) != Probe(d, j) {
        assert Unshared(d, count, Probe(d, i), i);
      }
    }
    if DistinctProbes(d, len) {
      forall i: nat | i < count ensures Unshared(d, count, Probe(d, i), i) {}
    }
  }

  lemma {:induction false} SoundHasDistinctProbes(d: Device, len: nat)
    requires Sound(d, len + 1)
    ensures DistinctProbes(d, len) && HealthyProbes(d, ProbeCount(len, 0))
  {
    forall i: nat, j: nat | i < j && Pow2(j) < len ensures Probe(d, i) != Probe(d, j) {
      Pow2Monotone(i, j);
    }
    forall j: nat | j < ProbeCount(len, 0) ensures Healthy(d, Pow2(j)) { ProbeCountExact(len, 0, j); }
  }
}
