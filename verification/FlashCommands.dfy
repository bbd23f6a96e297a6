/** The flash commands built on the planner: rounding of "start +length", the planning loops
    themselves, and software protection. */
module FlashCommands {
  import opened Machine
  import opened FlashPlan

  // ---- A plan as a list of sectors ---------------------------------------------------

  datatype Sector = Sector(bank: nat, index: nat)

  function Span(k: nat, lo: nat, hi: nat): seq<Sector>
    decreases hi - lo
  {
    if lo > hi then [] else [Sector(k, lo)] + Span(k, lo + 1, hi)
  }

  /** All chosen sectors, in bank order. */
  function Selection(choices: seq<Choice>, k: nat): seq<Sector> {
    if choices == [] then []
    else (if choices[0].Nothing? then [] else Span(k, choices[0].lo, choices[0].hi)) + Selection(choices[1..], k + 1)
  }

  ghost predicate Exists(banks: seq<Bank>, s: Sector) {
    s.bank < |banks| && s.index < |banks[s.bank].start|
  }

  function First(banks: seq<Bank>, s: Sector): int
    requires Exists(banks, s)
  {
    banks[s.bank].start[s.index]
  }

  function Last(banks: seq<Bank>, s: Sector): int
    requires Exists(banks, s)
  {
    SectorEnd(banks[s.bank], s.index)
  }

  /** The sectors of the list lie end to end and fill exactly [first, last]. */
  ghost predicate Tiles(banks: seq<Bank>, list: seq<Sector>, first: int, last: int) {
    if list == [] then first == last + 1
    else
      && Exists(banks, list[0]) && First(banks, list[0]) == first
      && Tiles(banks, list[1..], Last(banks, list[0]) + 1, last)
  }

  function Size(c: Choice): int {
    if c.Nothing? then 0 else c.hi - c.lo + 1
  }

  /** s_count. */
  function Count(choices: seq<Choice>): int {
    if choices == [] then 0 else Size(choices[0]) + Count(choices[1..])
  }

  lemma {:induction false} TilesCons(banks: seq<Bank>, x: Sector, list: seq<Sector>, last: int)
    requires Exists(banks, x) && Tiles(banks, list, Last(banks, x) + 1, last)
    ensures Tiles(banks, [x] + list, First(banks, x), last)
  {
    assert ([x] + list)[1..] == list;
  }

  lemma {:induction false} SpanTiles(banks: seq<Bank>, k: nat, lo: nat, hi: nat, more: seq<Sector>, last: int)
    requires k < |banks| && lo <= hi < |banks[k].start|
    requires Tiles(banks, more, SectorEnd(banks[k], hi) + 1, last)
    ensures Tiles(banks, Span(k, lo, hi) + more, banks[k].start[lo], last) && |Span(k, lo, hi)| == hi - lo + 1
    decreases hi - lo
  {
    var rest := Span(k, lo + 1, hi) + more;
    if lo == hi {
      assert rest == more;
    } else {
      SpanTiles(banks, k, lo + 1, hi, more, last);
    }
    TilesCons(banks, Sector(k, lo), rest, last);
    assert Span(k, lo, hi) + more == [Sector(k, lo)] + rest;
  }

  /** A plan in order is a gapless list of sectors, and s_count is its length. */
  lemma {:induction false} InOrderTiles(banks: seq<Bank>, choices: seq<Choice>, k: nat, first: int, last: int)
    requires Sane(banks) && k <= |banks| && |choices| == |banks| - k && InOrder(banks, choices, k, first, last)
    ensures Tiles(banks, Selection(choices, k), first, last) && |Selection(choices, k)| == Count(choices)
    decreases |choices|
  {
    if choices != [] {
      var rest := choices[1..];
      match choices[0]
      case Nothing =>
        InOrderTiles(banks, rest, k + 1, first, last);
        assert Selection(choices, k) == Selection(rest, k + 1);
      case Sectors(lo, hi) =>
        InOrderTiles(banks, rest, k + 1, SectorEnd(banks[k], hi) + 1, last);
        SpanTiles(banks, k, lo, hi, Selection(rest, k + 1), last);
    }
  }

  // ---- Which sectors are selected ----------------------------------------------------

  ghost predicate Selected(choices: seq<Choice>, b: nat, s: nat) {
    b < |choices| && choices[b].Sectors? && choices[b].lo <= s <= choices[b].hi
  }

  ghost predicate Within(banks: seq<Bank>, b: nat, s: nat, a: int) {
    b < |banks| && s < |banks[b].start| && banks[b].start[s] <= a <= SectorEnd(banks[b], s)
  }

  lemma {:induction false} WithinUnique(banks: seq<Bank>, b: nat, s: nat, b': nat, s': nat, a: int)
    requires Sane(banks) && Within(banks, b, s, a) && Within(banks, b', s', a)
    ensures b == b' && s == s'
  {
    SectorInside(banks[b], s);
    SectorInside(banks[b'], s');
    if b < b' || b' < b { assert Holds(banks[b], a) && Holds(banks[b'], a); }
    if s < s' { EndsDiffer(banks[b], s, s'); }
    if s' < s { EndsDiffer(banks[b], s', s); }
  }

  /** Every selected sector is inside the range. */
  lemma {:induction false} SelectedInside(banks: seq<Bank>, choices: seq<Choice>, k: nat, first: int, last: int,
                                          b: nat, s: nat)
    requires Sane(banks) && k <= |banks| && |choices| == |banks| - k && InOrder(banks, choices, k, first, last)
    requires Selected(choices, b, s)
    ensures s < |banks[k + b].start| && first <= banks[k + b].start[s] && SectorEnd(banks[k + b], s) <= last
    decreases |choices|
  {
    var rest := choices[1..];
    if b > 0 {
      var next := if choices[0].Nothing? then first else SectorEnd(banks[k], choices[0].hi) + 1;
      if choices[0].Sectors? { SectorOrder(banks[k], choices[0].lo, choices[0].hi); }
      SelectedInside(banks, rest, k + 1, next, last, b - 1, s);
    } else {
      var lo, hi := choices[0].lo, choices[0].hi;
      InOrderGrows(banks, rest, k + 1, SectorEnd(banks[k], hi) + 1, last);
      if lo < s { EndsDiffer(banks[k], lo, s); }
      if s < hi { EndsDiffer(banks[k], s, hi); }
    }
  }

  /** Every address of the range is in a selected sector. */
  lemma {:induction false} RangeCovered(banks: seq<Bank>, choices: seq<Choice>, k: nat, first: int, last: int, a: int)
    returns (b: nat, s: nat)
    requires Sane(banks) && k <= |banks| && |choices| == |banks| - k && InOrder(banks, choices, k, first, last)
    requires first <= a <= last
    ensures Selected(choices, b, s) && Within(banks, k + b, s, a)
    decreases |choices|
  {
    var rest := choices[1..];
    if choices[0].Sectors? && a <= SectorEnd(banks[k], choices[0].hi) {
      b := 0;
      s := SectorOf(banks[k], choices[0].lo, choices[0].hi, a);
    } else {
      var next := if choices[0].Nothing? then first else SectorEnd(banks[k], choices[0].hi) + 1;
      b, s := RangeCovered(banks, rest, k + 1, next, last, a);
      b := b + 1;
    }
  }

  lemma {:induction false} SectorOf(b: Bank, lo: nat, hi: nat, a: int) returns (s: nat)
    requires WellFormed(b) && lo <= hi < |b.start| && b.start[lo] <= a <= SectorEnd(b, hi)
    ensures lo <= s <= hi && b.start[s] <= a <= SectorEnd(b, s)
    decreases hi - lo
  {
    if a <= SectorEnd(b, lo) { s := lo; } else { s := SectorOf(b, lo + 1, hi, a); }
  }

  // ---- start +length -----------------------------------------------------------------

  /** `last` is the end of the sector that holds `a`. */
  ghost predicate RoundsTo(banks: seq<Bank>, a: int, last: int) {
    exists b: nat, s: nat :: Within(banks, b, s, a) && SectorEnd(banks[b], s) == last
  }

  ghost predicate StartsSector(banks: seq<Bank>, a: int) {
    exists b: nat, s: nat :: b < |banks| && s < |banks[b].start| && banks[b].start[s] == a
  }

  /** The sector has an address in [lo, hi]. */
  ghost predicate Meets(b: Bank, s: nat, lo: int, hi: int)
    requires s < |b.start|
  {
    b.start[s] <= hi && lo <= SectorEnd(b, s)
  }

  /** The end address is computed modulo 2^32. A sum that overflows, or a length of 0, is not lifted by
      rounding above a start that begins a sector, so that the command refuses; except for start 0 with
      length 0, whose end is the top of the address space. */
  lemma {:induction false} NoOverflowGetsThrough(banks: seq<Bank>, first: int, len: int, last: int)
    requires Sane(banks) && 0 <= first <= TOP && 0 <= len <= TOP
    requires StartsSector(banks, first) && RoundsTo(banks, Wrap(first + len - 1), last) && first < last
    ensures len >= 1 && first + len - 1 <= TOP <==> first > 0 || len > 0
  {
    var a := Wrap(first + len - 1);
    var b: nat, s: nat :| Within(banks, b, s, a) && SectorEnd(banks[b], s) == last;
    var b': nat, s': nat :| b' < |banks| && s' < |banks[b'].start| && banks[b'].start[s'] == first;
    SectorInside(banks[b'], s');
    if a < first {
      assert Within(banks, b, s, first) && Within(banks, b', s', first);
      WithinUnique(banks, b, s, b', s', first);
    }
  }

  lemma {:induction false} SelectedMeets(banks: seq<Bank>, choices: seq<Choice>, first: int, hi: int, last: int,
                                         b: nat, s: nat)
    requires Sane(banks) && |choices| == |banks| && InOrder(banks, choices, 0, first, last)
    requires first <= hi && RoundsTo(banks, hi, last) && Selected(choices, b, s)
    ensures s < |banks[b].start| && Meets(banks[b], s, first, hi)
  {
    var rb: nat, rs: nat :| Within(banks, rb, rs, hi) && SectorEnd(banks[rb], rs) == last;
    SelectedInside(banks, choices, 0, first, last, b, s);
    SectorInside(banks[b], s);
    if banks[b].start[s] > hi { WithinUnique(banks, b, s, rb, rs, banks[b].start[s]); }
  }

  lemma {:induction false} MeetsSelected(banks: seq<Bank>, choices: seq<Choice>, first: int, hi: int, last: int,
                                         b: nat, s: nat)
    requires Sane(banks) && |choices| == |banks| && InOrder(banks, choices, 0, first, last)
    requires first <= hi <= last && b < |banks| && s < |banks[b].start| && Meets(banks[b], s, first, hi)
    ensures Selected(choices, b, s)
  {
    SectorInside(banks[b], s);
    var a := if banks[b].start[s] < first then first else banks[b].start[s];
    var cb, cs := RangeCovered(banks, choices, 0, first, last, a);
    WithinUnique(banks, b, s, cb, cs, a);
  }

  /** What the command does after rounding the end of "start +length" to `last`. */
  ghost predicate Proceeds(banks: seq<Bank>, first: int, len: int, last: int) {
    && RoundsTo(banks, Wrap(first + len - 1), last) && first < last
    && PlanFrom(banks, 0, first, last).Planned?
  }

  /** Then the start begins a sector that is selected. */
  lemma {:induction false} ProceedsStarts(banks: seq<Bank>, first: int, len: int, last: int) returns (b: nat, s: nat)
    requires Sane(banks) && 0 <= first && Proceeds(banks, first, len, last)
    ensures last <= TOP && EndsSector(banks, last) && StartsSector(banks, first)
    ensures b < |banks| && s < |banks[b].start| && banks[b].start[s] == first
    ensures Selected(PlanFrom(banks, 0, first, last).choices, b, s)
  {
    RoundsToEnd(banks, Wrap(first + len - 1), last);
    var l: nat :| l < |banks| && EndsSectorOf(banks, l, last);
    b := PlanStarts(banks, 0, l, first, last);
    s := PlanFrom(banks, 0, first, last).choices[b].lo;
  }

  /** Rounding and planning select exactly the sectors that have an address in [start, start + length - 1],
      away from the two exceptions. */
  lemma {:induction false} StartPlusLength(banks: seq<Bank>, first: int, len: int, last: int, b: nat, s: nat)
    requires Sane(banks) && 0 <= first <= TOP && 0 <= len <= TOP && Proceeds(banks, first, len, last)
    requires (first > 0 || len > 0) && !Hazard(banks, last) && b < |banks| && s < |banks[b].start|
    ensures Selected(PlanFrom(banks, 0, first, last).choices, b, s) <==> Meets(banks[b], s, first, first + len - 1)
  {
    var b', s' := ProceedsStarts(banks, first, len, last);
    NoOverflowGetsThrough(banks, first, len, last);
    var hi, choices := first + len - 1, PlanFrom(banks, 0, first, last).choices;
    RoundsToEnd(banks, hi, last);
    PlanExactIff(banks, first, last);
    if Selected(choices, b, s) { SelectedMeets(banks, choices, first, hi, last, b, s); }
    if Meets(banks[b], s, first, hi) { MeetsSelected(banks, choices, first, hi, last, b, s); }
  }

  /** The selected sectors are those of the given range. */
  ghost predicate SelectsRange(banks: seq<Bank>, first: int, len: int, last: int) {
    PlanFrom(banks, 0, first, last).Planned?
    && forall b: nat, s: nat :: b < |banks| && s < |banks[b].start| ==>
         (Selected(PlanFrom(banks, 0, first, last).choices, b, s) <==> Meets(banks[b], s, first, first + len - 1))
  }

  /** That is so if and only if the command is not "0 +0" and does not run into the wrap-around of the
      planner. */
  lemma {:induction false} SelectsRangeIff(banks: seq<Bank>, first: int, len: int, last: int)
    requires Sane(banks) && 0 <= first <= TOP && 0 <= len <= TOP && Proceeds(banks, first, len, last)
    ensures SelectsRange(banks, first, len, last) <==> (first > 0 || len > 0) && !Hazard(banks, last)
  {
    var choices := PlanFrom(banks, 0, first, last).choices;
    var b, s := ProceedsStarts(banks, first, len, last);
    if first == 0 && len == 0 {
      assert Selected(choices, b, s) && !Meets(banks[b], s, 0, -1);
    } else if Hazard(banks, last) {
      var l, j :| 0 <= l < j < |banks| && Holds(banks[l], TOP) && Holds(banks[j], 0);
      HazardOverruns(banks, l, j, first);
      SectorInside(banks[j], 0);
      assert Selected(choices, j, 0) && !Meets(banks[j], 0, first, first + len - 1);
    } else {
      forall b: nat, s: nat | b < |banks| && s < |banks[b].start|
        ensures Selected(choices, b, s) <==> Meets(banks[b], s, first, first + len - 1)
      {
        StartPlusLength(banks, first, len, last, b, s);
      }
    }
  }

  /** "0 +0" on a flash that fills the address space selects all of it, though no sector meets the empty
      range. */
  lemma {:induction false} ZeroPlusZero(banks: seq<Bank>)
    requires banks == [Bank(true, [0], 0x8000_0000), Bank(true, [0x8000_0000], 0x8000_0000)]
    ensures Sane(banks) && Proceeds(banks, 0, 0, TOP) && !Hazard(banks, TOP) && !SelectsRange(banks, 0, 0, TOP)
    ensures forall b: nat :: b < 2 ==> Selected(PlanFrom(banks, 0, 0, TOP).choices, b, 0) && !Meets(banks[b], 0, 0, -1)
  {
    assert Within(banks, 1, 0, TOP) && SectorEnd(banks[1], 0) == TOP;
    DecideTakes(banks[0], 0, 0, TOP);
    DecideTakes(banks[1], 0, 0, TOP);
    var rest := PlanFrom(banks, 1, 0x8000_0000, TOP);
    assert rest == Prepend(Sectors(0, 0), PlanFrom(banks, 2, Next(banks[1], 0), TOP)) == Planned([Sectors(0, 0)]);
    assert PlanFrom(banks, 0, 0, TOP) == Prepend(Sectors(0, 0), rest) == Planned([Sectors(0, 0), Sectors(0, 0)]);
    SelectsRangeIff(banks, 0, 0, TOP);
  }

  /** The rounded range is tiled with these sectors, in bank order. */
  ghost predicate TiledBy(banks: seq<Bank>, first: int, len: int, last: int, w: seq<Choice>) {
    |w| == |banks| && RoundsTo(banks, first + len - 1, last) && first < last && InOrder(banks, w, 0, first, last)
  }

  ghost predicate Tileable(banks: seq<Bank>, first: int, len: int) {
    exists last, w :: TiledBy(banks, first, len, last, w)
  }

  ghost predicate GetsThrough(banks: seq<Bank>, first: int, len: int) {
    exists last :: Proceeds(banks, first, len, last)
  }

  /** Away from the exceptions the command gets through exactly if that is so. */
  lemma {:induction false} ProceedsIff(banks: seq<Bank>, first: int, len: int)
    requires Sane(banks) && 0 <= first <= TOP && 0 <= len <= TOP && (first > 0 || len > 0) && !Hazard(banks, TOP)
    ensures GetsThrough(banks, first, len) <==> Tileable(banks, first, len)
  {
    if GetsThrough(banks, first, len) {
      var last :| Proceeds(banks, first, len, last);
      ProceedsTiled(banks, first, len, last);
    }
    if Tileable(banks, first, len) {
      var last, w :| TiledBy(banks, first, len, last, w);
      TiledProceeds(banks, first, len, last, w);
    }
  }

  lemma {:induction false} ProceedsTiled(banks: seq<Bank>, first: int, len: int, last: int)
    requires Sane(banks) && 0 <= first <= TOP && 0 <= len <= TOP && (first > 0 || len > 0) && !Hazard(banks, last)
    requires Proceeds(banks, first, len, last)
    ensures TiledBy(banks, first, len, last, PlanFrom(banks, 0, first, last).choices)
  {
    var b, s := ProceedsStarts(banks, first, len, last);
    NoOverflowGetsThrough(banks, first, len, last);
    DivSmall(first + len - 1, WORD_SIZE);
    PlanExactIff(banks, first, last);
    assert RoundsTo(banks, first + len - 1, last);
  }

  lemma {:induction false} TiledProceeds(banks: seq<Bank>, first: int, len: int, last: int, w: seq<Choice>)
    requires Sane(banks) && 0 <= first <= TOP && !Hazard(banks, last) && TiledBy(banks, first, len, last, w)
    ensures Proceeds(banks, first, len, last)
  {
    RoundsToEnd(banks, first + len - 1, last);
    RoundsFrom(banks, first + len - 1, last);
    DivSmall(first + len - 1, WORD_SIZE);
    PlanFinds(banks, w, 0, first, last);
  }

  lemma {:induction false} RoundsFrom(banks: seq<Bank>, a: int, last: int)
    requires Sane(banks) && RoundsTo(banks, a, last)
    ensures 0 <= a <= TOP
  {
    var b: nat, s: nat :| Within(banks, b, s, a) && SectorEnd(banks[b], s) == last;
    SectorInside(banks[b], s);
  }

  lemma {:induction false} RoundsUnique(banks: seq<Bank>, a: int, last: int, last': int)
    requires Sane(banks) && RoundsTo(banks, a, last) && RoundsTo(banks, a, last')
    ensures last == last'
  {
    var b: nat, s: nat :| Within(banks, b, s, a) && SectorEnd(banks[b], s) == last;
    var b': nat, s': nat :| Within(banks, b', s', a) && SectorEnd(banks[b'], s') == last';
    WithinUnique(banks, b, s, b', s', a);
  }

  lemma {:induction false} RoundsToEnd(banks: seq<Bank>, a: int, last: int)
    requires Sane(banks) && RoundsTo(banks, a, last)
    ensures a <= last <= TOP && EndsSector(banks, last)
  {
    var b: nat, s: nat :| Within(banks, b, s, a) && SectorEnd(banks[b], s) == last;
    SectorInside(banks[b], s);
    EndsAtFinds(banks[b], last, 0);
    assert EndsSectorOf(banks, b, last);
  }

  // ---- The commands ------------------------------------------------------------------

  /** s_first and s_last of one bank. */
  ghost predicate Encodes(c: Choice, sFirst: int, sLast: int) {
    if c.Nothing? then sFirst == -1 else sFirst == c.lo && sLast == c.hi
  }

  function Onto(done: seq<Choice>, p: Plan): Plan {
    if p.Refused? then p else Planned(done + p.choices)
  }

  /** The banks before `bank` are planned. */
  ghost predicate Underway(banks: seq<Bank>, plan: Plan, done: seq<Choice>, bank: nat, first: int, last: int,
                           count: int)
    requires bank <= |banks|
  {
    |done| == bank && count == Count(done) && plan == Onto(done, PlanFrom(banks, bank, first, last))
  }

  lemma {:induction false} BankPlanned(banks: seq<Bank>, plan: Plan, done: seq<Choice>, bank: nat, first: int,
                                       last: int, count: int, c: Choice)
    requires bank < |banks| && first <= last && Underway(banks, plan, done, bank, first, last, count)
    requires Decide(banks[bank], first, last) == if c.Nothing? then Pass else Take(c)
    requires c.Sectors? ==> c.hi < |banks[bank].start|
    ensures Underway(banks, plan, done + [c], bank + 1, if c.Nothing? then first else Next(banks[bank], c.hi), last,
                     count + Size(c))
  {
    OntoNext(done, c, PlanFrom(banks, bank + 1, if c.Nothing? then first else Next(banks[bank], c.hi), last));
    CountLast(done, c);
  }

  class Flash {
    const banks: seq<Bank>
    const protect: array2<int>   // info->protect[], one row for each bank

    ghost predicate Valid()
      reads this
    {
      && Sane(banks) && protect.Length0 == |banks|
      && forall b :: 0 <= b < |banks| ==> |banks[b].start| <= protect.Length1
    }

    constructor (banks: seq<Bank>, protect: array2<int>)
      requires Sane(banks) && protect.Length0 == |banks|
      requires forall b :: 0 <= b < |banks| ==> |banks[b].start| <= protect.Length1
      ensures Valid() && this.banks == banks && this.protect == protect
    {
      this.banks, this.protect := banks, protect;
    }

    /** The sector loop of flash_fill_sect_ranges. */
    method ScanBank(b: Bank, first: int, last: int) returns (sFirst: int, sLast: int)
      requires WellFormed(b) && b.known && first <= last
      ensures sFirst == StartsAt(b, first, 0) && sLast == EndsAt(b, last, 0)
    {
      sFirst, sLast := -1, -1;
      var sect := 0;
      while sect < |b.start|
        invariant 0 <= sect <= |b.start|
        invariant if sFirst >= 0 then sFirst < sect && b.start[sFirst] == first
                  else sFirst == -1 && forall i :: 0 <= i < sect ==> b.start[i] != first
        invariant if sLast >= 0 then sLast < sect && SectorEnd(b, sLast) == last
                  else sLast == -1 && forall i :: 0 <= i < sect ==> SectorEnd(b, i) != last
      {
        var end := SectorEnd(b, sect);
        SectorInside(b, sect);
        if first <= end && b.start[sect] <= last {
          if first == b.start[sect] { sFirst := sect; }
          if last == end { sLast := sect; }
        }
        sect := sect + 1;
      }
      StartsAtFinds(b, first, 0);
      EndsAtFinds(b, last, 0);
      SameSector(b, sFirst, StartsAt(b, first, 0), sLast, EndsAt(b, last, 0));
    }

    /** The body of the bank loop, for a bank that is known. */
    method PlanBank(b: Bank, first: int, last: int) returns (rcode: int, lo: int, hi: int)
      requires WellFormed(b) && b.known && first <= last
      ensures var d := Decide(b, first, last);
              && (rcode != 0 <==> d.Refuse?)
              && (d.Pass? ==> lo == -1)
              && (d.Take? ==> lo == d.choice.lo && hi == d.choice.hi)
    {
      rcode := 0;
      lo, hi := ScanBank(b, first, last);
      if lo >= 0 {
        if hi < 0 {
          if last > BankEnd(b) { hi := |b.start| - 1; } else { return 1, lo, hi; }
        }
        if hi < lo { return 1, lo, hi; }
      } else if b.start[0] <= first < BankEnd(b) {
        rcode := 1;
      } else if hi >= 0 {
        rcode := 1;
      }
    }

    /** flash_fill_sect_ranges: refuses exactly when the plan does, and otherwise leaves the plan in
        the two arrays and its number of sectors in `count`. */
    method FillSectRanges(first0: int, last: int, sFirst: array<int>, sLast: array<int>)
      returns (rcode: int, count: int)
      requires Valid() && sFirst.Length == sLast.Length == |banks| && sFirst != sLast
      modifies sFirst, sLast
      ensures var p := PlanFrom(banks, 0, first0, last);
              && (rcode == 0 <==> p.Planned?)
              && (p.Planned? ==> count == Count(p.choices))
              && (p.Planned? ==> Encoded(p.choices, sFirst[..], sLast[..]))
    {
      rcode, count := 0, 0;
      var bank, first := 0, first0;
      for k := 0 to |banks|
        invariant forall b :: 0 <= b < k ==> sFirst[b] == -1
      {
        sFirst[k], sLast[k] := -1, -1;
      }
      ghost var done: seq<Choice> := [];
      ghost var plan := PlanFrom(banks, 0, first, last);
      while bank < |banks| && first <= last
        invariant 0 <= bank <= |banks| && Underway(banks, plan, done, bank, first, last, count)
        invariant Encoded(done, sFirst[..bank], sLast[..bank])
        invariant forall b :: bank <= b < |banks| ==> sFirst[b] == -1
        decreases |banks| - bank
      {
        var b := banks[bank];
        ghost var c, first' := Nothing, first;
        if b.known {
          var rc, lo, hi := PlanBank(b, first, last);
          if rc != 0 { return 1, count; }
          sFirst[bank], sLast[bank] := lo, hi;
          if lo >= 0 {
            c := Sectors(lo, hi);
            first := Next(b, hi);
            count := count + hi - lo + 1;
          }
        }
        BankPlanned(banks, plan, done, bank, first', last, count - Size(c), c);
        EncodedNext(done, c, sFirst[..bank + 1], sLast[..bank + 1]);
        done := done + [c];
        bank := bank + 1;
      }
      PlanIdle(banks, bank, first, last);
      CountIdle(done, PlanFrom(banks, bank, first, last).choices);
      EncodedIdle(done, PlanFrom(banks, bank, first, last).choices, sFirst[..], sLast[..]);
    }

    /** flash_sect_roundb: the end of the sector that holds the address, if there is one. */
    method SectRoundb(addr0: int) returns (found: bool, addr: int)
      requires Valid()
      ensures found ==> RoundsTo(banks, addr0, addr)
      ensures !found ==> addr == addr0 && forall b: nat, s: nat :: !Within(banks, b, s, addr0)
    {
      found, addr := false, addr0;
      var bank := 0;
      while bank < |banks| && !found
        invariant 0 <= bank <= |banks|
        invariant found ==> RoundsTo(banks, addr0, addr)
        invariant !found ==> addr == addr0 && forall b: nat, s: nat :: b < bank ==> !Within(banks, b, s, addr0)
        decreases |banks| - bank, !found
      {
        var info := banks[bank];
        var i := 0;
        while i < |info.start| && !found
          invariant 0 <= i <= |info.start|
          invariant found ==> RoundsTo(banks, addr0, addr)
          invariant !found ==> addr == addr0 && forall s: nat :: s < i ==> !Within(banks, bank, s, addr0)
          decreases |info.start| - i, !found
        {
          var end := SectorEnd(info, i);
          if addr <= end && info.start[i] <= addr {
            found := true;
            assert Within(banks, bank, i, addr0);
            if addr < end { addr := end; }
          }
          i := i + 1;
        }
        bank := bank + 1;
      }
    }

    /** flash_sect_protect with software flags: sets exactly the flags of the planned sectors, and
        none when planning fails. */
    method SectProtect(p: int, first: int, last: int) returns (rcode: int)
      requires Valid()
      modifies protect
      ensures var plan := PlanFrom(banks, 0, first, last);
              && (rcode == 0 <==> plan.Planned? && Count(plan.choices) != 0)
              && forall b: nat, s: nat :: b < protect.Length0 && s < protect.Length1 ==>
                   protect[b, s] == (if rcode == 0 && Selected(plan.choices, b, s) then p else old(protect[b, s]))
    {
      var sFirst, sLast := new int[|banks|], new int[|banks|];
      var planned;
      rcode, planned := FillSectRanges(first, last, sFirst, sLast);
      if planned == 0 && rcode == 0 { return 1; }
      if rcode != 0 { return; }
      ghost var choices := PlanFrom(banks, 0, first, last).choices;
      forall b | 0 <= b < |banks| ensures InBounds(choices[b], b) { PlanInBounds(banks, 0, first, last, b); }
      ProtectPlanned(p, sFirst, sLast, choices);
    }

    ghost predicate InBounds(c: Choice, b: nat)
      requires b < |banks|
      reads this
    {
      c.Sectors? ==> banks[b].known && c.lo <= c.hi < |banks[b].start|
    }

    method ProtectPlanned(p: int, sFirst: array<int>, sLast: array<int>, ghost choices: seq<Choice>)
      requires Valid() && |choices| == |banks| && Encoded(choices, sFirst[..], sLast[..])
      requires forall b :: 0 <= b < |banks| ==> InBounds(choices[b], b)
      modifies protect
      ensures forall b: nat, s: nat :: b < protect.Length0 && s < protect.Length1 ==>
        protect[b, s] == (if Selected(choices, b, s) then p else old(protect[b, s]))
    {
      for bank := 0 to |banks|
        invariant forall b: nat, s: nat :: b < protect.Length0 && s < protect.Length1 ==>
          protect[b, s] == (if b < bank && Selected(choices, b, s) then p else old(protect[b, s]))
      {
        assert Encodes(choices[bank], sFirst[..][bank], sLast[..][bank]) && InBounds(choices[bank], bank);
        if banks[bank].known && sFirst[bank] >= 0 && sFirst[bank] <= sLast[bank] {
          ProtectSectors(p, bank, sFirst[bank], sLast[bank]);
        }
      }
    }

    method ProtectSectors(p: int, bank: nat, lo: nat, hi: int)
      requires bank < protect.Length0 && lo <= hi < protect.Length1
      modifies protect
      ensures forall b: nat, s: nat :: b < protect.Length0 && s < protect.Length1 ==>
        protect[b, s] == (if b == bank && lo <= s <= hi then p else old(protect[b, s]))
    {
      var i := lo;
      while i <= hi
        invariant lo <= i <= hi + 1
        invariant forall b: nat, s: nat :: b < protect.Length0 && s < protect.Length1 ==>
          protect[b, s] == (if b == bank && lo <= s < i then p else old(protect[b, s]))
      {
        protect[bank, i] := p;
        i := i + 1;
      }
    }

    /** The command "protect on|off start +length": addr_spec, the caller's check of the two
        addresses, and the protection. It succeeds exactly if the rounded range is planned, and then sets
        exactly the flags of the planned sectors; on any error it sets none. Away from the two exceptions
        it succeeds exactly if the range can be tiled, and sets the flags of the sectors that meet it. */
    method ProtectCommand(p: int, first: u32, len: u32) returns (rcode: int, ghost last: int)
      requires Valid()
      modifies protect
      ensures rcode == 0 ==> Proceeds(banks, first, len, last)
      ensures rcode == 0 <==> GetsThrough(banks, first, len)
      ensures forall b: nat, s: nat :: b < protect.Length0 && s < protect.Length1 ==>
        protect[b, s] == (if rcode == 0 && Selected(PlanFrom(banks, 0, first, last).choices, b, s) then p
                          else old(protect[b, s]))
      ensures rcode == 0 && (first > 0 || len > 0) && !Hazard(banks, last) ==> SelectsRange(banks, first, len, last)
      ensures (first > 0 || len > 0) && !Hazard(banks, TOP) ==> (rcode == 0 <==> Tileable(banks, first, len))
    {
      if (first > 0 || len > 0) && !Hazard(banks, TOP) { ProceedsIff(banks, first, len); }
      var found, end := SectRoundb(Wrap(first + len - 1));
      last := end;
      if !found { return 1, last; }
      ProceedsOnly(banks, first, len, last);
      if first >= end { return -1, last; }
      RoundsToEnd(banks, Wrap(first + len - 1), last);
      rcode := SectProtect(p, first, end);
      if PlanFrom(banks, 0, first, last).Planned? {
        SomethingPlanned(banks, first, len, last);
        SelectsRangeIff(banks, first, len, last);
      }
    }
  }

  /** Only the rounded end is planned for. */
  lemma {:induction false} ProceedsOnly(banks: seq<Bank>, first: int, len: int, last: int)
    requires Sane(banks) && RoundsTo(banks, Wrap(first + len - 1), last)
    ensures GetsThrough(banks, first, len) <==> Proceeds(banks, first, len, last)
  {
    if GetsThrough(banks, first, len) {
      var last' :| Proceeds(banks, first, len, last');
      RoundsUnique(banks, Wrap(first + len - 1), last, last');
    }
  }

  /** A range that is planned has a sector. */
  lemma {:induction false} SomethingPlanned(banks: seq<Bank>, first: int, len: int, last: int)
    requires Sane(banks) && 0 <= first && Proceeds(banks, first, len, last)
    ensures Count(PlanFrom(banks, 0, first, last).choices) > 0
  {
    var choices := PlanFrom(banks, 0, first, last).choices;
    var b, s := ProceedsStarts(banks, first, len, last);
    forall i | 0 <= i < |choices| ensures Size(choices[i]) >= 0 { PlanInBounds(banks, 0, first, last, i); }
    CountPositive(choices, b);
  }

  lemma {:induction false} CountPositive(choices: seq<Choice>, b: nat)
    requires forall i :: 0 <= i < |choices| ==> Size(choices[i]) >= 0
    ensures Count(choices) >= 0
    ensures b < |choices| && Size(choices[b]) > 0 ==> Count(choices) > 0
  {
    if choices != [] { CountPositive(choices[1..], if b > 0 then b - 1 else 0); }
  }

  lemma {:induction false} PlanInBounds(banks: seq<Bank>, k: nat, first: int, last: int, b: nat)
    requires Sane(banks) && k <= |banks| && PlanFrom(banks, k, first, last).Planned? && b < |banks| - k
    ensures var c := PlanFrom(banks, k, first, last).choices[b];
            c.Sectors? ==> banks[k + b].known && c.lo <= c.hi < |banks[k + b].start|
    decreases |banks| - k
  {
    var next := PlanGoesOn(banks, k, first, last);
    if b > 0 { PlanInBounds(banks, k + 1, next, last, b - 1); }
  }

  lemma {:induction false} PlanGoesOn(banks: seq<Bank>, k: nat, first: int, last: int) returns (next: int)
    requires Sane(banks) && k < |banks| && PlanFrom(banks, k, first, last).Planned?
    ensures PlanFrom(banks, k + 1, next, last).Planned?
    ensures var choices := PlanFrom(banks, k, first, last).choices;
            && choices == [choices[0]] + PlanFrom(banks, k + 1, next, last).choices
            && (choices[0].Sectors? ==>
                  banks[k].known && choices[0].lo <= choices[0].hi < |banks[k].start|)
  {
    next := first;
    if first <= last {
      DecisionMeans(banks[k], first, last);
      var d := Decide(banks[k], first, last);
      if d.Take? { next := Next(banks[k], d.choice.hi); }
    }
  }

  ghost predicate Encoded(choices: seq<Choice>, sFirst: seq<int>, sLast: seq<int>) {
    && |choices| == |sFirst| == |sLast|
    && forall b :: 0 <= b < |choices| ==> Encodes(choices[b], sFirst[b], sLast[b])
  }

  lemma {:induction false} EncodedNext(done: seq<Choice>, c: Choice, sFirst: seq<int>, sLast: seq<int>)
    requires |sFirst| == |sLast| == |done| + 1
    requires Encoded(done, sFirst[..|done|], sLast[..|done|]) && Encodes(c, sFirst[|done|], sLast[|done|])
    ensures Encoded(done + [c], sFirst, sLast)
  {
    forall b | 0 <= b < |done| ensures Encodes(done[b], sFirst[b], sLast[b]) {
      assert sFirst[..|done|][b] == sFirst[b] && sLast[..|done|][b] == sLast[b];
    }
  }

  lemma {:induction false} EncodedIdle(done: seq<Choice>, rest: seq<Choice>, sFirst: seq<int>, sLast: seq<int>)
    requires |sFirst| == |sLast| == |done| + |rest| && Encoded(done, sFirst[..|done|], sLast[..|done|])
    requires forall i :: 0 <= i < |rest| ==> rest[i].Nothing?
    requires forall b :: |done| <= b < |sFirst| ==> sFirst[b] == -1
    ensures Encoded(done + rest, sFirst, sLast)
  {
    forall b | 0 <= b < |done| ensures Encodes(done[b], sFirst[b], sLast[b]) {
      assert sFirst[..|done|][b] == sFirst[b] && sLast[..|done|][b] == sLast[b];
    }
  }

  lemma {:induction false} OntoNext(done: seq<Choice>, c: Choice, p: Plan)
    ensures Onto(done, Prepend(c, p)) == Onto(done + [c], p)
  {
    if p.Planned? { assert done + ([c] + p.choices) == (done + [c]) + p.choices; }
  }

  lemma {:induction false} SameSector(b: Bank, s: int, s': int, e: int, e': int)
    requires WellFormed(b)
    requires -1 <= s < |b.start| && -1 <= s' < |b.start| && (s >= 0 && s' >= 0 ==> b.start[s] == b.start[s'])
    requires -1 <= e < |b.start| && -1 <= e' < |b.start| && (e >= 0 && e' >= 0 ==> SectorEnd(b, e) == SectorEnd(b, e'))
    ensures s >= 0 && s' >= 0 ==> s == s'
    ensures e >= 0 && e' >= 0 ==> e == e'
  {
    if e >= 0 && e' >= 0 {
      if e < e' { EndsDiffer(b, e, e'); }
      if e' < e { EndsDiffer(b, e', e); }
    }
  }

  lemma {:induction false} CountLast(done: seq<Choice>, c: Choice)
    ensures Count(done + [c]) == Count(done) + Size(c)
  {
    if done == [] {
      assert done + [c] == [c] && [c][1..] == [];
    } else {
      assert (done + [c])[1..] == done[1..] + [c];
      CountLast(done[1..], c);
    }
  }

  lemma {:induction false} CountIdle(done: seq<Choice>, rest: seq<Choice>)
    requires forall i :: 0 <= i < |rest| ==> rest[i].Nothing?
    ensures Count(done + rest) == Count(done)
    decreases |rest|
  {
    if rest == [] {
      assert done + rest == done;
    } else {
      CountLast(done, rest[0]);
      assert done + rest == (done + [rest[0]]) + rest[1..];
      CountIdle(done + [rest[0]], rest[1..]);
    }
  }

  lemma {:induction false} PlanIdle(banks: seq<Bank>, k: nat, first: int, last: int)
    requires k <= |banks| && (k == |banks| || first > last)
    ensures var p := PlanFrom(banks, k, first, last);
            p.Planned? && forall i :: 0 <= i < |p.choices| ==> p.choices[i].Nothing?
    decreases |banks| - k
  {
    if k < |banks| { PlanIdle(banks, k + 1, first, last); }
  }
}
