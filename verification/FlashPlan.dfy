/** Flash sector range planning of cmd_flash.c: banks of sectors, and how the planner picks the
    sectors that tile an address range. */
module FlashPlan {
  import opened Machine

  /** flash_info_t: whether flash_id is known, the sector start addresses and the size. */
  datatype Bank = Bank(known: bool, start: seq<int>, size: int)

  const TOP: nat := 0xFFFF_FFFF

  function BankEnd(b: Bank): int
    requires b.start != []
  {
    b.start[0] + b.size - 1
  }

  /** The last address of a sector. */
  function SectorEnd(b: Bank, s: nat): int
    requires s < |b.start|
  {
    if s == |b.start| - 1 then BankEnd(b) else b.start[s + 1] - 1
  }

  /** Sectors ascend without gaps and stay inside 32 bits; sector numbers fit a short; a bank
      that was not detected has no sectors. */
  ghost predicate WellFormed(b: Bank) {
    && (b.known <==> b.start != [])
    && |b.start| <= 0x8000
    && (forall i, j :: 0 <= i < j < |b.start| ==> b.start[i] < b.start[j])
    && (b.start != [] ==> 0 <= b.start[0] && b.start[|b.start| - 1] <= BankEnd(b) <= TOP)
  }

  ghost predicate Holds(b: Bank, a: int) {
    b.start != [] && b.start[0] <= a <= BankEnd(b)
  }

  /** No address is in two banks. */
  ghost predicate Sane(banks: seq<Bank>) {
    && (forall i :: 0 <= i < |banks| ==> WellFormed(banks[i]))
    && (forall i, j, a :: 0 <= i < j < |banks| && Holds(banks[i], a) ==> !Holds(banks[j], a))
  }

  // ---- The decision for one bank -----------------------------------------------------

  /** The sector that starts at `a`, or -1. */
  function StartsAt(b: Bank, a: int, from: nat): (s: int)
    requires from <= |b.start|
    ensures -1 <= s < |b.start|
    decreases |b.start| - from
  {
    if from == |b.start| then -1 else if b.start[from] == a then from else StartsAt(b, a, from + 1)
  }

  /** The sector that ends at `a`, or -1. */
  function EndsAt(b: Bank, a: int, from: nat): (s: int)
    requires from <= |b.start|
    ensures -1 <= s < |b.start|
    decreases |b.start| - from
  {
    if from == |b.start| then -1 else if SectorEnd(b, from) == a then from else EndsAt(b, a, from + 1)
  }

  /** Sectors `lo` to `hi` of a bank, or none of it. */
  datatype Choice = Nothing | Sectors(lo: nat, hi: nat)

  datatype Decision = Pass | Take(choice: Choice) | Refuse

  /** What the planner does at one bank when `first` is the first address still to be covered. */
  function Decide(b: Bank, first: int, last: int): (d: Decision)
    ensures d.Take? ==> d.choice.Sectors? && d.choice.hi < |b.start|
  {
    if !b.known || b.start == [] then Pass
    else
      var lo, hi := StartsAt(b, first, 0), EndsAt(b, last, 0);
      if lo >= 0 then
        if hi >= 0 then (if hi < lo then Refuse else Take(Sectors(lo, hi)))
        else if last > BankEnd(b) then Take(Sectors(lo, |b.start| - 1))
        else Refuse
      else if b.start[0] <= first < BankEnd(b) then Refuse
      else if hi >= 0 then Refuse
      else Pass
  }

  /** The first address after sector `hi`; at the top of the address space it wraps to 0. */
  function Next(b: Bank, hi: nat): int
    requires hi < |b.start|
  {
    if hi == |b.start| - 1 then Wrap(BankEnd(b) + 1) else b.start[hi + 1]
  }

  datatype Plan = Refused | Planned(choices: seq<Choice>)

  function Prepend(c: Choice, p: Plan): Plan {
    if p.Refused? then p else Planned([c] + p.choices)
  }

  /** flash_fill_sect_ranges from bank `k` on. */
  function PlanFrom(banks: seq<Bank>, k: nat, first: int, last: int): (p: Plan)
    requires k <= |banks|
    ensures p.Planned? ==> |p.choices| == |banks| - k
    decreases |banks| - k
  {
    if k == |banks| then Planned([])
    else if first > last then Prepend(Nothing, PlanFrom(banks, k + 1, first, last))
    else
      match Decide(banks[k], first, last)
      case Refuse => Refused
      case Pass => Prepend(Nothing, PlanFrom(banks, k + 1, first, last))
      case Take(c) => Prepend(c, PlanFrom(banks, k + 1, Next(banks[k], c.hi), last))
  }

  // ---- What a plan ought to be -------------------------------------------------------

  /** Going through the banks in order, the chosen sectors start at `first`, follow each other
      without a gap and end at `last`. */
  ghost predicate InOrder(banks: seq<Bank>, choices: seq<Choice>, k: nat, first: int, last: int)
    requires |choices| == |banks| - k
    decreases |choices|
  {
    if choices == [] then first == last + 1
    else match choices[0]
      case Nothing => InOrder(banks, choices[1..], k + 1, first, last)
      case Sectors(lo, hi) =>
        && banks[k].known && lo <= hi < |banks[k].start|
        && banks[k].start[lo] == first
        && InOrder(banks, choices[1..], k + 1, SectorEnd(banks[k], hi) + 1, last)
  }

  /** `last` is the last address of a sector of bank `k`. */
  ghost predicate EndsSectorOf(banks: seq<Bank>, k: nat, last: int)
    requires k < |banks|
  {
    EndsAt(banks[k], last, 0) >= 0
  }

  /** The one case in which the planner's address arithmetic fails: a range up to the very top of
      the address space, with a bank at address 0 listed after the bank at the top. */
  ghost predicate Hazard(banks: seq<Bank>, last: int) {
    last == TOP && exists k, j :: 0 <= k < j < |banks| && Holds(banks[k], TOP) && Holds(banks[j], 0)
  }

  lemma {:induction false} StartsAtFinds(b: Bank, a: int, from: nat)
    requires WellFormed(b) && from <= |b.start|
    ensures var s := StartsAt(b, a, from);
            if s >= 0 then from <= s < |b.start| && b.start[s] == a
            else forall i :: from <= i < |b.start| ==> b.start[i] != a
    decreases |b.start| - from
  {
    if from < |b.start| && b.start[from] != a { StartsAtFinds(b, a, from + 1); }
  }

  lemma {:induction false} EndsAtFinds(b: Bank, a: int, from: nat)
    requires WellFormed(b) && from <= |b.start|
    ensures var s := EndsAt(b, a, from);
            if s >= 0 then from <= s < |b.start| && SectorEnd(b, s) == a
            else forall i :: from <= i < |b.start| ==> SectorEnd(b, i) != a
    decreases |b.start| - from
  {
    if from < |b.start| && SectorEnd(b, from) != a { EndsAtFinds(b, a, from + 1); }
  }

  lemma {:induction false} SectorInside(b: Bank, s: nat)
    requires WellFormed(b) && s < |b.start|
    ensures b.start[0] <= b.start[s] <= SectorEnd(b, s) <= BankEnd(b)
    ensures s < |b.start| - 1 ==> SectorEnd(b, s) < BankEnd(b)
  {
  }

  /** The chosen sectors of a bank start at `first` and run to `last` or to the end of the bank. */
  ghost predicate Chosen(b: Bank, c: Choice, first: int, last: int) {
    && b.known && c.Sectors? && c.lo <= c.hi < |b.start| && b.start[c.lo] == first
    && (SectorEnd(b, c.hi) == last || (c.hi == |b.start| - 1 && BankEnd(b) < last))
  }

  /** Everything that a decision says, in terms of addresses. */
  lemma {:induction false} DecisionMeans(b: Bank, first: int, last: int)
    requires WellFormed(b) && first <= last
    ensures var d := Decide(b, first, last);
            && (d.Take? ==> Chosen(b, d.choice, first, last))
            && (EndsAt(b, last, 0) >= 0 ==> !d.Pass?)
            && (d.Take? && EndsAt(b, last, 0) >= 0 ==> SectorEnd(b, d.choice.hi) == last)
    ensures Decide(b, first, last).Pass? <==> !b.known || Untouched(b, first, last)
    ensures Decide(b, first, last).Take? <==> exists lo, hi :: Chosen(b, Sectors(lo, hi), first, last)
  {
    StartsAtFinds(b, first, 0);
    EndsAtFinds(b, last, 0);
    if exists lo, hi :: Chosen(b, Sectors(lo, hi), first, last) {
      var lo, hi :| Chosen(b, Sectors(lo, hi), first, last);
      DecideTakes(b, lo, hi, last);
    }
  }

  /** No sector of a bank starts the range or ends it, and the range does not start inside the bank before its
      last address. */
  ghost predicate Untouched(b: Bank, first: int, last: int) {
    && (forall s :: 0 <= s < |b.start| ==> b.start[s] != first && SectorEnd(b, s) != last)
    && (b.start != [] ==> !(b.start[0] <= first < b.start[0] + b.size - 1))
  }

  /** A bank that meets neither end of the range is passed over, unless the range starts inside it. */
  lemma {:induction false} OutsideIsPassed(b: Bank, first: int, last: int)
    requires WellFormed(b) && !Holds(b, first) && !Holds(b, last)
    ensures Decide(b, first, last) == Pass
  {
    StartsAtFinds(b, first, 0);
    EndsAtFinds(b, last, 0);
    if StartsAt(b, first, 0) >= 0 { SectorInside(b, StartsAt(b, first, 0)); }
    if EndsAt(b, last, 0) >= 0 { SectorInside(b, EndsAt(b, last, 0)); }
  }

  /** Once everything is covered, the remaining banks are left alone. */
  lemma {:induction false} PlanDone(banks: seq<Bank>, k: nat, last: int)
    requires k <= |banks|
    ensures var p := PlanFrom(banks, k, last + 1, last);
            p.Planned? && InOrder(banks, p.choices, k, last + 1, last)
    decreases |banks| - k
  {
    if k < |banks| {
      PlanDone(banks, k + 1, last);
      var p := PlanFrom(banks, k, last + 1, last);
      assert p.choices[1..] == PlanFrom(banks, k + 1, last + 1, last).choices;
    }
  }

  /** The same when the covered range ends at the top and the next address has wrapped to 0. */
  lemma {:induction false} PlanDoneAtTop(banks: seq<Bank>, k: nat, l: nat)
    requires Sane(banks) && l < k <= |banks| && Holds(banks[l], TOP) && !Hazard(banks, TOP)
    ensures var p := PlanFrom(banks, k, 0, TOP);
            p.Planned? && InOrder(banks, p.choices, k, TOP + 1, TOP)
    decreases |banks| - k
  {
    if k < |banks| {
      PlanDoneAtTop(banks, k + 1, l);
      OutsideIsPassed(banks[k], 0, TOP);
      var p := PlanFrom(banks, k, 0, TOP);
      assert p.choices[1..] == PlanFrom(banks, k + 1, 0, TOP).choices;
    }
  }

  lemma {:induction false} InOrderCons(banks: seq<Bank>, c: Choice, rest: seq<Choice>, k: nat, first: int, last: int)
    requires |rest| + 1 == |banks| - k
    ensures InOrder(banks, [c] + rest, k, first, last) <==>
      if c.Nothing? then InOrder(banks, rest, k + 1, first, last)
      else && banks[k].known && c.lo <= c.hi < |banks[k].start| && banks[k].start[c.lo] == first
           && InOrder(banks, rest, k + 1, SectorEnd(banks[k], c.hi) + 1, last)
  {
    assert ([c] + rest)[1..] == rest;
  }

  lemma {:induction false} EndIsHeld(b: Bank, last: int)
    requires WellFormed(b) && EndsAt(b, last, 0) >= 0
    ensures Holds(b, last)
  {
    EndsAtFinds(b, last, 0);
    SectorInside(b, EndsAt(b, last, 0));
  }

  /** The bank in which the range ends completes the plan. */
  lemma {:induction false} LastBankCompletes(banks: seq<Bank>, k: nat, hi: nat)
    requires Sane(banks) && k < |banks| && hi < |banks[k].start|
    requires !Hazard(banks, SectorEnd(banks[k], hi))
    ensures var last := SectorEnd(banks[k], hi);
            var p := PlanFrom(banks, k + 1, Next(banks[k], hi), last);
            p.Planned? && InOrder(banks, p.choices, k + 1, last + 1, last)
  {
    var last := SectorEnd(banks[k], hi);
    AfterSector(banks[k], hi);
    if last < TOP { PlanDone(banks, k + 1, last); } else { PlanDoneAtTop(banks, k + 1, k); }
  }

  lemma {:induction false} AfterSector(b: Bank, hi: nat)
    requires WellFormed(b) && hi < |b.start|
    ensures Holds(b, SectorEnd(b, hi)) && SectorEnd(b, hi) <= TOP
    ensures Next(b, hi) == if SectorEnd(b, hi) == TOP then 0 else SectorEnd(b, hi) + 1
  {
    SectorInside(b, hi);
  }

  /** If the last address ends a sector of a known bank, a plan that is not refused tiles the range
      exactly, in bank order. */
  lemma {:induction false} PlanTiles(banks: seq<Bank>, k: nat, l: nat, first: int, last: int)
    requires Sane(banks) && k <= l < |banks| && 0 <= first <= last <= TOP
    requires EndsSectorOf(banks, l, last) && !Hazard(banks, last)
    requires PlanFrom(banks, k, first, last).Planned?
    ensures InOrder(banks, PlanFrom(banks, k, first, last).choices, k, first, last)
    decreases |banks| - k
  {
    var b := banks[k];
    DecisionMeans(b, first, last);
    match Decide(b, first, last)
    case Pass =>
      PlanTiles(banks, k + 1, l, first, last);
      PassTiles(banks, k, first, last);
    case Take(c) =>
      AfterSector(b, c.hi);
      if SectorEnd(b, c.hi) == last {
        LastBankCompletes(banks, k, c.hi);
      } else {
        PlanTiles(banks, k + 1, l, BankEnd(b) + 1, last);
      }
      TakeTiles(banks, k, first, last, c);
    case Refuse =>
  }

  lemma {:induction false} PassTiles(banks: seq<Bank>, k: nat, first: int, last: int)
    requires k < |banks| && first <= last && Decide(banks[k], first, last) == Pass
    requires var rest := PlanFrom(banks, k + 1, first, last);
             rest.Planned? && InOrder(banks, rest.choices, k + 1, first, last)
    ensures InOrder(banks, PlanFrom(banks, k, first, last).choices, k, first, last)
  {
    InOrderCons(banks, Nothing, PlanFrom(banks, k + 1, first, last).choices, k, first, last);
  }

  lemma {:induction false} TakeTiles(banks: seq<Bank>, k: nat, first: int, last: int, c: Choice)
    requires Sane(banks) && k < |banks| && first <= last && Decide(banks[k], first, last) == Take(c)
    requires PlanFrom(banks, k, first, last).Planned? && Chosen(banks[k], c, first, last)
    requires var rest := PlanFrom(banks, k + 1, Next(banks[k], c.hi), last);
             rest.Planned? && InOrder(banks, rest.choices, k + 1, SectorEnd(banks[k], c.hi) + 1, last)
    ensures InOrder(banks, PlanFrom(banks, k, first, last).choices, k, first, last)
  {
    InOrderCons(banks, c, PlanFrom(banks, k + 1, Next(banks[k], c.hi), last).choices, k, first, last);
  }

  // ---- Completeness ------------------------------------------------------------------

  lemma {:induction false} InOrderGrows(banks: seq<Bank>, choices: seq<Choice>, k: nat, first: int, last: int)
    requires Sane(banks) && k <= |banks| && |choices| == |banks| - k && InOrder(banks, choices, k, first, last)
    ensures first <= last + 1
    ensures first == last + 1 ==> forall i :: 0 <= i < |choices| ==> choices[i].Nothing?
    decreases |choices|
  {
    if choices != [] {
      assert choices == [choices[0]] + choices[1..];
      match choices[0]
      case Nothing => InOrderGrows(banks, choices[1..], k + 1, first, last);
      case Sectors(lo, hi) =>
        InOrderGrows(banks, choices[1..], k + 1, SectorEnd(banks[k], hi) + 1, last);
        SectorOrder(banks[k], lo, hi);
    }
  }

  lemma {:induction false} SectorOrder(b: Bank, lo: nat, hi: nat)
    requires WellFormed(b) && lo <= hi < |b.start|
    ensures b.start[lo] <= b.start[hi] <= SectorEnd(b, hi)
  {
  }

  /** The rest of a tiling starts at a sector of a later bank. */
  lemma {:induction false} NextBank(banks: seq<Bank>, choices: seq<Choice>, k: nat, first: int, last: int)
    returns (j: nat, e: nat)
    requires Sane(banks) && k <= |banks| && |choices| == |banks| - k
    requires first <= last && InOrder(banks, choices, k, first, last)
    ensures k <= j < |banks| && Holds(banks[j], first) && k <= e < |banks| && EndsSectorOf(banks, e, last)
    decreases |choices|
  {
    if choices[0].Nothing? {
      j, e := NextBank(banks, choices[1..], k + 1, first, last);
    } else {
      var b, lo, hi := banks[k], choices[0].lo, choices[0].hi;
      j := k;
      SectorInside(b, lo);
      SectorOrder(b, lo, hi);
      var next := SectorEnd(b, hi) + 1;
      InOrderGrows(banks, choices[1..], k + 1, next, last);
      if next <= last {
        var j';
        j', e := NextBank(banks, choices[1..], k + 1, next, last);
      } else {
        e := k;
        EndsAtFinds(b, last, 0);
      }
    }
  }

  lemma {:induction false} EndsDiffer(b: Bank, s: nat, t: nat)
    requires WellFormed(b) && s < t < |b.start|
    ensures SectorEnd(b, s) < b.start[t] <= SectorEnd(b, t)
  {
  }

  lemma {:induction false} DecideTakes(b: Bank, lo: nat, hi: nat, last: int)
    requires WellFormed(b) && b.known && lo <= hi < |b.start|
    requires SectorEnd(b, hi) == last || (hi == |b.start| - 1 && BankEnd(b) < last)
    ensures Decide(b, b.start[lo], last) == Take(Sectors(lo, hi))
  {
    StartsAtFinds(b, b.start[lo], 0);
    EndsAtFinds(b, last, 0);
    var e := EndsAt(b, last, 0);
    if e >= 0 { SectorInside(b, e); }
  }

  /** In a tiling that goes on after this bank, the bank is used up to its end. */
  lemma {:induction false} BankUsedUp(banks: seq<Bank>, rest: seq<Choice>, k: nat, hi: nat, last: int)
    requires Sane(banks) && k < |banks| && |rest| == |banks| - k - 1 && hi < |banks[k].start|
    requires SectorEnd(banks[k], hi) < last && InOrder(banks, rest, k + 1, SectorEnd(banks[k], hi) + 1, last)
    ensures hi == |banks[k].start| - 1
  {
    var b := banks[k];
    var j, e := NextBank(banks, rest, k + 1, SectorEnd(b, hi) + 1, last);
    if hi < |b.start| - 1 {
      SectorInside(b, hi + 1);
      assert Holds(b, SectorEnd(b, hi) + 1);
    }
  }

  /** The bank in which the tiling ends. */
  lemma {:induction false} FindsLast(banks: seq<Bank>, rest: seq<Choice>, k: nat, lo: nat, hi: nat)
    requires Sane(banks) && k < |banks| && |rest| == |banks| - k - 1
    requires banks[k].known && lo <= hi < |banks[k].start| && !Hazard(banks, SectorEnd(banks[k], hi))
    requires InOrder(banks, rest, k + 1, SectorEnd(banks[k], hi) + 1, SectorEnd(banks[k], hi))
    ensures PlanFrom(banks, k, banks[k].start[lo], SectorEnd(banks[k], hi)) == Planned([Sectors(lo, hi)] + rest)
  {
    var b, last := banks[k], SectorEnd(banks[k], hi);
    SectorOrder(b, lo, hi);
    DecideTakes(b, lo, hi, last);
    LastBankCompletes(banks, k, hi);
    AllNothing(banks, rest, k + 1, last);
  }

  /** A bank after which the tiling goes on. */
  lemma {:induction false} FindsMore(banks: seq<Bank>, rest: seq<Choice>, k: nat, lo: nat, hi: nat, last: int)
    requires Sane(banks) && k < |banks| && |rest| == |banks| - k - 1
    requires banks[k].known && lo <= hi < |banks[k].start| && SectorEnd(banks[k], hi) < last <= TOP
    requires InOrder(banks, rest, k + 1, SectorEnd(banks[k], hi) + 1, last)
    requires PlanFrom(banks, k + 1, SectorEnd(banks[k], hi) + 1, last) == Planned(rest)
    ensures PlanFrom(banks, k, banks[k].start[lo], last) == Planned([Sectors(lo, hi)] + rest)
  {
    BankUsedUp(banks, rest, k, hi, last);
    SectorOrder(banks[k], lo, |banks[k].start| - 1);
    DecideTakes(banks[k], lo, |banks[k].start| - 1, last);
  }

  /** A bank that the tiling does not use. */
  lemma {:induction false} FindsNothing(banks: seq<Bank>, rest: seq<Choice>, k: nat, first: int, last: int)
    requires Sane(banks) && k < |banks| && |rest| == |banks| - k - 1 && 0 <= first <= last <= TOP
    requires InOrder(banks, rest, k + 1, first, last)
    ensures Decide(banks[k], first, last) == Pass
  {
    var j, e := NextBank(banks, rest, k + 1, first, last);
    EndIsHeld(banks[e], last);
    OutsideIsPassed(banks[k], first, last);
  }

  /** Whatever can be tiled in bank order, the planner tiles, and in that way. */
  lemma {:induction false} PlanFinds(banks: seq<Bank>, w: seq<Choice>, k: nat, first: int, last: int)
    requires Sane(banks) && k <= |banks| && |w| == |banks| - k && 0 <= first <= last <= TOP
    requires InOrder(banks, w, k, first, last) && !Hazard(banks, last)
    ensures PlanFrom(banks, k, first, last) == Planned(w)
    decreases |banks| - k
  {
    var b, rest := banks[k], w[1..];
    assert w == [w[0]] + rest;
    match w[0]
    case Nothing =>
      FindsNothing(banks, rest, k, first, last);
      PlanFinds(banks, rest, k + 1, first, last);
    case Sectors(lo, hi) =>
      var next := SectorEnd(b, hi) + 1;
      InOrderGrows(banks, rest, k + 1, next, last);
      if next == last + 1 {
        FindsLast(banks, rest, k, lo, hi);
      } else {
        SectorOrder(b, lo, hi);
        PlanFinds(banks, rest, k + 1, next, last);
        FindsMore(banks, rest, k, lo, hi, last);
      }
  }

  lemma {:induction false} AllNothing(banks: seq<Bank>, rest: seq<Choice>, k: nat, last: int)
    requires Sane(banks) && 1 <= k <= |banks| && |rest| == |banks| - k && InOrder(banks, rest, k, last + 1, last)
    ensures forall q: seq<Choice> :: |q| == |banks| - k && InOrder(banks, q, k, last + 1, last) ==> q == rest
  {
    InOrderGrows(banks, rest, k, last + 1, last);
    forall q: seq<Choice> | |q| == |banks| - k && InOrder(banks, q, k, last + 1, last) ensures q == rest {
      InOrderGrows(banks, q, k, last + 1, last);
    }
  }

  // ---- The exact condition -----------------------------------------------------------

  /** After a range up to the top, a later bank at address 0 is taken as well. */
  lemma {:induction false} WrapTakesBankAtZero(banks: seq<Bank>, k: nat, l: nat, j: nat)
    requires Sane(banks) && l < k <= j < |banks| && Holds(banks[l], TOP) && Holds(banks[j], 0)
    requires PlanFrom(banks, k, 0, TOP).Planned?
    ensures PlanFrom(banks, k, 0, TOP).choices[j - k] == Sectors(0, |banks[j].start| - 1)
    decreases |banks| - k
  {
    if k < j {
      OutsideIsPassed(banks[k], 0, TOP);
      WrapTakesBankAtZero(banks, k + 1, l, j);
    } else {
      DecideTakes(banks[j], 0, |banks[j].start| - 1, TOP);
    }
  }

  lemma {:induction false} TopEndsSector(b: Bank)
    requires WellFormed(b) && Holds(b, TOP)
    ensures EndsAt(b, TOP, 0) >= 0
  {
    EndsAtFinds(b, TOP, 0);
    assert SectorEnd(b, |b.start| - 1) == BankEnd(b);
  }

  lemma {:induction false} OneHolder(banks: seq<Bank>, i: nat, j: nat, a: int)
    requires Sane(banks) && i < |banks| && j < |banks| && Holds(banks[i], a) && Holds(banks[j], a)
    ensures i == j
  {
  }

  /** What is chosen of a later bank, from the first address that is then still to be covered. */
  lemma {:induction false} LaterChoice(banks: seq<Bank>, k: nat, first: int, last: int, next: int, j: nat)
    requires k < j < |banks| && first <= last && PlanFrom(banks, k, first, last).Planned?
    requires var d := Decide(banks[k], first, last);
             (d.Pass? && next == first) || (d.Take? && next == Next(banks[k], d.choice.hi))
    ensures PlanFrom(banks, k + 1, next, last).Planned?
    ensures PlanFrom(banks, k, first, last).choices[j - k] == PlanFrom(banks, k + 1, next, last).choices[j - k - 1]
  {
  }

  /** With a range up to the top, the bank at address 0 is taken if it comes after the one at the top. */
  lemma {:induction false} HazardTakesZero(banks: seq<Bank>, k: nat, l: nat, j: nat, first: int)
    requires Sane(banks) && k <= l < j < |banks| && 0 <= first <= TOP
    requires Holds(banks[l], TOP) && Holds(banks[j], 0)
    requires PlanFrom(banks, k, first, TOP).Planned?
    ensures PlanFrom(banks, k, first, TOP).choices[j - k] == Sectors(0, |banks[j].start| - 1)
    decreases |banks| - k
  {
    var b := banks[k];
    DecisionMeans(b, first, TOP);
    TopEndsSector(banks[l]);
    match Decide(b, first, TOP)
    case Pass =>
      HazardTakesZero(banks, k + 1, l, j, first);
      LaterChoice(banks, k, first, TOP, first, j);
    case Take(c) =>
      AfterSector(b, c.hi);
      LaterChoice(banks, k, first, TOP, Next(b, c.hi), j);
      if SectorEnd(b, c.hi) == TOP {
        OneHolder(banks, k, l, TOP);
        WrapTakesBankAtZero(banks, k + 1, k, j);
      } else {
        HazardTakesZero(banks, k + 1, l, j, BankEnd(b) + 1);
      }
    case Refuse =>
  }

  /** A plan that is not refused starts with a sector that starts at the first address, in the bank of the
      last address or one before it. */
  lemma {:induction false} PlanStarts(banks: seq<Bank>, k: nat, l: nat, first: int, last: int) returns (b: nat)
    requires Sane(banks) && k <= l < |banks| && 0 <= first <= last <= TOP
    requires EndsSectorOf(banks, l, last) && PlanFrom(banks, k, first, last).Planned?
    ensures k <= b <= l && Chosen(banks[b], PlanFrom(banks, k, first, last).choices[b - k], first, last)
    decreases |banks| - k
  {
    DecisionMeans(banks[k], first, last);
    if Decide(banks[k], first, last).Pass? {
      b := PlanStarts(banks, k + 1, l, first, last);
      LaterChoice(banks, k, first, last, first, b);
    } else {
      b := k;
    }
  }

  /** So the plan overruns the range, which lies above that bank. */
  lemma {:induction false} HazardOverruns(banks: seq<Bank>, l: nat, j: nat, first: int)
    requires Sane(banks) && l < j < |banks| && 0 <= first <= TOP
    requires Holds(banks[l], TOP) && Holds(banks[j], 0)
    requires PlanFrom(banks, 0, first, TOP).Planned?
    ensures PlanFrom(banks, 0, first, TOP).choices[j] == Sectors(0, |banks[j].start| - 1)
    ensures BankEnd(banks[j]) < first
    ensures !InOrder(banks, PlanFrom(banks, 0, first, TOP).choices, 0, first, TOP)
  {
    var choices := PlanFrom(banks, 0, first, TOP).choices;
    HazardTakesZero(banks, 0, l, j, first);
    TopEndsSector(banks[l]);
    var b := PlanStarts(banks, 0, l, first, TOP);
    SectorInside(banks[b], choices[b].lo);
    LiesBelow(banks, b, j, first);
    NotInOrder(banks, choices, first, j);
  }

  lemma {:induction false} NotInOrder(banks: seq<Bank>, choices: seq<Choice>, first: int, j: nat)
    requires Sane(banks) && j < |choices| == |banks| && choices[j].Sectors? && choices[j].lo == 0
    requires banks[j].start != [] && banks[j].start[0] < first
    ensures !InOrder(banks, choices, 0, first, TOP)
  {
    if InOrder(banks, choices, 0, first, TOP) { InOrderAbove(banks, choices, 0, first, TOP, j); }
  }

  lemma {:induction false} LiesBelow(banks: seq<Bank>, b: nat, j: nat, first: int)
    requires Sane(banks) && b < j < |banks| && Holds(banks[b], first) && Holds(banks[j], 0) && 0 <= first
    ensures banks[j].start[0] == 0 <= BankEnd(banks[j]) < first
  {
    assert !Holds(banks[j], first);
  }

  /** In a tiling no sector starts below the first address. */
  lemma {:induction false} InOrderAbove(banks: seq<Bank>, choices: seq<Choice>, k: nat, first: int, last: int, j: nat)
    requires Sane(banks) && k <= |banks| && |choices| == |banks| - k && InOrder(banks, choices, k, first, last)
    requires j < |choices| && choices[j].Sectors?
    ensures choices[j].lo < |banks[k + j].start| && first <= banks[k + j].start[choices[j].lo]
    decreases |choices|
  {
    if j > 0 {
      var next := if choices[0].Nothing? then first else SectorEnd(banks[k], choices[0].hi) + 1;
      if choices[0].Sectors? { SectorOrder(banks[k], choices[0].lo, choices[0].hi); }
      InOrderAbove(banks, choices[1..], k + 1, next, last, j - 1);
    }
  }

  /** Such a plan exists: one sector at the top is asked for, and one at 0 comes with it. */
  lemma {:induction false} HazardHappens(banks: seq<Bank>)
    requires banks == [Bank(true, [0xFFFF_0000], 0x1_0000), Bank(true, [0], 0x1_0000)]
    ensures Sane(banks) && Hazard(banks, TOP) && EndsSector(banks, TOP)
    ensures PlanFrom(banks, 0, 0xFFFF_0000, TOP) == Planned([Sectors(0, 0), Sectors(0, 0)])
    ensures !InOrder(banks, [Sectors(0, 0), Sectors(0, 0)], 0, 0xFFFF_0000, TOP)
  {
    assert Holds(banks[0], TOP) && Holds(banks[1], 0);
    TopEndsSector(banks[0]);
    assert EndsSectorOf(banks, 0, TOP);
    DecideTakes(banks[0], 0, 0, TOP);
    DecideTakes(banks[1], 0, 0, TOP);
    var rest := PlanFrom(banks, 1, 0, TOP);
    assert rest == Prepend(Sectors(0, 0), PlanFrom(banks, 2, Next(banks[1], 0), TOP)) == Planned([Sectors(0, 0)]);
    assert PlanFrom(banks, 0, 0xFFFF_0000, TOP) == Prepend(Sectors(0, 0), rest);
    HazardOverruns(banks, 0, 1, 0xFFFF_0000);
  }

  ghost predicate EndsSector(banks: seq<Bank>, last: int) {
    exists l: nat :: l < |banks| && EndsSectorOf(banks, l, last)
  }

  /** A plan that is not refused tiles exactly the range if and only if the last address ends a
      sector and the range does not run into the wrap-around. */
  lemma {:induction false} PlanExactIff(banks: seq<Bank>, first: int, last: int)
    requires Sane(banks) && 0 <= first <= last <= TOP && PlanFrom(banks, 0, first, last).Planned?
    ensures InOrder(banks, PlanFrom(banks, 0, first, last).choices, 0, first, last)
       <==> EndsSector(banks, last) && !Hazard(banks, last)
  {
    var choices := PlanFrom(banks, 0, first, last).choices;
    if InOrder(banks, choices, 0, first, last) {
      var j, e := NextBank(banks, choices, 0, first, last);
    }
    if Hazard(banks, last) {
      var l, j :| 0 <= l < j < |banks| && Holds(banks[l], TOP) && Holds(banks[j], 0);
      HazardOverruns(banks, l, j, first);
    } else if EndsSector(banks, last) {
      var l: nat :| l < |banks| && EndsSectorOf(banks, l, last);
      PlanTiles(banks, 0, l, first, last);
    }
  }

  /** Away from the wrap-around the planner succeeds exactly on the ranges that can be tiled in
      bank order. */
  lemma {:induction false} PlannedIffTileable(banks: seq<Bank>, first: int, last: int)
    requires Sane(banks) && 0 <= first <= last <= TOP && !Hazard(banks, last)
    ensures (PlanFrom(banks, 0, first, last).Planned? && EndsSector(banks, last))
       <==> exists w: seq<Choice> :: |w| == |banks| && InOrder(banks, w, 0, first, last)
  {
    if PlanFrom(banks, 0, first, last).Planned? { PlanExactIff(banks, first, last); }
    forall w: seq<Choice> | |w| == |banks| && InOrder(banks, w, 0, first, last)
      ensures PlanFrom(banks, 0, first, last).Planned? && EndsSector(banks, last)
    {
      PlanFinds(banks, w, 0, first, last);
      var j, e := NextBank(banks, w, 0, first, last);
    }
  }
}
