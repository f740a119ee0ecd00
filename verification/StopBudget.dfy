/**
 Stop budgets (`declaredStopBudget`, `modStopBudget`): before each stop the remaining time is planned
 over the mod to stop, the mods of its segment still to be stopped, and the declared budgets
 of the segment after it. Durations are nanoseconds.
 */
module StopBudget {

  /** What every mod without a declared budget is kept (`undeclaredModStopFloor`). */
  const FLOOR := 3_000_000_000

  /** `budget` is what the mod declares; a mod that declares nothing has 0. */
  datatype Mod = NilMod | Mod(budget: int)

  datatype Plan = Granted | Scaled | EvenSplit

  function Declared(mod: Mod): nat {
    if mod.NilMod? || mod.budget < 0 then 0 else mod.budget
  }

  /** The declared time, the mods declaring it, and the mods without a declaration. */
  datatype Totals = Totals(declared: nat, declaring: nat, undeclared: nat)

  /** One more mod; `segment` says whether it belongs to the segment being stopped. */
  function With(t: Totals, mod: Mod, segment: bool): Totals {
    if mod.NilMod? then t
    else if Declared(mod) > 0 then Totals(t.declared + Declared(mod), t.declaring + 1, t.undeclared)
    else if segment then t.(undeclared := t.undeclared + 1)
    else t
  }

  ghost function WithAll(t: Totals, mods: seq<Mod>, segment: bool): Totals {
    if mods == [] then t else With(WithAll(t, mods[..|mods| - 1], segment), mods[|mods| - 1], segment)
  }

  const NONE := Totals(0, 0, 0)

  /** Everyone who takes part when the last of `mods` is stopped. */
  ghost function Participants(mods: seq<Mod>, later: seq<Mod>): Totals {
    WithAll(WithAll(NONE, mods, true), later, false)
  }

  /** `a / b`; the plan never divides by 0, see `OwnTakesPart`. */
  ghost function Quotient(a: nat, b: nat): (q: nat)
    ensures b > 0 ==> b * q <= a < b * q + b
  {
    if b == 0 then 0 else a / b
  }

  /** The share of a participant that declares `own` (0: nothing). */
  ghost function Share(remaining: nat, t: Totals, own: nat): (nat, Plan) {
    if remaining < (t.declaring + t.undeclared) * FLOOR
    then (Quotient(remaining, t.declaring + t.undeclared), EvenSplit)
    else
      var capacity := remaining - t.undeclared * FLOOR;
      if t.declared <= capacity then (if own > 0 then own else Quotient(remaining - t.declared, t.undeclared), Granted)
      else (if own > 0 then Quotient(own * capacity, t.declared) else FLOOR, Scaled)
  }

  /**
   How much a participant gets, in nanoseconds. Too little for 3 seconds each: equal parts, to the nanosecond below.
   Enough for every declaration and 3 seconds for the others: what was declared, and equal parts of the rest.
   Otherwise 3 seconds without a declaration, and else the declaration's part of what is left.
   */
  lemma ShareExactly(remaining: nat, t: Totals, own: nat)
    requires t.declaring + t.undeclared > 0 && own <= t.declared && (own == 0 ==> t.undeclared > 0)
    ensures var (share, plan) := Share(remaining, t, own);
            var count, capacity := t.declaring + t.undeclared, remaining - t.undeclared * 3_000_000_000;
            && (plan == EvenSplit <==> remaining < count * 3_000_000_000)
            && (plan == Scaled <==> remaining >= count * 3_000_000_000 && t.declared > capacity)
            && (plan == EvenSplit ==> count * share <= remaining < count * share + count)
            && (plan == Granted && own > 0 ==> share == own)
            && (plan == Granted && own == 0 ==>
                t.undeclared * share <= remaining - t.declared < t.undeclared * share + t.undeclared)
            && (plan == Scaled && own > 0 ==>
                t.declared * share <= own * capacity < t.declared * share + t.declared)
            && (plan == Scaled && own == 0 ==> share == 3_000_000_000)
  {
  }

  lemma {:induction false} WithAllCounts(t: Totals, mods: seq<Mod>, segment: bool, i: nat)
    requires i < |mods| && mods[i].Mod?
    ensures WithAll(t, mods, segment).declared >= t.declared + Declared(mods[i])
    ensures Declared(mods[i]) > 0 ==> WithAll(t, mods, segment).declaring > t.declaring
    ensures Declared(mods[i]) == 0 && segment ==> WithAll(t, mods, segment).undeclared > t.undeclared
  {
    var last := |mods| - 1;
    if i < last {
      WithAllCounts(t, mods[..last], segment, i);
    } else {
      WithAllGrows(t, mods[..last], segment);
    }
  }

  lemma {:induction false} WithAllGrows(t: Totals, mods: seq<Mod>, segment: bool)
    ensures var r := WithAll(t, mods, segment);
            r.declared >= t.declared && r.declaring >= t.declaring && r.undeclared >= t.undeclared
  {
    if mods != [] {
      WithAllGrows(t, mods[..|mods| - 1], segment);
    }
  }

  /** The mod to stop takes part itself. */
  lemma OwnTakesPart(mods: seq<Mod>, later: seq<Mod>)
    requires mods != [] && mods[|mods| - 1].Mod?
    ensures var t, own := Participants(mods, later), Declared(mods[|mods| - 1]);
            t.declaring + t.undeclared > 0 && own <= t.declared && (own == 0 ==> t.undeclared > 0)
  {
    WithAllCounts(NONE, mods, true, |mods| - 1);
    WithAllGrows(WithAll(NONE, mods, true), later, false);
  }

  method CountAll(start: Totals, mods: seq<Mod>, segment: bool) returns (t: Totals)
    ensures t == WithAll(start, mods, segment)
  {
    t := start;
    for i := 0 to |mods|
      invariant t == WithAll(start, mods[..i], segment)
    {
      assert mods[..i + 1][..i] == mods[..i];
      t := With(t, mods[i], segment);
    }
    assert mods[..|mods|] == mods;
  }

  /** Counting the mod to stop first or last makes no difference. */
  lemma {:induction false} CountedFirst(t: Totals, mods: seq<Mod>, mod: Mod)
    ensures WithAll(With(t, mod, true), mods, true) == With(WithAll(t, mods, true), mod, true)
  {
    if mods != [] {
      CountedFirst(t, mods[..|mods| - 1], mod);
    }
  }

  method ModStopBudget(remaining: nat, own: int, pending: seq<Mod>, later: seq<Mod>) returns (budget: nat, plan: Plan)
    ensures (budget, plan) == Share(remaining, Participants(pending + [Mod(own)], later), Declared(Mod(own)))
  {
    assert (pending + [Mod(own)])[..|pending|] == pending;
    OwnTakesPart(pending + [Mod(own)], later);
    CountedFirst(NONE, pending, Mod(own));
    var mine := With(NONE, Mod(own), true);
    var segment := CountAll(mine, pending, true);
    var t := CountAll(segment, later, false);
    budget, plan := Divide(remaining, t, Declared(Mod(own)));
  }

  method Divide(remaining: nat, t: Totals, own: nat) returns (budget: nat, plan: Plan)
    requires t.declaring + t.undeclared > 0 && own <= t.declared && (own == 0 ==> t.undeclared > 0)
    ensures (budget, plan) == Share(remaining, t, own)
  {
    if remaining < (t.declaring + t.undeclared) * FLOOR {
      return remaining / (t.declaring + t.undeclared), EvenSplit;
    }
    var capacity := remaining - t.undeclared * FLOOR;
    if t.declared <= capacity {
      if own > 0 {
        return own, Granted;
      }
      return (remaining - t.declared) / t.undeclared, Granted;
    }
    if own > 0 {
      return own * capacity / t.declared, Scaled;
    }
    return FLOOR, Scaled;
  }

  // ---------------------------------------------------------------- a plan never promises more than there is

  lemma MulMono(b: nat, x: nat, y: nat)
    requires x <= y
    ensures b * x <= b * y
  {
  }

  lemma QuotientLeast(a: nat, b: nat, c: nat)
    requires b > 0 && b * c <= a
    ensures c <= Quotient(a, b)
  {
    if Quotient(a, b) < c {
      MulMono(b, Quotient(a, b) + 1, c);
      assert false;
    }
  }

  lemma QuotientMost(a: nat, b: nat, c: nat)
    requires a <= b * c
    ensures Quotient(a, b) <= c
  {
    if Quotient(a, b) > c {
      MulMono(b, c + 1, Quotient(a, b));
      assert false;
    }
  }

  lemma QuotientsAdd(a: nat, b: nat, d: nat)
    ensures Quotient(a, d) + Quotient(b, d) <= Quotient(a + b, d)
  {
    if d > 0 {
      SumBelow(a, b, d, Quotient(a, d), Quotient(b, d));
      QuotientLeast(a + b, d, Quotient(a, d) + Quotient(b, d));
    }
  }

  lemma SumBelow(a: nat, b: nat, d: nat, x: nat, y: nat)
    requires d * x <= a && d * y <= b
    ensures d * (x + y) <= a + b
  {
  }

  /** What the plan promises to the mods together. */
  ghost function Promised(remaining: nat, t: Totals, mods: seq<Mod>, segment: bool): nat {
    if mods == [] then 0
    else
      var mod := mods[|mods| - 1];
      var before := Promised(remaining, t, mods[..|mods| - 1], segment);
      if mod.NilMod? || (Declared(mod) == 0 && !segment) then before else before + Share(remaining, t, Declared(mod)).0
  }

  /** What the plan can promise at most to mods with the totals `part`. */
  ghost function Allowed(remaining: nat, t: Totals, part: Totals): nat {
    if remaining < (t.declaring + t.undeclared) * FLOOR
    then (part.declaring + part.undeclared) * Quotient(remaining, t.declaring + t.undeclared)
    else
      var capacity := remaining - t.undeclared * FLOOR;
      if t.declared <= capacity
      then part.declared + part.undeclared * Quotient(remaining - t.declared, t.undeclared)
      else Quotient(part.declared * capacity, t.declared) + part.undeclared * FLOOR
  }

  lemma OneMore(k: nat, each: nat)
    ensures (k + 1) * each == k * each + each
  {
  }

  lemma AllowedStep(remaining: nat, t: Totals, part: Totals, own: nat)
    ensures Allowed(remaining, t, part) + Share(remaining, t, own).0
        <= Allowed(remaining, t, With(part, Mod(own), true))
  {
    var n := t.declaring + t.undeclared;
    if remaining < n * FLOOR {
      OneMore(part.declaring + part.undeclared, Quotient(remaining, n));
    } else if t.declared <= remaining - t.undeclared * FLOOR {
      OneMore(part.undeclared, Quotient(remaining - t.declared, t.undeclared));
    } else {
      ScaledStep(remaining - t.undeclared * FLOOR, t.declared, part.declared, own);
    }
  }

  lemma ScaledStep(capacity: nat, declared: nat, part: nat, own: nat)
    ensures Quotient(part * capacity, declared) + Quotient(own * capacity, declared)
        <= Quotient((part + own) * capacity, declared)
  {
    assert (part + own) * capacity == part * capacity + own * capacity;
    QuotientsAdd(part * capacity, own * capacity, declared);
  }

  lemma {:induction false} PromisedIsAllowed(remaining: nat, t: Totals, part: Totals, mods: seq<Mod>, segment: bool)
    ensures Allowed(remaining, t, part) + Promised(remaining, t, mods, segment)
        <= Allowed(remaining, t, WithAll(part, mods, segment))
  {
    if mods != [] {
      var front, mod := mods[..|mods| - 1], mods[|mods| - 1];
      PromisedIsAllowed(remaining, t, part, front, segment);
      if mod.Mod? && (Declared(mod) > 0 || segment) {
        AllowedStep(remaining, t, WithAll(part, front, segment), Declared(mod));
      }
    }
  }

  lemma AllowedWhole(remaining: nat, t: Totals)
    requires t.declaring + t.undeclared > 0
    ensures Allowed(remaining, t, t) <= remaining
    ensures Allowed(remaining, t, NONE) == 0
  {
    var n := t.declaring + t.undeclared;
    if remaining >= n * FLOOR && t.declared > remaining - t.undeclared * FLOOR {
      QuotientMost(t.declared * (remaining - t.undeclared * FLOOR), t.declared, remaining - t.undeclared * FLOOR);
      QuotientMost(0, t.declared, 0);
    }
  }

  /** All participants of one plan together are promised at most the remaining time, whichever plan it is. */
  lemma PlanFits(remaining: nat, mods: seq<Mod>, later: seq<Mod>)
    requires mods != [] && mods[|mods| - 1].Mod?
    ensures var t := Participants(mods, later);
            Promised(remaining, t, mods, true) + Promised(remaining, t, later, false) <= remaining
  {
    var t, segment := Participants(mods, later), WithAll(NONE, mods, true);
    OwnTakesPart(mods, later);
    PromisedIsAllowed(remaining, t, NONE, mods, true);
    PromisedIsAllowed(remaining, t, segment, later, false);
    AllowedWhole(remaining, t);
  }

  // ---------------------------------------------------------------- replanning keeps the promises

  lemma ShareBounded(remaining: nat, t: Totals, own: nat)
    requires own <= t.declared && (own == 0 ==> t.undeclared > 0)
    ensures Share(remaining, t, own).0 <= remaining
  {
    var n := t.declaring + t.undeclared;
    if remaining < n * FLOOR {
      QuotientBelow(remaining, n);
    } else if t.declared <= remaining - t.undeclared * FLOOR {
      QuotientBelow(remaining - t.declared, t.undeclared);
    } else {
      ScaledBelow(own, remaining - t.undeclared * FLOOR, t.declared);
    }
  }

  lemma QuotientBelow(a: nat, b: nat)
    ensures Quotient(a, b) <= a
  {
    if b > 0 {
      MulMono(Quotient(a, b), 1, b);
    }
  }

  lemma ScaledBelow(own: nat, capacity: nat, declared: nat)
    requires own <= declared
    ensures Quotient(own * capacity, declared) <= capacity
  {
    MulMono(capacity, own, declared);
    QuotientMost(own * capacity, declared, capacity);
  }

  /** What the last of `mods`, the next to be stopped, is granted; a nil mod is passed over. */
  ghost function Grant(remaining: nat, mods: seq<Mod>, later: seq<Mod>): (g: nat)
    requires mods != []
    ensures g <= remaining
  {
    var mod := mods[|mods| - 1];
    if mod.NilMod? then 0
    else
      OwnTakesPart(mods, later);
      ShareBounded(remaining, Participants(mods, later), Declared(mod));
      Share(remaining, Participants(mods, later), Declared(mod)).0
  }

  /** The plan grants declared budgets: the mod gets its own, or at least the floor if it declares none. */
  ghost predicate Honoured(remaining: nat, mods: seq<Mod>, later: seq<Mod>)
    requires mods != []
  {
    var mod := mods[|mods| - 1];
    mod.NilMod? ||
    var (budget, plan) := Share(remaining, Participants(mods, later), Declared(mod));
    plan == Granted && if Declared(mod) > 0 then budget == Declared(mod) else budget >= FLOOR
  }

  /** Each stop uses at most what it was granted. `uses` goes with `mods`; the last one is stopped first. */
  ghost predicate WithinGrants(remaining: nat, mods: seq<Mod>, later: seq<Mod>, uses: seq<nat>) {
    |uses| == |mods| &&
    (mods == [] ||
     var last := |mods| - 1;
     uses[last] <= Grant(remaining, mods, later)
         && WithinGrants(remaining - uses[last], mods[..last], later, uses[..last]))
  }

  /** Every stop of the segment is honoured, replanned with the time that is left each time. */
  ghost predicate AllHonoured(remaining: nat, mods: seq<Mod>, later: seq<Mod>, uses: seq<nat>)
    requires WithinGrants(remaining, mods, later, uses)
  {
    mods == [] ||
    var last := |mods| - 1;
    Honoured(remaining, mods, later) && AllHonoured(remaining - uses[last], mods[..last], later, uses[..last])
  }

  /** Both thresholds of the plan: every participant's floor, and the declared budgets beside the undeclared floors. */
  predicate Enough(remaining: nat, t: Totals) {
    (t.declaring + t.undeclared) * FLOOR <= remaining && t.declared + t.undeclared * FLOOR <= remaining
  }

  /** The thresholds hold at every stop of the run that uses each grant in full. */
  ghost predicate Lasts(remaining: nat, mods: seq<Mod>, later: seq<Mod>) {
    mods != [] ==>
      && (mods[|mods| - 1].Mod? ==> Enough(remaining, Participants(mods, later)))
      && Lasts(remaining - Grant(remaining, mods, later), mods[..|mods| - 1], later)
  }

  lemma HonouredExactly(remaining: nat, mods: seq<Mod>, later: seq<Mod>)
    requires mods != [] && mods[|mods| - 1].Mod?
    ensures Honoured(remaining, mods, later) <==> Enough(remaining, Participants(mods, later))
  {
    var t, own := Participants(mods, later), Declared(mods[|mods| - 1]);
    OwnTakesPart(mods, later);
    if Enough(remaining, t) && own == 0 {
      QuotientLeast(remaining - t.declared, t.undeclared, FLOOR);
    }
  }

  /** More time before a stop leaves at least as much after its full grant. */
  lemma MoreLeavesMore(less: nat, more: nat, mods: seq<Mod>, later: seq<Mod>)
    requires mods != [] && less <= more
    requires mods[|mods| - 1].Mod? ==> Enough(less, Participants(mods, later))
    ensures mods[|mods| - 1].Mod? ==> Enough(more, Participants(mods, later))
    ensures less - Grant(less, mods, later) <= more - Grant(more, mods, later)
  {
    var t := Participants(mods, later);
    if mods[|mods| - 1].Mod? && Declared(mods[|mods| - 1]) == 0 {
      OwnTakesPart(mods, later);
      QuotientStep(less - t.declared, more - t.declared, t.undeclared);
    }
  }

  lemma QuotientStep(a: nat, b: nat, d: nat)
    requires a <= b && d > 0
    ensures a - Quotient(a, d) <= b - Quotient(b, d)
  {
    var x, y := Quotient(a, d), Quotient(b, d);
    QuotientLeast(b, d, x);
    if y > x {
      StepBelow(a, b, d, x, y);
    }
  }

  lemma StepBelow(a: nat, b: nat, d: nat, x: nat, y: nat)
    requires d > 0 && x < y && a < d * x + d && d * y <= b
    ensures y - x <= b - a
  {
    MulMono(y - x - 1, 1, d);
    assert d * y == d * x + d + d * (y - x - 1);
  }

  lemma {:induction false} LastsLonger(less: nat, more: nat, mods: seq<Mod>, later: seq<Mod>)
    requires less <= more && Lasts(less, mods, later)
    ensures Lasts(more, mods, later)
    decreases |mods|
  {
    if mods != [] {
      MoreLeavesMore(less, more, mods, later);
      LastsLonger(less - Grant(less, mods, later), more - Grant(more, mods, later), mods[..|mods| - 1], later);
    }
  }

  lemma {:induction false} LastsHonours(remaining: nat, mods: seq<Mod>, later: seq<Mod>, uses: seq<nat>)
    requires Lasts(remaining, mods, later) && WithinGrants(remaining, mods, later, uses)
    ensures AllHonoured(remaining, mods, later, uses)
    decreases |mods|
  {
    if mods != [] {
      var last := |mods| - 1;
      if mods[last].Mod? {
        HonouredExactly(remaining, mods, later);
      }
      LastsLonger(remaining - Grant(remaining, mods, later), remaining - uses[last], mods[..last], later);
      LastsHonours(remaining - uses[last], mods[..last], later, uses[..last]);
    }
  }

  /** The run that uses every grant in full. */
  ghost function FullUses(remaining: nat, mods: seq<Mod>, later: seq<Mod>): (uses: seq<nat>)
    ensures |uses| == |mods|
  {
    if mods == [] then []
    else
      var grant := Grant(remaining, mods, later);
      FullUses(remaining - grant, mods[..|mods| - 1], later) + [grant]
  }

  lemma {:induction false} FullUsesDecide(remaining: nat, mods: seq<Mod>, later: seq<Mod>)
    ensures WithinGrants(remaining, mods, later, FullUses(remaining, mods, later))
    ensures AllHonoured(remaining, mods, later, FullUses(remaining, mods, later)) ==> Lasts(remaining, mods, later)
    decreases |mods|
  {
    if mods != [] {
      var last, grant := |mods| - 1, Grant(remaining, mods, later);
      FullUsesDecide(remaining - grant, mods[..last], later);
      assert FullUses(remaining, mods, later)[..last] == FullUses(remaining - grant, mods[..last], later);
      if mods[last].Mod? {
        HonouredExactly(remaining, mods, later);
      }
    }
  }

  /**
   Replanning keeps every promise, whatever each stop uses of its grant, exactly when the thresholds hold
   through the run that uses every grant in full.
   */
  lemma HonouredThroughoutExactly(remaining: nat, mods: seq<Mod>, later: seq<Mod>)
    ensures Lasts(remaining, mods, later)
       <==> forall uses | WithinGrants(remaining, mods, later, uses) :: AllHonoured(remaining, mods, later, uses)
  {
    FullUsesDecide(remaining, mods, later);
    if Lasts(remaining, mods, later) {
      forall uses | WithinGrants(remaining, mods, later, uses) ensures AllHonoured(remaining, mods, later, uses) {
        LastsHonours(remaining, mods, later, uses);
      }
    } else {
      assert !AllHonoured(remaining, mods, later, FullUses(remaining, mods, later));
    }
  }

  // ---------------------------------------------------------------- the condition in closed form

  /** The later segment adds the same to whatever comes before it. */
  lemma {:induction false} LaterAdds(t: Totals, later: seq<Mod>)
    ensures var r, l := WithAll(t, later, false), WithAll(NONE, later, false);
            r == Totals(t.declared + l.declared, t.declaring + l.declaring, t.undeclared)
  {
    if later != [] {
      LaterAdds(t, later[..|later| - 1]);
    }
  }

  /** Stopping a mod takes its own declaration, or itself, out of the totals. */
  lemma StopTakesOut(mods: seq<Mod>, later: seq<Mod>)
    requires mods != []
    ensures Participants(mods, later) == With(Participants(mods[..|mods| - 1], later), mods[|mods| - 1], true)
  {
    LaterAdds(WithAll(NONE, mods, true), later);
    LaterAdds(WithAll(NONE, mods[..|mods| - 1], true), later);
  }

  /** Of `spare` time split evenly over `undeclared` mods, what the last `left` of them get together. */
  ghost function Left(spare: nat, undeclared: nat, left: nat): nat {
    if undeclared == 0 then spare
    else
      var each := Quotient(spare, undeclared);
      left * each + Min(spare - undeclared * each, left)
  }

  function Min(a: nat, b: nat): nat {
    if a < b then a else b
  }

  /** The even split does not change when it is planned again after one full share. */
  lemma SplitAgain(spare: nat, undeclared: nat, left: nat)
    requires left < undeclared
    ensures Left(spare - Quotient(spare, undeclared), undeclared - 1, left) == Left(spare, undeclared, left)
  {
    var each, n := Quotient(spare, undeclared), undeclared - 1;
    var rest := spare - undeclared * each;
    OneMore(n, each);
    assert spare - each == n * each + rest;
    if n > 0 {
      if rest < n {
        QuotientIs(spare - each, n, each);
      } else {
        SplitRoundsUp(spare - each, n, each, left);
      }
    }
  }

  /** When the rest is one short of a round, each of the others gets one more. */
  lemma SplitRoundsUp(spare: nat, n: nat, each: nat, left: nat)
    requires n > 0 && left <= n && spare == n * each + n
    ensures Left(spare, n, left) == left * each + left
  {
    OneMore(each, n);
    QuotientIs(spare, n, each + 1);
    OneMore(each, left);
  }

  lemma QuotientIs(a: nat, b: nat, q: nat)
    requires b > 0 && b * q <= a < b * q + b
    ensures Quotient(a, b) == q
  {
    QuotientLeast(a, b, q);
    if Quotient(a, b) > q {
      MulMono(b, q + 1, Quotient(a, b));
      assert false;
    }
  }

  /** The thresholds for the first mods of a segment, given the time that nobody declared and its even split. */
  ghost predicate EnoughAt(spare: nat, undeclared: nat, mods: seq<Mod>, later: seq<Mod>) {
    var t := Participants(mods, later);
    Enough(t.declared + Left(spare, undeclared, t.undeclared), t)
  }

  /** Every prefix of the segment that ends in a mod meets the thresholds. */
  ghost predicate EnoughThroughout(spare: nat, undeclared: nat, mods: seq<Mod>, later: seq<Mod>) {
    mods != [] ==>
      && (mods[|mods| - 1].Mod? ==> EnoughAt(spare, undeclared, mods, later))
      && EnoughThroughout(spare, undeclared, mods[..|mods| - 1], later)
  }

  lemma {:induction false} SplitThroughout(spare: nat, undeclared: nat, mods: seq<Mod>, later: seq<Mod>)
    requires Participants(mods, later).undeclared < undeclared
    ensures EnoughThroughout(spare, undeclared, mods, later)
       <==> EnoughThroughout(spare - Quotient(spare, undeclared), undeclared - 1, mods, later)
    decreases |mods|
  {
    if mods != [] {
      StopTakesOut(mods, later);
      SplitAgain(spare, undeclared, Participants(mods, later).undeclared);
      SplitThroughout(spare, undeclared, mods[..|mods| - 1], later);
    }
  }

  lemma EnoughAtFirst(remaining: nat, mods: seq<Mod>, later: seq<Mod>)
    requires Participants(mods, later).declared <= remaining
    ensures var t := Participants(mods, later);
            EnoughAt(remaining - t.declared, t.undeclared, mods, later) <==> Enough(remaining, t)
  {
  }

  /** What one full grant leaves of the time nobody declared, and of the undeclared mods. */
  lemma SpareAfter(remaining: nat, mods: seq<Mod>, later: seq<Mod>)
    requires mods != [] && mods[|mods| - 1].Mod? && Enough(remaining, Participants(mods, later))
    ensures var t, rest := Participants(mods, later), Participants(mods[..|mods| - 1], later);
            var spare, after := remaining - t.declared, remaining - Grant(remaining, mods, later) - rest.declared;
            if Declared(mods[|mods| - 1]) > 0
            then after == spare && rest.undeclared == t.undeclared
            else (&& t.undeclared > 0 && rest.undeclared == t.undeclared - 1
                  && after == spare - Quotient(spare, t.undeclared))
  {
    StopTakesOut(mods, later);
    HonouredExactly(remaining, mods, later);
  }

  lemma {:induction false} LastsBySpare(remaining: nat, mods: seq<Mod>, later: seq<Mod>)
    requires Participants(mods, later).declared <= remaining
    ensures var t := Participants(mods, later);
            Lasts(remaining, mods, later) <==> EnoughThroughout(remaining - t.declared, t.undeclared, mods, later)
    decreases |mods|
  {
    if mods != [] {
      var t, front, mod := Participants(mods, later), mods[..|mods| - 1], mods[|mods| - 1];
      EnoughAtFirst(remaining, mods, later);
      if mod.NilMod? {
        StopTakesOut(mods, later);
        LastsBySpare(remaining, front, later);
      } else if Enough(remaining, t) {
        SpareAfter(remaining, mods, later);
        QuotientBelow(remaining - t.declared, t.undeclared);
        LastsBySpare(remaining - Grant(remaining, mods, later), front, later);
        if Declared(mod) == 0 {
          SplitThroughout(remaining - t.declared, t.undeclared, front, later);
        }
      }
    }
  }

  /**
   The condition in closed form: with the time nobody declared split evenly over the undeclared mods, every
   prefix of the segment meets both thresholds.
   */
  lemma LastsExactly(remaining: nat, mods: seq<Mod>, later: seq<Mod>)
    requires mods != [] && mods[|mods| - 1].Mod?
    ensures var t := Participants(mods, later);
            Lasts(remaining, mods, later)
            <==> t.declared <= remaining && EnoughThroughout(remaining - t.declared, t.undeclared, mods, later)
  {
    if Participants(mods, later).declared <= remaining {
      LastsBySpare(remaining, mods, later);
    }
  }

  // ---------------------------------------------------------------- budgets that reach the floor

  ghost predicate AtLeastFloor(mods: seq<Mod>) {
    forall i | 0 <= i < |mods| :: Declared(mods[i]) == 0 || Declared(mods[i]) >= FLOOR
  }

  /** All declared budgets reach the floor and fit beside the undeclared floors. */
  ghost predicate Fits(remaining: nat, mods: seq<Mod>, later: seq<Mod>) {
    && AtLeastFloor(mods) && AtLeastFloor(later)
    && var t := Participants(mods, later); t.declared + t.undeclared * FLOOR <= remaining
  }

  lemma {:induction false} DeclaringBelowDeclared(t: Totals, mods: seq<Mod>, segment: bool)
    requires t.declaring * FLOOR <= t.declared && AtLeastFloor(mods)
    ensures var r := WithAll(t, mods, segment); r.declaring * FLOOR <= r.declared
  {
    if mods != [] {
      var front, mod := mods[..|mods| - 1], mods[|mods| - 1];
      assert mod == mods[|mods| - 1];
      DeclaringBelowDeclared(t, front, segment);
    }
  }

  lemma FitsIsEnough(remaining: nat, mods: seq<Mod>, later: seq<Mod>)
    requires Fits(remaining, mods, later)
    ensures Enough(remaining, Participants(mods, later))
  {
    DeclaringBelowDeclared(NONE, mods, true);
    DeclaringBelowDeclared(WithAll(NONE, mods, true), later, false);
  }

  /** However much of its grant a mod uses, everything still fits afterwards. */
  lemma StopKeepsFit(remaining: nat, mods: seq<Mod>, later: seq<Mod>, used: nat)
    requires Fits(remaining, mods, later) && mods != [] && used <= Grant(remaining, mods, later)
    ensures Fits(remaining - used, mods[..|mods| - 1], later)
  {
    var front, mod := mods[..|mods| - 1], mods[|mods| - 1];
    var t, rest := Participants(mods, later), Participants(front, later);
    FitsIsEnough(remaining, mods, later);
    StopTakesOut(mods, later);
    if mod.Mod? && Declared(mod) == 0 {
      var each := Quotient(remaining - t.declared, t.undeclared);
      QuotientLeast(remaining - t.declared, t.undeclared, FLOOR);
      OneMore(rest.undeclared, each);
      MulMono(rest.undeclared, FLOOR, each);
    }
  }

  lemma {:induction false} FitsLasts(remaining: nat, mods: seq<Mod>, later: seq<Mod>)
    requires Fits(remaining, mods, later)
    ensures Lasts(remaining, mods, later)
    decreases |mods|
  {
    if mods != [] {
      FitsIsEnough(remaining, mods, later);
      StopKeepsFit(remaining, mods, later, Grant(remaining, mods, later));
      FitsLasts(remaining - Grant(remaining, mods, later), mods[..|mods| - 1], later);
    }
  }

  /**
   Declared budgets that reach the floor and fit beside the undeclared floors are granted in full at
   every stop of the segment, and every undeclared mod gets at least the floor.
   */
  lemma EveryGrantHonoured(remaining: nat, mods: seq<Mod>, later: seq<Mod>, uses: seq<nat>)
    requires Fits(remaining, mods, later) && WithinGrants(remaining, mods, later, uses)
    ensures AllHonoured(remaining, mods, later, uses)
  {
    FitsLasts(remaining, mods, later);
    LastsHonours(remaining, mods, later, uses);
  }

  /**
   Reaching the floor is needed: beside any smaller declared budget there is a segment that fits, whose first
   stop is honoured in full, and where an undeclared mod ends below its floor.
   */
  lemma SmallBudgetBreaksFloor(small: nat) returns (remaining: nat, mods: seq<Mod>)
    requires 0 < small < FLOOR
    ensures Mod(small) in mods && Enough(remaining, Participants(mods, [])) && !Lasts(remaining, mods, [])
    ensures !forall uses | WithinGrants(remaining, mods, [], uses) :: AllHonoured(remaining, mods, [], uses)
  {
    var big := 2 * FLOOR;
    remaining, mods := big + small + FLOOR, [Mod(0), Mod(small), Mod(big)];
    assert mods[..2] == [Mod(0), Mod(small)] && mods[..2][..1] == [Mod(0)] && [Mod(0)][..0] == [];
    assert WithAll(NONE, [Mod(0)], true) == Totals(0, 0, 1);
    assert WithAll(NONE, mods[..2], true) == Totals(small, 1, 1);
    assert Participants(mods, []) == Totals(small + big, 2, 1);
    assert Grant(remaining, mods, []) == big;
    assert !Lasts(remaining - big, mods[..2], []);
    HonouredThroughoutExactly(remaining, mods, []);
  }
}
