/** What any run of SchedAccountCurrentLocked on one CPU conserves. */
module Accounting {
  import opened Arith
  import opened RunQueue

  const TWO_64: nat := UINT64_MAX + 1

  /** One call: at time now the task with this index is charged. */
  datatype Event = Event(now: nat, task: nat)

  /** The CPU's clock and remainder, and the vruntime and run time gained by each task since the start. */
  datatype Books = Books(last: nat, frac: nat, gained: seq<nat>, exec: seq<nat>)

  /** The weight a task is charged with: the accounting code replaces 0 by the nice-0 weight. */
  function Effective(w: nat): nat {
    if w != 0 then w else NICE_0_WEIGHT
  }

  /** SchedAccountCurrentLocked on the books. */
  function Account(s: Books, e: Event, weights: seq<nat>): Books
    requires e.task < |s.gained| == |s.exec| == |weights|
  {
    if e.now <= s.last then s.(last := e.now)
    else
      var delta := e.now - s.last;
      var c := Charge(delta, weights[e.task], s.frac);
      Books(e.now, c.1, s.gained[e.task := s.gained[e.task] + c.0], s.exec[e.task := s.exec[e.task] + delta])
  }

  ghost predicate ForTasks(events: seq<Event>, n: nat) {
    forall k :: 0 <= k < |events| ==> events[k].task < n
  }

  function AccountAll(s: Books, events: seq<Event>, weights: seq<nat>): (r: Books)
    requires |s.gained| == |s.exec| == |weights| && ForTasks(events, |weights|)
    ensures |r.gained| == |r.exec| == |weights|
    decreases |events|
  {
    if events == [] then s else AccountAll(Account(s, events[0], weights), events[1..], weights)
  }

  /** The sum of gained vruntime times weight. */
  function Weighted(gained: seq<nat>, weights: seq<nat>): nat
    requires |gained| == |weights|
  {
    if gained == [] then 0
    else
      var n := |gained| - 1;
      Weighted(gained[..n], weights[..n]) + gained[n] * Effective(weights[n])
  }

  /** The time that passed, not counting steps backwards of the clock. */
  function Elapsed(last: nat, events: seq<Event>): nat
    decreases |events|
  {
    if events == [] then 0
    else (if events[0].now > last then events[0].now - last else 0) + Elapsed(events[0].now, events[1..])
  }

  function FinalTime(last: nat, events: seq<Event>): nat {
    if events == [] then last else events[|events| - 1].now
  }

  /** The clock never goes back. */
  predicate Monotone(last: nat, events: seq<Event>)
    decreases |events|
  {
    events == [] || (last <= events[0].now && Monotone(events[0].now, events[1..]))
  }

  lemma {:induction false} WeightedUpdate(g: seq<nat>, w: seq<nat>, k: nat, x: nat)
    requires |g| == |w| && k < |g|
    ensures Weighted(g[k := g[k] + x], w) == Weighted(g, w) + x * Effective(w[k])
    decreases |g|
  {
    var n := |g| - 1;
    if k == n {
      assert g[k := g[k] + x][..n] == g[..n];
      MulSub(g[k], x, Effective(w[k]));
    } else {
      WeightedUpdate(g[..n], w[..n], k, x);
      assert g[k := g[k] + x][..n] == g[..n][k := g[k] + x];
    }
  }

  /** How many times 2^64 the charge loses when its product wraps around. */
  function Wraps(delta: nat, frac: nat): nat {
    (NICE_0_WEIGHT * delta + frac) / TWO_64
  }

  /** One charge splits 1024 per tick plus the carried remainder exactly, unless the product wraps around. */
  lemma ChargeIsExact(delta: nat, w: nat, frac: nat)
    ensures var (dv, rest) := Charge(delta, w, frac);
      && dv * Effective(w) + rest + TWO_64 * Wraps(delta, frac) == NICE_0_WEIGHT * delta + frac
      && rest < Effective(w)
      && (dv * Effective(w) + rest == NICE_0_WEIGHT * delta + frac <==> NICE_0_WEIGHT * delta + frac < TWO_64)
  {
    var num := (delta * NICE_0_WEIGHT + frac) % TWO_64;
    QuotientRest(num, Effective(w));
  }

  lemma QuotientRest(x: nat, k: nat)
    requires k > 0
    ensures x / k * k + x % k == x && x % k < k
  {
  }

  /** A charge is determined by what it splits. */
  lemma SameCharge(a: (nat, nat), b: (nat, nat), w: nat)
    requires a.1 < Effective(w) && b.1 < Effective(w)
    ensures a == b <==> a.0 * Effective(w) + a.1 == b.0 * Effective(w) + b.1
  {
    if a.0 * Effective(w) + a.1 == b.0 * Effective(w) + b.1 {
      DivUnique(a.0 * Effective(w) + a.1, Effective(w), a.0, a.1);
      DivUnique(a.0 * Effective(w) + a.1, Effective(w), b.0, b.1);
    }
  }

  lemma StepConserves(s: Books, e: Event, weights: seq<nat>)
    requires e.task < |s.gained| == |s.exec| == |weights|
    ensures var t := Account(s, e, weights);
      var delta := if e.now > s.last then e.now - s.last else 0;
      && t.last == e.now && |t.gained| == |t.exec| == |weights|
      && Weighted(t.gained, weights) + t.frac + TWO_64 * WrapsAt(s, e)
         == Weighted(s.gained, weights) + s.frac + NICE_0_WEIGHT * delta
      && Sum(t.exec) == Sum(s.exec) + delta
  {
    hide Charge, Effective, Weighted, Sum, Wraps;
    if e.now > s.last {
      var delta := e.now - s.last;
      ChargeIsExact(delta, weights[e.task], s.frac);
      WeightedUpdate(s.gained, weights, e.task, Charge(delta, weights[e.task], s.frac).0);
      SumUpdate(s.exec, e.task, s.exec[e.task] + delta);
    }
  }

  function WrapsAt(s: Books, e: Event): nat {
    if e.now > s.last then Wraps(e.now - s.last, s.frac) else 0
  }

  /** How many times 2^64 the charges of a run lose. */
  function AllWraps(s: Books, events: seq<Event>, weights: seq<nat>): nat
    requires |s.gained| == |s.exec| == |weights| && ForTasks(events, |weights|)
    decreases |events|
  {
    if events == [] then 0 else WrapsAt(s, events[0]) + AllWraps(Account(s, events[0], weights), events[1..], weights)
  }

  /** No product of the run wraps around. */
  predicate Fits(s: Books, events: seq<Event>, weights: seq<nat>)
    requires |s.gained| == |s.exec| == |weights| && ForTasks(events, |weights|)
    decreases |events|
  {
    events == []
    || ((events[0].now > s.last ==> NICE_0_WEIGHT * (events[0].now - s.last) + s.frac < TWO_64)
        && Fits(Account(s, events[0], weights), events[1..], weights))
  }

  /** Over any run, across task switches and different weights, weighted vruntime plus the carried remainder grows by
      1024 per elapsed tick less 2^64 per wrap; nothing else is lost to rounding, and nothing at all exactly if every
      product fits in 64 bits. The run times grow by the elapsed ticks. */
  lemma {:induction false} WeightedTimeIsConserved(s: Books, events: seq<Event>, weights: seq<nat>)
    requires |s.gained| == |s.exec| == |weights| && ForTasks(events, |weights|)
    ensures var r := AccountAll(s, events, weights);
      var due := Weighted(s.gained, weights) + s.frac + NICE_0_WEIGHT * Elapsed(s.last, events);
      && Weighted(r.gained, weights) + r.frac + TWO_64 * AllWraps(s, events, weights) == due
      && (Weighted(r.gained, weights) + r.frac == due <==> Fits(s, events, weights))
      && Sum(r.exec) == Sum(s.exec) + Elapsed(s.last, events)
      && r.last == FinalTime(s.last, events)
    decreases |events|
  {
    hide Charge, Effective, Weighted, Sum, Account, WrapsAt, Fits;
    FitsIffNoWrap(s, events, weights);
    if events != [] {
      StepConserves(s, events[0], weights);
      WeightedTimeIsConserved(Account(s, events[0], weights), events[1..], weights);
    }
  }

  lemma {:induction false} FitsIffNoWrap(s: Books, events: seq<Event>, weights: seq<nat>)
    requires |s.gained| == |s.exec| == |weights| && ForTasks(events, |weights|)
    ensures Fits(s, events, weights) <==> AllWraps(s, events, weights) == 0
    decreases |events|
  {
    hide Charge;
    if events != [] {
      FitsIffNoWrap(Account(s, events[0], weights), events[1..], weights);
    }
  }

  /** The time by which the clock went back in all. */
  function Back(last: nat, events: seq<Event>): nat
    decreases |events|
  {
    if events == [] then 0
    else (if events[0].now < last then last - events[0].now else 0) + Back(events[0].now, events[1..])
  }

  lemma {:induction false} ElapsedLessBack(last: nat, events: seq<Event>)
    ensures last + Elapsed(last, events) == FinalTime(last, events) + Back(last, events)
    ensures Back(last, events) == 0 <==> Monotone(last, events)
    decreases |events|
  {
    if events != [] {
      ElapsedLessBack(events[0].now, events[1..]);
    }
  }

  /** Run time is the difference of the clock readings if and only if the clock never went back. Weighted vruntime is,
      if and only if what wraps lost is what the steps back gave. */
  lemma MonotoneClockLaw(s: Books, events: seq<Event>, weights: seq<nat>)
    requires |s.gained| == |s.exec| == |weights| && ForTasks(events, |weights|)
    ensures var r := AccountAll(s, events, weights);
      var exact := Weighted(r.gained, weights) - Weighted(s.gained, weights) + r.frac
                   == NICE_0_WEIGHT * (r.last - s.last) + s.frac;
      && (exact <==> TWO_64 * AllWraps(s, events, weights) == NICE_0_WEIGHT * Back(s.last, events))
      && (Fits(s, events, weights) ==> (exact <==> Monotone(s.last, events)))
      && (Sum(r.exec) - Sum(s.exec) == r.last - s.last <==> Monotone(s.last, events))
  {
    WeightedTimeIsConserved(s, events, weights);
    ElapsedLessBack(s.last, events);
  }

  /** Charging one task in two steps or in one gives the same vruntime and the same remainder, if and only if the two
      steps wrap as often as the one. */
  lemma ChargeSplits(d1: nat, d2: nat, w: nat, frac: nat)
    ensures var a := Charge(d1, w, frac);
      var b := Charge(d2, w, a.1);
      Charge(d1 + d2, w, frac) == (a.0 + b.0, b.1) <==> Wraps(d1, frac) + Wraps(d2, a.1) == Wraps(d1 + d2, frac)
  {
    hide Charge, Effective, Wraps;
    var a := Charge(d1, w, frac);
    var b := Charge(d2, w, a.1);
    ChargeIsExact(d1, w, frac);
    ChargeIsExact(d2, w, a.1);
    ChargeIsExact(d1 + d2, w, frac);
    MulSub(a.0, b.0, Effective(w));
    SameCharge((a.0 + b.0, b.1), Charge(d1 + d2, w, frac), w);
  }

  function ChargeAll(gaps: seq<nat>, w: nat, frac: nat): (nat, nat)
    decreases |gaps|
  {
    if gaps == [] then (0, frac)
    else
      var a := Charge(gaps[0], w, frac);
      var b := ChargeAll(gaps[1..], w, a.1);
      (a.0 + b.0, b.1)
  }

  function WrapsOfAll(gaps: seq<nat>, w: nat, frac: nat): nat
    decreases |gaps|
  {
    if gaps == [] then 0 else Wraps(gaps[0], frac) + WrapsOfAll(gaps[1..], w, Charge(gaps[0], w, frac).1)
  }

  lemma {:induction false} ChargesAreExact(gaps: seq<nat>, w: nat, frac: nat)
    ensures var (dv, rest) := ChargeAll(gaps, w, frac);
      && dv * Effective(w) + rest + TWO_64 * WrapsOfAll(gaps, w, frac) == NICE_0_WEIGHT * TotalGap(gaps) + frac
      && (gaps != [] || frac < Effective(w) ==> rest < Effective(w))
    decreases |gaps|
  {
    hide Charge, Effective, Wraps;
    if gaps != [] {
      ChargeIsExact(gaps[0], w, frac);
      var a := Charge(gaps[0], w, frac);
      ChargesAreExact(gaps[1..], w, a.1);
      MulSub(a.0, ChargeAll(gaps[1..], w, a.1).0, Effective(w));
    }
  }

  /** However a task's run time is cut into ticks, and whatever remainder other tasks left behind, it ends with the
      vruntime and the remainder of one charge for the whole time, if and only if the ticks wrap as often as the whole;
      so always while the whole fits in 64 bits. No tick at all charges nothing, which is the charge for no time only
      of a remainder below the weight. */
  lemma TickSizeDoesNotMatter(gaps: seq<nat>, w: nat, frac: nat)
    ensures ChargeAll(gaps, w, frac) == Charge(TotalGap(gaps), w, frac)
      <==> (gaps != [] || frac < Effective(w)) && WrapsOfAll(gaps, w, frac) == Wraps(TotalGap(gaps), frac)
    ensures gaps != [] && NICE_0_WEIGHT * TotalGap(gaps) + frac < TWO_64 ==>
      ChargeAll(gaps, w, frac) == Charge(TotalGap(gaps), w, frac)
  {
    hide Charge, Effective;
    ChargesAreExact(gaps, w, frac);
    ChargeIsExact(TotalGap(gaps), w, frac);
    NonNegative(ChargeAll(gaps, w, frac).0, Effective(w));
    if gaps == [] && frac >= Effective(w) { return; }
    SameCharge(ChargeAll(gaps, w, frac), Charge(TotalGap(gaps), w, frac), w);
  }

  lemma NonNegative(a: nat, b: nat)
    ensures a * b >= 0
  {
  }

  function TotalGap(gaps: seq<nat>): nat {
    if gaps == [] then 0 else gaps[0] + TotalGap(gaps[1..])
  }

  lemma AddTwice(a: nat, b: nat, c: nat)
    ensures Add64(Add64(a, b), c) == Add64(a, b + c)
  {
  }

  lemma AccountAllSnoc(s: Books, events: seq<Event>, e: Event, weights: seq<nat>)
    requires |s.gained| == |s.exec| == |weights| && ForTasks(events, |weights|) && e.task < |weights|
    ensures ForTasks(events + [e], |weights|)
    ensures AccountAll(s, events + [e], weights) == Account(AccountAll(s, events, weights), e, weights)
    decreases |events|
  {
    if events != [] {
      assert (events + [e])[1..] == events[1..] + [e];
      AccountAllSnoc(Account(s, events[0], weights), events[1..], e, weights);
    } else {
      assert events + [e] == [e];
      assert AccountAll(Account(s, e, weights), [e][1..], weights) == Account(s, e, weights);
    }
  }

  /** The books are what a run of SchedAccountCurrentLocked does to the CPU and to its tasks. */
  method AccountRun(p: PerCpu, tasks: seq<Task>, events: seq<Event>, ghost weights: seq<nat>, ghost start: Books)
    requires ForTasks(events, |tasks|) && |weights| == |tasks|
    requires forall i, j :: 0 <= i < j < |tasks| ==> tasks[i] != tasks[j]
    requires forall i :: 0 <= i < |tasks| ==> tasks[i].Weight == weights[i]
    requires start == Books(p.LastAccountTick, p.SchedFracRemainder, seq(|tasks|, _ => 0), seq(|tasks|, _ => 0))
    requires forall i :: 0 <= i < |tasks| ==> tasks[i].Vruntime <= UINT64_MAX && tasks[i].ExecTicks <= UINT64_MAX
    modifies p`LastAccountTick, p`SchedFracRemainder, p`MinVruntime, tasks`Vruntime, tasks`ExecTicks
    ensures var r := AccountAll(start, events, weights);
      && p.LastAccountTick == r.last && p.SchedFracRemainder == r.frac
      && forall i :: 0 <= i < |tasks| ==>
        tasks[i].Vruntime == Add64(old(tasks[i].Vruntime), r.gained[i])
          && tasks[i].ExecTicks == Add64(old(tasks[i].ExecTicks), r.exec[i])
  {
    hide Charge, Add64, AccountAll, Account;
    ghost var r := start;
    NothingYet(start, weights);
    forall i | 0 <= i < |tasks|
      ensures Add64(tasks[i].Vruntime, 0) == tasks[i].Vruntime && Add64(tasks[i].ExecTicks, 0) == tasks[i].ExecTicks
    {
      AddZero(tasks[i].Vruntime);
      AddZero(tasks[i].ExecTicks);
    }
    for k := 0 to |events|
      invariant r == AccountAll(start, events[..k], weights)
      invariant p.LastAccountTick == r.last && p.SchedFracRemainder == r.frac
      invariant forall i :: 0 <= i < |tasks| ==> tasks[i].Vruntime == Add64(old(tasks[i].Vruntime), r.gained[i])
      invariant forall i :: 0 <= i < |tasks| ==> tasks[i].ExecTicks == Add64(old(tasks[i].ExecTicks), r.exec[i])
    {
      var e := events[k];
      assert events[..k + 1] == events[..k] + [e];
      AccountAllSnoc(start, events[..k], e, weights);
      AccountGains(r, e, weights);
      ghost var r' := Account(r, e, weights);
      AddTwice(old(tasks[e.task].Vruntime), r.gained[e.task], r'.gained[e.task] - r.gained[e.task]);
      AddTwice(old(tasks[e.task].ExecTicks), r.exec[e.task], r'.exec[e.task] - r.exec[e.task]);
      AccountOne(p, tasks[e.task], e, r, weights);
      r := r';
    }
    assert events[..|events|] == events;
  }

  /** Only the charged task gains. */
  lemma AccountGains(s: Books, e: Event, weights: seq<nat>)
    requires e.task < |s.gained| == |s.exec| == |weights|
    ensures var t := Account(s, e, weights);
      && |t.gained| == |t.exec| == |weights| && t.gained[e.task] >= s.gained[e.task] && t.exec[e.task] >= s.exec[e.task]
      && t.gained == s.gained[e.task := t.gained[e.task]] && t.exec == s.exec[e.task := t.exec[e.task]]
  {
  }

  method AccountOne(p: PerCpu, cur: Task, e: Event, ghost r: Books, ghost weights: seq<nat>)
    requires e.task < |r.gained| == |r.exec| == |weights| && cur.Weight == weights[e.task]
    requires p.LastAccountTick == r.last && p.SchedFracRemainder == r.frac
    requires cur.Vruntime <= UINT64_MAX && cur.ExecTicks <= UINT64_MAX
    modifies p`LastAccountTick, p`SchedFracRemainder, p`MinVruntime, cur`Vruntime, cur`ExecTicks
    ensures var r' := Account(r, e, weights);
      && p.LastAccountTick == r'.last && p.SchedFracRemainder == r'.frac
      && r'.gained[e.task] >= r.gained[e.task] && r'.exec[e.task] >= r.exec[e.task]
      && cur.Vruntime == Add64(old(cur.Vruntime), r'.gained[e.task] - r.gained[e.task])
      && cur.ExecTicks == Add64(old(cur.ExecTicks), r'.exec[e.task] - r.exec[e.task])
  {
    hide Charge, Add64;
    AddZero(cur.Vruntime);
    AddZero(cur.ExecTicks);
    p.SchedAccountCurrentLocked(cur, e.now);
  }

  lemma NothingYet(s: Books, weights: seq<nat>)
    requires |s.gained| == |s.exec| == |weights|
    ensures AccountAll(s, [], weights) == s
  {
  }

  lemma AddZero(a: nat)
    requires a <= UINT64_MAX
    ensures Add64(a, 0) == a
  {
  }
}
