/** Fairness over whole runs of one CPU whose set of runnable tasks does not change. */
module Fairness {
  import opened Arith
  import opened Lists
  import opened RunQueue

  /** The least and greatest weight of the tasks, and the longest time between two ticks. */
  datatype Bounds = Bounds(wmin: nat, wmax: nat, gap: nat)

  /** The most vruntime one charge can add. */
  function Burst(b: Bounds): nat
    requires b.wmin > 0 && b.wmax > 0
  {
    (NICE_0_WEIGHT * b.gap + b.wmax - 1) / b.wmin
  }

  lemma ChargeAtMostBurst(b: Bounds, delta: nat, w: nat, frac: nat)
    requires 0 < b.wmin <= w <= b.wmax && delta <= b.gap && frac < b.wmax
    ensures var (dv, rest) := Charge(delta, w, frac);
      dv <= Burst(b) && rest < b.wmax
  {
    var num, top := (delta * NICE_0_WEIGHT + frac) % (UINT64_MAX + 1), NICE_0_WEIGHT * b.gap + b.wmax - 1;
    var q := num / w;
    assert q * w <= num;
    MulMono2(b.wmin, w, q);
    QuotientAtLeast(top, b.wmin, q);
  }

  lemma ChargedAtMostBurst(b: Bounds, now: nat, last: nat, w: nat, frac: nat)
    requires 0 < b.wmin <= w <= b.wmax && now <= last + b.gap && frac < b.wmax
    ensures Charged(now, last, w, frac).0 <= Burst(b) && Charged(now, last, w, frac).1 < b.wmax
  {
    hide Charge, Burst;
    if now > last { ChargeAtMostBurst(b, now - last, w, frac); } else { ChargeAtMostBurst(b, 0, w, frac); }
  }

  lemma MulMono2(a: nat, b: nat, k: nat)
    requires a <= b
    ensures k * a <= k * b
  {
    MulMono(a, b, k);
  }

  lemma QuotientAtLeast(x: nat, k: nat, q: nat)
    requires k > 0 && q * k <= x
    ensures q <= x / k
  {
    assert x == (x / k) * k + x % k;
    MulSub(x / k, 1, k);
    MulReflects(q, x / k + 1, k);
  }

  /** The CPU runs one task of S and the others wait, READY, in its queue. */
  ghost predicate Steady(p: PerCpu, S: set<Task>, b: Bounds)
    reads p, p.Ring, S, p.CurrentTask
  {
    && p.Valid() && p.CurrentTask != null && p.CurrentTask !in p.Ring
    && !p.CurrentTask.OnRunQueue && p.CurrentTask.State == Running
    && p.CurrentTask in S && (forall t :: t in p.Ring ==> t in S)
    && (forall t :: t in S ==> t == p.CurrentTask || t in p.Ring)
    && (forall t :: t in p.Ring ==> t.State == Ready)
    && (forall t :: t in S ==> b.wmin <= t.Weight <= b.wmax && p.MinVruntime <= t.Vruntime)
    && 0 < b.wmin && p.SchedFracRemainder < b.wmax
  }

  ghost predicate Spread(S: set<Task>, s: nat)
    reads S
  {
    forall t, u :: t in S && u in S ==> t.Vruntime <= u.Vruntime + s
  }

  /** The running task is at most l ahead of every task. */
  ghost predicate Lead(p: PerCpu, S: set<Task>, l: nat)
    reads p, S, p.CurrentTask
  {
    p.CurrentTask != null && forall u :: u in S ==> p.CurrentTask.Vruntime <= u.Vruntime + l
  }

  ghost predicate Below(S: set<Task>, top: nat)
    reads S
  {
    forall t :: t in S ==> t.Vruntime <= top
  }

  /** The scheduler on numbers: who runs, the vruntimes, the last tick and the remainder. */
  datatype Moment = Moment(current: Task, vruntime: map<Task, nat>, last: nat, frac: nat)

  ghost function Now(p: PerCpu, S: set<Task>): Moment
    requires p.CurrentTask != null
    reads p, S
  {
    Moment(p.CurrentTask, map t | t in S :: t.Vruntime, p.LastAccountTick, p.SchedFracRemainder)
  }

  ghost function WeightsOf(S: set<Task>): map<Task, nat>
    reads S
  {
    map t | t in S :: t.Weight
  }

  /** What a tick at now adds to the vruntime of the running task, and the remainder it leaves. */
  function Charged(now: nat, last: nat, w: nat, frac: nat): (nat, nat) {
    if now > last then Charge(now - last, w, frac) else (0, frac)
  }

  /** A tick charges the running task, and nobody else, for the time since the last one, and a task of least vruntime
      runs next. */
  ghost predicate Ticked(h: Moment, now: nat, h': Moment, w: map<Task, nat>) {
    && h.current in w && h.current in h.vruntime && h'.current in h'.vruntime
    && h'.vruntime.Keys == h.vruntime.Keys && h'.last == now
    && h'.frac == Charged(now, h.last, w[h.current], h.frac).1
    && h'.vruntime[h.current] == h.vruntime[h.current] + Charged(now, h.last, w[h.current], h.frac).0
    && (forall t :: t in h.vruntime && t != h.current ==> h'.vruntime[t] == h.vruntime[t])
    && (forall t :: t in h'.vruntime ==> h'.vruntime[h'.current] <= h'.vruntime[t])
  }

  ghost predicate SpreadOf(h: Moment, s: nat) {
    forall t, u :: t in h.vruntime && u in h.vruntime ==> h.vruntime[t] <= h.vruntime[u] + s
  }

  function Max(a: nat, b: nat): nat {
    if a < b then b else a
  }

  /** One tick keeps the set runnable, raises only the running task's vruntime, by at most one burst,
      and runs a task of least vruntime. */
  method Switch(p: PerCpu, now: nat, idle: Task, ghost S: set<Task>, ghost b: Bounds, ghost top: nat)
    returns (ghost dv: nat)
    requires Steady(p, S, b) && Below(S, top) && idle !in S
    requires now <= p.LastAccountTick + b.gap && top + Burst(b) < UINT64_MAX
    modifies p, S, idle`State
    ensures Steady(p, S, b) && p.LastAccountTick == now && dv <= Burst(b) && Lead(p, S, 0)
    ensures WeightsOf(S) == old(WeightsOf(S))
    ensures (dv, p.SchedFracRemainder) ==
      old(Charged(now, p.LastAccountTick, p.CurrentTask.Weight, p.SchedFracRemainder))
    ensures forall t :: t in S ==>
      t.Vruntime == if t == old(p.CurrentTask) then old(t.Vruntime) + dv else old(t.Vruntime)
  {
    hide Charge, Add64, Sum, NoDup, Circular, Weights, Burst, BeatsFirst;
    ghost var cur: Task := p.CurrentTask;
    ghost var ring := p.Ring + [cur];
    ghost var v, frac := cur.Vruntime, p.SchedFracRemainder;
    dv := Charged(now, p.LastAccountTick, cur.Weight, frac).0;
    ChargedAtMostBurst(b, now, p.LastAccountTick, cur.Weight, frac);
    assert p.RequeuedVruntime() == v && p.Requeued() == ring;
    assert forall t :: t in S <==> t in ring;
    NoWrap(v, dv);
    ghost var k := p.ScheduleFromIsr(now, idle);
    assert k >= 0 by { assert ring[|ring| - 1] == cur; }
    TakenOut(ring, k);
    assert forall t :: t in p.Ring ==> t in S && t.State == Ready && t.OnRunQueue;
  }

  /** One tick: the spread stays below the larger of what it was and one burst. */
  method Tick(p: PerCpu, now: nat, idle: Task, ghost S: set<Task>, ghost b: Bounds, ghost s: nat, ghost l: nat,
          ghost top: nat)
    requires Steady(p, S, b) && Spread(S, s) && Lead(p, S, l) && Below(S, top) && idle !in S
    requires now <= p.LastAccountTick + b.gap && top + Burst(b) < UINT64_MAX
    modifies p, S, idle`State
    ensures Steady(p, S, b) && p.LastAccountTick == now
    ensures Spread(S, Max(s, l + Burst(b))) && Lead(p, S, 0) && Below(S, top + Burst(b))
    ensures WeightsOf(S) == old(WeightsOf(S)) && Ticked(old(Now(p, S)), now, Now(p, S), old(WeightsOf(S)))
  {
    hide PerCpu.Valid, Burst, Charged, Steady, Ticked;
    SteadyFacts(p, S, b);
    ghost var h, w := Now(p, S), WeightsOf(S);
    ghost var cur: Task := p.CurrentTask;
    ghost var was := map t | t in S :: t.Vruntime;
    ghost var dv := Switch(p, now, idle, S, b, top);
    SteadyFacts(p, S, b);
    SpreadAfterCharge(S, was, cur, dv, s, l, Burst(b), top);
    TickedNow(p, S, h, now, w, dv);
  }

  lemma TickedNow(p: PerCpu, S: set<Task>, h: Moment, now: nat, w: map<Task, nat>, dv: nat)
    requires p.CurrentTask != null && p.CurrentTask in S && p.LastAccountTick == now && Lead(p, S, 0)
    requires h.vruntime.Keys == S && h.current in S && h.current in w
    requires (dv, p.SchedFracRemainder) == Charged(now, h.last, w[h.current], h.frac)
    requires forall t :: t in S ==> t.Vruntime == if t == h.current then h.vruntime[t] + dv else h.vruntime[t]
    ensures Ticked(h, now, Now(p, S), w)
  {
    hide Charged;
  }

  lemma SteadyFacts(p: PerCpu, S: set<Task>, b: Bounds)
    requires Steady(p, S, b)
    ensures p.CurrentTask != null && p.CurrentTask in S && b.wmin > 0 && b.wmax > 0
  {
  }

  lemma SpreadAfterCharge(S: set<Task>, was: map<Task, nat>, cur: Task, dv: nat, s: nat, l: nat, burst: nat, top: nat)
    requires cur in S && dv <= burst
    requires forall t :: t in S ==> t in was && t.Vruntime == if t == cur then was[t] + dv else was[t]
    requires forall t, u :: t in S && u in S ==> was[t] <= was[u] + s
    requires forall u :: u in S ==> was[cur] <= was[u] + l
    requires forall t :: t in S ==> was[t] <= top
    ensures Spread(S, Max(s, l + burst)) && Below(S, top + burst)
  {
  }

  lemma NoWrap(a: nat, b: nat)
    requires a + b <= UINT64_MAX
    ensures Add64(a, b) == a + b
  {
  }

  /** Each tick comes at most gap after the one before it; the clock may also stand still or go back. */
  ghost predicate GapsAtMost(last: nat, ticks: seq<nat>, gap: nat) {
    forall j :: 0 <= j < |ticks| ==> ticks[j] <= Before(last, ticks, j) + gap
  }

  function Before(last: nat, ticks: seq<nat>, j: nat): nat
    requires j <= |ticks|
  {
    if j == 0 then last else ticks[j - 1]
  }

  /** Any run of ticks at most b.gap apart, from a state in which the running task is at most l ahead of the others:
      the spread never exceeds the larger of the initial spread and l plus one burst. Right after a pick, l is 0. */
  method Run(p: PerCpu, ticks: seq<nat>, idle: Task, ghost S: set<Task>, ghost b: Bounds, ghost s: nat, ghost l: nat,
          ghost top: nat)
    returns (ghost history: seq<Moment>)
    requires Steady(p, S, b) && Spread(S, s) && Lead(p, S, l) && Below(S, top) && idle !in S
    requires GapsAtMost(p.LastAccountTick, ticks, b.gap)
    requires top + |ticks| * Burst(b) < UINT64_MAX
    modifies p, S, idle`State
    ensures Steady(p, S, b) && Spread(S, Max(s, l + Burst(b)))
    ensures Chronicle(history, ticks, |ticks|, old(WeightsOf(S)), Max(s, l + Burst(b)))
    ensures history[0] == old(Now(p, S)) && history[|ticks|] == Now(p, S)
  {
    hide PerCpu.Valid, Burst, Times, Steady, Spread, Lead, Below, Now, WeightsOf, Ticked, SpreadOf, Max, Chronicle;
    SomeWeight(p, S, b);
    ghost var bound, w := Max(s, l + Burst(b)), WeightsOf(S);
    BoundFacts(s, l, Burst(b));
    history := [Now(p, S)];
    SpreadNow(p, S, b, s);
    MoreThan(history[0], s, bound);
    ChronicleOfNothing(history[0], ticks, w, bound);
    SpreadMore(S, s, bound);
    TimesNext(0, Burst(b));
    AsTimes(|ticks|, Burst(b));
    for j := 0 to |ticks|
      invariant Steady(p, S, b) && p.CurrentTask != null && WeightsOf(S) == w
      invariant Chronicle(history, ticks, j, w, bound) && |history| == j + 1
      invariant history[0] == old(Now(p, S)) && history[j] == Now(p, S)
      invariant p.LastAccountTick == Before(old(p.LastAccountTick), ticks, j)
      invariant Spread(S, bound) && Lead(p, S, if j == 0 then l else 0)
      invariant Below(S, top + Times(j, Burst(b)))
    {
      TimesMono(j + 1, |ticks|, Burst(b));
      TimesNext(j, Burst(b));
      NextTick(p, ticks[j], idle, S, b, bound, if j == 0 then l else 0, top + Times(j, Burst(b)), bound);
      ChronicleMore(history, ticks, j, w, bound, Now(p, S));
      history := history + [Now(p, S)];
    }
  }

  /** One tick of a run, with a bound on the spread that one more tick does not exceed. */
  method NextTick(p: PerCpu, now: nat, idle: Task, ghost S: set<Task>, ghost b: Bounds, ghost s: nat, ghost l: nat,
          ghost top: nat, ghost bound: nat)
    requires Steady(p, S, b) && Spread(S, s) && Lead(p, S, l) && Below(S, top) && idle !in S
    requires now <= p.LastAccountTick + b.gap && top + Burst(b) < UINT64_MAX && bound == Max(s, l + Burst(b))
    modifies p, S, idle`State
    ensures Steady(p, S, b) && p.LastAccountTick == now && p.CurrentTask != null
    ensures Spread(S, bound) && Lead(p, S, 0) && Below(S, top + Burst(b)) && SpreadOf(Now(p, S), bound)
    ensures WeightsOf(S) == old(WeightsOf(S)) && Ticked(old(Now(p, S)), now, Now(p, S), old(WeightsOf(S)))
  {
    hide PerCpu.Valid, Burst, Steady, Spread, Lead, Below, Now, WeightsOf, Ticked, SpreadOf, Max;
    Tick(p, now, idle, S, b, s, l, top);
    SomeWeight(p, S, b);
    SpreadNow(p, S, b, bound);
  }

  /** The moments of a run up to its n-th tick. */
  ghost predicate Chronicle(history: seq<Moment>, ticks: seq<nat>, n: nat, w: map<Task, nat>, bound: nat) {
    && |history| == n + 1 && n <= |ticks|
    && (forall j :: 0 <= j < n ==> Ticked(history[j], ticks[j], history[j + 1], w))
    && (forall j :: 0 <= j <= n ==> SpreadOf(history[j], bound))
  }

  lemma ChronicleOfNothing(h: Moment, ticks: seq<nat>, w: map<Task, nat>, bound: nat)
    requires SpreadOf(h, bound)
    ensures Chronicle([h], ticks, 0, w, bound)
  {
  }

  lemma ChronicleMore(history: seq<Moment>, ticks: seq<nat>, n: nat, w: map<Task, nat>, bound: nat, h: Moment)
    requires Chronicle(history, ticks, n, w, bound) && n < |ticks|
    requires Ticked(history[n], ticks[n], h, w) && SpreadOf(h, bound)
    ensures Chronicle(history + [h], ticks, n + 1, w, bound)
  {
    hide Ticked, SpreadOf;
  }

  lemma BoundFacts(s: nat, l: nat, burst: nat)
    ensures var bound := Max(s, l + burst); s <= bound && Max(bound, l + burst) == bound && Max(bound, burst) == bound
  {
  }

  lemma SomeWeight(p: PerCpu, S: set<Task>, b: Bounds)
    requires Steady(p, S, b)
    ensures b.wmin > 0 && b.wmax > 0 && p.CurrentTask != null
  {
  }

  lemma SpreadNow(p: PerCpu, S: set<Task>, b: Bounds, s: nat)
    requires Steady(p, S, b)
    ensures p.CurrentTask != null
    ensures Spread(S, s) ==> SpreadOf(Now(p, S), s)
  {
  }

  lemma MoreThan(h: Moment, s: nat, more: nat)
    requires s <= more
    ensures SpreadOf(h, s) ==> SpreadOf(h, more)
  {
  }

  lemma SpreadMore(S: set<Task>, s: nat, more: nat)
    requires Spread(S, s) && s <= more
    ensures Spread(S, more)
  {
  }

  lemma AsTimes(a: nat, b: nat)
    ensures Times(a, b) == a * b
  {
  }
}
