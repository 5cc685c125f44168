/** Kernel/Source/Scheduler.c: stealing, migration and priority changes over all CPUs. */
module Balance {
  import opened Lists
  import opened RunQueue

  /** The mask that allows one CPU alone. */
  function Only(cpu: nat): bv32
    requires cpu < 32
  {
    (1 as bv32) << cpu
  }

  /** A mask of 0 allows every CPU. */
  predicate Allowed(mask: bv32, cpu: nat)
    requires cpu < 32
  {
    mask == 0 || Meets(mask, Only(cpu))
  }

  predicate Meets(mask: bv32, bit: bv32) {
    mask & bit != 0
  }

  /** A mask that is not 0 allows the CPUs whose bits it has, counted from the last one. */
  lemma AllowedByDigit(mask: bv32, cpu: nat)
    requires cpu < 32
    ensures Allowed(mask, cpu) <==> mask == 0 || (mask >> cpu) & 1 == 1
  {
    hide Only, Meets;
    DigitOf(mask, cpu);
  }

  lemma DigitOf(mask: bv32, cpu: nat)
    requires cpu < 32
    ensures Meets(mask, Only(cpu)) <==> (mask >> cpu) & 1 == 1
  {
  }

  const NICE_MIN := -20
  const NICE_MAX := 19

  const WEIGHTS: seq<nat> := [
    88761, 71755, 56483, 46273, 36291,
    29154, 23254, 18705, 14949, 11916,
    9548, 7620, 6100, 4904, 3906,
    3121, 2501, 1991, 1591, 1277,
    1024,
    820, 655, 526, 423, 335,
    272, 215, 172, 137, 110,
    87, 70, 56, 45, 36,
    29, 23, 18, 15]

  function Clamp(nice: int): (n: int)
    ensures NICE_MIN <= n <= NICE_MAX
  {
    if nice < NICE_MIN then NICE_MIN else if nice > NICE_MAX then NICE_MAX else nice
  }

  function NiceToWeight(nice: int): nat {
    WEIGHTS[Clamp(nice) - NICE_MIN]
  }

  function Power(b: nat, n: nat): nat {
    if n == 0 then 1 else b * Power(b, n - 1)
  }

  /** The two differ by at most 25 in 1000 of the second. */
  predicate Near(x: nat, y: nat) {
    975 * y <= 1000 * x <= 1025 * y
  }

  const FIVES: seq<nat> := [
    1, 5, 25, 125, 625, 3125, 15625, 78125, 390625, 1953125, 9765625, 48828125, 244140625, 1220703125,
    6103515625, 30517578125, 152587890625, 762939453125, 3814697265625, 19073486328125, 95367431640625]

  const FOURS: seq<nat> := [
    1, 4, 16, 64, 256, 1024, 4096, 16384, 65536, 262144, 1048576, 4194304, 16777216, 67108864, 268435456,
    1073741824, 4294967296, 17179869184, 68719476736, 274877906944, 1099511627776]

  lemma {:induction false} PowerTable(n: nat)
    requires n <= 20
    ensures Power(5, n) == FIVES[n] && Power(4, n) == FOURS[n]
  {
    if n > 0 { PowerTable(n - 1); }
  }

  /** A priority step is a factor of 5/4: the weight of nice n is within 2.5 per cent of 1024 * (4/5)^n. */
  lemma LowerPriorities(n: nat)
    requires n <= 19
    ensures Near(NiceToWeight(n) * Power(5, n), NICE_0_WEIGHT * Power(4, n))
  {
    hide Near;
    PowerTable(n);
    LowerWeights(n);
  }

  /** And that of nice -n within 2.5 per cent of 1024 * (5/4)^n. */
  lemma HigherPriorities(n: int)
    requires 0 <= n <= 20
    ensures Near(NiceToWeight(-n) * Power(4, n), NICE_0_WEIGHT * Power(5, n))
  {
    hide Near;
    PowerTable(n);
    if n <= 10 { HighWeights(n); } else { HighestWeights(n); }
  }

  /** Nice 0 has exactly the weight the accounting starts from, and a value out of range counts as the nearest one. */
  lemma NiceLimits(nice: int)
    ensures NiceToWeight(0) == NICE_0_WEIGHT
    ensures nice < NICE_MIN ==> NiceToWeight(nice) == NiceToWeight(NICE_MIN)
    ensures nice > NICE_MAX ==> NiceToWeight(nice) == NiceToWeight(NICE_MAX)
  {
  }

  lemma LowerWeights(n: nat)
    requires n <= 19
    ensures Near(WEIGHTS[20 + n] * FIVES[n], NICE_0_WEIGHT * FOURS[n])
  {
  }

  lemma HighWeights(n: nat)
    requires n <= 10
    ensures Near(WEIGHTS[20 - n] * FOURS[n], NICE_0_WEIGHT * FIVES[n])
  {
  }

  lemma HighestWeights(n: nat)
    requires 11 <= n <= 20
    ensures Near(WEIGHTS[20 - n] * FOURS[n], NICE_0_WEIGHT * FIVES[n])
  {
  }

  class Machine {
    const Cpus: seq<PerCpu>
    ghost const Tasks: set<Task>

    ghost predicate Valid()
      reads Cpus, Tasks
    {
      && |Cpus| <= 32
      && (forall i :: 0 <= i < |Cpus| ==> Cpus[i].CpuIndex == i)
      && (forall i, t :: 0 <= i < |Cpus| && t in Cpus[i].Ring ==> t in Tasks)
      && (forall i :: 0 <= i < |Cpus| ==> Cpus[i].Valid())
      && (forall t :: t in Tasks && t.OnRunQueue ==> 0 <= t.Cpu < |Cpus| && t in Cpus[t.Cpu].Ring)
    }

    lemma RingsDisjoint(i: nat, j: nat)
      requires Valid() && i < |Cpus| && j < |Cpus| && i != j
      ensures Cpus[i] != Cpus[j]
      ensures forall a, b :: 0 <= a < |Cpus[i].Ring| && 0 <= b < |Cpus[j].Ring| ==> Cpus[i].Ring[a] != Cpus[j].Ring[b]
    {
      assert Cpus[i].Valid() && Cpus[j].Valid();
      assert forall t :: t in Cpus[i].Ring ==> t.Cpu == i;
      assert forall t :: t in Cpus[j].Ring ==> t.Cpu == j;
      forall a, b | 0 <= a < |Cpus[i].Ring| && 0 <= b < |Cpus[j].Ring|
        ensures Cpus[i].Ring[a] != Cpus[j].Ring[b]
      {
        assert Cpus[i].Ring[a] in Cpus[i].Ring && Cpus[j].Ring[b] in Cpus[j].Ring;
      }
    }

    predicate Has(p: PerCpu) {
      p.CpuIndex < |Cpus| && Cpus[p.CpuIndex] == p
    }

    lemma AllRingsDisjoint()
      requires Valid()
      ensures forall i, j :: 0 <= i < |Cpus| && 0 <= j < |Cpus| && i != j ==>
        Cpus[i] != Cpus[j] &&
        forall a, b :: 0 <= a < |Cpus[i].Ring| && 0 <= b < |Cpus[j].Ring| ==> Cpus[i].Ring[a] != Cpus[j].Ring[b]
    {
      forall i, j | 0 <= i < |Cpus| && 0 <= j < |Cpus| && i != j
        ensures Cpus[i] != Cpus[j]
        ensures forall a, b :: 0 <= a < |Cpus[i].Ring| && 0 <= b < |Cpus[j].Ring| ==> Cpus[i].Ring[a] != Cpus[j].Ring[b]
      {
        RingsDisjoint(i, j);
      }
    }

    lemma RingFacts(t: Task, i: nat)
      requires Valid() && i < |Cpus| && t in Cpus[i].Ring
      ensures Cpus[i].RunQueue != null && t.OnRunQueue && t.Cpu == i
      ensures forall y :: y in Cpus[i].Ring && y != t ==> y in Without(Cpus[i].Ring, t)
      ensures var r := Without(Cpus[i].Ring, t); forall k :: 0 <= k < |r| ==> r[k] in Cpus[i].Ring && r[k] != t
    {
      assert Cpus[i].Valid();
      WithoutKeepsTheRest(Cpus[i].Ring, t);
    }

    /** RqDelLocked under the queue's lock, seen by the whole machine. */
    method Dequeue(p: PerCpu, t: Task)
      requires Valid() && Has(p) && t in p.Ring
      modifies p`RunQueue, p`RunQueueCount, p`Load, p`Ring, t`RunNext, t`OnRunQueue, p.Ring`RunNext
      ensures Valid() && !t.OnRunQueue
      ensures p.Ring == Without(old(p.Ring), t) && old(p.Load) == p.Load + t.Weight
    {
      hide PerCpu.Valid, Without, IndexOf, NoDup;
      RingFacts(t, p.CpuIndex);
      AllRingsDisjoint();
      var removed := p.RqDelLocked(t);
      assert forall u :: u in old(p.Ring) && u != t ==> u in p.Ring;
      forall u | u in Tasks && u.OnRunQueue
        ensures 0 <= u.Cpu < |Cpus| && u in Cpus[u.Cpu].Ring
      {
        assert u != t && u in old(Cpus[u.Cpu].Ring);
      }
      assert forall j :: 0 <= j < |Cpus| ==> Cpus[j].Valid();
    }

    /** RqAddLocked under the queue's lock, seen by the whole machine. */
    method Enqueue(p: PerCpu, t: Task)
      requires Valid() && Has(p) && t in Tasks && !t.OnRunQueue
      modifies p`RunQueue, p`RunQueueCount, p`Load, p`Ring, t`RunNext, t`OnRunQueue, t`Cpu, t`Vruntime, p.Ring`RunNext
      ensures Valid() && t.OnRunQueue && t.Cpu == p.CpuIndex
      ensures p.Ring == old(p.Ring) + [t] && p.Load == old(p.Load) + t.Weight
      ensures t.Vruntime == if old(t.Vruntime) < p.MinVruntime then p.MinVruntime else old(t.Vruntime)
    {
      hide PerCpu.Valid, NoDup;
      AllRingsDisjoint();
      MembersAreQueued();
      p.RqAddLocked(t);
      assert forall j :: 0 <= j < |Cpus| ==> Cpus[j].Valid();
    }

    lemma MembersAreQueued()
      requires Valid()
      ensures forall i, a :: 0 <= i < |Cpus| && 0 <= a < |Cpus[i].Ring| ==>
        Cpus[i].Ring[a].OnRunQueue && Cpus[i].Ring[a].Cpu == i
    {
      forall i, a | 0 <= i < |Cpus| && 0 <= a < |Cpus[i].Ring|
        ensures Cpus[i].Ring[a].OnRunQueue && Cpus[i].Ring[a].Cpu == i
      {
        assert Cpus[i].Valid();
      }
    }

    ghost function Loads(): (s: seq<nat>)
      reads Cpus
      ensures |s| == |Cpus|
    {
      seq(|Cpus|, i requires 0 <= i < |Cpus| reads Cpus => Cpus[i].Load)
    }

    /** The load of all CPUs together. */
    ghost function TotalLoad(): nat
      reads Cpus
    {
      Sum(Loads())
    }

    /** The tasks that wait in some run queue. */
    ghost function Queued(): set<Task>
      reads Tasks
    {
      set t | t in Tasks && t.OnRunQueue
    }

    /** A task leaves one ring and becomes the tail of another; nothing queued is lost and no load appears or
        vanishes. */
    method Transfer(from: PerCpu, to: PerCpu, t: Task)
      requires Valid() && Has(from) && Has(to) && from != to && t in from.Ring
      modifies from`RunQueue, from`RunQueueCount, from`Load, from`Ring, from.Ring`RunNext
      modifies to`RunQueue, to`RunQueueCount, to`Load, to`Ring, to.Ring`RunNext
      modifies t`RunNext, t`OnRunQueue, t`Cpu, t`Vruntime
      ensures Valid() && TotalLoad() == old(TotalLoad()) && Queued() == old(Queued())
      ensures from.Ring == Without(old(from.Ring), t) && to.Ring == old(to.Ring) + [t] && t.Cpu == to.CpuIndex
      ensures t.Vruntime == if old(t.Vruntime) < to.MinVruntime then to.MinVruntime else old(t.Vruntime)
    {
      hide PerCpu.Valid, Without, Sum;
      ghost var was := Loads();
      RingFacts(t, from.CpuIndex);
      Dequeue(from, t);
      Enqueue(to, t);
      assert Loads() == was[from.CpuIndex := was[from.CpuIndex] - t.Weight][to.CpuIndex := was[to.CpuIndex] + t.Weight];
      SumShift(was, from.CpuIndex, to.CpuIndex, t.Weight);
    }

    /** What TryStealFrom accepts from the victim's ring. */
    predicate Stealable(victim: PerCpu, t: Task, self: PerCpu)
      requires self.CpuIndex < 32
      reads victim, t
    {
      t.State == Ready && t.OnRunQueue && t != victim.CurrentTask && Allowed(t.CpuAffinity, self.CpuIndex)
    }

    ghost predicate WorthStealing(victim: PerCpu, self: PerCpu)
      requires self.CpuIndex < 32
      reads victim, victim.Ring
    {
      && self != victim && victim.Online && |victim.Ring| > 1
      && exists t :: t in victim.Ring && Stealable(victim, t, self) && t.Vruntime > 0
    }

    ghost predicate GreatestStealable(victim: PerCpu, best: Task, self: PerCpu)
      requires self.CpuIndex < 32
      reads victim, victim.Ring, best
    {
      && best in victim.Ring && Stealable(victim, best, self)
      && forall t :: t in victim.Ring && Stealable(victim, t, self) ==> t.Vruntime <= best.Vruntime
    }

    /** The walk over the victim's ring for a task to steal: the one of greatest vruntime among the acceptable ones.
        The search starts from 0 with a strict comparison, so a vruntime of 0 is never stolen. */
    method FindSteal(victim: PerCpu, self: PerCpu) returns (best: Task?)
      requires victim.Valid() && victim.RunQueue != null && self.CpuIndex < 32
      ensures best == null ==> forall t :: t in victim.Ring && Stealable(victim, t, self) ==> t.Vruntime == 0
      ensures best != null ==> GreatestStealable(victim, best, self) && best.Vruntime > 0
    {
      hide Sum, Allowed;
      best := null;
      var bestV := 0;
      var start := victim.RunQueue.RunNext;
      var it: Task := start;
      ghost var ring, n := victim.Ring, 0;
      while true
        invariant 0 <= n < |ring| && it == ring[n] && start == ring[0]
        invariant bestV == if best == null then 0 else best.Vruntime
        invariant best != null ==> best in ring && Stealable(victim, best, self) && best.Vruntime > 0
        invariant forall i :: 0 <= i < n && Stealable(victim, ring[i], self) ==> ring[i].Vruntime <= bestV
        decreases |ring| - n
      {
        if it.State == Ready && it.OnRunQueue && it != victim.CurrentTask && Allowed(it.CpuAffinity, self.CpuIndex) {
          if it.Vruntime > bestV {
            bestV := it.Vruntime;
            best := it;
          }
        }
        it := it.RunNext;
        n := n + 1;
        if it == start { break; }
      }
    }

    method TryStealFrom(self: PerCpu, victim: PerCpu) returns (ok: bool, ghost best: Task?)
      requires Valid() && Has(self) && Has(victim)
      modifies self`RunQueue, self`RunQueueCount, self`Load, self`Ring, self.Ring`RunNext
      modifies victim`RunQueue, victim`RunQueueCount, victim`Load, victim`Ring
      modifies victim.Ring`RunNext, victim.Ring`OnRunQueue, victim.Ring`Cpu, victim.Ring`Vruntime
      ensures Valid() && TotalLoad() == old(TotalLoad()) && Queued() == old(Queued())
      ensures ok <==> best != null
      ensures ok <==> old(WorthStealing(victim, self))
      ensures ok <==> self != victim && old(victim.Online && |victim.Ring| > 1 && exists t ::
        t in victim.Ring && t.State == Ready && t != victim.CurrentTask && t.Vruntime > 0
        && Allowed(t.CpuAffinity, self.CpuIndex))
      ensures !ok ==> victim.Ring == old(victim.Ring) && self.Ring == old(self.Ring)
      ensures ok ==>
        && best in old(victim.Ring) && old(GreatestStealable(victim, best, self))
        && old(best.State) == Ready && best != old(victim.CurrentTask) && old(best.Vruntime) > 0
        && best.Vruntime == (if old(best.Vruntime) < self.MinVruntime then self.MinVruntime else old(best.Vruntime))
        && best.Cpu == self.CpuIndex && Allowed(best.CpuAffinity, self.CpuIndex)
      ensures ok ==>
        && victim.Ring == Without<Task>(old(victim.Ring), best) && victim.Ring != []
        && self.Ring == old(self.Ring) + [best]
    {
      hide Allowed, Sum, Without;
      best, ok := null, false;
      if self == victim { return; }
      if !victim.Online { return; }
      if victim.RunQueueCount <= 1 { return; }
      assert victim.Valid();
      if victim.RunQueue == null { return; }
      var found := FindSteal(victim, self);
      if found == null { return; }
      var chosen: Task := found;
      WithoutKeepsTheRest(victim.Ring, chosen);
      Transfer(victim, self, chosen);
      ok, best := true, chosen;
    }

    method AskResched(p: PerCpu)
      requires Valid() && Has(p)
      modifies p`NeedResched
      ensures Valid() && p.NeedResched && TotalLoad() == old(TotalLoad())
    {
      hide Sum, NoDup, Circular;
      ghost var was := Loads();
      p.NeedResched := true;
      assert Loads() == was;
    }

    /** SchedMigrateTask. It succeeds exactly on an online CPU of the mask, for a task that is queued elsewhere, is
        there already, or has no CPU yet; the first of these moves. A CPU that runs the task is asked to reschedule. */
    method SchedMigrateTask(t: Task, targetCpu: int) returns (code: int)
      requires Valid() && t in Tasks
      modifies Cpus, Tasks
      ensures Valid() && TotalLoad() == old(TotalLoad()) && Queued() == old(Queued())
      ensures code == 0 || code == -1
      ensures code == 0 <==>
        && 0 <= targetCpu < |Cpus| && old(Cpus[targetCpu].Online) && Allowed(t.CpuAffinity, targetCpu)
        && (old(t.Cpu) < 0 || old(t.Cpu) == targetCpu || old(t.Cpu < |Cpus| && t.OnRunQueue))
      ensures t.Cpu == if code == 0 && old(t.Cpu) >= 0 then targetCpu else old(t.Cpu)
      ensures t.Cpu != old(t.Cpu) ==>
        && Cpus[old(t.Cpu)].Ring == Without(old(Cpus[t.Cpu].Ring), t)
        && Cpus[targetCpu].Ring == old(Cpus[targetCpu].Ring) + [t]
      ensures t.Vruntime == if t.Cpu != old(t.Cpu)
        && old(t.Vruntime) < Cpus[targetCpu].MinVruntime then Cpus[targetCpu].MinVruntime else old(t.Vruntime)
      ensures forall i :: 0 <= i < |Cpus| && (t.Cpu == old(t.Cpu) || (i != targetCpu && i != old(t.Cpu))) ==>
        Cpus[i].Ring == old(Cpus[i].Ring)
      ensures forall i :: 0 <= i < |Cpus| ==>
        Cpus[i].NeedResched == (old(Cpus[i].NeedResched)
          || (t.Cpu != old(t.Cpu) && i == old(t.Cpu) && old(Cpus[i].CurrentTask) == t))
      ensures forall u :: u in Tasks && u != t ==> u.Cpu == old(u.Cpu) && u.Vruntime == old(u.Vruntime)
    {
      hide PerCpu.Valid, Without, Sum;
      if targetCpu < 0 || targetCpu >= |Cpus| { return -1; }
      var target := Cpus[targetCpu];
      if !target.Online { return -1; }
      if t.CpuAffinity != 0 && !Allowed(t.CpuAffinity, targetCpu) { return -1; }
      var oldCpu := t.Cpu;
      if oldCpu < 0 || oldCpu == targetCpu { return 0; }
      if oldCpu >= |Cpus| { return -1; }
      var old_ := Cpus[oldCpu];
      if !t.OnRunQueue { return -1; }
      Transfer(old_, target, t);
      if old_.CurrentTask == t {
        AskResched(old_);
      }
      return 0;
    }

    /** TaskSetNice on the task that was found: its weight follows the table, and the load of its queue follows its
        weight. */
    method TaskSetNice(t: Task, niceArg: int)
      requires Valid() && t in Tasks
      modifies Cpus, t`Nice, t`Weight
      ensures Valid() && Queued() == old(Queued())
      ensures t.Nice == Clamp(niceArg) && t.Weight == NiceToWeight(niceArg)
      ensures forall i :: 0 <= i < |Cpus| ==> Cpus[i].Ring == old(Cpus[i].Ring)
      ensures TotalLoad() == if t.OnRunQueue then old(TotalLoad()) - old(t.Weight) + t.Weight else old(TotalLoad())
    {
      hide PerCpu.Valid, Sum, NoDup, NiceToWeight;
      var nice := Clamp(niceArg);
      var newW := NiceToWeight(nice);
      ClampTwice(niceArg);
      AllRingsDisjoint();
      MembersAreQueued();
      ghost var was := Loads();
      if t.OnRunQueue && t.Cpu >= 0 {
        var p := Cpus[t.Cpu];
        p.Reweigh(t, nice, newW);
        SumUpdate(was, t.Cpu, p.Load);
        assert Loads() == was[t.Cpu := p.Load];
      } else {
        t.Nice := nice;
        t.Weight := newW;
        assert Loads() == was;
      }
      assert forall j :: 0 <= j < |Cpus| ==> Cpus[j].Valid();
    }

    /** A tick on one CPU keeps the invariant of the whole machine: its running task is charged and goes back to the
        queue, the k-th of those waiting then leaves it to run, or the idle task runs if k is negative, and the other
        queues stay. */
    method Tick(p: PerCpu, now: nat, idle: Task) returns (ghost k: int)
      requires Valid() && Has(p) && p.CurrentTask != null && p.CurrentTask in Tasks
      requires p.CurrentTask.OnRunQueue ==> p.CurrentTask in p.Ring
      requires idle in Tasks && (idle.OnRunQueue ==> idle in p.Ring)
      modifies p, p.CurrentTask, p.Ring, idle`State
      ensures Valid() && p.CurrentTask != null && p.CurrentTask in Tasks
      ensures p.CurrentTask.OnRunQueue ==> p.CurrentTask in p.Ring
      ensures idle.OnRunQueue ==> idle in p.Ring
      ensures p.LastAccountTick == now && p.CurrentTask.State == Running
      ensures k < 0 ==> p.CurrentTask == idle && p.Ring == old(p.Requeued())
      ensures k >= 0 ==> var ring := old(p.Requeued());
        k < |ring| && p.CurrentTask == ring[k] && p.Ring == ring[..k] + ring[k + 1..]
      ensures now > old(p.LastAccountTick) ==>
        var (dv, frac) := Charge(now - old(p.LastAccountTick), old(p.CurrentTask.Weight), old(p.SchedFracRemainder));
        p.SchedFracRemainder == frac && old(p.CurrentTask).Vruntime == Add64(old(p.RequeuedVruntime()), dv)
      ensures forall i :: 0 <= i < |Cpus| && Cpus[i] != p ==> unchanged(Cpus[i])
    {
      hide PerCpu.Valid, NoDup, Charge, Add64, PerCpu.Requeued, PerCpu.RequeuedVruntime;
      AllRingsDisjoint();
      MembersAreQueued();
      ghost var cur: Task := p.CurrentTask;
      k := Switch(p, now, idle);
      assert forall j :: 0 <= j < |Cpus| ==> Cpus[j].Valid();
      MembersFacts(p);
      forall u | u in Tasks && u.OnRunQueue
        ensures 0 <= u.Cpu < |Cpus| && u in Cpus[u.Cpu].Ring
      {
        if u in old(p.Ring) || u == cur { assert u in p.Ring; }
      }
    }

    /** What ScheduleFromIsr does to the membership of the ring. */
    method Switch(p: PerCpu, now: nat, idle: Task) returns (ghost k: int)
      requires p.Valid() && p.CurrentTask != null && (p.CurrentTask.OnRunQueue ==> p.CurrentTask in p.Ring)
      requires idle.OnRunQueue ==> idle in p.Ring
      modifies p, p.CurrentTask, p.Ring, idle`State
      ensures p.Valid() && p.CurrentTask != null
      ensures p.LastAccountTick == now && p.CurrentTask.State == Running
      ensures k < 0 ==> p.CurrentTask == idle && p.Ring == old(p.Requeued())
      ensures k >= 0 ==> var ring := old(p.Requeued());
        k < |ring| && p.CurrentTask == ring[k] && p.Ring == ring[..k] + ring[k + 1..]
      ensures now > old(p.LastAccountTick) ==>
        var (dv, frac) := Charge(now - old(p.LastAccountTick), old(p.CurrentTask.Weight), old(p.SchedFracRemainder));
        p.SchedFracRemainder == frac && old(p.CurrentTask).Vruntime == Add64(old(p.RequeuedVruntime()), dv)
      ensures forall i :: 0 <= i < |p.Ring| ==> p.Ring[i] in old(p.Ring) || p.Ring[i] == old(p.CurrentTask)
      ensures forall t :: (t in old(p.Ring) || t == old(p.CurrentTask)) && t.OnRunQueue ==> t in p.Ring
      ensures p.CurrentTask == idle || p.CurrentTask == old(p.CurrentTask) || p.CurrentTask in old(p.Ring)
      ensures p.CurrentTask.OnRunQueue ==> p.CurrentTask in p.Ring
      ensures idle.OnRunQueue ==> idle in p.Ring
    {
      hide PerCpu.Valid, NoDup, Charge, Add64, PerCpu.RequeuedVruntime, PerCpu.Requeued, NoneReady, BeatsFirst;
      RequeuedFacts(p);
      ghost var ring := p.Requeued();
      k := p.ScheduleFromIsr(now, idle);
      if k >= 0 { TakenOut(ring, k); }
    }

    lemma RequeuedFacts(p: PerCpu)
      requires p.CurrentTask != null
      ensures forall t :: t in p.Requeued() ==> t in p.Ring || t == p.CurrentTask
      ensures forall t :: t in p.Ring ==> t in p.Requeued()
    {
    }

    lemma MembersFacts(p: PerCpu)
      requires p.Valid()
      ensures forall a :: 0 <= a < |p.Ring| ==> p.Ring[a].OnRunQueue && p.Ring[a].Cpu == p.CpuIndex
      ensures forall t :: t in p.Ring ==> t.OnRunQueue
    {
    }

    lemma ClampTwice(nice: int)
      ensures NiceToWeight(Clamp(nice)) == NiceToWeight(nice)
    {
    }
  }

  lemma SumShift(s: seq<nat>, i: nat, j: nat, w: nat)
    requires i < |s| && j < |s| && i != j && w <= s[i]
    ensures Sum(s[i := s[i] - w][j := s[j] + w]) == Sum(s)
  {
    SumUpdate(s, i, s[i] - w);
    SumUpdate(s[i := s[i] - w], j, s[j] + w);
  }
}