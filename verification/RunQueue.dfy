/** Kernel/Source/Scheduler.c, lines 166 to 288: the per-CPU run queue, a circular singly linked list
    held by its tail, and the accounting of the running task. */
module RunQueue {
  import opened Lists

  const UINT64_MAX: nat := 0xFFFF_FFFF_FFFF_FFFF
  const NICE_0_WEIGHT: nat := 1024

  datatype TaskState = Running | Ready | Blocked | Zombie

  class Task {
    const Pid: int
    var State: TaskState
    var RunNext: Task?
    var Nice: int
    var Weight: nat
    var Vruntime: nat
    var ExecTicks: nat
    var OnRunQueue: bool
    var Cpu: int
    var CpuAffinity: bv32

    constructor (pid: int, weight: nat, affinity: bv32)
      ensures Pid == pid && Weight == weight && CpuAffinity == affinity
      ensures State == Ready && RunNext == null && Nice == 0 && Vruntime == 0 && ExecTicks == 0 && !OnRunQueue
      ensures Cpu == 0
    {
      Pid, Weight, CpuAffinity := pid, weight, affinity;
      State, RunNext, Nice, Vruntime, ExecTicks, OnRunQueue, Cpu := Ready, null, 0, 0, 0, false, 0;
    }
  }

  function Sum(s: seq<nat>): nat {
    if s == [] then 0 else Sum(s[..|s| - 1]) + s[|s| - 1]
  }

  lemma {:induction false} SumSplice(s: seq<nat>, k: nat)
    requires k < |s|
    ensures Sum(s[..k] + s[k + 1..]) + s[k] == Sum(s)
    decreases |s|
  {
    var n := |s| - 1;
    if k == n {
      assert s[..k] + s[k + 1..] == s[..n];
    } else {
      SumSplice(s[..n], k);
      var r := s[..k] + s[k + 1..];
      assert r[..|r| - 1] == s[..n][..k] + s[..n][k + 1..];
    }
  }

  lemma SumMore(s: seq<nat>, x: nat)
    ensures Sum(s + [x]) == Sum(s) + x
  {
    assert (s + [x])[..|s|] == s;
  }

  lemma {:induction false} SumUpdate(s: seq<nat>, k: nat, x: nat)
    requires k < |s|
    ensures Sum(s[k := x]) + s[k] == Sum(s) + x
    decreases |s|
  {
    var n := |s| - 1;
    if k == n {
      assert s[k := x][..n] == s[..n];
    } else {
      SumUpdate(s[..n], k, x);
      assert s[k := x][..n] == s[..n][k := x];
    }
  }

  ghost function Weights(ring: seq<Task>): (w: seq<nat>)
    reads ring
    ensures |w| == |ring|
  {
    seq(|ring|, i requires 0 <= i < |ring| reads ring => ring[i].Weight)
  }

  /** The new load of a queue when one weight changes, as TaskSetNice guards the subtraction. */
  function LoadAfter(load: nat, oldW: nat, newW: nat): nat {
    if load >= oldW then load - oldW + newW else newW
  }

  /** tail holds the circular list whose members, head first, are ring. */
  ghost predicate Circular(tail: Task?, ring: seq<Task>)
    reads ring
  {
    && NoDup(ring)
    && (ring == [] <==> tail == null)
    && (ring != [] ==> tail == ring[|ring| - 1] && ring[|ring| - 1].RunNext == ring[0])
    && (forall i {:trigger ring[i].RunNext} :: 0 <= i < |ring| - 1 ==> ring[i].RunNext == ring[i + 1])
  }

  class PerCpu {
    const CpuIndex: nat
    var Online: bool
    var CurrentTask: Task?
    var IdleTask: Task?
    var RunQueue: Task?
    var RunQueueCount: nat
    var Load: nat
    var MinVruntime: nat
    var LastAccountTick: nat
    var SchedFracRemainder: nat
    var NeedResched: bool
    ghost var Ring: seq<Task>

    constructor (index: nat, now: nat)
      ensures IdleTask == null
      ensures CpuIndex == index && Valid() && Ring == [] && MinVruntime == 0 && LastAccountTick == now
      ensures SchedFracRemainder == 0
      ensures CurrentTask == null && !Online && !NeedResched
    {
      CpuIndex, Online, CurrentTask, IdleTask, RunQueue, RunQueueCount, Load := index, false, null, null, null, 0, 0;
      MinVruntime, LastAccountTick, SchedFracRemainder, NeedResched, Ring := 0, now, 0, false, [];
    }

    ghost predicate Valid()
      reads this, Ring
    {
      && Circular(RunQueue, Ring)
      && RunQueueCount == |Ring|
      && Load == Sum(Weights(Ring))
      && forall t :: t in Ring ==> t.OnRunQueue && t.Cpu == CpuIndex
    }

    method RqAddLocked(t: Task)
      requires Valid()
      modifies `RunQueue, `RunQueueCount, `Load, `Ring, t`RunNext, t`OnRunQueue, t`Cpu, t`Vruntime, Ring`RunNext
      ensures Valid()
      ensures Ring == if old(t.OnRunQueue) then old(Ring) else old(Ring) + [t]
      ensures Load == if old(t.OnRunQueue) then old(Load) else old(Load) + t.Weight
      ensures t.OnRunQueue && t.Cpu == if old(t.OnRunQueue) then old(t.Cpu) else CpuIndex
      ensures t.Vruntime == if !old(t.OnRunQueue) && old(t.Vruntime) < MinVruntime then MinVruntime else old(t.Vruntime)
    {
      hide NoDup, Sum;
      ghost var w := Weights(Ring);
      SumMore(w, t.Weight);
      if t.OnRunQueue { return; }
      if t.Vruntime < MinVruntime { t.Vruntime := MinVruntime; }
      LinkTail(RunQueue, t, Ring);
      RunQueue := t;
      t.OnRunQueue := true;
      t.Cpu := CpuIndex;
      RunQueueCount := RunQueueCount + 1;
      Load := Load + t.Weight;
      Ring := Ring + [t];
      assert Weights(Ring) == w + [t.Weight];
    }

    /** Removes exactly t, wherever it is in the ring; a task of another ring or of none is left alone. */
    method RqDelLocked(t: Task) returns (removed: bool)
      requires Valid() && (t.OnRunQueue ==> RunQueue != null)
      modifies `RunQueue, `RunQueueCount, `Load, `Ring, t`RunNext, t`OnRunQueue, Ring`RunNext
      ensures Valid()
      ensures removed <==> t in old(Ring)
      ensures removed ==> Ring == Without(old(Ring), t) && !t.OnRunQueue && t.RunNext == null
      ensures old(Load) == if removed then Load + t.Weight else Load
      ensures !removed ==> Ring == old(Ring) && t.OnRunQueue == old(t.OnRunQueue) && t.RunNext == old(t.RunNext)
    {
      hide NoDup, Sum, IndexOf, Without;
      if !t.OnRunQueue { return false; }
      ghost var ring := Ring;
      ghost var w := Weights(ring);
      var found, tail := Unlink(RunQueue, t, Ring);
      if !found { return false; }
      WithoutKeepsTheRest(ring, t);
      WeightsWithout(ring, t);
      assert Weights(ring) == w;
      ghost var left := Weights(Without(ring, t));
      RunQueue := tail;
      t.OnRunQueue := false;
      RunQueueCount := RunQueueCount - 1;
      Load := Load - t.Weight;
      Ring := Without(Ring, t);
      assert Weights(Ring) == left;
      return true;
    }

    /** The load and weight part of TaskSetNice for a queued task. */
    method Reweigh(t: Task, nice: int, weight: nat)
      requires Valid() && t in Ring
      modifies `Load, t`Nice, t`Weight
      ensures Valid() && t.Nice == nice && t.Weight == weight && Load + old(t.Weight) == old(Load) + weight
    {
      hide NoDup, Sum;
      ghost var k, w := IndexOf(Ring, t), Weights(Ring);
      UniqueMember(t);
      SumUpdate(w, k, weight);
      Load := LoadAfter(Load, t.Weight, weight);
      t.Nice := nice;
      t.Weight := weight;
      assert Weights(Ring) == w[k := weight];
    }

    lemma UniqueMember(t: Task)
      requires Valid() && t in Ring
      ensures forall i :: 0 <= i < |Ring| && i != IndexOf(Ring, t) ==> Ring[i] != t
      ensures t.Weight <= Load
    {
      WeightsWithout(Ring, t);
    }

    /** The first READY task of least vruntime; a vruntime of UINT64_MAX is never picked. */
    method RqPickMinVruntimeLocked() returns (best: Task?, ghost k: nat)
      requires Valid()
      ensures best == null ==> NoneReady(Ring, |Ring|)
      ensures best != null ==> k < |Ring| && best == Ring[k] && FirstLeast(Ring, k, |Ring|)
    {
      best, k := null, 0;
      if RunQueue == null { return; }
      var bestV := UINT64_MAX;
      var start := RunQueue.RunNext;
      var it: Task := start;
      ghost var n := 0;
      while true
        invariant 0 <= n < |Ring| && it == Ring[n] && start == Ring[0]
        invariant best == null ==> bestV == UINT64_MAX && NoneReady(Ring, n)
        invariant best != null ==> bestV == best.Vruntime && k < n && best == Ring[k] && FirstLeast(Ring, k, n)
        decreases |Ring| - n
      {
        if it.State == Ready && it.OnRunQueue {
          if it.Vruntime < bestV {
            bestV := it.Vruntime;
            best := it;
            k := n;
          }
        }
        it := it.RunNext;
        n := n + 1;
        if it == start { break; }
      }
    }

    /** SchedAccountCurrentLocked: charges cur with the time since the last call. */
    method SchedAccountCurrentLocked(cur: Task, now: nat)
      modifies `LastAccountTick, `SchedFracRemainder, `MinVruntime, cur`Vruntime, cur`ExecTicks
      ensures LastAccountTick == now
      ensures now <= old(LastAccountTick) ==>
        SchedFracRemainder == old(SchedFracRemainder) && MinVruntime == old(MinVruntime)
        && cur.Vruntime == old(cur.Vruntime) && cur.ExecTicks == old(cur.ExecTicks)
      ensures now > old(LastAccountTick) ==>
        var delta := now - old(LastAccountTick);
        var (dv, frac) := Charge(delta, cur.Weight, old(SchedFracRemainder));
        && SchedFracRemainder == frac && cur.Vruntime == Add64(old(cur.Vruntime), dv)
          && cur.ExecTicks == Add64(old(cur.ExecTicks), delta)
        && MinVruntime == if cur.Vruntime < old(MinVruntime) then cur.Vruntime else old(MinVruntime)
      ensures MinVruntime <= old(MinVruntime)
    {
      var last := LastAccountTick;
      if now <= last {
        LastAccountTick := now;
        return;
      }
      var delta := now - last;
      LastAccountTick := now;
      var weight := if cur.Weight != 0 then cur.Weight else NICE_0_WEIGHT;
      var num := (delta * NICE_0_WEIGHT + SchedFracRemainder) % (UINT64_MAX + 1);
      SchedFracRemainder := num % weight;
      cur.Vruntime := Add64(cur.Vruntime, num / weight);
      cur.ExecTicks := Add64(cur.ExecTicks, delta);
      if cur.Vruntime < MinVruntime {
        MinVruntime := cur.Vruntime;
      }
    }

    /** The running task, still RUNNING, goes back to its queue as READY. */
    method Requeue(cur: Task)
      requires Valid() && (cur.OnRunQueue ==> cur in Ring)
      modifies `RunQueue, `RunQueueCount, `Load, `Ring, cur, Ring`RunNext
      ensures Valid() && cur.Weight == old(cur.Weight) && cur.ExecTicks == old(cur.ExecTicks)
      ensures cur.CpuAffinity == old(cur.CpuAffinity)
      ensures cur.State == if old(cur.State) == Running then Ready else old(cur.State)
      ensures Ring == if old(cur.State) == Running && !old(cur.OnRunQueue) then old(Ring) + [cur] else old(Ring)
      ensures cur.Vruntime == if Ring != old(Ring)
        && old(cur.Vruntime) < MinVruntime then MinVruntime else old(cur.Vruntime)
      ensures cur.OnRunQueue <==> cur in Ring
    {
      hide NoDup, Sum;
      if cur.State == Running {
        SetState(cur, Ready);
        if !cur.OnRunQueue {
          RqAddLocked(cur);
        }
      }
    }

    method SetState(t: Task, s: TaskState)
      requires Valid()
      modifies t`State
      ensures Valid() && t.State == s
    {
      hide NoDup, Sum;
      ghost var w := Weights(Ring);
      t.State := s;
      assert Weights(Ring) == w;
    }

    method Account(cur: Task, now: nat)
      requires Valid()
      modifies `LastAccountTick, `SchedFracRemainder, `MinVruntime, cur`Vruntime, cur`ExecTicks
      ensures Valid() && LastAccountTick == now
      ensures now <= old(LastAccountTick) ==>
        SchedFracRemainder == old(SchedFracRemainder) && cur.Vruntime == old(cur.Vruntime)
          && cur.ExecTicks == old(cur.ExecTicks)
      ensures now > old(LastAccountTick) ==>
        var delta := now - old(LastAccountTick);
        var (dv, frac) := Charge(delta, cur.Weight, old(SchedFracRemainder));
        && SchedFracRemainder == frac && cur.Vruntime == Add64(old(cur.Vruntime), dv)
          && cur.ExecTicks == Add64(old(cur.ExecTicks), delta)
      ensures MinVruntime == if now > old(LastAccountTick)
        && cur.Vruntime < old(MinVruntime) then cur.Vruntime else old(MinVruntime)
    {
      hide NoDup, Sum, Charge, Add64;
      ghost var w := Weights(Ring);
      SchedAccountCurrentLocked(cur, now);
      assert Weights(Ring) == w;
    }

    lemma MemberSplice(k: nat)
      requires Valid() && k < |Ring|
      ensures Without(Ring, Ring[k]) == Ring[..k] + Ring[k + 1..] && RunQueue != null
    {
      IndexUnique(Ring, Ring[k], k);
    }

    /** Takes the task to run next off the queue: the picked member k, or idle when there is none to pick. */
    method TakeNext(idle: Task) returns (next: Task, ghost k: int)
      requires Valid()
      modifies `RunQueue, `RunQueueCount, `Load, `Ring, Ring`RunNext, Ring`OnRunQueue, Ring`State, idle`State
      ensures Valid() && next.State == Running
      ensures k < 0 ==> NoneReady(Ring, |Ring|) && next == idle && Ring == old(Ring)
      ensures k >= 0 ==> k < |old(Ring)| && old(FirstLeast(Ring, k, |Ring|)) && next == old(Ring)[k]
      ensures k >= 0 ==> next.Vruntime < UINT64_MAX && forall t :: t in Ring && t.State == Ready ==>
        next.Vruntime <= t.Vruntime
      ensures k >= 0 ==> BeatsFirst(next, Ring, k) && old(Ring[k].State) == Ready
      ensures k >= 0 ==> Ring == old(Ring)[..k] + old(Ring)[k + 1..] && !next.OnRunQueue
      ensures forall t :: t in old(Ring) && t != next ==> t.State == old(t.State)
      ensures next != idle ==> idle.State == old(idle.State)
    {
      hide Sum, NoDup, Circular, Weights, Without, IndexOf;
      var best, b := RqPickMinVruntimeLocked();
      if best != null {
        MemberSplice(b);
        var removed := RqDelLocked(best);
        SetState(best, Running);
        next, k := best, b;
      } else {
        SetState(idle, Running);
        next, k := idle, -1;
      }
    }

    method SetCurrent(t: Task)
      requires Valid()
      modifies `CurrentTask
      ensures Valid() && CurrentTask == t
    {
      CurrentTask := t;
    }

    /** The queue after the running task went back to it. */
    ghost function Requeued(): seq<Task>
      requires CurrentTask != null
      reads this, CurrentTask
    {
      if CurrentTask.State == Running && !CurrentTask.OnRunQueue then Ring + [CurrentTask] else Ring
    }

    /** The vruntime the running task has once it is requeued. */
    ghost function RequeuedVruntime(): nat
      requires CurrentTask != null
      reads this, CurrentTask
    {
      if CurrentTask.State == Running && !CurrentTask.OnRunQueue && CurrentTask.Vruntime < MinVruntime then MinVruntime
      else CurrentTask.Vruntime
    }

    /** The first half of ScheduleFromIsr: requeue the running task and charge it. */
    method PutBack(now: nat)
      requires Valid() && CurrentTask != null && (CurrentTask.OnRunQueue ==> CurrentTask in Ring)
      modifies `RunQueue, `RunQueueCount, `Load, `Ring, `LastAccountTick, `SchedFracRemainder, `MinVruntime
      modifies CurrentTask, Ring`RunNext
      ensures Valid() && LastAccountTick == now && Ring == old(Requeued())
      ensures Ring == old(Ring) || Ring == old(Ring) + [CurrentTask]
      ensures now <= old(LastAccountTick) ==>
        CurrentTask.Vruntime == old(RequeuedVruntime()) && SchedFracRemainder == old(SchedFracRemainder)
          && MinVruntime == old(MinVruntime)
      ensures now > old(LastAccountTick) ==>
        var (dv, frac) := Charge(now - old(LastAccountTick), old(CurrentTask.Weight), old(SchedFracRemainder));
        CurrentTask.Vruntime == Add64(old(RequeuedVruntime()), dv) && SchedFracRemainder == frac
      ensures MinVruntime == old(MinVruntime) || MinVruntime == CurrentTask.Vruntime < old(MinVruntime)
      ensures CurrentTask.State == if old(CurrentTask.State) == Running then Ready else old(CurrentTask.State)
      ensures CurrentTask.Weight == old(CurrentTask.Weight) && (CurrentTask.OnRunQueue <==> CurrentTask in Ring)
    {
      hide NoDup, Sum, Charge, Add64, Circular;
      var cur: Task := CurrentTask;
      Requeue(cur);
      Account(cur, now);
    }

    /** ScheduleFromIsr on a CPU with a running task: requeue it, charge it, run the queued task of least vruntime.
        idle is the CPU's idle task, or InitTask when it has none. */
    method ScheduleFromIsr(now: nat, idle: Task) returns (ghost k: int)
      requires Valid() && CurrentTask != null && (CurrentTask.OnRunQueue ==> CurrentTask in Ring)
      modifies this, CurrentTask, Ring, idle`State
      ensures Valid() && CurrentTask != null && CurrentTask.State == Running && LastAccountTick == now
      ensures now <= old(LastAccountTick) ==>
        old(CurrentTask).Vruntime == old(RequeuedVruntime()) && SchedFracRemainder == old(SchedFracRemainder)
          && MinVruntime == old(MinVruntime)
      ensures now > old(LastAccountTick) ==>
        var (dv, frac) := Charge(now - old(LastAccountTick), old(CurrentTask.Weight), old(SchedFracRemainder));
        old(CurrentTask).Vruntime == Add64(old(RequeuedVruntime()), dv) && SchedFracRemainder == frac
      ensures MinVruntime == old(MinVruntime) || MinVruntime == old(CurrentTask).Vruntime < old(MinVruntime)
      ensures k >= 0 ==> k < |old(Requeued())| && CurrentTask == old(Requeued())[k] && !CurrentTask.OnRunQueue
      ensures k >= 0 ==> Ring == old(Requeued())[..k] + old(Requeued())[k + 1..] && CurrentTask.Vruntime < UINT64_MAX
      ensures k >= 0 ==> forall t :: t in Ring && t.State == Ready ==> CurrentTask.Vruntime <= t.Vruntime
      ensures k >= 0 ==> BeatsFirst(CurrentTask, Ring, k)
      ensures k >= 0 ==> CurrentTask == old(CurrentTask) || old(Requeued()[k].State) == Ready
      ensures k < 0 ==> CurrentTask == idle && Ring == old(Requeued()) && NoneReady(Ring, |Ring|)
      ensures old(CurrentTask).OnRunQueue ==> old(CurrentTask) in Ring
      ensures forall t :: t in old(Ring) || t == old(CurrentTask) ==> t.Weight == old(t.Weight)
      ensures forall t :: t in old(Ring) && t != old(CurrentTask) ==> t.Vruntime == old(t.Vruntime)
      ensures forall t :: t in old(Ring) && t != old(CurrentTask) && t != CurrentTask ==> t.State == old(t.State)
      ensures old(CurrentTask) != CurrentTask ==>
        old(CurrentTask).State == if old(CurrentTask.State) == Running then Ready else old(CurrentTask.State)
    {
      hide NoDup, Sum, Charge, Add64, Circular, RequeuedVruntime, Requeued, FirstLeast, NoneReady, Weights;
      PutBack(now);
      var next;
      next, k := TakeNext(idle);
      SetCurrent(next);
    }

    /** The idle task starts at the one vruntime that is never picked. Its first charge wraps that around, so it is
        picked again, before every READY task of a vruntime above the time it has run. */
    method FirstTickOfIdle(now: nat, idle: Task)
      requires Valid() && CurrentTask == idle && idle.State == Running && !idle.OnRunQueue
      requires idle.Weight == 1 && idle.Vruntime == UINT64_MAX && MinVruntime <= UINT64_MAX
      requires LastAccountTick < now && NICE_0_WEIGHT * (now - LastAccountTick) + SchedFracRemainder <= UINT64_MAX
      modifies this, idle, Ring
      ensures Valid() && idle.Vruntime == NICE_0_WEIGHT * (now - old(LastAccountTick)) + old(SchedFracRemainder) - 1
      ensures CurrentTask == idle <==> forall t :: t in old(Ring) && old(t.State) == Ready ==>
        idle.Vruntime < old(t.Vruntime)
    {
      hide NoDup, Sum, Add64, Circular, Weights;
      ghost var ring := Ring + [idle];
      IdleWraps(NICE_0_WEIGHT * (now - LastAccountTick) + SchedFracRemainder);
      ghost var k := ScheduleFromIsr(now, idle);
      assert forall i :: 0 <= i < |old(Ring)| ==> ring[i] == old(Ring)[i] && ring[i] != idle;
      if k == |ring| - 1 {
        assert Ring == old(Ring);
      } else if k >= 0 {
        assert ring[k] in old(Ring);
        assert idle in Ring by { assert Ring[|Ring| - 1] == idle; }
      } else {
        assert ring[|ring| - 1] == idle;
      }
    }

    lemma IdleWraps(charge: nat)
      requires 0 < charge <= UINT64_MAX
      ensures Add64(UINT64_MAX, charge / 1) == charge - 1
    {
    }
  }

  /** The unsigned 64-bit sum. */
  function Add64(a: nat, b: nat): (r: nat)
    ensures r <= UINT64_MAX
  {
    (a + b) % (UINT64_MAX + 1)
  }

  /** The charge of delta ticks to a task of weight w with carried remainder frac: the added vruntime and the new
      remainder. The product is cut to 64 bits. */
  function Charge(delta: nat, w: nat, frac: nat): (r: (nat, nat))
  {
    var weight := if w != 0 then w else NICE_0_WEIGHT;
    var num := (delta * NICE_0_WEIGHT + frac) % (UINT64_MAX + 1);
    (num / weight, num % weight)
  }

  /** None of the first n members can be picked. */
  ghost predicate NoneReady(ring: seq<Task>, n: nat)
    requires n <= |ring|
    reads ring
  {
    forall i :: 0 <= i < n ==> !(ring[i].State == Ready && ring[i].Vruntime < UINT64_MAX)
  }

  /** Every READY member in front of position k has a greater vruntime than t. */
  ghost predicate BeatsFirst(t: Task, ring: seq<Task>, k: nat)
    reads t, ring
  {
    k <= |ring| && forall i :: 0 <= i < k && ring[i].State == Ready ==> t.Vruntime < ring[i].Vruntime
  }

  /** Member k is the first READY one of least vruntime among the first n. */
  ghost predicate FirstLeast(ring: seq<Task>, k: nat, n: nat)
    requires k < n <= |ring|
    reads ring
  {
    && ring[k].State == Ready && ring[k].Vruntime < UINT64_MAX
    && (forall i :: 0 <= i < n && ring[i].State == Ready ==> ring[k].Vruntime <= ring[i].Vruntime)
    && (forall i :: 0 <= i < k && ring[i].State == Ready ==> ring[k].Vruntime < ring[i].Vruntime)
  }

  /** Both cases of the pointer part of RqDelLocked. */
  method Unlink(tail: Task?, t: Task, ghost ring: seq<Task>) returns (found: bool, newTail: Task?)
    requires Circular(tail, ring) && tail != null
    modifies t`RunNext, ring`RunNext
    ensures found <==> t in ring
    ensures found ==> Circular(newTail, Without(ring, t)) && t.RunNext == null
    ensures !found ==> newTail == tail && Circular(tail, ring) && t.RunNext == old(t.RunNext)
  {
    hide IndexOf;
    if tail == t && t.RunNext == t {
      AloneInRing(t, ring);
      t.RunNext := null;
      return true, null;
    }
    var prev := WalkTo(tail, t, ring);
    if prev == null { return false, tail; }
    newTail := CutOut(tail, prev, t, ring, IndexOf(ring, t));
    found := true;
  }

  lemma AloneInRing(t: Task, ring: seq<Task>)
    requires Circular(t, ring) && t.RunNext == t
    ensures ring == [t] && Without(ring, t) == []
  {
  }

  lemma WeightsWithout(ring: seq<Task>, t: Task)
    requires t in ring
    ensures Sum(Weights(Without(ring, t))) + t.Weight == Sum(Weights(ring))
  {
    var k, w := IndexOf(ring, t), Weights(ring);
    SumSplice(w, k);
    assert Weights(Without(ring, t)) == w[..k] + w[k + 1..];
  }

  /** The do-while walk of RqDelLocked: the predecessor of t in the ring, or null once the walk came round. */
  method WalkTo(tail: Task?, t: Task, ghost ring: seq<Task>) returns (prev: Task?)
    requires Circular(tail, ring) && tail != null
    ensures prev == null <==> t !in ring
    ensures prev != null ==> var k := IndexOf(ring, t); prev == ring[if k == 0 then |ring| - 1 else k - 1]
  {
    var p: Task := tail;
    var it: Task := p.RunNext;
    ghost var k := 0;
    while true
      invariant 0 <= k < |ring| && it == ring[k] && p == ring[if k == 0 then |ring| - 1 else k - 1]
      invariant t !in ring[..k]
      decreases |ring| - k
    {
      if it == t {
        IndexUnique(ring, t, k);
        return p;
      }
      p := it;
      it := it.RunNext;
      if it == tail.RunNext {
        assert k == |ring| - 1;
        assert t !in ring;
        return null;
      }
      k := k + 1;
    }
    return null;
  }

  /** The pointer part of RqDelLocked in a ring of two or more, t being member k. */
  method CutOut(tail: Task?, prev: Task, t: Task, ghost ring: seq<Task>, ghost k: nat) returns (newTail: Task?)
    requires Circular(tail, ring) && |ring| > 1 && k < |ring| && t == ring[k]
    requires prev == ring[if k == 0 then |ring| - 1 else k - 1]
    modifies prev`RunNext, t`RunNext
    ensures Circular(newTail, ring[..k] + ring[k + 1..]) && t.RunNext == null
  {
    ghost var r := ring[..k] + ring[k + 1..];
    prev.RunNext := t.RunNext;
    newTail := if tail == t then prev else tail;
    t.RunNext := null;
    assert |r| == |ring| - 1;
    forall i, j | 0 <= i < j < |r|
      ensures r[i] != r[j]
    {
      assert r[i] == (if i < k then ring[i] else ring[i + 1]) && r[j] == (if j < k then ring[j] else ring[j + 1]);
    }
    forall i | 0 <= i < |r| - 1
      ensures r[i].RunNext == r[i + 1]
    {
      assert r[i] == (if i < k then ring[i] else ring[i + 1])
        && r[i + 1] == (if i + 1 < k then ring[i + 1] else ring[i + 2]);
    }
  }

  /** The pointer part of RqAddLocked; t becomes the tail. */
  method LinkTail(tail: Task?, t: Task, ghost ring: seq<Task>)
    requires Circular(tail, ring) && t !in ring
    modifies t`RunNext, ring`RunNext
    ensures Circular(t, ring + [t])
  {
    if tail == null {
      t.RunNext := t;
    } else {
      t.RunNext := tail.RunNext;
      tail.RunNext := t;
    }
    assert forall i :: 0 <= i < |ring| ==> (ring + [t])[i] == ring[i];
  }
}
