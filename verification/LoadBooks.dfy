/** The loads of the run queues when TaskSetNice runs beside other CPUs (Kernel/Source/Scheduler.c, lines 1407 to 1446).
    Each step is one critical section of a run-queue lock, or one access outside of one; GSchedLock lets one TaskSetNice
    run at a time. */
module LoadBooks {
  import opened Balance

  const TWO_64: nat := 0x1_0000_0000_0000_0000
  const MAX_TASKS: nat := 0x1_0000_0000
  const MAX_WEIGHT: nat := 88761

  datatype Place = Nowhere | Queued(queue: nat)

  /** Where TaskSetNice is. Looked: it has found the task, read its weight and its place. Adjusted: it has taken took
      off the load of that queue and added the new weight. */
  datatype Setting =
    | Idle
    | Looked(task: nat, place: Place, oldW: nat, newW: nat)
    | Adjusted(task: nat, place: Place, oldW: nat, newW: nat, took: nat)

  /** The weight and the place of each task, the load of each queue. */
  datatype Books = Books(weight: seq<nat>, place: seq<Place>, load: seq<nat>, setting: Setting)

  datatype Event = Add(task: nat, queue: nat) | Del(task: nat) | Look(task: nat, nice: int) | Adjust | WriteWeight

  /** A load has 64 bits. */
  function Cut(x: int): (r: nat)
    ensures r < TWO_64
  {
    x % TWO_64
  }

  ghost predicate Shaped(b: Books) {
    && |b.place| == |b.weight| <= MAX_TASKS
    && (forall t :: 0 <= t < |b.weight| ==> b.weight[t] <= MAX_WEIGHT)
    && (forall t :: 0 <= t < |b.place| && b.place[t].Queued? ==> b.place[t].queue < |b.load|)
    && (b.setting != Idle ==>
          && b.setting.task < |b.weight| && b.setting.oldW == b.weight[b.setting.task] && b.setting.newW <= MAX_WEIGHT
          && (b.setting.place.Queued? ==> b.setting.place.queue < |b.load|))
    && (b.setting.Adjusted? ==> b.setting.took <= b.setting.oldW)
  }

  predicate Enabled(b: Books, e: Event) {
    match e
    case Add(t, q) => t < |b.place| && b.place[t] == Nowhere && q < |b.load|
    case Del(t) => t < |b.place| && b.place[t].Queued?
    case Look(t, _) => b.setting == Idle && t < |b.place|
    case Adjust => b.setting.Looked?
    case WriteWeight => b.setting.Adjusted?
  }

  function Next(b: Books, e: Event): Books
    requires Shaped(b) && Enabled(b, e)
  {
    match e
    case Add(t, q) => b.(place := b.place[t := Queued(q)], load := b.load[q := Cut(b.load[q] + b.weight[t])])
    case Del(t) =>
      var q := b.place[t].queue;
      var load: int := b.load[q];
      b.(place := b.place[t := Nowhere], load := b.load[q := Cut(load - b.weight[t])])
    case Look(t, nice) => b.(setting := Looked(t, b.place[t], b.weight[t], NiceToWeight(nice)))
    case Adjust =>
      var s := b.setting;
      if s.place == Nowhere then b.(setting := Adjusted(s.task, s.place, s.oldW, s.newW, 0))
      else
        var load := b.load[s.place.queue];
        var took := if load >= s.oldW then s.oldW else load;
        b.(load := b.load[s.place.queue := Cut(load - took + s.newW)],
           setting := Adjusted(s.task, s.place, s.oldW, s.newW, took))
    case WriteWeight => b.(weight := b.weight[b.setting.task := b.setting.newW], setting := Idle)
  }

  function Share(b: Books, t: nat, q: nat): nat
    requires t < |b.place| && t < |b.weight|
  {
    if b.place[t] == Queued(q) then b.weight[t] else 0
  }

  /** The weights of the tasks below n in the queue. */
  function Held(b: Books, q: nat, n: nat): nat
    requires n <= |b.place| && n <= |b.weight|
  {
    if n == 0 then 0 else Held(b, q, n - 1) + Share(b, n - 1, q)
  }

  function InQueue(b: Books, q: nat): nat
    requires |b.place| == |b.weight|
  {
    Held(b, q, |b.place|)
  }

  /** Every load is the sum of the weights in its queue. */
  ghost predicate Right(b: Books)
    requires |b.place| == |b.weight|
  {
    forall q :: 0 <= q < |b.load| ==> b.load[q] == InQueue(b, q)
  }

  /** What TaskSetNice has added to the load of a queue so far. */
  function Ahead(b: Books, q: nat): int {
    if b.setting.Adjusted? && b.setting.place == Queued(q) then b.setting.newW - b.setting.took else 0
  }

  /** What TaskSetNice will have added to the weights in a queue. */
  function Due(b: Books, q: nat): int
    requires Shaped(b)
  {
    if b.setting.Adjusted? && b.place[b.setting.task] == Queued(q) then b.setting.newW - b.setting.oldW else 0
  }

  /** Every load is off by exactly what TaskSetNice has already done to it. */
  ghost predicate Tracked(b: Books) {
    && Shaped(b)
    && forall q :: 0 <= q < |b.load| ==> b.load[q] == Cut(InQueue(b, q) + Ahead(b, q))
  }

  /** Whether the weight may be written now: the task is where it was looked up, and its whole weight was taken off
      that queue; or it is not queued then and now; or the new weight makes no difference to what was done. */
  predicate Harmless(b: Books)
    requires Shaped(b) && b.setting.Adjusted?
  {
    var s, now := b.setting, b.place[b.setting.task];
    if s.place == now then s.place == Nowhere || s.took == s.oldW
    else (s.place.Queued? ==> s.newW == s.took) && (now.Queued? ==> s.newW == s.oldW)
  }

  // ---- Sums ----

  lemma {:induction false} HeldChange(b: Books, b': Books, q: nat, t: nat, n: nat)
    requires |b.place| == |b.weight| == |b'.place| == |b'.weight| && t < |b.place| && n <= |b.place|
    requires forall u :: 0 <= u < |b.place| && u != t ==> b'.place[u] == b.place[u] && b'.weight[u] == b.weight[u]
    ensures Held(b', q, n) == Held(b, q, n) + if t < n then Share(b', t, q) - Share(b, t, q) else 0
  {
    if n > 0 { HeldChange(b, b', q, t, n - 1); }
  }

  lemma {:induction false} HeldIsSmall(b: Books, q: nat, n: nat)
    requires Shaped(b) && n <= |b.place|
    ensures Held(b, q, n) <= n * MAX_WEIGHT
  {
    if n > 0 { HeldIsSmall(b, q, n - 1); }
  }

  lemma {:induction false} HeldAtLeast(b: Books, q: nat, t: nat, n: nat)
    requires |b.place| == |b.weight| && t < n <= |b.place|
    ensures Held(b, q, n) >= Share(b, t, q)
  {
    if t < n - 1 { HeldAtLeast(b, q, t, n - 1); }
  }

  lemma InQueueIsSmall(b: Books, q: nat)
    requires Shaped(b)
    ensures InQueue(b, q) <= MAX_TASKS * MAX_WEIGHT
  {
    HeldIsSmall(b, q, |b.place|);
    assert |b.place| * MAX_WEIGHT <= MAX_TASKS * MAX_WEIGHT;
  }

  lemma CutSmall(x: int)
    requires 0 <= x < TWO_64
    ensures Cut(x) == x
  {
  }

  lemma CutMore(a: int, d: int)
    ensures Cut(Cut(a) + d) == Cut(a + d)
  {
    var k := a / TWO_64;
    assert a == k * TWO_64 + Cut(a);
    CutShift(Cut(a) + d, k);
  }

  lemma CutShift(x: int, k: int)
    ensures Cut(x + k * TWO_64) == Cut(x)
  {
    var j := x / TWO_64;
    assert x + k * TWO_64 == (j + k) * TWO_64 + Cut(x);
  }

  /** Cutting tells numbers apart that differ by less than 2^64. */
  lemma CutTells(x: int, y: int)
    requires x - y < TWO_64 && y - x < TWO_64
    ensures Cut(x) == Cut(y) <==> x == y
  {
    assert x == x / TWO_64 * TWO_64 + Cut(x) && y == y / TWO_64 * TWO_64 + Cut(y);
    if Cut(x) == Cut(y) {
      assert x - y == (x / TWO_64 - y / TWO_64) * TWO_64;
    }
  }

  // ---- Steps ----

  lemma StepKeepsShape(b: Books, e: Event)
    requires Shaped(b) && Enabled(b, e)
    ensures Shaped(Next(b, e))
  {
    if e.Look? { WeightIsSmall(e.nice); }
  }

  lemma WeightIsSmall(nice: int)
    ensures NiceToWeight(nice) <= MAX_WEIGHT
  {
    assert forall i :: 0 <= i < |WEIGHTS| ==> WEIGHTS[i] <= MAX_WEIGHT;
  }

  /** Adding a task to a queue or taking it off changes the load as the weights in the queue. */
  lemma MoveTracks(b: Books, e: Event, q: nat)
    requires Tracked(b) && Enabled(b, e) && (e.Add? || e.Del?) && q < |b.load|
    ensures var b' := Next(b, e); b'.load[q] == Cut(InQueue(b', q) + Ahead(b', q))
  {
    hide Cut;
    var b', t := Next(b, e), e.task;
    HeldChange(b, b', q, t, |b.place|);
    CutMore(InQueue(b, q) + Ahead(b, q), Share(b', t, q) - Share(b, t, q));
  }

  /** TaskSetNice finds the load right, whatever it does to it. */
  lemma AdjustTracks(b: Books, q: nat)
    requires Tracked(b) && b.setting.Looked? && q < |b.load|
    ensures var b' := Next(b, Adjust);
      && b'.load[q] == Cut(InQueue(b', q) + Ahead(b', q))
      && (b.setting.place == Queued(q) && b.place[b.setting.task] == Queued(q) ==> b'.setting.took == b.setting.oldW)
  {
    hide Cut;
    var b' := Next(b, Adjust);
    HeldChange(b, b', q, b.setting.task, |b.place|);
    InQueueIsSmall(b, q);
    CutSmall(InQueue(b, q));
    HeldAtLeast(b, q, b.setting.task, |b.place|);
  }

  lemma WriteChangesShare(b: Books, q: nat)
    requires Tracked(b) && b.setting.Adjusted? && q < |b.load|
    ensures var b' := Next(b, WriteWeight);
      InQueue(b', q) == InQueue(b, q) + Due(b, q) && (b'.load[q] == InQueue(b', q) <==> Ahead(b, q) == Due(b, q))
  {
    hide Cut;
    var b' := Next(b, WriteWeight);
    HeldChange(b, b', q, b.setting.task, |b.place|);
    StepKeepsShape(b, WriteWeight);
    InQueueIsSmall(b, q);
    InQueueIsSmall(b', q);
    CutSmall(InQueue(b', q));
    CutTells(InQueue(b, q) + Ahead(b, q), InQueue(b', q));
  }

  /** Writing the weight leaves the loads right exactly if it is harmless. */
  lemma WriteIsRightIff(b: Books)
    requires Tracked(b) && b.setting.Adjusted?
    ensures Right(Next(b, WriteWeight)) <==> Harmless(b)
  {
    hide InQueue;
    forall q | 0 <= q < |b.load|
      ensures var b' := Next(b, WriteWeight); b'.load[q] == InQueue(b', q) <==> Ahead(b, q) == Due(b, q)
    {
      WriteChangesShare(b, q);
    }
    var s, now := b.setting, b.place[b.setting.task];
    if Right(Next(b, WriteWeight)) {
      assert s.place.Queued? ==> Ahead(b, s.place.queue) == Due(b, s.place.queue);
      assert now.Queued? ==> Ahead(b, now.queue) == Due(b, now.queue);
    }
  }

  lemma RightIsTracked(b: Books)
    requires Shaped(b) && !b.setting.Adjusted?
    ensures Right(b) <==> Tracked(b)
  {
    hide Cut, InQueue;
    forall q | 0 <= q < |b.load|
      ensures Cut(InQueue(b, q) + Ahead(b, q)) == InQueue(b, q)
    {
      InQueueIsSmall(b, q);
      CutSmall(InQueue(b, q));
    }
  }

  lemma StepTracks(b: Books, e: Event)
    requires Tracked(b) && Enabled(b, e)
    ensures var b' := Next(b, e); Tracked(b') <==> e != WriteWeight || Harmless(b)
  {
    hide InQueue, Cut, Harmless;
    StepKeepsShape(b, e);
    match e {
      case Look(_, _) => LookTracks(b, e);
      case WriteWeight =>
        WriteIsRightIff(b);
        RightIsTracked(Next(b, e));
      case Adjust => forall q | 0 <= q < |b.load| { AdjustTracks(b, q); }
      case Add(_, _) => forall q | 0 <= q < |b.load| { MoveTracks(b, e, q); }
      case Del(_) => forall q | 0 <= q < |b.load| { MoveTracks(b, e, q); }
    }
  }

  lemma LookTracks(b: Books, e: Event)
    requires Tracked(b) && Enabled(b, e) && e.Look?
    ensures forall q :: 0 <= q < |b.load| ==>
      InQueue(Next(b, e), q) == InQueue(b, q) && Ahead(Next(b, e), q) == Ahead(b, q)
  {
    forall q | 0 <= q < |b.load|
      ensures InQueue(Next(b, e), q) == InQueue(b, q)
    {
      HeldChange(b, Next(b, e), q, e.task, |b.place|);
    }
  }

  // ---- Runs ----

  ghost predicate Run(states: seq<Books>, events: seq<Event>) {
    && |states| == |events| + 1 && Shaped(states[0])
    && forall n :: 0 <= n < |events| ==> Stepped(states[n], events[n], states[n + 1])
  }

  ghost predicate Stepped(b: Books, e: Event, b': Books) {
    Shaped(b) && Enabled(b, e) && b' == Next(b, e)
  }

  lemma {:induction false} RunKeepsShape(states: seq<Books>, events: seq<Event>, n: nat)
    requires Run(states, events) && n <= |events|
    ensures Shaped(states[n])
  {
    if n > 0 {
      assert Stepped(states[n - 1], events[n - 1], states[n]);
      StepKeepsShape(states[n - 1], events[n - 1]);
    }
  }

  ghost predicate AllHarmless(states: seq<Books>, events: seq<Event>, n: nat)
    requires Run(states, events) && n <= |events|
  {
    forall i :: 0 <= i < n && events[i] == WriteWeight ==> HarmlessAt(states[i])
  }

  ghost predicate HarmlessAt(b: Books) {
    Shaped(b) && b.setting.Adjusted? && Harmless(b)
  }

  ghost predicate AllRight(states: seq<Books>, n: nat)
    requires n < |states|
  {
    forall i :: 0 <= i <= n && states[i].setting == Idle ==> Shaped(states[i]) && Right(states[i])
  }

  /** Over any run of queue operations beside TaskSetNice, every load is the sum of the weights in its queue whenever no
      TaskSetNice is under way, exactly if each write of a weight is harmless. */
  lemma {:induction false} LoadsAreRightIff(states: seq<Books>, events: seq<Event>, n: nat)
    requires Run(states, events) && states[0].setting == Idle && Right(states[0]) && n <= |events|
    ensures AllRight(states, n) <==> AllHarmless(states, events, n)
    ensures AllHarmless(states, events, n) ==> Tracked(states[n])
  {
    hide Right, Harmless, Tracked, Shaped, Next;
    if n == 0 {
      RunKeepsShape(states, events, 0);
      RightIsTracked(states[0]);
    } else {
      LoadsAreRightIff(states, events, n - 1);
      RunKeepsShape(states, events, n);
      assert Stepped(states[n - 1], events[n - 1], states[n]);
      if AllHarmless(states, events, n - 1) { OneMore(states[n - 1], events[n - 1]); }
    }
  }

  lemma OneMore(b: Books, e: Event)
    requires Tracked(b) && Enabled(b, e)
    ensures var b' := Next(b, e);
      && (b'.setting == Idle ==> Shaped(b') && (Right(b') <==> e != WriteWeight || HarmlessAt(b)))
      && (e != WriteWeight || HarmlessAt(b) ==> Tracked(b'))
      && (e == WriteWeight ==> b'.setting == Idle)
  {
    hide Right, Harmless, Tracked;
    TrackedIsShaped(b);
    StepKeepsShape(b, e);
    StepTracks(b, e);
    if !Next(b, e).setting.Adjusted? { RightIsTracked(Next(b, e)); }
  }

  lemma TrackedIsShaped(b: Books)
    requires Tracked(b)
    ensures Shaped(b)
  {
  }

  // ---- When a write is harmless ----

  /** The event moves the task. */
  predicate Moves(e: Event, t: nat) {
    (e.Add? || e.Del?) && e.task == t
  }

  /** TaskSetNice is at work on the task it found in place p, and has taken its whole weight off the queue or nothing
      yet. */
  predicate Undisturbed(b: Books, t: nat, p: Place) {
    && t < |b.place| && b.place[t] == p
    && (b.setting.Looked? || b.setting.Adjusted?) && b.setting.task == t && b.setting.place == p
    && (b.setting.Adjusted? && p.Queued? ==> b.setting.took == b.setting.oldW)
  }

  /** A write is harmless if nothing queued or dequeued the task since it was looked up. */
  lemma {:induction false} UndisturbedIsHarmless(states: seq<Books>, events: seq<Event>, i: nat, k: nat, t: nat,
          p: Place)
    requires Run(states, events) && i < k <= |events| && Tracked(states[i])
    requires events[i].Look? && events[i].task == t && t < |states[i].place| && states[i].place[t] == p
    requires forall j :: i < j < k ==> events[j] != WriteWeight && !Moves(events[j], t)
    ensures Undisturbed(states[k], t, p) && Tracked(states[k])
    ensures states[k].setting.Adjusted? ==> HarmlessAt(states[k])
    decreases k
  {
    hide Tracked, Shaped, Next, Harmless, Undisturbed;
    if k > i + 1 { UndisturbedIsHarmless(states, events, i, k - 1, t, p); }
    assert Stepped(states[k - 1], events[k - 1], states[k]);
    TrackedIsShaped(states[k - 1]);
    OneMore(states[k - 1], events[k - 1]);
    if k > i + 1 {
      UndisturbedStays(states[k - 1], events[k - 1], t, p);
    } else {
      LookedIsUndisturbed(states[i], events[i], t, p);
    }
    UndisturbedNow(states[k], t, p);
  }

  lemma LookedIsUndisturbed(b: Books, e: Event, t: nat, p: Place)
    requires Shaped(b) && Enabled(b, e) && e.Look? && e.task == t && t < |b.place| && b.place[t] == p
    ensures Undisturbed(Next(b, e), t, p)
  {
  }

  lemma UndisturbedNow(b: Books, t: nat, p: Place)
    requires Tracked(b) && Undisturbed(b, t, p)
    ensures b.setting.Adjusted? ==> HarmlessAt(b)
  {
  }

  lemma UndisturbedStays(b: Books, e: Event, t: nat, p: Place)
    requires Tracked(b) && Enabled(b, e) && Undisturbed(b, t, p) && !Moves(e, t) && e != WriteWeight
    ensures Undisturbed(Next(b, e), t, p)
  {
    if e == Adjust && p.Queued? { AdjustTracks(b, p.queue); }
  }

  /** A task dequeued between the change of the load and the write of the weight leaves its queue with the difference
      of the two weights, cut to 64 bits. */
  lemma DequeueInWindow(b: Books, t: nat, nice: int) returns (states: seq<Books>)
    requires Tracked(b) && b.setting == Idle && t < |b.place| && b.place[t].Queued?
    ensures Run(states, [Look(t, nice), Adjust, Del(t), WriteWeight]) && states[0] == b
    ensures var q, newW := b.place[t].queue, NiceToWeight(nice);
      && Shaped(states[4])
      && states[4].load == b.load[q := Cut(InQueue(states[4], q) + newW - b.weight[t])]
      && (Right(states[4]) <==> newW == b.weight[t])
  {
    hide Cut, Tracked, InQueue, NiceToWeight;
    TrackedIsShaped(b);
    var e0, e2 := Look(t, nice), Del(t);
    var s1 := Next(b, e0);
    OneMore(b, e0);
    TrackedIsShaped(s1);
    var s2 := Next(s1, Adjust);
    OneMore(s1, Adjust);
    AdjustTracks(s1, b.place[t].queue);
    TrackedIsShaped(s2);
    var s3 := Next(s2, e2);
    OneMore(s2, e2);
    TrackedIsShaped(s3);
    var s4 := Next(s3, WriteWeight);
    OneMore(s3, WriteWeight);
    WriteChangesShare(s3, b.place[t].queue);
    states := [b, s1, s2, s3, s4];
    assert Stepped(b, e0, s1) && Stepped(s1, Adjust, s2) && Stepped(s2, e2, s3) && Stepped(s3, WriteWeight, s4);
    TrackedAt(s3, b.place[t].queue);
    WriteIsRightIff(s3);
  }

  lemma TrackedAt(b: Books, q: nat)
    requires Tracked(b) && q < |b.load|
    ensures b.load[q] == Cut(InQueue(b, q) + Ahead(b, q))
  {
  }
}
