/** The spin locks of Kernel/Source/Scheduler.c as a state machine: which lock each path takes and in what order, what
    it does to the interrupt flag, what it changes while it holds them, and when the CPUs cannot wait for each other
    forever. Lock 0 is GSchedLock, lock i + 1 is the run-queue lock of CPU i. */
module LockOrder {
  /** What the paths look at and change: the lists of all tasks and of zombies; the run queue of a CPU with its count
      and load; and the least vruntime of a CPU with the vruntimes of the tasks it has. */
  datatype Part = Tasks | Ring(cpu: nat) | Clock(cpu: nat)

  /** SpinLockAcquireIrq turns interrupts off; SpinLockReleaseIrq restores the flag saved by its acquire. Touch is
      one piece of work on these parts. Return is the end of an interrupt handler, which was entered with interrupts
      on. */
  datatype Op = Acquire(lock: nat) | Release(lock: nat, restored: bool) | Touch(parts: set<Part>) | Return

  /** A CPU, the locks it holds, the operations still ahead of it, and its interrupt flag. */
  datatype Cpu = Cpu(held: set<nat>, todo: seq<Op>, interrupts: bool)

  const GLOBAL: nat := 0

  function Queue(cpu: nat): nat {
    cpu + 1
  }

  /** One critical section of one lock, entered with the interrupt flag on. */
  function Alone(lock: nat, parts: set<Part>, on: bool): seq<Op> {
    [Acquire(lock), Touch(parts), Release(lock, on)]
  }

  /** What a queue needs to take a task in or to have one chosen. */
  function Whole(cpu: nat): set<Part> {
    {Ring(cpu), Clock(cpu)}
  }

  /** LockTwoPrqs for two queues: the smaller index first. */
  function LockTwo(a: nat, b: nat): seq<Op> {
    if a < b then [Acquire(Queue(a)), Acquire(Queue(b))] else [Acquire(Queue(b)), Acquire(Queue(a))]
  }

  /** UnlockTwoPrqs: a first. The lock taken first saved the caller's flag, so when a < b that flag is back while b is
      still held, and the release of b leaves interrupts off. */
  function UnlockTwo(a: nat, b: nat, on: bool): seq<Op> {
    [Release(Queue(a), a < b && on), Release(Queue(b), b < a && on)]
  }

  datatype Call =
    | Tick(cpu: nat, requeue: bool, steal: bool, victim: nat)   // ScheduleFromIsr
    | Steal(cpu: nat, victim: nat)                              // SchedIdleBalance from the idle loop
    | Kill(queued: bool, cpu: nat)                              // SchedulerKill and TaskExit
    | SetNice(queued: bool, cpu: nat)
    | Migrate(from: nat, removed: bool, to: nat)
    | SetAffinity(moves: bool, from: nat, removed: bool, to: nat)
    | Block(cpu: nat)
    | Wakeup(cpu: nat)
    | GlobalOnly                                                // TaskList, TaskGetNice, SchedGetAffinity, ReapZombies

  function StealPath(cpu: nat, victim: nat, on: bool): seq<Op> {
    if cpu == victim then []
    else LockTwo(cpu, victim) + [Touch(Whole(cpu) + Whole(victim))] + UnlockTwo(cpu, victim, on)
  }

  /** GSchedLock, and inside it the lock of the queue the task is in. */
  function Nested(inner: bool, cpu: nat, on: bool): seq<Op> {
    if inner then
      [Acquire(GLOBAL), Touch({Tasks}), Acquire(Queue(cpu)), Touch({Ring(cpu)}), Release(Queue(cpu), false),
       Touch({Tasks}), Release(GLOBAL, on)]
    else Alone(GLOBAL, {Tasks}, on)
  }

  function MigratePath(from: nat, removed: bool, to: nat, on: bool): seq<Op> {
    Alone(Queue(from), {Ring(from)}, on) + if removed then Alone(Queue(to), Whole(to), on) else []
  }

  /** The lock operations of each scheduler entry point, in program order, when it is entered with the flag on. */
  function Path(call: Call, on: bool): seq<Op> {
    match call
    case Tick(cpu, requeue, steal, victim) =>
      (if requeue then Alone(Queue(cpu), Whole(cpu), on) else []) + Alone(GLOBAL, {Clock(cpu)}, on)
      + Alone(Queue(cpu), Whole(cpu), on) + (if steal then StealPath(cpu, victim, on) else [])
    case Steal(cpu, victim) => StealPath(cpu, victim, on)
    case Kill(queued, cpu) => Alone(GLOBAL, {Tasks}, on) + Nested(queued, cpu, on)
    case SetNice(queued, cpu) => Nested(queued, cpu, on)
    case Migrate(from, removed, to) => MigratePath(from, removed, to, on)
    case SetAffinity(moves, from, removed, to) =>
      Alone(GLOBAL, {Tasks}, on) + if moves then MigratePath(from, removed, to, on) else []
    case Block(cpu) => Alone(Queue(cpu), {Ring(cpu)}, on)
    case Wakeup(cpu) => Alone(Queue(cpu), Whole(cpu), on)
    case GlobalOnly => Alone(GLOBAL, {Tasks}, on)
  }

  /** What each call has to work on, piece by piece: a tick puts its task back, charges it and picks the next; a steal
      moves a task between two queues at once, a migration in two pieces. */
  function Work(call: Call): seq<set<Part>> {
    match call
    case Tick(cpu, requeue, steal, victim) =>
      (if requeue then [{Ring(cpu), Clock(cpu)}] else []) + [{Clock(cpu)}, {Ring(cpu), Clock(cpu)}]
      + (if steal then StealWork(cpu, victim) else [])
    case Steal(cpu, victim) => StealWork(cpu, victim)
    case Kill(queued, cpu) => [{Tasks}, {Tasks}] + if queued then [{Ring(cpu)}, {Tasks}] else []
    case SetNice(queued, cpu) => [{Tasks}] + if queued then [{Ring(cpu)}, {Tasks}] else []
    case Migrate(from, removed, to) => MigrateWork(from, removed, to)
    case SetAffinity(moves, from, removed, to) => [{Tasks}] + if moves then MigrateWork(from, removed, to) else []
    case Block(cpu) => [{Ring(cpu)}]
    case Wakeup(cpu) => [{Ring(cpu), Clock(cpu)}]
    case GlobalOnly => [{Tasks}]
  }

  function StealWork(cpu: nat, victim: nat): seq<set<Part>> {
    if cpu == victim then [] else [{Ring(cpu), Clock(cpu), Ring(victim), Clock(victim)}]
  }

  function MigrateWork(from: nat, removed: bool, to: nat): seq<set<Part>> {
    [{Ring(from)}] + if removed then [{Ring(to), Clock(to)}] else []
  }

  /** The pieces of work of a path, in order. */
  function WorkOf(todo: seq<Op>): seq<set<Part>> {
    if todo == [] then [] else WorkIn(todo[0]) + WorkOf(todo[1..])
  }

  function WorkIn(op: Op): seq<set<Part>> {
    if op.Touch? then [op.parts] else []
  }

  /** These locks allow to touch the part: a run queue only under its own lock, but the clock under either. */
  predicate Allows(held: set<nat>, p: Part) {
    match p
    case Tasks => GLOBAL in held
    case Ring(cpu) => Queue(cpu) in held
    case Clock(cpu) => Queue(cpu) in held || GLOBAL in held
  }

  /** The call steals from a CPU with a greater index. */
  predicate StealsUp(call: Call) {
    match call
    case Tick(cpu, _, steal, victim) => steal && cpu < victim
    case Steal(cpu, victim) => cpu < victim
    case _ => false
  }

  /** From these held locks the operations take only greater locks, release only held ones, touch only what the held
      ones allow, and return from an interrupt and end with none. */
  predicate Ordered(held: set<nat>, todo: seq<Op>)
    decreases |todo|
  {
    if todo == [] then held == {}
    else match todo[0]
      case Acquire(l) => (forall h :: h in held ==> h < l) && Ordered(held + {l}, todo[1..])
      case Release(l, _) => l in held && Ordered(held - {l}, todo[1..])
      case Touch(parts) => (forall p :: p in parts ==> Allows(held, p)) && Ordered(held, todo[1..])
      case Return => held == {} && Ordered(held, todo[1..])
  }

  /** From these held locks the operations turn interrupts on only when nothing is held. */
  predicate Guarded(held: set<nat>, todo: seq<Op>)
    decreases |todo|
  {
    if todo == [] then true
    else match todo[0]
      case Acquire(l) => Guarded(held + {l}, todo[1..])
      case Release(l, restored) => (restored ==> held - {l} == {}) && Guarded(held - {l}, todo[1..])
      case _ => Guarded(held, todo[1..])
  }

  /** The interrupt flag behind these operations. */
  function FlagAfter(on: bool, todo: seq<Op>): bool
    decreases |todo|
  {
    if todo == [] then on
    else match todo[0]
      case Acquire(_) => FlagAfter(false, todo[1..])
      case Release(_, restored) => FlagAfter(restored, todo[1..])
      case Touch(_) => FlagAfter(on, todo[1..])
      case Return => FlagAfter(true, todo[1..])
  }

  /** One path behind another. */
  lemma Compose(held: set<nat>, on: bool, a: seq<Op>, b: seq<Op>)
    requires Ordered(held, a)
    ensures Ordered({}, b) ==> Ordered(held, a + b)
    ensures Guarded(held, a + b) <==> Guarded(held, a) && Guarded({}, b)
    ensures FlagAfter(on, a + b) == FlagAfter(FlagAfter(on, a), b)
    ensures WorkOf(a + b) == WorkOf(a) + WorkOf(b)
  {
    ComposeLocks(held, a, b);
    ComposeFlags(on, a, b);
    ComposeWork(a, b);
  }

  lemma {:induction false} ComposeLocks(held: set<nat>, a: seq<Op>, b: seq<Op>)
    requires Ordered(held, a)
    ensures Ordered({}, b) ==> Ordered(held, a + b)
    ensures Guarded(held, a + b) <==> Guarded(held, a) && Guarded({}, b)
    decreases |a|
  {
    hide Allows;
    if a == [] {
      assert a + b == b;
    } else {
      Cons(a[0], a[1..] + b);
      assert a + b == [a[0]] + (a[1..] + b);
      match a[0]
      case Acquire(l) => ComposeLocks(held + {l}, a[1..], b);
      case Release(l, restored) => ComposeLocks(held - {l}, a[1..], b);
      case Touch(_) => ComposeLocks(held, a[1..], b);
      case Return => ComposeLocks(held, a[1..], b);
    }
  }

  lemma {:induction false} ComposeFlags(on: bool, a: seq<Op>, b: seq<Op>)
    ensures FlagAfter(on, a + b) == FlagAfter(FlagAfter(on, a), b)
    decreases |a|
  {
    if a == [] {
      assert a + b == b;
    } else {
      assert (a + b)[1..] == a[1..] + b;
      match a[0]
      case Acquire(_) => ComposeFlags(false, a[1..], b);
      case Release(_, restored) => ComposeFlags(restored, a[1..], b);
      case Touch(_) => ComposeFlags(on, a[1..], b);
      case Return => ComposeFlags(true, a[1..], b);
    }
  }

  lemma {:induction false} ComposeWork(a: seq<Op>, b: seq<Op>)
    ensures WorkOf(a + b) == WorkOf(a) + WorkOf(b)
  {
    hide WorkOf, WorkIn;
    WorkUnfolds(a);
    WorkUnfolds(a + b);
    if a == [] {
      assert a + b == b;
    } else {
      ComposeWork(a[1..], b);
      assert (a + b)[1..] == a[1..] + b;
      Grouped(WorkIn(a[0]), WorkOf(a[1..]), WorkOf(b));
    }
  }

  lemma WorkUnfolds(todo: seq<Op>)
    ensures WorkOf(todo) == if todo == [] then [] else WorkIn(todo[0]) + WorkOf(todo[1..])
  {
  }

  lemma Grouped(x: seq<set<Part>>, y: seq<set<Part>>, z: seq<set<Part>>)
    ensures x + (y + z) == (x + y) + z
  {
  }

  /** What is shown of each path: its order, whether it turns interrupts on inside, the flag it returns with, and that
      it does this work. */
  ghost predicate Behaves(p: seq<Op>, on: bool, up: bool, work: seq<set<Part>>) {
    && Ordered({}, p)
    && (Guarded({}, p) <==> !(on && up))
    && FlagAfter(on, p) == (on && !up)
    && WorkOf(p) == work
  }

  lemma Then(a: seq<Op>, b: seq<Op>, on: bool, up: bool, v: seq<set<Part>>, w: seq<set<Part>>)
    requires Behaves(a, on, false, v) && Behaves(b, on, up, w)
    ensures Behaves(a + b, on, up, v + w)
  {
    Compose({}, on, a, b);
  }

  lemma NothingBehaves(on: bool)
    ensures Behaves([], on, false, [])
  {
  }

  /** One operation in front. */
  lemma Cons(op: Op, rest: seq<Op>)
    ensures var p := [op] + rest; p[0] == op && p[1..] == rest
  {
  }

  lemma AloneBehaves(l: nat, parts: set<Part>, on: bool)
    requires forall p :: p in parts ==> Allows({l}, p)
    ensures Behaves(Alone(l, parts, on), on, false, [parts])
  {
    var r := [Release(l, on)];
    LastRelease(l, on, false);
    Cons(Touch(parts), r);
    Cons(Acquire(l), [Touch(parts)] + r);
    assert {} + {l} == {l};
    assert Alone(l, parts, on) == [Acquire(l)] + ([Touch(parts)] + r);
    assert Ordered({l}, [Touch(parts)] + r) && Guarded({l}, [Touch(parts)] + r);
    assert WorkOf([Touch(parts)] + r) == [parts] + WorkOf(r);
  }

  /** Leaving with the second of two locks. */
  lemma LastRelease(l: nat, restored: bool, on: bool)
    ensures var r := [Release(l, restored)];
      Ordered({l}, r) && Guarded({l}, r) && FlagAfter(on, r) == restored && WorkOf(r) == []
  {
    Cons(Release(l, restored), []);
    assert {l} - {l} == {} && Ordered({}, []) && Guarded({}, []);
  }

  lemma NestedBehaves(inner: bool, cpu: nat, on: bool)
    ensures Behaves(Nested(inner, cpu, on), on, false, [{Tasks}] + if inner then [{Ring(cpu)}, {Tasks}] else [])
  {
    if !inner {
      AloneBehaves(GLOBAL, {Tasks}, on);
      return;
    }
    var rest := InnerPart(cpu, on);
    InnerBehaves(cpu, on);
    Cons(Touch({Tasks}), rest);
    Cons(Acquire(GLOBAL), [Touch({Tasks})] + rest);
    assert {} + {GLOBAL} == {GLOBAL};
    assert Nested(inner, cpu, on) == [Acquire(GLOBAL)] + ([Touch({Tasks})] + rest);
    assert WorkOf([Touch({Tasks})] + rest) == [{Tasks}] + WorkOf(rest);
  }

  function InnerPart(cpu: nat, on: bool): seq<Op> {
    [Acquire(Queue(cpu)), Touch({Ring(cpu)}), Release(Queue(cpu), false), Touch({Tasks}), Release(GLOBAL, on)]
  }

  /** Under GSchedLock, the lock of one queue. */
  lemma InnerBehaves(cpu: nat, on: bool)
    ensures var p := InnerPart(cpu, on);
      && Ordered({GLOBAL}, p) && Guarded({GLOBAL}, p) && FlagAfter(false, p) == on
      && WorkOf(p) == [{Ring(cpu)}, {Tasks}]
  {
    var q, r1 := Queue(cpu), [Release(GLOBAL, on)];
    var r2 := [Touch({Tasks})] + r1;
    var r3 := [Release(q, false)] + r2;
    var r4 := [Touch({Ring(cpu)})] + r3;
    LastRelease(GLOBAL, on, false);
    Cons(Touch({Tasks}), r1);
    Cons(Release(q, false), r2);
    Cons(Touch({Ring(cpu)}), r3);
    Cons(Acquire(q), r4);
    assert {GLOBAL} + {q} == {GLOBAL, q} && {GLOBAL, q} - {q} == {GLOBAL};
    assert InnerPart(cpu, on) == [Acquire(q)] + r4;
    assert Ordered({GLOBAL}, r2) && Guarded({GLOBAL}, r2) && FlagAfter(false, r2) == on && WorkOf(r2) == [{Tasks}];
    assert Ordered({GLOBAL, q}, r3) && Guarded({GLOBAL, q}, r3) && FlagAfter(false, r3) == on;
    assert WorkOf(r4) == [{Ring(cpu)}] + WorkOf(r3);
  }

  /** Two locks: the lower one first, released in either order. */
  lemma TwoLocks(l: nat, h: nat, first: nat, second: nat, r1: bool, r2: bool, on: bool, parts: set<Part>)
    requires l < h && {first, second} == {l, h} && first != second
    requires forall p :: p in parts ==> Allows({l, h}, p)
    ensures var p := [Acquire(l), Acquire(h), Touch(parts), Release(first, r1), Release(second, r2)];
      Ordered({}, p) && (Guarded({}, p) <==> !r1) && FlagAfter(on, p) == r2 && WorkOf(p) == [parts]
  {
    var b1 := [Release(second, r2)];
    var b2 := [Release(first, r1)] + b1;
    var b3 := [Touch(parts)] + b2;
    var b4 := [Acquire(h)] + b3;
    var p := [Acquire(l), Acquire(h), Touch(parts), Release(first, r1), Release(second, r2)];
    LastRelease(second, r2, r1);
    Cons(Release(first, r1), b1);
    Cons(Touch(parts), b2);
    Cons(Acquire(h), b3);
    Cons(Acquire(l), b4);
    assert p == [Acquire(l)] + b4;
    assert {} + {l} == {l} && {l} + {h} == {l, h} && {l, h} - {first} == {second};
    assert Ordered({l, h}, b2) && (Guarded({l, h}, b2) <==> !r1) && FlagAfter(false, b2) == r2 && WorkOf(b2) == [];
    assert Ordered({l, h}, b3) && (Guarded({l, h}, b3) <==> !r1) && FlagAfter(false, b3) == r2;
    assert WorkOf(b3) == [parts] + WorkOf(b2);
    assert Ordered({l}, b4) && (Guarded({l}, b4) <==> !r1) && FlagAfter(false, b4) == r2 && WorkOf(b4) == WorkOf(b3);
  }

  lemma StealBehaves(cpu: nat, victim: nat, on: bool)
    ensures Behaves(StealPath(cpu, victim, on), on, cpu < victim, StealWork(cpu, victim))
  {
    var a, b := Queue(cpu), Queue(victim);
    var parts := {Ring(cpu), Clock(cpu), Ring(victim), Clock(victim)};
    assert Whole(cpu) + Whole(victim) == parts;
    if cpu < victim {
      TwoLocks(a, b, a, b, on, false, on, parts);
      assert StealPath(cpu, victim, on) ==
        [Acquire(a), Acquire(b), Touch(parts), Release(a, on), Release(b, false)];
    } else if cpu > victim {
      TwoLocks(b, a, a, b, false, on, on, parts);
      assert StealPath(cpu, victim, on) ==
        [Acquire(b), Acquire(a), Touch(parts), Release(a, false), Release(b, on)];
    } else {
      NothingBehaves(on);
    }
  }

  lemma MigrateBehaves(from: nat, removed: bool, to: nat, on: bool)
    ensures Behaves(MigratePath(from, removed, to, on), on, false, MigrateWork(from, removed, to))
  {
    hide Behaves, Alone;
    AloneBehaves(Queue(from), {Ring(from)}, on);
    AloneBehaves(Queue(to), Whole(to), on);
    NothingBehaves(on);
    Then(Alone(Queue(from), {Ring(from)}, on), if removed then Alone(Queue(to), Whole(to), on) else [], on, false,
         [{Ring(from)}], if removed then [Whole(to)] else []);
  }

  lemma TickBehaves(cpu: nat, requeue: bool, steal: bool, victim: nat, on: bool)
    ensures var call := Tick(cpu, requeue, steal, victim);
      Behaves(Path(call, on), on, steal && cpu < victim, Work(call))
  {
    hide Alone, StealPath, Behaves, StealWork;
    NothingBehaves(on);
    AloneBehaves(GLOBAL, {Clock(cpu)}, on);
    AloneBehaves(Queue(cpu), Whole(cpu), on);
    StealBehaves(cpu, victim, on);
    var p0, w0 := if requeue then Alone(Queue(cpu), Whole(cpu), on) else [], if requeue then [Whole(cpu)] else [];
    var p1, w1 := p0 + Alone(GLOBAL, {Clock(cpu)}, on), w0 + [{Clock(cpu)}];
    var p2, w2 := p1 + Alone(Queue(cpu), Whole(cpu), on), w1 + [Whole(cpu)];
    var p3, w3 := if steal then StealPath(cpu, victim, on) else [], if steal then StealWork(cpu, victim) else [];
    Then(p0, Alone(GLOBAL, {Clock(cpu)}, on), on, false, w0, [{Clock(cpu)}]);
    Then(p1, Alone(Queue(cpu), Whole(cpu), on), on, false, w1, [Whole(cpu)]);
    Then(p2, p3, on, steal && cpu < victim, w2, w3);
    assert w2 == w0 + [{Clock(cpu)}, Whole(cpu)];
  }

  /** Every scheduler path takes GSchedLock before any run-queue lock and run-queue locks in increasing CPU index, and
      does all its work under the locks that allow it. It keeps interrupts off while it holds a lock, and returns with
      the flag it was entered with, unless it was entered with interrupts on and steals from a CPU with a greater
      index: then it does neither. */
  lemma PathsBehave(call: Call, on: bool)
    ensures Behaves(Path(call, on), on, StealsUp(call), Work(call))
  {
    hide Alone, StealPath, Nested, MigratePath, Behaves, StealWork, MigrateWork;
    AloneBehaves(GLOBAL, {Tasks}, on);
    NothingBehaves(on);
    match call {
      case Tick(cpu, requeue, steal, victim) => TickBehaves(cpu, requeue, steal, victim, on);
      case Steal(cpu, victim) => StealBehaves(cpu, victim, on);
      case Kill(queued, cpu) =>
        NestedBehaves(queued, cpu, on);
        var w := [{Tasks}] + if queued then [{Ring(cpu)}, {Tasks}] else [];
        Then(Alone(GLOBAL, {Tasks}, on), Nested(queued, cpu, on), on, false, [{Tasks}], w);
        assert [{Tasks}] + w == Work(call);
      case SetNice(queued, cpu) => NestedBehaves(queued, cpu, on);
      case Migrate(from, removed, to) => MigrateBehaves(from, removed, to, on);
      case SetAffinity(moves, from, removed, to) =>
        MigrateBehaves(from, removed, to, on);
        Then(Alone(GLOBAL, {Tasks}, on), if moves then MigratePath(from, removed, to, on) else [], on, false,
             [{Tasks}], if moves then MigrateWork(from, removed, to) else []);
      case Block(cpu) => AloneBehaves(Queue(cpu), {Ring(cpu)}, on);
      case Wakeup(cpu) => AloneBehaves(Queue(cpu), Whole(cpu), on);
      case GlobalOnly =>
    }
  }

  /** What can happen next: a CPU performs its next operation, enters the scheduler from its own code or by an
      interrupt on top of what it was doing, or its own code sets the interrupt flag. */
  datatype Event =
    | Step(cpu: nat)
    | Enter(cpu: nat, call: Call)
    | Interrupt(cpu: nat, call: Call)
    | SetFlag(cpu: nat, on: bool)

  predicate Free(s: seq<Cpu>, l: nat) {
    forall c :: 0 <= c < |s| ==> l !in s[c].held
  }

  /** A CPU whose next acquire finds the lock taken spins and cannot step. */
  predicate CanStep(s: seq<Cpu>, c: nat)
    requires c < |s|
  {
    s[c].todo != [] && (s[c].todo[0].Acquire? ==> Free(s, s[c].todo[0].lock))
  }

  function Do(s: seq<Cpu>, c: nat): seq<Cpu>
    requires c < |s| && s[c].todo != []
  {
    s[c := Advance(s[c])]
  }

  function Advance(me: Cpu): Cpu
    requires me.todo != []
  {
    match me.todo[0]
    case Acquire(l) => Cpu(me.held + {l}, me.todo[1..], false)
    case Release(l, restored) => Cpu(me.held - {l}, me.todo[1..], restored)
    case Touch(_) => me.(todo := me.todo[1..])
    case Return => Cpu(me.held, me.todo[1..], true)
  }

  /** The CPU is in no scheduler path, though perhaps in an interrupt handler. */
  predicate OwnCode(cpu: Cpu) {
    cpu.todo == [] || cpu.todo[0] == Return
  }

  /** An event that the program order and the interrupt flag permit. */
  predicate Enabled(s: seq<Cpu>, e: Event) {
    match e
    case Step(c) => c < |s| && CanStep(s, c)
    case Enter(c, _) => c < |s| && OwnCode(s[c])
    case Interrupt(c, _) => c < |s| && s[c].interrupts
    case SetFlag(c, _) => c < |s| && s[c].todo == []
  }

  function Next(s: seq<Cpu>, e: Event): seq<Cpu>
    requires Enabled(s, e)
  {
    match e
    case Step(c) => Do(s, c)
    case Enter(c, call) => s[c := s[c].(todo := Path(call, s[c].interrupts) + s[c].todo)]
    case Interrupt(c, call) => s[c := s[c].(todo := Path(call, false) + ([Return] + s[c].todo), interrupts := false)]
    case SetFlag(c, on) => s[c := s[c].(interrupts := on)]
  }

  function Quiet(n: nat): seq<Cpu> {
    seq(n, _ => Cpu({}, [], true))
  }

  /** Interrupts come only outside critical sections. */
  predicate Between(s: seq<Cpu>, e: Event) {
    e.Interrupt? && e.cpu < |s| ==> s[e.cpu].held == {}
  }

  /** A call made with interrupts on that steals from a CPU with a greater index. */
  predicate Risky(s: seq<Cpu>, e: Event) {
    e.Enter? && e.cpu < |s| && s[e.cpu].interrupts && StealsUp(e.call)
  }

  /** The states a run of n CPUs goes through. */
  ghost predicate Run(n: nat, states: seq<seq<Cpu>>, events: seq<Event>) {
    && |states| == |events| + 1 && states[0] == Quiet(n)
    && forall k :: 0 <= k < |events| ==> Enabled(states[k], events[k]) && states[k + 1] == Next(states[k], events[k])
  }

  ghost predicate Invariant(s: seq<Cpu>) {
    && (forall c :: 0 <= c < |s| ==> Ordered(s[c].held, s[c].todo))
    && (forall c, d :: 0 <= c < d < |s| ==> s[c].held !! s[d].held)
  }

  /** Interrupts are off wherever a lock is held, now and until all paths are done. */
  ghost predicate Covered(s: seq<Cpu>) {
    forall c :: 0 <= c < |s| ==> (s[c].interrupts ==> s[c].held == {}) && Guarded(s[c].held, s[c].todo)
  }

  lemma QuietIsFine(n: nat)
    ensures Invariant(Quiet(n)) && Covered(Quiet(n))
  {
    assert Ordered({}, []) && Guarded({}, []);
  }

  /** One CPU changes to a state that fits the others. */
  lemma OneChanges(s: seq<Cpu>, c: nat, x: Cpu)
    requires Invariant(s) && c < |s| && Ordered(x.held, x.todo) && forall d :: 0 <= d < |s| && d != c ==>
      x.held !! s[d].held
    ensures Invariant(s[c := x])
    ensures Covered(s) && (x.interrupts ==> x.held == {}) && Guarded(x.held, x.todo) ==> Covered(s[c := x])
  {
  }

  lemma StepFits(s: seq<Cpu>, c: nat)
    requires Invariant(s) && c < |s| && CanStep(s, c)
    ensures s[c].todo != []
    ensures var x := Advance(s[c]);
      && Ordered(x.held, x.todo) && (forall d :: 0 <= d < |s| && d != c ==> x.held !! s[d].held)
      && (Guarded(s[c].held, s[c].todo) && (s[c].interrupts ==> s[c].held == {}) ==>
            Guarded(x.held, x.todo) && (x.interrupts ==> x.held == {}))
  {
    assert Ordered(s[c].held, s[c].todo);
    assert forall d :: 0 <= d < |s| && d != c ==> s[c].held !! s[d].held;
  }

  /** Every event that does not interrupt a critical section keeps exclusion and order, and every event that is not
      risky keeps interrupts off wherever a lock is held. */
  lemma NextKeepsInvariant(s: seq<Cpu>, e: Event)
    requires Invariant(s) && Enabled(s, e) && Between(s, e)
    ensures Invariant(Next(s, e))
    ensures Covered(s) && !Risky(s, e) ==> Covered(Next(s, e))
  {
    hide Path, Ordered, Guarded, CanStep, Advance;
    var c := e.cpu;
    InvariantAt(s, c);
    match e {
      case Step(_) =>
        StepFits(s, c);
        OneChanges(s, c, Advance(s[c]));
      case Enter(_, call) =>
        PathsBehave(call, s[c].interrupts);
        Compose({}, true, Path(call, s[c].interrupts), s[c].todo);
        OneChanges(s, c, Next(s, e)[c]);
      case Interrupt(_, call) =>
        PathsBehave(call, false);
        ReturnThen(s[c].todo);
        Compose({}, true, Path(call, false), [Return] + s[c].todo);
        OneChanges(s, c, Next(s, e)[c]);
      case SetFlag(_, on) =>
        OneChanges(s, c, Next(s, e)[c]);
    }
  }

  lemma InvariantAt(s: seq<Cpu>, c: nat)
    requires Invariant(s) && c < |s|
    ensures Ordered(s[c].held, s[c].todo) && (OwnCode(s[c]) ==> s[c].held == {})
    ensures forall d :: 0 <= d < |s| && d != c ==> s[c].held !! s[d].held
    ensures Covered(s) ==> Guarded(s[c].held, s[c].todo) && (s[c].interrupts ==> s[c].held == {})
  {
  }

  lemma ReturnThen(todo: seq<Op>)
    ensures Ordered({}, [Return] + todo) <==> Ordered({}, todo)
    ensures Guarded({}, [Return] + todo) <==> Guarded({}, todo)
  {
    assert ([Return] + todo)[1..] == todo;
  }

  /** Mutual exclusion and the lock order hold in every state reached when interrupts come between critical sections. */
  lemma {:induction false} ReachableInvariant(n: nat, states: seq<seq<Cpu>>, events: seq<Event>, k: nat)
    requires Run(n, states, events) && k <= |events|
    requires forall j :: 0 <= j < k ==> Between(states[j], events[j])
    ensures Invariant(states[k]) && |states[k]| == n
  {
    QuietIsFine(n);
    if k > 0 {
      ReachableInvariant(n, states, events, k - 1);
      NextKeepsInvariant(states[k - 1], events[k - 1]);
    }
  }

  /** If no call made with interrupts on steals from a greater CPU, interrupts are off wherever a lock is held, so they
      do come only between critical sections. */
  lemma {:induction false} NothingRisky(n: nat, states: seq<seq<Cpu>>, events: seq<Event>, k: nat)
    requires Run(n, states, events) && k <= |events|
    requires forall j :: 0 <= j < k ==> !Risky(states[j], events[j])
    ensures Invariant(states[k]) && Covered(states[k]) && |states[k]| == n
    ensures forall j :: 0 <= j < k ==> Between(states[j], events[j])
  {
    QuietIsFine(n);
    if k > 0 {
      NothingRisky(n, states, events, k - 1);
      assert Between(states[k - 1], events[k - 1]);
      NextKeepsInvariant(states[k - 1], events[k - 1]);
    }
  }

  /** The locks a CPU will still ask for are below m. */
  ghost predicate LocksBelow(s: seq<Cpu>, m: nat) {
    forall c, k :: 0 <= c < |s| && 0 <= k < |s[c].todo| ==> Wanted(s[c].todo[k]) < m
  }

  function Wanted(op: Op): nat {
    match op
    case Acquire(l) => l
    case _ => 0
  }

  /** Follow the waiting: whoever holds the lock c wants waits, if at all, for a greater one. */
  lemma {:induction false} SomeoneSteps(s: seq<Cpu>, c: nat, m: nat) returns (d: nat)
    requires Invariant(s) && LocksBelow(s, m) && c < |s| && s[c].todo != []
    ensures d < |s| && CanStep(s, d)
    decreases m - Wanted(s[c].todo[0])
  {
    if CanStep(s, c) { return c; }
    var l := s[c].todo[0].lock;
    var h :| 0 <= h < |s| && l in s[h].held;
    assert Ordered(s[h].held, s[h].todo);
    if CanStep(s, h) { return h; }
    d := SomeoneSteps(s, h, m);
  }

  function Bound(s: seq<Cpu>): nat
    ensures LocksBelow(s, Bound(s))
  {
    if s == [] then 1
    else
      var b, t := Bound(s[..|s| - 1]), TodoBound(s[|s| - 1].todo);
      if b < t then t else b
  }

  function TodoBound(todo: seq<Op>): (b: nat)
    ensures forall k :: 0 <= k < |todo| ==> Wanted(todo[k]) < b
  {
    if todo == [] then 0
    else
      var b := TodoBound(todo[..|todo| - 1]);
      if b <= Wanted(todo[|todo| - 1]) then Wanted(todo[|todo| - 1]) + 1 else b
  }

  /** Some CPU is inside a path and every CPU that is waits for a lock. */
  ghost predicate Deadlocked(s: seq<Cpu>) {
    (exists c :: 0 <= c < |s| && s[c].todo != []) && forall c :: 0 <= c < |s| ==> !CanStep(s, c)
  }

  /** Deadlock freedom: in every state any number of CPUs can reach with interrupts between critical sections, if some
      CPU is inside a scheduler path then some CPU can perform its next operation. */
  lemma NoDeadlock(n: nat, states: seq<seq<Cpu>>, events: seq<Event>)
    requires Run(n, states, events) && forall j :: 0 <= j < |events| ==> Between(states[j], events[j])
    ensures !Deadlocked(states[|events|])
  {
    ReachableInvariant(n, states, events, |events|);
    var s := states[|events|];
    if c :| 0 <= c < |s| && s[c].todo != [] {
      var d := SomeoneSteps(s, c, Bound(s));
    }
  }

  /** The only steals from a greater CPU with interrupts on are by a thief and from a victim in the set. */
  ghost predicate StealsAmong(states: seq<seq<Cpu>>, events: seq<Event>, pairs: set<(nat, nat)>)
    requires |states| == |events| + 1
  {
    forall j :: 0 <= j < |events| && Risky(states[j], events[j]) ==> ThiefAndVictim(events[j].call) in pairs
  }

  function ThiefAndVictim(call: Call): (nat, nat) {
    match call
    case Tick(cpu, _, _, victim) => (cpu, victim)
    case Steal(cpu, victim) => (cpu, victim)
    case _ => (0, 0)
  }

  ghost predicate DeadlockFree(n: nat, pairs: set<(nat, nat)>) {
    forall states, events :: Run(n, states, events) && StealsAmong(states, events, pairs) ==>
      !Deadlocked(states[|events|])
  }

  /** Under the interrupt flag alone, n CPUs can never deadlock if and only if no CPU steals from one with a greater
      index while its interrupts are on. */
  lemma DeadlockFreeIff(n: nat, pairs: set<(nat, nat)>)
    requires forall p :: p in pairs ==> p.0 < n && p.1 < n
    ensures DeadlockFree(n, pairs) <==> forall p :: p in pairs ==> p.1 <= p.0
  {
    if p :| p in pairs && p.0 < p.1 {
      var states, events := StealUpDeadlocks(n, p.0, p.1);
      assert StealsAmong(states, events, pairs);
    } else {
      forall states, events | Run(n, states, events) && StealsAmong(states, events, pairs)
        ensures !Deadlocked(states[|events|])
      {
        forall j | 0 <= j < |events|
          ensures !Risky(states[j], events[j])
        {
        }
        NothingRisky(n, states, events, |events|);
        NoDeadlock(n, states, events);
      }
    }
  }

  /** n CPUs of which all but a and b are outside the scheduler. */
  function Two(n: nat, a: nat, x: Cpu, b: nat, y: Cpu): seq<Cpu>
    requires a < b < n
  {
    Quiet(n)[a := x][b := y]
  }

  lemma StepFirst(n: nat, a: nat, x: Cpu, b: nat, y: Cpu)
    requires a < b < n && x.todo != [] && (x.todo[0].Acquire? ==> x.todo[0].lock !in x.held + y.held)
    ensures var s := Two(n, a, x, b, y); Enabled(s, Step(a)) && Next(s, Step(a)) == Two(n, a, Advance(x), b, y)
  {
  }

  lemma StepSecond(n: nat, a: nat, x: Cpu, b: nat, y: Cpu)
    requires a < b < n && y.todo != [] && (y.todo[0].Acquire? ==> y.todo[0].lock !in x.held + y.held)
    ensures var s := Two(n, a, x, b, y); Enabled(s, Step(b)) && Next(s, Step(b)) == Two(n, a, x, b, Advance(y))
  {
  }

  lemma EnterOne(n: nat, a: nat, x: Cpu, b: nat, y: Cpu, call: Call)
    requires a < b < n
    ensures x.todo == [] ==>
      var s := Two(n, a, x, b, y);
      Enabled(s, Enter(a, call)) && Next(s, Enter(a, call)) == Two(n, a, x.(todo := Path(call, x.interrupts)), b, y)
    ensures y.todo == [] ==>
      var s := Two(n, a, x, b, y);
      Enabled(s, Enter(b, call)) && Next(s, Enter(b, call)) == Two(n, a, x, b, y.(todo := Path(call, y.interrupts)))
  {
    hide Path;
    assert Path(call, x.interrupts) + [] == Path(call, x.interrupts);
    assert Path(call, y.interrupts) + [] == Path(call, y.interrupts);
  }

  lemma InterruptFirst(n: nat, a: nat, x: Cpu, b: nat, y: Cpu, call: Call)
    requires a < b < n && x.interrupts
    ensures var s, x' := Two(n, a, x, b, y), Cpu(x.held, Path(call, false) + ([Return] + x.todo), false);
      Enabled(s, Interrupt(a, call)) && Next(s, Interrupt(a, call)) == Two(n, a, x', b, y)
  {
    hide Path;
  }

  /** Each of the two waits for a lock of the other. */
  lemma BothWait(n: nat, a: nat, x: Cpu, b: nat, y: Cpu)
    requires a < b < n && x.todo != [] && y.todo != [] && x.todo[0].Acquire? && y.todo[0].Acquire?
    requires x.todo[0].lock in y.held && y.todo[0].lock in x.held
    ensures Deadlocked(Two(n, a, x, b, y))
  {
    var s := Two(n, a, x, b, y);
    assert s[a] == x && s[b] == y;
  }

  /** The paths of the runs below. */
  lemma WindowPaths(a: nat, b: nat)
    requires a < b
    ensures var qa, qb := Queue(a), Queue(b);
      && Path(Steal(a, b), true)
         == [Acquire(qa), Acquire(qb), Touch(Whole(a) + Whole(b)), Release(qa, true), Release(qb, false)]
      && Path(SetNice(true, b), true) == [Acquire(GLOBAL), Touch({Tasks})] + InnerPart(b, true)
      && Path(Tick(a, true, false, a), false) == [Acquire(qa), Touch(Whole(a)), Release(qa, false)] + ChargeAndPick(a)
      && Path(Tick(a, false, false, a), false) == ChargeAndPick(a)
      && Path(Wakeup(a), true) == [Acquire(qa), Touch(Whole(a)), Release(qa, true)]
  {
  }

  function ChargeAndPick(cpu: nat): seq<Op> {
    [Acquire(GLOBAL), Touch({Clock(cpu)}), Release(GLOBAL, false), Acquire(Queue(cpu)), Touch(Whole(cpu)),
     Release(Queue(cpu), false)]
  }

  /** One more event of a run. */
  lemma Extend(n: nat, pairs: set<(nat, nat)>, states: seq<seq<Cpu>>, events: seq<Event>, e: Event)
    returns (states': seq<seq<Cpu>>, events': seq<Event>)
    requires Run(n, states, events) && StealsAmong(states, events, pairs) && Enabled(states[|events|], e)
    requires Risky(states[|events|], e) ==> ThiefAndVictim(e.call) in pairs
    ensures Run(n, states', events') && StealsAmong(states', events', pairs)
    ensures states' == states + [Next(states[|events|], e)] && events' == events + [e] && |states'| == |events'| + 1
  {
    hide Enabled, Next, Risky, ThiefAndVictim;
    states', events' := states + [Next(states[|events|], e)], events + [e];
    forall k | 0 <= k < |events|
      ensures Enabled(states'[k], events'[k]) && states'[k + 1] == Next(states'[k], events'[k])
    {
    }
  }

  /** CPU a performs an operation. */
  lemma RunFirst(n: nat, pairs: set<(nat, nat)>, states: seq<seq<Cpu>>, events: seq<Event>, a: nat, x: Cpu, b: nat,
          y: Cpu)
    returns (states': seq<seq<Cpu>>, events': seq<Event>)
    requires Run(n, states, events) && StealsAmong(states, events, pairs)
    requires a < b < n && states[|events|] == Two(n, a, x, b, y) && x.todo != []
    requires x.todo[0].Acquire? ==> x.todo[0].lock !in x.held + y.held
    ensures Run(n, states', events') && StealsAmong(states', events', pairs) && |states'| == |events'| + 1
    ensures states'[|events'|] == Two(n, a, Advance(x), b, y)
    ensures events' == events + [Step(a)] && states'[0] == states[0]
  {
    hide Two, Run, StealsAmong, Next, Enabled, Advance;
    StepFirst(n, a, x, b, y);
    states', events' := Extend(n, pairs, states, events, Step(a));
  }

  /** CPU b performs an operation. */
  lemma RunSecond(n: nat, pairs: set<(nat, nat)>, states: seq<seq<Cpu>>, events: seq<Event>, a: nat, x: Cpu, b: nat,
          y: Cpu)
    returns (states': seq<seq<Cpu>>, events': seq<Event>)
    requires Run(n, states, events) && StealsAmong(states, events, pairs)
    requires a < b < n && states[|events|] == Two(n, a, x, b, y) && y.todo != []
    requires y.todo[0].Acquire? ==> y.todo[0].lock !in x.held + y.held
    ensures Run(n, states', events') && StealsAmong(states', events', pairs) && |states'| == |events'| + 1
    ensures states'[|events'|] == Two(n, a, x, b, Advance(y))
    ensures events' == events + [Step(b)] && states'[0] == states[0]
  {
    hide Two, Run, StealsAmong, Next, Enabled, Advance;
    StepSecond(n, a, x, b, y);
    states', events' := Extend(n, pairs, states, events, Step(b));
  }

  /** A run of nothing. */
  lemma StartTwo(n: nat, pairs: set<(nat, nat)>, a: nat, b: nat)
    requires a < b < n
    ensures Run(n, [Quiet(n)], []) && StealsAmong([Quiet(n)], [], pairs)
    ensures Quiet(n) == Two(n, a, Cpu({}, [], true), b, Cpu({}, [], true))
  {
  }

  /** CPU a between the two releases of a steal from b. */
  function InWindow(b: nat): Cpu {
    Cpu({Queue(b)}, [Release(Queue(b), false)], true)
  }

  /** CPU a steals from a greater CPU b: UnlockTwoPrqs turns interrupts on while b's queue is still locked. */
  lemma WindowOpens(n: nat, a: nat, b: nat) returns (states: seq<seq<Cpu>>, events: seq<Event>)
    requires a < b < n
    ensures Run(n, states, events) && StealsAmong(states, events, {(a, b)}) && |states| == |events| + 1
    ensures states[|events|] == Two(n, a, InWindow(b), b, Cpu({}, [], true))
    ensures events != [] && states[0] == Quiet(n) && events[0] == Enter(a, Steal(a, b))
  {
    hide Path, Two, Enabled, Next, Run, StealsAmong;
    var qa, qb, pairs, idle := Queue(a), Queue(b), {(a, b)}, Cpu({}, [], true);
    WindowPaths(a, b);
    StartTwo(n, pairs, a, b);
    EnterOne(n, a, idle, b, idle, Steal(a, b));
    states, events := Extend(n, pairs, [Quiet(n)], [], Enter(a, Steal(a, b)));
    var x1 := Cpu({}, Path(Steal(a, b), true), true);
    states, events := RunFirst(n, pairs, states, events, a, x1, b, idle);
    var x2 := Cpu({qa}, x1.todo[1..], false);
    assert {} + {qa} == {qa} && {qa} + {qb} == {qa, qb} && {qa, qb} - {qa} == {qb};
    states, events := RunFirst(n, pairs, states, events, a, x2, b, idle);
    var x3 := Cpu({qa, qb}, x2.todo[1..], false);
    states, events := RunFirst(n, pairs, states, events, a, x3, b, idle);
    var x4 := Cpu({qa, qb}, x3.todo[1..], false);
    states, events := RunFirst(n, pairs, states, events, a, x4, b, idle);
    assert Advance(x4) == InWindow(b);
  }

  /** Meanwhile CPU b sets the priority of a task queued on b, and has GSchedLock. */
  lemma HolderEnters(n: nat, a: nat, b: nat, states0: seq<seq<Cpu>>, events0: seq<Event>)
    returns (states: seq<seq<Cpu>>, events: seq<Event>)
    requires a < b < n && Run(n, states0, events0) && StealsAmong(states0, events0, {(a, b)})
    requires states0[|events0|] == Two(n, a, InWindow(b), b, Cpu({}, [], true))
    ensures Run(n, states, events) && StealsAmong(states, events, {(a, b)}) && |states| == |events| + 1
    ensures states[|events|] == Two(n, a, InWindow(b), b, Cpu({GLOBAL}, InnerPart(b, true), false))
    ensures events0 <= events && states[0] == states0[0]
  {
    hide Path, Two, Enabled, Next, Run, StealsAmong, InnerPart;
    var pairs, idle := {(a, b)}, Cpu({}, [], true);
    WindowPaths(a, b);
    EnterOne(n, a, InWindow(b), b, idle, SetNice(true, b));
    states, events := Extend(n, pairs, states0, events0, Enter(b, SetNice(true, b)));
    var y1 := Cpu({}, Path(SetNice(true, b), true), true);
    states, events := RunSecond(n, pairs, states, events, a, InWindow(b), b, y1);
    var y2 := Cpu({GLOBAL}, y1.todo[1..], false);
    assert {} + {GLOBAL} == {GLOBAL};
    states, events := RunSecond(n, pairs, states, events, a, InWindow(b), b, y2);
    assert Advance(y2) == Cpu({GLOBAL}, InnerPart(b, true), false);
  }

  /** A tick in the window puts the idle task of a back into its queue, then waits for GSchedLock, whose holder waits
      for b's queue. */
  lemma StealUpDeadlocks(n: nat, a: nat, b: nat) returns (states: seq<seq<Cpu>>, events: seq<Event>)
    requires a < b < n
    ensures Run(n, states, events) && Deadlocked(states[|events|]) && StealsAmong(states, events, {(a, b)})
    ensures events != [] && Risky(states[0], events[0]) && events[0] == Enter(a, Steal(a, b))
  {
    hide Path, Two, Enabled, Next, Run, StealsAmong, Deadlocked;
    var qa, qb, pairs, y := Queue(a), Queue(b), {(a, b)}, Cpu({GLOBAL}, InnerPart(b, true), false);
    WindowPaths(a, b);
    states, events := WindowOpens(n, a, b);
    states, events := HolderEnters(n, a, b, states, events);
    InterruptFirst(n, a, InWindow(b), b, y, Tick(a, true, false, a));
    states, events := Extend(n, pairs, states, events, Interrupt(a, Tick(a, true, false, a)));
    var x1 := Cpu({qb}, Path(Tick(a, true, false, a), false) + ([Return] + InWindow(b).todo), false);
    states, events := RunFirst(n, pairs, states, events, a, x1, b, y);
    var x2 := Cpu({qa, qb}, x1.todo[1..], false);
    assert {qb} + {qa} == {qa, qb} && {qa, qb} - {qa} == {qb};
    states, events := RunFirst(n, pairs, states, events, a, x2, b, y);
    var x3 := Cpu({qa, qb}, x2.todo[1..], false);
    states, events := RunFirst(n, pairs, states, events, a, x3, b, y);
    BothWait(n, a, Advance(x3), b, y);
  }

  // ---- Races ----

  /** The CPU is about to work on the part. */
  predicate WorksOn(cpu: Cpu, p: Part) {
    cpu.todo != [] && cpu.todo[0].Touch? && p in cpu.todo[0].parts
  }

  /** Under mutual exclusion no two CPUs work on the task lists or on one run queue at once; two that work on one clock
      hold different locks, one of them GSchedLock and not the lock of the queue. */
  lemma NoRaceButClocks(s: seq<Cpu>, c: nat, d: nat, p: Part)
    requires Invariant(s) && c < |s| && d < |s| && c != d && WorksOn(s[c], p) && WorksOn(s[d], p)
    ensures p.Clock? && (GLOBAL in s[c].held <==> Queue(p.cpu) in s[d].held)
    ensures GLOBAL in s[c].held <==> GLOBAL !in s[d].held
  {
    assert Ordered(s[c].held, s[c].todo) && Ordered(s[d].held, s[d].todo);
    assert s[c].held !! s[d].held;
  }

  /** So in every state reached with interrupts between critical sections. */
  lemma ReachableRaces(n: nat, states: seq<seq<Cpu>>, events: seq<Event>, c: nat, d: nat, p: Part)
    requires Run(n, states, events) && forall j :: 0 <= j < |events| ==> Between(states[j], events[j])
    requires c < n && d < n && c != d && |states[|events|]| == n
    requires WorksOn(states[|events|][c], p) && WorksOn(states[|events|][d], p)
    ensures p.Clock?
  {
    ReachableInvariant(n, states, events, |events|);
    NoRaceButClocks(states[|events|], c, d, p);
  }

  /** And two do: a tick that charges its task has GSchedLock, a wakeup that queues a task there has the lock of the
      queue. */
  lemma ClocksRace(n: nat, a: nat, b: nat) returns (states: seq<seq<Cpu>>, events: seq<Event>)
    requires a < b < n
    ensures Run(n, states, events) && StealsAmong(states, events, {}) && |states| == |events| + 1
    ensures var s := states[|events|]; |s| == n && WorksOn(s[a], Clock(a)) && WorksOn(s[b], Clock(a))
  {
    hide Path, Enabled, Next, Run, StealsAmong;
    var qa, idle := Queue(a), Cpu({}, [], true);
    WindowPaths(a, b);
    StartTwo(n, {}, a, b);
    InterruptFirst(n, a, idle, b, idle, Tick(a, false, false, a));
    states, events := Extend(n, {}, [Quiet(n)], [], Interrupt(a, Tick(a, false, false, a)));
    assert [Return] + [] == [Return];
    var x1 := Cpu({}, ChargeAndPick(a) + [Return], false);
    states, events := RunFirst(n, {}, states, events, a, x1, b, idle);
    var x2 := Advance(x1);
    EnterOne(n, a, x2, b, idle, Wakeup(a));
    states, events := Extend(n, {}, states, events, Enter(b, Wakeup(a)));
    var y1 := Cpu({}, Path(Wakeup(a), true), true);
    states, events := RunSecond(n, {}, states, events, a, x2, b, y1);
  }

  function Ahead(s: seq<Cpu>): nat {
    if s == [] then 0 else Ahead(s[..|s| - 1]) + |s[|s| - 1].todo|
  }

  lemma {:induction false} AheadUpdate(s: seq<Cpu>, c: nat, x: Cpu)
    requires c < |s|
    ensures Ahead(s[c := x]) + |s[c].todo| == Ahead(s) + |x.todo|
    decreases |s|
  {
    var n := |s| - 1;
    if c == n {
      assert s[c := x][..n] == s[..n];
    } else {
      AheadUpdate(s[..n], c, x);
      assert s[c := x][..n] == s[..n][c := x];
    }
  }

  /** From every state that keeps the invariant the CPUs can run until all have left the scheduler and hold no lock. */
  lemma {:induction false} CanDrain(s: seq<Cpu>) returns (steps: seq<nat>, end: seq<Cpu>)
    requires Invariant(s)
    ensures RunsTo(s, steps, end)
    ensures forall c :: 0 <= c < |end| ==> end[c].todo == [] && end[c].held == {}
    decreases Ahead(s)
  {
    if c :| 0 <= c < |s| && s[c].todo != [] {
      var d := SomeoneSteps(s, c, Bound(s));
      NextKeepsInvariant(s, Step(d));
      AheadUpdate(s, d, Do(s, d)[d]);
      assert Do(s, d) == s[d := Do(s, d)[d]];
      var rest;
      rest, end := CanDrain(Do(s, d));
      steps := [d] + rest;
      assert steps[1..] == rest;
    } else {
      steps, end := [], s;
      assert forall c :: 0 <= c < |s| ==> Ordered(s[c].held, s[c].todo);
    }
  }

  ghost predicate RunsTo(s: seq<Cpu>, steps: seq<nat>, end: seq<Cpu>)
    decreases |steps|
  {
    if steps == [] then end == s
    else steps[0] < |s| && CanStep(s, steps[0]) && RunsTo(Do(s, steps[0]), steps[1..], end)
  }
}
