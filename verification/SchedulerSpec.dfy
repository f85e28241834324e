/**
 What the timer scheduler of rtc.c does, on values: an active list ordered by absolute time, a queue of
 expired timers, and a flag saying that the dummy timer heads the active list. `Scheduler` proves
 the linked lists against these functions; the laws of whole runs are proved here.

 Times are natural numbers: the 32-bit clock is assumed not to wrap (see `RebaseExactly`).
 */
module SchedulerSpec {
  import opened Arithmetic
  import opened Bytes

  /** The longest wait that the 16-bit counter can hold, and so the dummy's wait. */
  const MAX_LOAD: nat := 65535

  /** A queued timer: when it is due and its place in the order of creation. */
  datatype Entry<T> = Entry(timer: T, due: nat, stamp: nat)

  /** An expiry in the history of the run; an epoch lasts from one stop of the clock to the next. */
  datatype Expiry = Expiry(epoch: nat, due: nat, stamp: nat)

  datatype State<T(==)> = State(
    active: seq<Entry<T>>,  // without the dummy
    split: bool,            // the dummy heads the active list
    queue: seq<T>,
    last: nat,              // absolute time of the last timeout
    irq: bool,              // overflow interrupt enabled
    clock: nat,             // timers created so far
    epoch: nat,
    log: seq<Expiry>)
  {
    predicate Idle() { !split && active == [] }

    /** An enabled interrupt finds a timer to expire. */
    predicate Armed() { irq ==> !Idle() }

    /** A timer that waits has the interrupt enabled, without which it would never expire. */
    predicate Served() { !Idle() ==> irq }
  }

  function Initial<T>(): State<T> {
    State([], false, [], 0, false, 0, 0, [])
  }

  // ----- Operations -----

  /** scheduler_start_timer_at_head */
  function StartAtHead<T>(s: State<T>): State<T> {
    if s.Idle() then s.(irq := false, last := 0, epoch := s.epoch + 1)
    else if !s.split && s.active[0].due - s.last > MAX_LOAD then s.(irq := true, split := true)
    else s.(irq := true)
  }

  /** The duration loaded into the counter for the timer at the head. */
  function Load<T>(s: State<T>): int
    requires !s.Idle()
  {
    if s.split then MAX_LOAD else s.active[0].due - s.last
  }

  /** The interrupt: expire the head of the active list. */
  function Fire<T>(s: State<T>): State<T> {
    if s.Idle() then s
    else if s.split then StartAtHead(s.(split := false, last := s.last + MAX_LOAD))
    else
      var e := s.active[0];
      StartAtHead(s.(active := s.active[1..], queue := s.queue + [e.timer], last := e.due,
                     log := s.log + [Expiry(s.epoch, e.due, e.stamp)]))
  }

  /** How many entries at the front are due no later than the given time. */
  function Place<T>(active: seq<Entry<T>>, due: nat): (p: nat)
    ensures p <= |active|
  {
    if active == [] || active[0].due > due then 0 else 1 + Place(active[1..], due)
  }

  function Placed<T>(active: seq<Entry<T>>, e: Entry<T>): seq<Entry<T>> {
    var p := Place(active, e.due);
    active[..p] + [e] + active[p..]
  }

  function Without<X>(s: seq<X>, i: nat): seq<X>
    requires i < |s|
  {
    s[..i] + s[i + 1..]
  }

  /** scheduler_sorted_insert: a timer put before the dummy takes its place at the head. */
  function Inserted<T>(s: State<T>, t: T, due: nat): State<T> {
    s.(active := Placed(s.active, Entry(t, due, s.clock)), split := s.split && s.last + MAX_LOAD <= due,
       clock := s.clock + 1, irq := true)
  }

  predicate InsertsAtHead<T>(s: State<T>, due: nat) {
    if s.split then due < s.last + MAX_LOAD else Place(s.active, due) == 0
  }

  /** The insertion and, when it was at the head, the restart of the clock. */
  function Insert<T>(s: State<T>, t: T, due: nat): State<T> {
    if InsertsAtHead(s, due) then StartAtHead(Inserted(s, t, due)) else Inserted(s, t, due)
  }

  function IndexOf<T(==)>(active: seq<Entry<T>>, t: T): (i: nat)
    ensures i <= |active|
  {
    if active == [] || active[0].timer == t then 0 else 1 + IndexOf(active[1..], t)
  }

  function QueueIndexOf<T(==)>(queue: seq<T>, t: T): (i: nat)
    ensures i <= |queue|
  {
    if queue == [] || queue[0] == t then 0 else 1 + QueueIndexOf(queue[1..], t)
  }

  /**
   The masked section of scheduler_timeout_delete_helper on the active list. The list is tested for being empty
   before interrupts are masked, so that it may have become empty since.
   */
  function DeleteActive<T(==)>(s: State<T>, t: T): State<T> {
    var i := IndexOf(s.active, t);
    if i == |s.active| then s.(irq := true)
    else
      var s' := s.(active := Without(s.active, i));
      if i == 0 && !s.split then StartAtHead(s') else s'.(irq := true)
  }

  /** scheduler_timeout_delete_helper on the execute queue, which interrupts only make longer. */
  function DeleteQueued<T(==)>(s: State<T>, t: T): State<T> {
    if s.queue == [] then s
    else
      var i := QueueIndexOf(s.queue, t);
      if i == |s.queue| then s.(irq := true)
      else
        var s' := s.(queue := Without(s.queue, i));
        if i == 0 then StartAtHead(s') else s'.(irq := true)
  }

  /**
   The front of scheduler_timeout_call_next_callback: take the oldest expired timer off the queue, and put the
   interrupt enable back to what it was before interrupts were masked.
   */
  function TakeCallback<T>(s: State<T>, enabled: bool): State<T> {
    if s.queue == [] then s else s.(queue := s.queue[1..], irq := enabled)
  }

  /** scheduler_timeout_init, which enables the interrupt while nothing waits. */
  function Init<T>(s: State<T>): State<T> {
    s.(irq := true)
  }

  // ----- Places in the lists -----

  ghost predicate IsPlace<T>(active: seq<Entry<T>>, due: nat, p: nat) {
    && p <= |active|
    && (forall i :: 0 <= i < p ==> active[i].due <= due)
    && (p < |active| ==> active[p].due > due)
  }

  lemma {:induction false} PlaceIs<T>(active: seq<Entry<T>>, due: nat)
    ensures IsPlace(active, due, Place(active, due))
  {
    if active != [] && active[0].due <= due { PlaceIs(active[1..], due); }
  }

  lemma {:induction false} PlaceUnique<T>(active: seq<Entry<T>>, due: nat, p: nat)
    requires IsPlace(active, due, p)
    ensures p == Place(active, due)
  {
    if p > 0 { PlaceUnique(active[1..], due, p - 1); }
  }

  ghost predicate IsInserted<X>(a: seq<X>, p: nat, x: X, r: seq<X>) {
    && p <= |a| && |r| == |a| + 1
    && (forall k :: 0 <= k < p ==> r[k] == a[k])
    && r[p] == x
    && (forall k :: p < k < |r| ==> r[k] == a[k - 1])
  }

  lemma PlacedIs<T>(active: seq<Entry<T>>, e: Entry<T>)
    ensures IsInserted(active, Place(active, e.due), e, Placed(active, e))
  {}

  ghost predicate IsRemoved<X>(a: seq<X>, i: nat, r: seq<X>) {
    && i < |a| && |r| == |a| - 1
    && (forall k :: 0 <= k < i ==> r[k] == a[k])
    && (forall k :: i <= k < |r| ==> r[k] == a[k + 1])
  }

  lemma WithoutIs<X>(a: seq<X>, i: nat)
    requires i < |a|
    ensures IsRemoved(a, i, Without(a, i))
  {}

  lemma {:induction false} IndexOfIs<T>(active: seq<Entry<T>>, t: T)
    ensures var i := IndexOf(active, t);
            && (i < |active| ==> active[i].timer == t)
            && forall j :: 0 <= j < i ==> active[j].timer != t
  {
    if active != [] && active[0].timer != t { IndexOfIs(active[1..], t); }
  }

  lemma {:induction false} IndexOfUnique<T>(active: seq<Entry<T>>, t: T, i: nat)
    requires i <= |active| && (i < |active| ==> active[i].timer == t)
    requires forall j :: 0 <= j < i ==> active[j].timer != t
    ensures i == IndexOf(active, t)
  {
    if i > 0 { IndexOfUnique(active[1..], t, i - 1); }
  }

  lemma {:induction false} QueueIndexOfIs<T>(queue: seq<T>, t: T)
    ensures var i := QueueIndexOf(queue, t);
            && (i < |queue| ==> queue[i] == t)
            && forall j :: 0 <= j < i ==> queue[j] != t
  {
    if queue != [] && queue[0] != t { QueueIndexOfIs(queue[1..], t); }
  }

  lemma {:induction false} QueueIndexOfUnique<T>(queue: seq<T>, t: T, i: nat)
    requires i <= |queue| && (i < |queue| ==> queue[i] == t)
    requires forall j :: 0 <= j < i ==> queue[j] != t
    ensures i == QueueIndexOf(queue, t)
  {
    if i > 0 { QueueIndexOfUnique(queue[1..], t, i - 1); }
  }

  // ----- Invariant -----

  ghost predicate Unqueued<T>(s: State<T>, t: T) {
    t !in s.queue && forall i :: 0 <= i < |s.active| ==> s.active[i].timer != t
  }

  predicate Before<T>(d: Entry<T>, e: Entry<T>) {
    d.due < e.due || (d.due == e.due && d.stamp < e.stamp)
  }

  predicate ExpiredBefore(x: Expiry, y: Expiry) {
    x.epoch < y.epoch || (x.epoch == y.epoch && (x.due < y.due || (x.due == y.due && x.stamp < y.stamp)))
  }

  /** No timer is queued twice. */
  ghost predicate Apart<T>(active: seq<Entry<T>>, queue: seq<T>) {
    && (forall i, j :: 0 <= i < j < |active| ==> active[i].timer != active[j].timer)
    && (forall i, j :: 0 <= i < j < |queue| ==> queue[i] != queue[j])
    && (forall i, j :: 0 <= i < |active| && 0 <= j < |queue| ==> active[i].timer != queue[j])
  }

  ghost predicate Ordered<T>(s: State<T>) {
    && (forall i, j :: 0 <= i < j < |s.active| ==> Before(s.active[i], s.active[j]))
    && (forall i :: 0 <= i < |s.active| ==> s.last <= s.active[i].due && s.active[i].stamp < s.clock)
    && (s.split ==> forall i :: 0 <= i < |s.active| ==> s.last + MAX_LOAD <= s.active[i].due)
  }

  /** Timers expire in the order of their times, and equal times in the order of creation. */
  ghost predicate LogOrdered(log: seq<Expiry>) {
    forall i, j :: 0 <= i < j < |log| ==> ExpiredBefore(log[i], log[j])
  }

  ghost predicate LogBehind<T>(s: State<T>) {
    forall i :: 0 <= i < |s.log| ==>
      && s.log[i].epoch <= s.epoch && s.log[i].stamp < s.clock
      && (s.log[i].epoch == s.epoch ==>
            && s.log[i].due <= s.last
            && forall k :: 0 <= k < |s.active| ==>
                 || s.log[i].due < s.active[k].due
                 || (s.log[i].due == s.active[k].due && s.log[i].stamp < s.active[k].stamp))
  }

  /** What holds even before the clock is restarted for a new head. */
  ghost predicate Core<T>(s: State<T>) {
    Apart(s.active, s.queue) && Ordered(s) && LogOrdered(s.log) && LogBehind(s)
  }

  ghost predicate Inv<T>(s: State<T>) {
    && Core(s)
    && (!s.split && s.active != [] ==> s.active[0].due - s.last <= MAX_LOAD)
    && (s.Idle() ==> s.last == 0)
  }

  lemma StartAtHeadInv<T>(s: State<T>)
    requires Core(s)
    ensures Inv(StartAtHead(s)) && StartAtHead(s).Armed() && StartAtHead(s).Served()
  {}

  lemma FireInv<T>(s: State<T>)
    requires Inv(s)
    ensures Inv(Fire(s))
    ensures !s.Idle() ==> Fire(s).Armed()
  {
    if s.Idle() {
    } else if s.split {
      StartAtHeadInv(s.(split := false, last := s.last + MAX_LOAD));
    } else {
      var e := s.active[0];
      var s' := s.(active := s.active[1..], queue := s.queue + [e.timer], last := e.due,
                   log := s.log + [Expiry(s.epoch, e.due, e.stamp)]);
      assert Core(s');
      StartAtHeadInv(s');
    }
  }

  lemma PlacedApart<T>(s: State<T>, a: seq<Entry<T>>, p: nat, e: Entry<T>)
    requires Apart(s.active, s.queue) && IsInserted(s.active, p, e, a)
    requires forall i :: 0 <= i < |s.active| ==> s.active[i].timer != e.timer
    requires e.timer !in s.queue
    ensures Apart(a, s.queue)
  {}

  lemma PlacedOrdered<T>(s: State<T>, a: seq<Entry<T>>, p: nat, e: Entry<T>)
    requires Ordered(s) && IsInserted(s.active, p, e, a)
    requires forall i :: 0 <= i < p ==> s.active[i].due <= e.due
    requires p < |s.active| ==> s.active[p].due > e.due
    requires e.stamp == s.clock && s.last <= e.due && (s.split ==> s.last + MAX_LOAD <= e.due)
    ensures Ordered(s.(active := a, clock := s.clock + 1))
  {
    forall i, j | 0 <= i < j < |a|
      ensures Before(a[i], a[j])
    {
      if j < p {
      } else if j == p {
      } else if i == p {
        assert p == j - 1 || Before(s.active[p], s.active[j - 1]);
      } else if i < p {
        assert Before(s.active[i], s.active[j - 1]);
      } else {
        assert Before(s.active[i - 1], s.active[j - 1]);
      }
    }
  }

  lemma InsertedCore<T>(s: State<T>, t: T, due: nat)
    requires Core(s) && s.last <= due && Unqueued(s, t)
    ensures Core(Inserted(s, t, due))
  {
    var e := Entry(t, due, s.clock);
    var s0 := s.(split := s.split && s.last + MAX_LOAD <= due);
    PlaceIs(s.active, due);
    PlacedIs(s.active, e);
    PlacedApart(s0, Placed(s.active, e), Place(s.active, due), e);
    PlacedOrdered(s0, Placed(s.active, e), Place(s.active, due), e);
  }

  lemma InsertInv<T>(s: State<T>, t: T, due: nat, s': State<T>)
    requires Inv(s) && s.last <= due && Unqueued(s, t) && s' == Insert(s, t, due)
    ensures Inv(s') && s'.Armed()
  {
    InsertedCore(s, t, due);
    if InsertsAtHead(s, due) { StartAtHeadInv(Inserted(s, t, due)); }
  }

  lemma InsertHolds<T>(s: State<T>, t: T, due: nat)
    ensures Entry(t, due, s.clock) in Insert(s, t, due).active
  {
    PlacedIs(s.active, Entry(t, due, s.clock));
    assert Placed(s.active, Entry(t, due, s.clock))[Place(s.active, due)] == Entry(t, due, s.clock);
  }

  lemma InsertEnables<T>(s: State<T>, t: T, due: nat)
    ensures Insert(s.(irq := false), t, due) == Insert(s, t, due)
    ensures InsertsAtHead(s.(irq := false), due) == InsertsAtHead(s, due)
  {}

  lemma InsertKeepsLast<T>(s: State<T>, t: T, due: nat)
    ensures Insert(s, t, due).last == s.last && Insert(s, t, due).log == s.log
  {}

  /** Inserting behind the head leaves the clock as it is. */
  lemma InsertLoad<T>(s: State<T>, t: T, due: nat)
    requires !InsertsAtHead(s, due)
    ensures !s.Idle() && !Insert(s, t, due).Idle() && Load(Insert(s, t, due)) == Load(s)
  {}

  lemma WithoutActiveCore<T>(s: State<T>, i: nat)
    requires Core(s) && i < |s.active|
    ensures Core(s.(active := Without(s.active, i)))
    ensures forall j :: 0 <= j < |s.active| - 1 ==> Without(s.active, i)[j].timer != s.active[i].timer
  {
    WithoutIs(s.active, i);
    var s' := s.(active := Without(s.active, i));
    assert Apart(s'.active, s'.queue);
    assert Ordered(s');
  }

  lemma DeleteActiveInv<T>(s: State<T>, t: T)
    requires Inv(s)
    ensures Inv(DeleteActive(s, t)) && (t !in s.queue ==> Unqueued(DeleteActive(s, t), t))
  {
    var i := IndexOf(s.active, t);
    IndexOfIs(s.active, t);
    if i < |s.active| {
      WithoutActiveCore(s, i);
      if i == 0 && !s.split { StartAtHeadInv(s.(active := Without(s.active, i))); }
    }
  }

  lemma DeleteServed<T>(s: State<T>, t: T)
    ensures DeleteActive(s, t).Served() && (s.Served() ==> DeleteQueued(s, t).Served())
  {}

  /** Deleting behind the head leaves the clock as it is. */
  lemma DeleteActiveLoad<T>(s: State<T>, t: T)
    requires !s.Idle() && (s.split || s.active[0].timer != t)
    ensures !DeleteActive(s, t).Idle() && Load(DeleteActive(s, t)) == Load(s)
  {}

  lemma DeleteActiveClock<T>(s: State<T>, t: T)
    requires s.Idle() || s.split || s.active[0].timer != t
    ensures DeleteActive(s, t).Idle() == s.Idle() && (!s.Idle() ==> Load(DeleteActive(s, t)) == Load(s))
  {
    if !s.Idle() { DeleteActiveLoad(s, t); }
  }

  lemma NothingOverdue<T>(s: State<T>)
    requires Inv(s)
    ensures forall i :: 0 <= i < |s.active| ==> s.last <= s.active[i].due
  {}

  lemma WithoutQueuedCore<T>(s: State<T>, i: nat)
    requires Core(s) && i < |s.queue|
    ensures Core(s.(queue := Without(s.queue, i)))
    ensures s.queue[i] !in Without(s.queue, i)
  {
    WithoutIs(s.queue, i);
  }

  lemma DeleteQueuedInv<T>(s: State<T>, t: T)
    requires Inv(s)
    ensures Inv(DeleteQueued(s, t)) && t !in DeleteQueued(s, t).queue
    ensures DeleteQueued(s, t).active == s.active
  {
    var i := QueueIndexOf(s.queue, t);
    QueueIndexOfIs(s.queue, t);
    if s.queue != [] && i < |s.queue| {
      WithoutQueuedCore(s, i);
      if i == 0 { StartAtHeadInv(s.(queue := Without(s.queue, i))); }
    }
  }

  lemma IrqInv<T>(s: State<T>, irq: bool)
    requires Inv(s)
    ensures Inv(s.(irq := irq))
  {}

  /** The clock is stopped with timers waiting, and the head is taken off the list. */
  lemma StoppedCore<T>(s: State<T>, s': State<T>)
    requires Core(s) && !s.Idle()
    requires var stopped := s.(irq := false, last := 0, epoch := s.epoch + 1);
             s' == if s.split then stopped.(split := false) else stopped.(active := Without(s.active, 0))
    ensures Core(s')
  {
    if !s.split { WithoutActiveCore(s, 0); }
  }

  lemma TakeCallbackInv<T>(s: State<T>, enabled: bool)
    requires Inv(s)
    ensures Inv(TakeCallback(s, enabled))
  {}

  // ----- Whole runs -----

  /**
   The sections that the program and the interrupt run one at a time: deleting and creating a timer
   are several of them, and an interrupt may come between any two.
   */
  datatype Op<T> =
    | OpInit
    | OpDeleteActive(timer: T)
    | OpDeleteQueued(timer: T)
    | OpInsert(timer: T, wait: nat)   // creation, after its deletions; `wait` counts from the last timeout
    | OpTakeCallback(enabled: bool)  // what the code read of the interrupt enable
    | OpInterrupt

  ghost function Step<T>(s: State<T>, op: Op<T>): State<T> {
    match op
    case OpInit => Init(s)
    case OpDeleteActive(t) => DeleteActive(s, t)
    case OpDeleteQueued(t) => DeleteQueued(s, t)
    case OpInsert(t, wait) =>
      if Unqueued(s, t) then Insert(s, t, s.last + wait) else s
    case OpTakeCallback(enabled) => TakeCallback(s, enabled)
    case OpInterrupt => Fire(s)
  }

  ghost function Run<T>(s: State<T>, ops: seq<Op<T>>): State<T>
    decreases |ops|
  {
    if ops == [] then s else Run(Step(s, ops[0]), ops[1..])
  }

  lemma StepDeleteInv<T>(s: State<T>, op: Op<T>)
    requires Inv(s) && (op.OpDeleteActive? || op.OpDeleteQueued?)
    ensures Inv(Step(s, op))
  {
    if op.OpDeleteActive? { DeleteActiveInv(s, op.timer); } else { DeleteQueuedInv(s, op.timer); }
  }

  lemma StepIsInsert<T>(s: State<T>, op: Op<T>)
    requires op.OpInsert?
    ensures Step(s, op) == if Unqueued(s, op.timer) then Insert(s, op.timer, s.last + op.wait) else s
  {}

  lemma StepInsertInv<T>(s: State<T>, op: Op<T>)
    requires Inv(s) && op.OpInsert?
    ensures Inv(Step(s, op))
  {
    StepIsInsert(s, op);
    if Unqueued(s, op.timer) { InsertInv(s, op.timer, s.last + op.wait, Step(s, op)); }
  }

  lemma StepInv<T>(s: State<T>, op: Op<T>)
    requires Inv(s)
    ensures Inv(Step(s, op))
  {
    match op
    case OpInit =>
    case OpDeleteActive(_) => StepDeleteInv(s, op);
    case OpDeleteQueued(_) => StepDeleteInv(s, op);
    case OpInsert(_, _) => StepInsertInv(s, op);
    case OpTakeCallback(enabled) => TakeCallbackInv(s, enabled);
    case OpInterrupt => FireInv(s);
  }

  lemma {:induction false} RunInv<T>(s: State<T>, ops: seq<Op<T>>)
    requires Inv(s)
    ensures Inv(Run(s, ops))
    decreases |ops|
  {
    if ops != [] {
      StepInv(s, ops[0]);
      RunInv(Step(s, ops[0]), ops[1..]);
    }
  }

  /**
   Whatever the program and the interrupts do, timers expire in the order of their absolute times
   between two stops of the clock, and timers due at the same time expire in the order of creation.
   */
  lemma ExpiriesInOrder<T>(ops: seq<Op<T>>)
    ensures var log := Run(Initial<T>(), ops).log;
            forall i, j :: 0 <= i < j < |log| ==>
              || log[i].epoch < log[j].epoch
              || (log[i].epoch == log[j].epoch
                  && (log[i].due < log[j].due || (log[i].due == log[j].due && log[i].stamp < log[j].stamp)))
  {
    RunInv(Initial<T>(), ops);
  }

  // ----- Conservation -----

  /** All queued timers, waiting or expired. */
  ghost function Timers<T>(s: State<T>): set<T> {
    (set i | 0 <= i < |s.active| :: s.active[i].timer) + (set i | 0 <= i < |s.queue| :: s.queue[i])
  }

  lemma TimersUnqueued<T>(s: State<T>, t: T)
    ensures t !in Timers(s) <==> Unqueued(s, t)
  {}

  lemma StartAtHeadTimers<T>(s: State<T>)
    ensures Timers(StartAtHead(s)) == Timers(s)
  {}

  lemma FireTimers<T>(s: State<T>)
    ensures Timers(Fire(s)) == Timers(s)
  {
    if s.Idle() {
    } else if s.split {
      StartAtHeadTimers(s.(split := false, last := s.last + MAX_LOAD));
    } else {
      var e := s.active[0];
      var s' := s.(active := s.active[1..], queue := s.queue + [e.timer], last := e.due,
                   log := s.log + [Expiry(s.epoch, e.due, e.stamp)]);
      forall t | t in Timers(s)
        ensures t in Timers(s')
      {
        if i :| 0 <= i < |s.active| && s.active[i].timer == t {
          if i == 0 { assert s'.queue[|s.queue|] == t; } else { assert s'.active[i - 1].timer == t; }
        } else {
          var j :| 0 <= j < |s.queue| && s.queue[j] == t;
          assert s'.queue[j] == t;
        }
      }
      assert Timers(s') == Timers(s);
      StartAtHeadTimers(s');
    }
  }

  lemma WithoutActiveTimers<T>(s: State<T>, i: nat)
    requires Apart(s.active, s.queue) && i < |s.active|
    ensures Timers(s.(active := Without(s.active, i))) == Timers(s) - {s.active[i].timer}
  {
    WithoutIs(s.active, i);
    var s' := s.(active := Without(s.active, i));
    forall t | t in Timers(s) && t != s.active[i].timer
      ensures t in Timers(s')
    {
      if k :| 0 <= k < |s.active| && s.active[k].timer == t {
        assert s'.active[if k < i then k else k - 1].timer == t;
      }
    }
  }

  lemma WithoutQueuedTimers<T>(s: State<T>, i: nat)
    requires Apart(s.active, s.queue) && i < |s.queue|
    ensures Timers(s.(queue := Without(s.queue, i))) == Timers(s) - {s.queue[i]}
  {
    WithoutIs(s.queue, i);
    var s' := s.(queue := Without(s.queue, i));
    forall t | t in Timers(s) && t != s.queue[i]
      ensures t in Timers(s')
    {
      if k :| 0 <= k < |s.queue| && s.queue[k] == t {
        assert s'.queue[if k < i then k else k - 1] == t;
      }
    }
  }

  lemma InsertedTimers<T>(s: State<T>, t: T, due: nat)
    ensures Timers(Inserted(s, t, due)) == Timers(s) + {t}
  {
    var a, e := s.active, Entry(t, due, s.clock);
    var s', p := Inserted(s, t, due), Place(s.active, due);
    PlacedIs(a, e);
    assert s'.active[p].timer == t;
    forall x | x in Timers(s)
      ensures x in Timers(s')
    {
      if k :| 0 <= k < |a| && a[k].timer == x {
        assert s'.active[if k < p then k else k + 1].timer == x;
      }
    }
    forall x | x in Timers(s')
      ensures x in Timers(s) + {t}
    {
      if k :| 0 <= k < |s'.active| && s'.active[k].timer == x {
        assert k == p || a[if k < p then k else k - 1].timer == x;
      }
    }
  }

  lemma InsertTimers<T>(s: State<T>, t: T, due: nat)
    ensures Timers(Insert(s, t, due)) == Timers(s) + {t}
  {
    InsertedTimers(s, t, due);
    StartAtHeadTimers(Inserted(s, t, due));
  }

  lemma DeleteActiveTimers<T>(s: State<T>, t: T)
    requires Apart(s.active, s.queue)
    ensures Timers(DeleteActive(s, t)) == if IndexOf(s.active, t) < |s.active| then Timers(s) - {t} else Timers(s)
  {
    var i := IndexOf(s.active, t);
    IndexOfIs(s.active, t);
    if i < |s.active| {
      WithoutActiveTimers(s, i);
      StartAtHeadTimers(s.(active := Without(s.active, i)));
    }
  }

  lemma DeleteQueuedTimers<T>(s: State<T>, t: T)
    requires Apart(s.active, s.queue)
    ensures Timers(DeleteQueued(s, t)) == if t in s.queue then Timers(s) - {t} else Timers(s)
  {
    var i := QueueIndexOf(s.queue, t);
    QueueIndexOfIs(s.queue, t);
    if i < |s.queue| {
      WithoutQueuedTimers(s, i);
      StartAtHeadTimers(s.(queue := Without(s.queue, i)));
    }
  }

  lemma DeleteActiveRemoves<T>(s: State<T>, t: T)
    requires Inv(s)
    ensures DeleteActive(s, t).log == s.log
    ensures IndexOf(s.active, t) < |s.active| ==> Timers(DeleteActive(s, t)) == Timers(s) - {t}
    ensures IndexOf(s.active, t) == |s.active| ==>
              Timers(DeleteActive(s, t)) == Timers(s) && forall e :: e in DeleteActive(s, t).active ==> e.timer != t
  {
    DeleteActiveTimers(s, t);
    IndexOfIs(s.active, t);
  }

  lemma DeleteQueuedRemoves<T>(s: State<T>, t: T)
    requires Inv(s) && forall e :: e in s.active ==> e.timer != t
    ensures DeleteQueued(s, t).log == s.log
    ensures Timers(DeleteQueued(s, t)) == Timers(s) - {t}
  {
    DeleteQueuedTimers(s, t);
  }

  lemma TakeCallbackTimers<T>(s: State<T>, enabled: bool)
    requires Apart(s.active, s.queue)
    ensures Timers(TakeCallback(s, enabled)) == if s.queue == [] then Timers(s) else Timers(s) - {s.queue[0]}
  {
    if s.queue != [] {
      assert Without(s.queue, 0) == s.queue[1..];
      WithoutQueuedTimers(s, 0);
    }
  }

  // ----- The interrupt enable -----

  /**
   After which sections an enabled interrupt finds a timer to expire. Four end by enabling the interrupt although
   nothing waits: the initialisation; a deletion whose look at the active list found it filled, when the last
   waiting timer has expired since; a deletion that searches the execute queue past its front; and the taking of a
   callback, when the last waiting timer has expired since the code read the enable as on.
   */
  lemma ArmedExactly<T>(s: State<T>, op: Op<T>)
    requires Inv(s)
    ensures Step(s, op).Armed() <==>
              match op
              case OpInit => !s.Idle()
              case OpDeleteActive(_) => !s.Idle()
              case OpDeleteQueued(t) => if s.queue == [] then s.Armed() else s.queue[0] == t || !s.Idle()
              case OpInsert(t, _) => Unqueued(s, t) || s.Armed()
              case OpTakeCallback(enabled) => if s.queue == [] then s.Armed() else !enabled || !s.Idle()
              case OpInterrupt => s.Armed()
  {
    hide Inv, Insert;
    match op
    case OpDeleteQueued(t) =>
      if s.queue != [] { assert QueueIndexOf(s.queue, t) == 0 <==> s.queue[0] == t; }
    case OpInsert(t, wait) =>
      StepIsInsert(s, op);
      if Unqueued(s, t) {
        InsertInv(s, t, s.last + wait, Step(s, op));
      }
    case OpInterrupt =>
      FireInv(s);
    case _ =>
  }

  /**
   After which sections a timer that waits has the interrupt enabled: after all of them, from a state that has it,
   but for the taking of a callback that read the enable as off while a timer waits.
   */
  lemma ServedExactly<T>(s: State<T>, op: Op<T>)
    ensures Step(s, op).Served() <==>
              match op
              case OpInit => true
              case OpDeleteActive(_) => true
              case OpDeleteQueued(_) => s.queue != [] || s.Served()
              case OpInsert(t, _) => Unqueued(s, t) || s.Served()
              case OpTakeCallback(enabled) => if s.queue == [] then s.Served() else s.Idle() || enabled
              case OpInterrupt => true
  {
    if op.OpInsert? {
      StepIsInsert(s, op);
    }
  }

  /** In a run where no callback is taken with the enable read as off, every timer that waits can expire. */
  lemma {:induction false} RunServed<T>(s: State<T>, ops: seq<Op<T>>)
    requires s.Served() && OpTakeCallback(false) !in ops
    ensures Run(s, ops).Served()
    decreases |ops|
  {
    hide Step;
    if ops != [] {
      ServedExactly(s, ops[0]);
      assert ops[0] in ops;
      RunServed(Step(s, ops[0]), ops[1..]);
    }
  }

  /** The sections of a deletion in a state where the enabled interrupt finds a timer. */
  lemma DeleteArmedExactly<T>(s: State<T>, t: T)
    requires Inv(s) && s.Armed()
    ensures DeleteActive(s, t).Armed() <==> !s.Idle()
    ensures DeleteQueued(s, t).Armed() <==> !(s.Idle() && s.queue != [] && s.queue[0] != t)
  {
    ArmedExactly(s, OpDeleteActive(t));
    ArmedExactly(s, OpDeleteQueued(t));
  }

  lemma FirstInserted<T>(s: State<T>, a: T)
    requires s.active == [] && !s.split && s.last == 0 && Unqueued(s, a)
    ensures var s' := Step(s, OpInsert(a, 5));
            && s'.active == [Entry(a, 5, s.clock)] && !s'.split && s'.last == 0 && s'.irq && s'.queue == s.queue
            && Step(s', OpInterrupt).Idle() && !Step(s', OpInterrupt).irq
            && Step(s', OpInterrupt).queue == s.queue + [a] && Step(s', OpInterrupt).last == 0
  {
    assert Place(s.active, 5) == 0;
    assert Placed(s.active, Entry(a, 5, s.clock)) == [Entry(a, 5, s.clock)];
  }

  /** Both cases are reached from reset: one timer waits, and expires around the deletion of another. */
  lemma DeleteUnarms<T>(a: T, b: T)
    requires a != b
    ensures var s := Step(Initial<T>(), OpInsert(a, 5)); var s' := Step(s, OpInterrupt);
            && !s.Idle() && s'.Armed() && s'.Idle()
            && Step(s', OpDeleteActive(b)).irq && Step(s', OpDeleteActive(b)).Idle()
            && Step(s', OpDeleteQueued(b)).irq && Step(s', OpDeleteQueued(b)).Idle()
  {
    FirstInserted(Initial<T>(), a);
    var s' := Step(Step(Initial<T>(), OpInsert(a, 5)), OpInterrupt);
    assert s'.queue == [a] && QueueIndexOf(s'.queue, b) == 1;
  }

  /** No deletion is needed: one timer has expired and another waits, and expires between the code's reading of the
      enable and its masking of interrupts. */
  lemma CallbackUnarms<T>(x: T, a: T)
    requires a != x
    ensures var s := Run(Initial<T>(), [OpInsert(x, 5), OpInterrupt, OpInsert(a, 5)]);
            var s' := Step(s, OpInterrupt);
            && s.queue == [x] && s.irq && s.Armed() && s'.Armed()
            && Step(s', OpTakeCallback(s.irq)).irq && Step(s', OpTakeCallback(s.irq)).Idle()
  {
    hide Step, Run;
    RunThree(Initial<T>(), OpInsert(x, 5), OpInterrupt, OpInsert(a, 5));
    FirstInserted(Initial<T>(), x);
    var s1 := Step(Step(Initial<T>(), OpInsert(x, 5)), OpInterrupt);
    FirstInserted(s1, a);
    CallbackTaken(Step(Step(s1, OpInsert(a, 5)), OpInterrupt), true);
  }

  lemma CallbackTaken<T>(s: State<T>, enabled: bool)
    requires s.queue != []
    ensures var s' := Step(s, OpTakeCallback(enabled)); s'.irq == enabled && s'.Idle() == s.Idle()
  {}

  lemma RunThree<T>(s: State<T>, a: Op<T>, b: Op<T>, c: Op<T>)
    ensures Run(s, [a, b, c]) == Step(Step(Step(s, a), b), c)
  {
    hide Step;
    assert [a, b, c][1..] == [b, c] && [b, c][1..] == [c] && [c][1..] == [];
    assert Run(Step(s, a), [b, c]) == Run(Step(Step(s, a), b), [c]);
  }

  // ----- How many interrupts a wait takes -----

  function Fires<T>(s: State<T>, n: nat): State<T>
    decreases n
  {
    if n == 0 then s else Fires(Fire(s), n - 1)
  }

  /** The durations loaded before each of the next n interrupts. */
  function Loads<T>(s: State<T>, n: nat): seq<int>
    decreases n
  {
    if n == 0 || s.Idle() then [] else [Load(s)] + Loads(Fire(s), n - 1)
  }

  function Sum(xs: seq<int>): int {
    if xs == [] then 0 else xs[0] + Sum(xs[1..])
  }

  /** The interrupts needed for a timer that is d ticks away. */
  function Interrupts(d: nat, split: bool): nat {
    if split && d == 65535 then 2
    else if d == 0 then 1
    else (d + 65534) / 65535
  }

  /**
   With nothing created or deleted meanwhile, the first real timer expires after exactly that many
   interrupts and not before; the loaded durations are at most 65535 ticks and add up to its wait.
   The count is max(1, ceil(d / 65535)) unless the dummy is already counting for a timer that is due
   in the same tick as the dummy itself: that one takes one interrupt more.
   */
  lemma {:induction false} ExpiryCount<T>(s: State<T>, n: nat)
    requires Inv(s) && s.active != []
    requires n == Interrupts(s.active[0].due - s.last, s.split)
    ensures n >= 1 && Sum(Loads(s, n)) == s.active[0].due - s.last
    ensures |Loads(s, n)| == n && forall x :: x in Loads(s, n) ==> 0 <= x <= 65535
    ensures Fires(s, n - 1).log == s.log && Fires(s, n - 1).active == s.active
    ensures Fires(s, n).log == s.log + [Expiry(s.epoch, s.active[0].due, s.active[0].stamp)]
    decreases s.active[0].due - s.last, s.split
  {
    var d := s.active[0].due - s.last;
    if s.split {
      var s' := Fire(s);
      assert s'.active == s.active && s'.last == s.last + MAX_LOAD && s'.log == s.log && s'.epoch == s.epoch;
      assert n - 1 == Interrupts(d - MAX_LOAD, s'.split);
      FireInv(s);
      ExpiryCount(s', n - 1);
      assert Loads(s, n) == [MAX_LOAD] + Loads(s', n - 1);
    } else {
      assert n == 1;
      assert Loads(s, 1) == [d] + Loads(Fire(s), 0) == [d];
      assert Fires(s, 1) == Fires(Fire(s), 0) == Fire(s);
    }
  }

  /** The one more interrupt is real: a timer created for the very tick of the dummy. */
  lemma ExpiryCountCorner<T>(a: T, b: T, s: State<T>)
    requires a != b && s == Step(Step(Initial<T>(), OpInsert(a, 100000)), OpInsert(b, 65535))
    ensures s.split && s.active != [] && s.active[0].timer == b && s.active[0].due - s.last == 65535
    ensures Fires(s, 1).log == [] && |Fires(s, 2).log| == 1
  {
    var s0 := Initial<T>();
    var s1 := Step(s0, OpInsert(a, 100000));
    assert Place(s0.active, 100000) == 0;
    assert Placed(s0.active, Entry(a, 100000, 0)) == [Entry(a, 100000, 0)];
    assert s1.split && s1.active == [Entry(a, 100000, 0)] && s1.last == 0 && s1.log == [];
    var s2 := Step(s1, OpInsert(b, MAX_LOAD));
    assert Place(s1.active, MAX_LOAD) == 0;
    assert Placed(s1.active, Entry(b, MAX_LOAD, 1)) == [Entry(b, MAX_LOAD, 1), Entry(a, 100000, 0)];
    assert Fires(s, 1) == Fires(Fire(s), 0) == Fire(s);
    assert Fires(s, 2) == Fires(Fire(s), 1) == Fires(Fire(Fire(s)), 0);
  }

  // ----- 32-bit time -----

  /**
   The time stored by scheduler_sorted_insert, seen from the last timeout, when a timer is created
   `elapsed` ticks after it: a sum below the last timeout means that 32 bits wrapped, and the list is
   then rebased.
   */
  function StoredWait(last: nat, elapsed: nat, timeout: nat): nat {
    var time := (last + elapsed + timeout) % TWO32;
    if time < last then
      var base := (last + elapsed) % TWO32;
      ((time + MAX_LOAD - base + 1) % TWO32 - (last - base) % TWO32) % TWO32
    else (time - last) % TWO32
  }

  /** The stored time is the one asked for exactly when 32 bits do not wrap; otherwise it is 65536 ticks late. */
  lemma RebaseExactly(last: nat, elapsed: nat, timeout: nat)
    requires last < TWO32 && elapsed + timeout + 65536 < TWO32
    ensures StoredWait(last, elapsed, timeout) == elapsed + timeout <==> last + elapsed + timeout < TWO32
    ensures last + elapsed + timeout >= TWO32 ==> StoredWait(last, elapsed, timeout) == elapsed + timeout + 65536
  {
    if last + elapsed + timeout >= TWO32 {
      var time := last + elapsed + timeout - TWO32;
      var base := if last + elapsed < TWO32 then last + elapsed else last + elapsed - TWO32;
      WrapOnce(last + elapsed + timeout);
      WrapOnce(last + elapsed);
      ModDiff(time + MAX_LOAD - base + 1, last - base, TWO32);
      WrapOnce(elapsed + timeout + MAX_LOAD + 1);
      ModMultiple(elapsed + timeout + MAX_LOAD + 1, -1, TWO32);
    }
  }

  lemma WrapOnce(n: nat)
    requires n < 2 * TWO32
    ensures n % TWO32 == if n < TWO32 then n else n - TWO32
  {}

  lemma ModDiff(a: int, b: int, m: int)
    requires m > 0
    ensures (a % m - b % m) % m == (a - b) % m
  {
    assert a - b == (a % m - b % m) + m * (a / m - b / m);
    ModMultiple(a % m - b % m, a / m - b / m, m);
  }

  lemma ModMultiple(x: int, k: int, m: int)
    requires m > 0 && -m < x < m
    ensures (x + m * k) % m == x % m
  {
    if x < 0 {
      assert x + m * k == m * (k - 1) + (x + m);
      Quotient(x + m * k, m, k - 1, x + m);
      Quotient(x, m, -1, x + m);
    } else {
      Quotient(x + m * k, m, k, x);
    }
  }
}
