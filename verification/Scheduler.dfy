/**
 The timer scheduler of rtc.c: two intrusive linked lists that share their nodes, a dummy node that
 splits waits longer than the 16-bit counter, and an interrupt that moves nodes between the lists.
 Every method is proved against `SchedulerSpec`.
 */
module Scheduler {
  import opened Punctuality
  import opened SchedulerSpec
  import opened TimerLists

  ghost function Nodes(active: seq<Entry<Timer>>): (r: seq<Timer>)
    ensures |r| == |active|
    ensures forall i :: 0 <= i < |r| ==> r[i] == active[i].timer
  {
    seq(|active|, i requires 0 <= i < |active| => active[i].timer)
  }

  /** The nodes of the active list, with the dummy if it is there. */
  ghost function Chain(split: bool, active: seq<Entry<Timer>>, dummy: Timer): seq<Timer> {
    if split then [dummy] + Nodes(active) else Nodes(active)
  }

  /** The entries stand for timers of the program that carry their times. */
  ghost predicate Dated(active: seq<Entry<Timer>>, pool: set<Timer>)
    reads pool`absoluteTime
  {
    forall i :: 0 <= i < |active| ==> active[i].timer in pool && active[i].timer.absoluteTime == active[i].due
  }

  lemma DatedWithout(active: seq<Entry<Timer>>, pool: set<Timer>, i: nat)
    requires Dated(active, pool) && i < |active|
    ensures Dated(Without(active, i), pool)
  {
    WithoutIs(active, i);
  }

  function QueueFront(queue: seq<Timer>): Timer? {
    if queue == [] then null else queue[0]
  }

  lemma ChainAt(split: bool, active: seq<Entry<Timer>>, dummy: Timer, i: nat)
    requires i < |active|
    ensures var c := Chain(split, active, dummy); |c| == (if split then |active| + 1 else |active|)
    ensures Chain(split, active, dummy)[if split then i + 1 else i] == active[i].timer
  {}

  /** Found at place j of the chain, or nowhere: so much for the entries. */
  lemma ChainIndexOf(split: bool, active: seq<Entry<Timer>>, dummy: Timer, timer: Timer, j: nat)
    requires var c := Chain(split, active, dummy);
             j <= |c| && (j < |c| ==> c[j] == timer) && (forall k :: 0 <= k < j ==> c[k] != timer)
    requires timer != dummy
    ensures split ==> j > 0
    ensures IndexOf(active, timer) == if split then j - 1 else j
  {
    var i := if split then j - 1 else j;
    forall k | 0 <= k < |active| && k <= i
      ensures k < i ==> active[k].timer != timer
      ensures k == i ==> active[k].timer == timer
    {
      ChainAt(split, active, dummy, k);
    }
    IndexOfUnique(active, timer, i);
  }

  lemma ChainWithout(split: bool, active: seq<Entry<Timer>>, dummy: Timer, i: nat)
    requires i < |active|
    ensures Chain(split, Without(active, i), dummy) == Removed(Chain(split, active, dummy), if split then i + 1 else i)
  {
    WithoutIs(active, i);
    assert Nodes(Without(active, i)) == Removed(Nodes(active), i);
    RemovedShift(dummy, Nodes(active), i);
  }

  lemma NodesPlaced(active: seq<Entry<Timer>>, e: Entry<Timer>, p: nat)
    requires p == Place(active, e.due)
    ensures Nodes(Placed(active, e)) == InsertedAt(Nodes(active), p, e.timer)
  {
    PlacedIs(active, e);
  }

  lemma ChainPlaced(split: bool, active: seq<Entry<Timer>>, dummy: Timer, e: Entry<Timer>, p: nat)
    requires p == Place(active, e.due)
    ensures Chain(split, Placed(active, e), dummy)
         == InsertedAt(Chain(split, active, dummy), if split then p + 1 else p, e.timer)
  {
    NodesPlaced(active, e, p);
    InsertedAtShift(dummy, Nodes(active), p, e.timer);
  }

  lemma DatedPlaced(active: seq<Entry<Timer>>, pool: set<Timer>, e: Entry<Timer>)
    requires Dated(active, pool) && e.timer in pool && e.timer.absoluteTime == e.due
    ensures Dated(Placed(active, e), pool)
  {
    PlacedIs(active, e);
    forall i | 0 <= i < |Placed(active, e)|
      ensures Placed(active, e)[i].timer in pool && Placed(active, e)[i].timer.absoluteTime == Placed(active, e)[i].due
    {
      var p := Place(active, e.due);
      if i != p { assert Placed(active, e)[i] == active[if i < p then i else i - 1]; }
    }
  }

  /** The first j nodes, dummy included, are due by then and the next is not: that is the place among the entries. */
  lemma ChainPlace(s: State<Timer>, dummy: Timer, pool: set<Timer>, due: nat, j: nat)
    requires Dated(s.active, pool) && (s.split ==> dummy.absoluteTime == s.last + MAX_LOAD)
    requires var c := Chain(s.split, s.active, dummy);
             && j <= |c|
             && (forall i :: 0 <= i < j ==> c[i].absoluteTime <= due)
             && (j < |c| ==> c[j].absoluteTime > due)
    ensures InsertsAtHead(s, due) <==> j == 0
    ensures j > 0 ==> Place(s.active, due) == (if s.split then j - 1 else j)
  {
    var c := Chain(s.split, s.active, dummy);
    if s.split {
      assert c[0] == dummy;
    }
    if j > 0 || !s.split {
      var p := if s.split then j - 1 else j;
      forall i | 0 <= i < |s.active| && i <= p
        ensures i < p ==> s.active[i].due <= due
        ensures i == p ==> s.active[i].due > due
      {
        ChainAt(s.split, s.active, dummy, i);
      }
      PlaceUnique(s.active, due, p);
    }
  }

  /** What the insertion leaves: the dummy gives way only to a timer at the head. */
  lemma InsertedChain(s: State<Timer>, dummy: Timer, timer: Timer, due: nat, j: nat)
    requires Ordered(s) && j <= |Chain(s.split, s.active, dummy)|
    requires InsertsAtHead(s, due) <==> j == 0
    requires j > 0 ==> Place(s.active, due) == (if s.split then j - 1 else j)
    ensures var s', c := Inserted(s, timer, due), Chain(s.split, s.active, dummy);
            Chain(s'.split, s'.active, dummy)
            == if j > 0 then InsertedAt(c, j, timer) else [timer] + if s.split then c[1..] else c
  {
    var e := Entry(timer, due, s.clock);
    if j > 0 {
      ChainPlaced(s.split, s.active, dummy, e, Place(s.active, due));
    } else {
      assert Place(s.active, due) == 0;
      ChainPlaced(false, s.active, dummy, e, 0);
      assert InsertedAt(Nodes(s.active), 0, timer) == [timer] + Nodes(s.active);
    }
  }

  /** A timer that is not queued is no node of the lists. */
  lemma UnqueuedNode(s: State<Timer>, dummy: Timer, timer: Timer)
    requires Unqueued(s, timer) && timer != dummy
    ensures timer !in Chain(s.split, s.active, dummy)
  {}

  /** The search loop of scheduler_timeout_delete_helper. */
  method Find(head: Timer?, timer: Timer, ghost s: seq<Timer>) returns (found: bool, prev: Timer?, ghost j: nat)
    requires Linked(head, s)
    ensures found ==> j < |s| && s[j] == timer && (j > 0 ==> prev == s[j - 1])
    ensures !found ==> j == |s|
    ensures forall i :: 0 <= i < j ==> s[i] != timer
  {
    var findTimer: Timer? := head;
    found, prev, j := false, null, 0;
    while findTimer != null
      invariant j <= |s| && findTimer == NodeAt(s, j)
      invariant forall i :: 0 <= i < j ==> s[i] != timer
      invariant j > 0 ==> prev == s[j - 1]
      decreases |s| - j
    {
      if findTimer == timer {
        found := true;
        return;
      }
      prev, findTimer, j := findTimer, findTimer.next, j + 1;
    }
  }

  /** Nothing new waits, and nothing is taken out of the history. */
  ghost predicate Fewer(s: State<Timer>, s': State<Timer>) {
    (forall e :: e in s'.active ==> e in s.active) && s.log <= s'.log && (s.Idle() ==> s'.Idle())
  }

  lemma DeleteActiveFewer(s: State<Timer>, t: Timer)
    ensures Fewer(s, DeleteActive(s, t)) && DeleteActive(s, t).log == s.log
  {
    DeleteActiveLeaves(s, t);
  }

  lemma DeleteQueuedFewer(s: State<Timer>, t: Timer)
    ensures Fewer(s, DeleteQueued(s, t)) && DeleteQueued(s, t).log == s.log
  {}

  /** scheduler_timeout_delete_helper for the dummy on the active list. */
  ghost function DeleteDummy(s: State<Timer>): State<Timer> {
    if s.split then StartAtHead(s.(split := false)) else s.(irq := true)
  }

  lemma DeleteDummyInv(s: State<Timer>)
    requires Inv(s)
    ensures Inv(DeleteDummy(s))
  {
    if s.split { StartAtHeadInv(s.(split := false)); }
  }

  lemma DeleteDummyLeaves(s: State<Timer>)
    ensures var s' := DeleteDummy(s);
            Fewer(s, s') && Headed(s') && s'.log == s.log && s'.clock == s.clock && s'.active == s.active
  {}

  lemma ReadingOfDummy(s: State<Timer>, counter: nat, counter': nat, overflow: bool)
    requires Inv(s) && counter <= MAX_LOAD && s.active != []
    requires if s.split then counter' == MAX_LOAD - Load(DeleteDummy(s)) else counter' == counter
    ensures Reading(DeleteDummy(s), counter', overflow) <= Reading(s, counter, overflow)
  {}

  lemma DroppedFewer(s: State<Timer>, s': State<Timer>)
    requires Inv(s) && !s.Idle() && Dropped(s, s')
    ensures Fewer(s, s') && s'.log == s.log && s'.clock == s.clock
    ensures !s.split ==> Unqueued(s', s.active[0].timer)
  {
    if !s.split { WithoutIs(s.active, 0); }
  }

  lemma EnabledFewer(s: State<Timer>, s': State<Timer>)
    requires s' == s.(irq := true)
    ensures Fewer(s, s') && Headed(s') == Headed(s)
  {}

  lemma ClearedFewer(s: State<Timer>, s': State<Timer>)
    requires s' == if s.split then s.(active := []) else s
    ensures Fewer(s, s')
  {}

  lemma StoppedIdle(s: State<Timer>)
    requires Inv(s) && s.Idle()
    ensures Inv(s.(irq := false, last := 0, epoch := s.epoch + 1))
  {}

  ghost function Waiting(s: State<Timer>): set<Entry<Timer>> {
    set i | 0 <= i < |s.active| :: s.active[i]
  }

  /** The clock was stopped, the head of the active list was deleted, and the clock started again. */
  ghost predicate Dropped(s: State<Timer>, s': State<Timer>) {
    var stopped := s.(irq := false, last := 0, epoch := s.epoch + 1);
    s' == StartAtHead(if s.split then stopped.(split := false)
                      else if s.active != [] then stopped.(active := Without(s.active, 0)) else stopped)
  }

  lemma FewerWaiting(s: State<Timer>, s': State<Timer>)
    requires Fewer(s, s')
    ensures Waiting(s') <= Waiting(s)
    ensures s'.active != [] ==> s.active != []
    ensures s'.active == [] && s.active != [] ==> Waiting(s') < Waiting(s)
  {
    forall e | e in Waiting(s')
      ensures e in Waiting(s)
    {
      assert e in s'.active;
    }
    if s'.active != [] { assert s'.active[0] in s'.active; }
    if s.active != [] { assert s.active[0] in Waiting(s); }
  }

  lemma FewerTwice(s: State<Timer>, t: State<Timer>, u: State<Timer>)
    requires Fewer(s, t) && Fewer(t, u)
    ensures Fewer(s, u)
  {}

  lemma InterruptedFewer(s: State<Timer>, s': State<Timer>)
    requires Interrupted(s, s')
    ensures Fewer(s, s') && Timers(s') == Timers(s) && s.queue <= s'.queue && (Headed(s) ==> Headed(s'))
  {}

  /** The dummy waits for a timer. */
  predicate Headed(s: State<Timer>) {
    s.split ==> s.active != []
  }

  /** The entry still waits, or has expired. */
  ghost predicate Kept(e: Entry<Timer>, s: State<Timer>) {
    e in s.active || exists i :: 0 <= i < |s.log| && s.log[i].due == e.due && s.log[i].stamp == e.stamp
  }

  /** What interrupts may change. */
  ghost predicate Interrupted(s: State<Timer>, s': State<Timer>) {
    && Timers(s') == Timers(s)
    && (forall e :: e in s'.active ==> e in s.active)
    && (forall e :: e in s.active ==> Kept(e, s'))
    && s.log <= s'.log && s.queue <= s'.queue
    && (s.Armed() ==> s'.Armed()) && (s.Served() ==> s'.Served())
    && (s.Idle() ==> s' == s)
    && (s' == s || (s'.split ==> s'.active != []))
  }

  lemma InterruptedNot(s: State<Timer>)
    ensures Interrupted(s, s)
  {}

  lemma InterruptedOnce(s: State<Timer>, s': State<Timer>)
    requires Interrupted(s, s') && Inv(s') && !s'.Idle()
    ensures Interrupted(s, Fire(s'))
  {
    hide Inv, Fire;
    FireTimers(s');
    FireInv(s');
    FireLog(s');
    forall e | e in s.active
      ensures Kept(e, Fire(s'))
    {
      KeptAfterFire(e, s');
    }
  }

  lemma FireLog(s: State<Timer>)
    ensures s.log <= Fire(s).log && s.queue <= Fire(s).queue
    ensures forall e :: e in Fire(s).active ==> e in s.active
    ensures !s.Idle() && Fire(s).split ==> Fire(s).active != []
    ensures !s.Idle() ==> Fire(s).Served()
  {}

  lemma KeptAfterFire(e: Entry<Timer>, s: State<Timer>)
    requires Kept(e, s)
    ensures Kept(e, Fire(s))
  {
    var s' := Fire(s);
    if e in s.active {
      if !s.split && e == s.active[0] {
        assert s'.log[|s.log|].due == e.due && s'.log[|s.log|].stamp == e.stamp;
      } else if !s.split {
        var j :| 0 <= j < |s.active| && s.active[j] == e;
        assert s.active[1..][j - 1] == e;
      }
    } else {
      var i :| 0 <= i < |s.log| && s.log[i].due == e.due && s.log[i].stamp == e.stamp;
      FireLog(s);
      assert s'.log[i] == s.log[i];
    }
  }

  class TimerScheduler {
    ghost const pool: set<Timer>  // the timers of the program
    const dummy: Timer
    const interrupts: bool        // whether the processor takes interrupts at all

    var listHead: Timer?
    var executeQueueHead: Timer?
    var absoluteTimeOfLastTimeout: nat
    var lastTimerLoad: nat
    var isRunning: bool

    var counter: nat           // RTC.CNT
    var overflowFlag: bool     // RTC.INTFLAGS
    var overflowEnabled: bool  // RTC.INTCTRL

    ghost var model: State<Timer>

    ghost var list: seq<Timer>     // the nodes of the active list
    ghost var expired: seq<Timer>  // the nodes of the execute queue

    ghost var chronicle: Chronicle // the ticks since reset, and at which of them timers were created and expired

    /** The lists are chains of different nodes and share none. */
    ghost predicate Lists()
      reads `listHead, `executeQueueHead, `list, `expired, dummy, pool
    {
      && dummy !in pool
      && (forall i :: 0 <= i < |list| ==> list[i] in pool + {dummy})
      && (forall i :: 0 <= i < |expired| ==> expired[i] in pool)
      && Distinct(list) && Distinct(expired) && NoneShared(list, expired)
      && Linked(listHead, list)
      && Linked(executeQueueHead, expired)
    }

    /** The nodes are those of the model with its times, and the dummy is only ever the active head. */
    ghost predicate ShowsNodes()
      reads `list, `expired, `model, `absoluteTimeOfLastTimeout, `overflowEnabled, pool`absoluteTime
    {
      && list == Chain(model.split, model.active, dummy)
      && expired == model.queue
      && Dated(model.active, pool)
      && absoluteTimeOfLastTimeout == model.last
      && overflowEnabled == model.irq
    }

    /** The dummy, when it is there, stands for the longest wait after the last timeout. */
    ghost predicate Shows()
      reads `list, `expired, `model, `absoluteTimeOfLastTimeout, `overflowEnabled, pool`absoluteTime, dummy`absoluteTime
    {
      ShowsNodes() && (model.split ==> dummy.absoluteTime == model.last + MAX_LOAD)
    }

    /** The counter runs for the head of the active list. The code can also take it to run when nothing waits. */
    ghost predicate Clocked()
      reads this
    {
      && counter <= MAX_LOAD
      && (if model.Idle() then isRunning ==> lastTimerLoad == 0
          else isRunning && lastTimerLoad == MAX_LOAD - Load(model) && (overflowFlag || lastTimerLoad <= counter))
    }

    /** The counter has just been loaded for the head, or stopped where it was. */
    ghost predicate Restarted(was: nat)
      reads this
    {
      && isRunning == !model.Idle()
      && (isRunning ==> lastTimerLoad == counter == MAX_LOAD - Load(model) && counter <= MAX_LOAD)
      && (!isRunning ==> counter == was)
    }

    /** The lists, the model and the counter agree. */
    ghost predicate Sound()
      reads this, dummy, pool
    {
      Lists() && Shows() && Clocked() && Inv(model) && model.Served()
    }

    /** What the scheduler takes for the time. */
    ghost function Now(): int
      reads `model, `counter, `overflowFlag, `isRunning
    {
      if model.Idle() && isRunning then model.last + (if overflowFlag then MAX_LOAD else counter)
      else Reading(model, counter, overflowFlag)
    }

    ghost predicate Valid()
      reads this, dummy, pool
    {
      Sound() && Punctual(model, Now(), chronicle)
    }

    /** The head of the active list shows what the model has there. */
    lemma HeadTells()
      requires Lists() && Shows()
      ensures listHead == null <==> model.Idle()
      ensures listHead != null ==>
                list != [] && listHead == list[0] && listHead !in list[1..] && listHead !in expired
      ensures listHead == dummy <==> model.split
      ensures !model.split ==> forall i :: 0 <= i < |list| ==> list[i] != dummy
      ensures listHead != null && !model.split ==>
                && model.active != [] && listHead == model.active[0].timer && listHead in pool
                && listHead.absoluteTime == model.active[0].due
    {}

    lemma Enabled()
      requires Valid()
      ensures !model.Idle() ==> overflowEnabled
    {}

    lemma HeadPresent()
      requires Valid()
      ensures listHead == null <==> model.Idle()
    {
      HeadTells();
    }

    lemma HeadIs(timer: Timer)
      requires Lists() && Shows() && timer in pool
      ensures listHead == timer <==> !model.split && model.active != [] && model.active[0].timer == timer
    {
      HeadTells();
    }

    constructor (ghost timers: set<Timer>, interrupts: bool)
      ensures Valid() && pool == timers && this.interrupts == interrupts && fresh(dummy)
      ensures model == Initial<Timer>() && !isRunning && !overflowEnabled && listHead == executeQueueHead == null
      ensures chronicle == Chronicle(Moment(0, 0), [], [])
    {
      pool := timers;
      this.interrupts := interrupts;
      var d := new Timer();
      dummy := d;
      listHead, executeQueueHead := null, null;
      absoluteTimeOfLastTimeout, lastTimerLoad, isRunning := 0, 0, false;
      counter, overflowFlag, overflowEnabled := 0, false, false;
      model, list, expired := Initial<Timer>(), [], [];
      chronicle := Chronicle(Moment(0, 0), [], []);
      new;
      assert Nodes(model.active) == [];
    }

    // ----- The clock -----

    /** scheduler_stop_timeouts */
    method StopTimeouts()
      modifies `overflowEnabled, `absoluteTimeOfLastTimeout, `isRunning, `model
      ensures !overflowEnabled && absoluteTimeOfLastTimeout == 0 && !isRunning
      ensures model == old(model).(irq := false, last := 0, epoch := old(model).epoch + 1)
    {
      overflowEnabled := false;
      absoluteTimeOfLastTimeout := 0;
      isRunning := false;
      model := model.(irq := false, last := 0, epoch := model.epoch + 1);
    }

    /** scheduler_set_timer_duration */
    method SetTimerDuration(duration: nat)
      requires duration <= 0xFFFF
      modifies `lastTimerLoad, `counter
      ensures lastTimerLoad == counter == 0xFFFF - duration
    {
      lastTimerLoad := MAX_LOAD - duration;
      counter := lastTimerLoad;
    }

    /** The model follows the lists. */
    ghost method Record(s: State<Timer>)
      requires Lists() && list == Chain(s.split, s.active, dummy) && expired == s.queue && Dated(s.active, pool)
      requires s.split ==> dummy.absoluteTime == s.last + MAX_LOAD
      requires absoluteTimeOfLastTimeout == s.last && overflowEnabled == s.irq
      modifies `model
      ensures Lists() && Shows() && model == s
    {
      model := s;
    }

    /** The part of scheduler_start_timer_at_head that puts the dummy before a timer too far away. */
    method PutDummyAtHead()
      requires Lists() && dummy !in list
      modifies `listHead, `list, dummy
      ensures Lists() && list == [dummy] + old(list)
      ensures dummy.absoluteTime == absoluteTimeOfLastTimeout + MAX_LOAD
    {
      dummy.absoluteTime := absoluteTimeOfLastTimeout + MAX_LOAD;
      dummy.next := listHead;
      LinkedPush(listHead, list, dummy);
      listHead, list := dummy, [dummy] + list;
    }

    /** The part of scheduler_start_timer_at_head for a list that is not empty. Where an interrupt may come between
        its last two statements, `FinishStart` follows. */
    method LoadTimerAtHead()
      requires Lists() && Shows() && listHead != null
      requires model.active != [] ==> model.last <= model.active[0].due
      modifies `listHead, `list, `lastTimerLoad, `isRunning, `counter, `overflowEnabled, `model, dummy
      ensures Lists() && Shows()
      ensures !model.Idle() && model == StartAtHead(old(model))
      ensures isRunning && lastTimerLoad == counter == MAX_LOAD - Load(model) && counter <= MAX_LOAD
      ensures list == old(list) || list == [dummy] + old(list)
    {
      hide Linked, Distinct, NoneShared;
      HeadTells();
      var period := listHead.absoluteTime - absoluteTimeOfLastTimeout;
      assert period == if model.split then MAX_LOAD else model.active[0].due - model.last;
      if period > MAX_LOAD {
        PutDummyAtHead();
        period := MAX_LOAD;
      }
      SetTimerDuration(period);
      overflowEnabled, isRunning := true, true;
      Record(StartAtHead(model));
    }

    /** scheduler_start_timer_at_head */
    method StartTimerAtHead() returns (started: bool)
      requires Lists() && Shows()
      requires model.active != [] ==> model.last <= model.active[0].due
      modifies `listHead, `list, `absoluteTimeOfLastTimeout, `lastTimerLoad, `isRunning, `counter, `overflowEnabled
      modifies `model, dummy
      ensures Lists() && Shows()
      ensures model == StartAtHead(old(model)) && started == !model.Idle()
      ensures Restarted(old(counter)) && (!started ==> lastTimerLoad == old(lastTimerLoad))
      ensures list == old(list) || list == [dummy] + old(list)
    {
      started := listHead != null;
      if listHead == null {
        StopTimeouts();
      } else {
        LoadTimerAtHead();
      }
    }

    /** scheduler_make_absolute: the time now, plus the timeout. It never lies past the head of the list. */
    method MakeAbsolute(timeout: nat) returns (time: nat)
      requires Sound()
      ensures model.last + timeout <= time && time == Now() + timeout
      ensures !model.Idle() ==> listHead != null && time - timeout <= listHead.absoluteTime
    {
      time := timeout + absoluteTimeOfLastTimeout;
      if isRunning {
        var timerVal := counter;
        if overflowFlag {
          timerVal := MAX_LOAD;
        }
        time := time + (timerVal - lastTimerLoad);
      }
    }

    // ----- Taking nodes off a list -----

    /** Takes the head off the active list. */
    method DropHead()
      requires Lists() && list != []
      modifies `listHead, `list
      ensures Lists() && list == old(list)[1..]
    {
      listHead, list := listHead.next, list[1..];
    }

    /** Takes a node out of the active list from behind the node `prev`. */
    method Unlink(timer: Timer, prev: Timer, ghost j: nat)
      requires Lists() && 0 < j < |list| && timer == list[j] && prev == list[j - 1]
      modifies `list, prev`next
      ensures Lists() && list == Removed(old(list), j)
    {
      prev.next := timer.next;
      LinkedUnlink(listHead, list, j, prev);
      DistinctRemoved(list, j);
      list := Removed(list, j);
    }

    method DropQueueHead()
      requires Lists() && expired != []
      modifies `executeQueueHead, `expired
      ensures Lists() && expired == old(expired)[1..]
    {
      executeQueueHead, expired := executeQueueHead.next, expired[1..];
    }

    method UnlinkQueued(timer: Timer, prev: Timer, ghost j: nat)
      requires Lists() && 0 < j < |expired| && timer == expired[j] && prev == expired[j - 1]
      modifies `expired, prev`next
      ensures Lists() && expired == Removed(old(expired), j)
    {
      prev.next := timer.next;
      LinkedUnlink(executeQueueHead, expired, j, prev);
      DistinctRemoved(expired, j);
      expired := Removed(expired, j);
    }

    /** Puts a timer at the head of the active list, in the place of the dummy if that is the head. */
    method InsertAtHead(timer: Timer)
      requires Lists() && timer in pool && timer !in list && timer !in expired
      modifies `listHead, `list, timer`next
      ensures Lists()
      ensures list == [timer] + if old(list) != [] && old(list)[0] == dummy then old(list)[1..] else old(list)
    {
      timer.next := if listHead == dummy then dummy.next else listHead;
      if listHead == dummy {
        list := list[1..];
      }
      LinkedPush(timer.next, list, timer);
      listHead, list := timer, [timer] + list;
    }

    method InsertAfter(timer: Timer, prev: Timer, ghost j: nat)
      requires Lists() && timer in pool && timer !in list && timer !in expired
      requires 0 < j <= |list| && prev == list[j - 1]
      modifies `list, timer`next, prev`next
      ensures Lists() && list == InsertedAt(old(list), j, timer)
    {
      timer.next := prev.next;
      prev.next := timer;
      LinkedInsert(listHead, list, j, prev, timer);
      DistinctInserted(list, j, timer);
      NoneSharedInserted(list, j, timer, expired);
      MembersInserted(list, j, timer, pool + {dummy});
      list := InsertedAt(list, j, timer);
    }

    // ----- Deleting -----

    method DropActive()
      requires Lists() && Shows() && !model.split && model.active != []
      modifies `listHead, `list, `model
      ensures Lists() && Shows() && list == old(list)[1..]
      ensures model == old(model).(active := Without(old(model).active, 0))
    {
      DropHead();
      ghost var active := Without(model.active, 0);
      assert Chain(false, active, dummy) == list by { ChainWithout(false, model.active, dummy, 0); }
      DatedWithout(model.active, pool, 0);
      Record(model.(active := active));
    }

    method UnlinkActive(timer: Timer, prev: Timer, ghost i: nat)
      requires Lists() && Shows() && i < |model.active| && timer == model.active[i].timer
      requires var j := if model.split then i + 1 else i; j > 0 && prev == list[j - 1]
      modifies `list, `model, prev`next
      ensures Lists() && Shows()
      ensures model == old(model).(active := Without(old(model).active, i))
    {
      Unlink(timer, prev, if model.split then i + 1 else i);
      ChainWithout(model.split, model.active, dummy, i);
      DatedWithout(model.active, pool, i);
      Record(model.(active := Without(model.active, i)));
    }

    method EnableOverflow()
      requires Lists() && Shows()
      modifies `overflowEnabled, `model
      ensures Lists() && Shows() && model == old(model).(irq := true)
    {
      overflowEnabled, model := true, model.(irq := true);
    }

    /** The branch of scheduler_timeout_delete_helper that searches behind the head of the active list. */
    method SearchActive(timer: Timer) returns (found: bool)
      requires Lists() && Shows() && timer in pool && listHead != timer
      modifies `list, `model, `overflowEnabled, dummy, pool
      ensures Lists() && Shows()
      ensures found == (IndexOf(old(model).active, timer) < |old(model).active|)
      ensures model == DeleteActive(old(model), timer)
    {
      hide NoneShared, Dated;
      ghost var s := model;
      var prev: Timer?;
      ghost var j;
      found, prev, j := Find(listHead, timer, list);
      ghost var i := if s.split then j - 1 else j;
      ChainIndexOf(s.split, s.active, dummy, timer, j);
      assert DeleteActive(s, timer) == (if found then s.(active := Without(s.active, i)) else s).(irq := true);
      if found {
        UnlinkActive(timer, prev, i);
      }
      EnableOverflow();
    }

    /** The masked section of scheduler_timeout_delete_helper for the active list */
    method DeleteFromActive(timer: Timer) returns (found: bool, started: bool)
      requires Lists() && Shows() && timer in pool
      requires forall i :: 0 <= i < |model.active| ==> model.last <= model.active[i].due
      modifies `listHead, `list, `absoluteTimeOfLastTimeout, `lastTimerLoad, `isRunning, `counter, `overflowEnabled
      modifies `model
      modifies dummy, pool
      ensures Lists() && Shows()
      ensures found == (IndexOf(old(model).active, timer) < |old(model).active|)
      ensures model == DeleteActive(old(model), timer)
      ensures old(listHead) == timer ==> Restarted(old(counter)) && started == !model.Idle() && started == model.irq
      ensures old(listHead) != timer ==> unchanged(`isRunning, `lastTimerLoad, `counter) && !started
    {
      hide Linked, Distinct, NoneShared, Dated;
      found, started := false, false;
      ghost var s := model;
      HeadTells();
      if timer == listHead {
        ChainIndexOf(s.split, s.active, dummy, timer, 0);
        assert DeleteActive(s, timer) == StartAtHead(s.(active := Without(s.active, 0)));
        DropActive();
        found := true;
        started := StartTimerAtHead();
      } else {
        found := SearchActive(timer);
      }
    }

    method DropQueued()
      requires Lists() && Shows() && model.queue != []
      modifies `executeQueueHead, `expired, `model
      ensures Lists() && Shows()
      ensures model == old(model).(queue := Without(old(model).queue, 0))
    {
      hide Linked, Distinct, NoneShared, Dated, Chain;
      DropQueueHead();
      assert Without(model.queue, 0) == model.queue[1..];
      Record(model.(queue := Without(model.queue, 0)));
    }

    method UnlinkFromQueue(timer: Timer, prev: Timer, ghost j: nat)
      requires Lists() && Shows() && 0 < j < |model.queue| && timer == model.queue[j] && prev == model.queue[j - 1]
      modifies `expired, `model, prev`next
      ensures Lists() && Shows()
      ensures model == old(model).(queue := Without(old(model).queue, j))
    {
      UnlinkQueued(timer, prev, j);
      Record(model.(queue := Without(model.queue, j)));
    }

    /** The branch of scheduler_timeout_delete_helper that searches behind the front of the execute queue. */
    method SearchQueue(timer: Timer) returns (found: bool)
      requires Lists() && Shows() && timer in pool && executeQueueHead != null && executeQueueHead != timer
      modifies `expired, `model, `overflowEnabled, pool
      ensures Lists() && Shows()
      ensures found == (timer in old(model).queue)
      ensures model == DeleteQueued(old(model), timer)
    {
      ghost var s := model;
      var prev: Timer?;
      ghost var j;
      found, prev, j := Find(executeQueueHead, timer, expired);
      QueueIndexOfUnique(s.queue, timer, j);
      assert DeleteQueued(s, timer) == (if found then s.(queue := Without(s.queue, j)) else s).(irq := true);
      if found {
        UnlinkFromQueue(timer, prev, j);
      }
      EnableOverflow();
    }

    /** The masked section of scheduler_timeout_delete_helper for the execute queue: it restarts the clock of the
        active list. */
    method DeleteFromQueue(timer: Timer) returns (found: bool, started: bool)
      requires Lists() && Shows() && timer in pool
      requires model.active != [] ==> model.last <= model.active[0].due
      modifies `listHead, `executeQueueHead, `list, `expired, `model
      modifies `absoluteTimeOfLastTimeout, `lastTimerLoad, `isRunning, `counter, `overflowEnabled, dummy, pool
      ensures Lists() && Shows()
      ensures found == (timer in old(model).queue)
      ensures model == DeleteQueued(old(model), timer)
      ensures old(executeQueueHead) == timer ==>
                Restarted(old(counter)) && started == !model.Idle() && started == model.irq
      ensures old(executeQueueHead) != timer ==> unchanged(`isRunning, `lastTimerLoad, `counter) && !started
    {
      found, started := false, false;
      ghost var s := model;
      if executeQueueHead == null {
      } else if timer == executeQueueHead {
        assert DeleteQueued(s, timer) == StartAtHead(s.(queue := Without(s.queue, 0)));
        DropQueued();
        found := true;
        started := StartTimerAtHead();
      } else {
        found := SearchQueue(timer);
      }
    }

    // ----- Inserting -----

    /** The search loop of scheduler_sorted_insert: the node to insert behind, or null for the head. */
    method FindPlace(due: nat) returns (prev: Timer?, ghost j: nat)
      requires Lists() && Shows()
      ensures j <= |list| && (if j == 0 then prev == null else prev == list[j - 1])
      ensures InsertsAtHead(model, due) <==> j == 0
      ensures j > 0 ==> Place(model.active, due) == (if model.split then j - 1 else j)
    {
      var insertPoint: Timer? := listHead;
      prev, j := null, 0;
      while insertPoint != null
        invariant j <= |list| && insertPoint == NodeAt(list, j)
        invariant if j == 0 then prev == null else prev == list[j - 1]
        invariant forall i :: 0 <= i < j ==> list[i].absoluteTime <= due
        decreases |list| - j
      {
        if insertPoint.absoluteTime > due {
          break;
        }
        prev, insertPoint, j := insertPoint, insertPoint.next, j + 1;
      }
      ChainPlace(model, dummy, pool, due, j);
    }

    /** Links a new timer at the head; the dummy gives way to it. */
    method InsertFirst(timer: Timer, ghost due: nat)
      requires Lists() && Shows() && Ordered(model) && Unqueued(model, timer)
      requires timer in pool && timer.absoluteTime == due && InsertsAtHead(model, due)
      modifies `listHead, `list, `model, timer`next
      ensures Lists() && Shows()
      ensures model == Inserted(old(model), timer, due).(irq := old(model).irq)
    {
      ghost var s, s' := model, Inserted(model, timer, due).(irq := model.irq);
      UnqueuedNode(s, dummy, timer);
      DatedPlaced(s.active, pool, Entry(timer, due, s.clock));
      InsertAtHead(timer);
      assert list == Chain(s'.split, s'.active, dummy) by { InsertedChain(s, dummy, timer, due, 0); }
      Record(s');
    }

    /** Links a new timer behind the node `prev`. */
    method InsertBehind(timer: Timer, prev: Timer, ghost j: nat, ghost due: nat)
      requires Lists() && Shows() && Ordered(model) && Unqueued(model, timer)
      requires timer in pool && timer.absoluteTime == due && !InsertsAtHead(model, due)
      requires 0 < j <= |list| && prev == list[j - 1]
      requires Place(model.active, due) == (if model.split then j - 1 else j)
      modifies `list, `model, timer`next, prev`next
      ensures Lists() && Shows()
      ensures model == Inserted(old(model), timer, due).(irq := old(model).irq)
    {
      hide Linked, Distinct, NoneShared;
      ghost var s, s' := model, Inserted(model, timer, due).(irq := model.irq);
      UnqueuedNode(s, dummy, timer);
      DatedPlaced(s.active, pool, Entry(timer, due, s.clock));
      InsertAfter(timer, prev, j);
      assert list == Chain(s'.split, s'.active, dummy) by { InsertedChain(s, dummy, timer, due, j); }
      Record(s');
    }

    /** Before an insertion at the head, the counter starts anew and a pending overflow is dropped. */
    method RestartCounter()
      requires Lists() && Shows()
      modifies `lastTimerLoad, `counter, `overflowFlag
      ensures Lists() && Shows() && !overflowFlag && lastTimerLoad == counter == 0
    {
      SetTimerDuration(MAX_LOAD);
      overflowFlag := false;
    }

    /** scheduler_sorted_insert; without a wrap of the clock, the list is never rebased. */
    method SortedInsert(timer: Timer) returns (atHead: bool)
      requires Lists() && Shows() && Ordered(model) && Unqueued(model, timer)
      requires timer in pool && model.last <= timer.absoluteTime
      modifies `listHead, `list, `model, `lastTimerLoad, `counter, `overflowFlag, dummy, pool
      ensures Lists() && Shows()
      ensures model == Inserted(old(model), timer, old(timer.absoluteTime)).(irq := old(model).irq)
      ensures atHead == InsertsAtHead(old(model), old(timer.absoluteTime))
      ensures if atHead then lastTimerLoad == counter == 0 && !overflowFlag
              else unchanged(`lastTimerLoad, `counter, `overflowFlag)
      ensures timer.absoluteTime == old(timer.absoluteTime)
    {
      hide Linked, Distinct, NoneShared, Dated, Chain;
      var prev;
      ghost var j;
      prev, j := FindPlace(timer.absoluteTime);
      atHead := prev == null;
      if atHead {
        RestartCounter();
        InsertFirst(timer, timer.absoluteTime);
      } else {
        InsertBehind(timer, prev, j, timer.absoluteTime);
      }
    }

    // ----- Expiring -----

    /** scheduler_enqueue_callback */
    method EnqueueCallback(timer: Timer)
      requires Distinct(expired) && Linked(executeQueueHead, expired) && timer !in expired
      modifies `executeQueueHead, `expired, timer`next
      modifies if expired == [] then {} else {expired[|expired| - 1]}
      ensures expired == old(expired) + [timer]
      ensures Distinct(expired) && Linked(executeQueueHead, expired)
      ensures old(expired) != [] ==> var t := old(expired[|expired| - 1]); t.absoluteTime == old(t.absoluteTime)
    {
      timer.next := null;
      if executeQueueHead == null {
        executeQueueHead, expired := timer, [timer];
        return;
      }
      var tmp: Timer := executeQueueHead;
      ghost var j := 0;
      while tmp.next != null
        invariant j < |expired| && tmp == expired[j]
        invariant timer.next == null && Linked(executeQueueHead, expired)
        decreases |expired| - j
      {
        tmp, j := tmp.next, j + 1;
      }
      assert j == |expired| - 1;
      tmp.next := timer;
      expired := expired + [timer];
    }

    /** The moves of the interrupt routine: the head of the active list goes to the end of the queue. */
    method MoveHeadToQueue()
      requires Lists() && list != [] && list[0] != dummy
      modifies `listHead, `executeQueueHead, `list, `expired, pool
      ensures Lists()
      ensures list == old(list)[1..] && expired == old(expired) + [old(list)[0]]
      ensures forall t :: t in pool ==> t.absoluteTime == old(t.absoluteTime)
    {
      assert listHead == list[0];
      var next := listHead.next;
      EnqueueCallback(listHead);
      PassHead(next);
    }

    /** The head of the active list, which is in the queue by now, leaves the list. */
    method PassHead(next: Timer?)
      requires list != [] && expired != [] && expired[|expired| - 1] == list[0] && dummy !in pool
      requires forall i :: 0 <= i < |list| ==> list[i] in pool + {dummy}
      requires forall i :: 0 <= i < |expired| ==> expired[i] in pool
      requires Distinct(list) && Distinct(expired) && NoneShared(list, expired[..|expired| - 1])
      requires Linked(next, list[1..]) && Linked(executeQueueHead, expired)
      modifies `listHead, `list
      ensures Lists() && list == old(list)[1..]
    {
      hide Linked;
      listHead, list := next, list[1..];
    }

    method ExpireTimer()
      requires Lists() && Shows() && !model.split && model.active != []
      modifies `listHead, `executeQueueHead, `list, `expired, `model, `absoluteTimeOfLastTimeout, `lastTimerLoad, pool
      ensures Lists() && Shows() && lastTimerLoad == 0
      ensures var e := old(model).active[0];
              model == old(model).(active := old(model).active[1..], queue := old(model).queue + [e.timer],
                                   last := e.due, log := old(model).log + [Expiry(old(model).epoch, e.due, e.stamp)])
    {
      ghost var s := model;
      assert listHead == list[0] == s.active[0].timer;
      assert Nodes(s.active)[1..] == Nodes(s.active[1..]);
      absoluteTimeOfLastTimeout, lastTimerLoad := listHead.absoluteTime, 0;
      MoveHeadToQueue();
      Record(s.(active := s.active[1..], queue := s.queue + [s.active[0].timer], last := s.active[0].due,
                log := s.log + [Expiry(s.epoch, s.active[0].due, s.active[0].stamp)]));
    }

    method ExpireDummy()
      requires Lists() && Shows() && model.split
      modifies `listHead, `list, `model, `absoluteTimeOfLastTimeout, `lastTimerLoad
      ensures Lists() && Shows() && lastTimerLoad == 0
      ensures model == old(model).(split := false, last := old(model).last + MAX_LOAD)
    {
      assert listHead == list[0] == dummy;
      absoluteTimeOfLastTimeout, lastTimerLoad := listHead.absoluteTime, 0;
      DropHead();
      assert list == Nodes(model.active);
      Record(model.(split := false, last := model.last + MAX_LOAD));
    }

    method ExpireHead()
      requires Lists() && Shows() && Ordered(model) && listHead != null
      modifies `listHead, `executeQueueHead, `list, `expired, `model, `absoluteTimeOfLastTimeout, `lastTimerLoad, pool
      ensures Lists() && Shows()
      ensures Fire(old(model)) == StartAtHead(model) && lastTimerLoad == 0
      ensures model.active != [] ==> model.last <= model.active[0].due
    {
      assert listHead == list[0];
      if listHead != dummy {
        assert model.active[1..] != [] ==> Before(model.active[0], model.active[1]);
        ExpireTimer();
      } else {
        ExpireDummy();
      }
    }

    /** ISR(RTC_CNT_vect) */
    method TimerInterrupt()
      requires Lists() && Shows() && Ordered(model) && listHead != null
      modifies this, dummy, pool
      ensures Lists() && Shows() && model == Fire(old(model)) && unchanged(`chronicle)
      ensures Restarted(old(counter)) && !overflowFlag && (model.Idle() ==> lastTimerLoad == 0)
    {
      hide Linked, Distinct, NoneShared, Dated, Chain;
      ExpireHead();
      var started := StartTimerAtHead();
      ClearOverflowFlag();
    }

    method ClearOverflowFlag()
      requires Lists() && Shows()
      modifies `overflowFlag
      ensures Lists() && Shows() && !overflowFlag
    {
      overflowFlag := false;
    }

    /** The interrupt keeps the invariant, and finds a timer to expire. */
    method ServeInterrupt()
      requires Sound() && listHead != null
      modifies this, dummy, pool
      ensures Sound() && model == Fire(old(model)) && !overflowFlag && unchanged(`chronicle)
      ensures if model.Idle() then lastTimerLoad == 0 && !isRunning && counter == old(counter) else Now() == model.last
    {
      ghost var s := model;
      TimerInterrupt();
      FireInv(s);
    }

    /** An overflow is served: a timer that expires has waited long enough. */
    method ServeOverflow()
      requires Valid() && listHead != null && overflowFlag
      modifies this, dummy, pool
      ensures Valid() && model == Fire(old(model)) && !overflowFlag
      ensures model.Idle() ==> lastTimerLoad == 0 && !isRunning && counter == old(counter)
      ensures chronicle == if old(model).split then old(chronicle)
                           else old(chronicle).(expired := old(chronicle).expired + [old(chronicle).now])
    {
      hide Linked, Distinct, NoneShared, Dated, Chain, Punctual, Waited, Fire, Inv;
      ghost var s, time, c := model, Now(), chronicle;
      HeadTells();
      ServeInterrupt();
      Fired(s, time, Now(), c);
      chronicle := if s.split then c else c.(expired := c.expired + [c.now]);
    }

    /** The counter goes on by one. */
    method Tick()
      requires Valid()
      modifies `counter, `overflowFlag, `chronicle
      ensures Valid() && model == old(model)
      ensures chronicle == old(chronicle).(now := Moment(old(chronicle).now.ticks + 1, old(chronicle).now.skipped))
      ensures if old(counter) == 0xFFFF then counter == 0 && overflowFlag
              else counter == old(counter) + 1 && overflowFlag == old(overflowFlag)
    {
      hide Linked, Distinct, NoneShared, Dated, Chain, Punctual, Waited, Inv, Reading;
      ghost var time, c := Now(), chronicle;
      ReadingOfTick(model, counter, overflowFlag);
      Count();
      Ticked(model, time, Now(), c);
      chronicle := c.(now := Moment(c.now.ticks + 1, c.now.skipped));
    }

    method Count()
      requires Sound()
      modifies `counter, `overflowFlag
      ensures Sound()
      ensures if old(counter) == MAX_LOAD then counter == 0 && overflowFlag
              else counter == old(counter) + 1 && overflowFlag == old(overflowFlag)
    {
      if counter == MAX_LOAD {
        counter, overflowFlag := 0, true;
      } else {
        counter := counter + 1;
      }
    }

    // ----- Interface -----

    /** scheduler_timeout_init, of which only the enabling of the interrupt concerns the scheduler. */
    method Init()
      requires Valid()
      modifies `overflowEnabled, `model
      ensures Valid() && model == SchedulerSpec.Init(old(model))
    {
      Enable();
    }

    /** The interrupt is enabled, whether a timer waits or not. */
    method Enable()
      requires Valid()
      modifies `overflowEnabled, `model
      ensures Valid() && model == old(model).(irq := true)
    {
      hide Linked, Distinct, NoneShared, Dated, Chain, Punctual;
      ghost var s, time := model, Now();
      EnableOverflow();
      IrqInv(s, true);
      Left(s, model, time, Now(), chronicle, 0);
      assert chronicle == chronicle.(now := Moment(chronicle.now.ticks, chronicle.now.skipped + 0));
    }

    /**
     Interrupts are enabled: the counter runs on, and its overflow is served as often as it comes. An overflow that
     finds the active list empty is passed over; from an armed state there is none (see `ArmedExactly`).
     */
    method Preempt()
      requires Valid()
      modifies this, dummy, pool
      ensures Valid() && Interrupted(old(model), model) && (!model.Idle() ==> overflowEnabled)
      ensures Fewer(old(model), model) && Timers(model) == Timers(old(model)) && old(model).queue <= model.queue
      ensures !interrupts || old(model).Idle() ==> model == old(model) && unchanged(`isRunning, `lastTimerLoad)
      ensures model.Idle() && !old(model).Idle() ==> lastTimerLoad == 0
      ensures chronicle.births == old(chronicle).births
    {
      hide Distinct, NoneShared, Linked, Dated, Chain, Punctual, Interrupted;
      var rounds: nat := *;
      ghost var s := model;
      InterruptedNot(s);
      while rounds > 0
        invariant Valid() && Interrupted(s, model)
        invariant !interrupts || s.Idle() ==>
                    model == s && isRunning == old(isRunning) && lastTimerLoad == old(lastTimerLoad)
        invariant model.Idle() && !s.Idle() ==> lastTimerLoad == 0
        invariant chronicle.births == old(chronicle).births
      {
        if interrupts && overflowFlag && overflowEnabled && listHead != null {
          HeadPresent();
          InterruptedOnce(s, model);
          ServeOverflow();
        } else {
          Tick();
        }
        rounds := rounds - 1;
      }
      InterruptedFewer(s, model);
    }

    /** `scheduler_is_running = 1`, which comes after the enabling of the interrupt. */
    method SetRunning()
      requires Valid() && (model.Idle() ==> lastTimerLoad == 0)
      modifies `isRunning
      ensures Valid() && isRunning
    {
      ghost var time := Now();
      isRunning := true;
      IdleIsPunctual(model, time, Now(), chronicle);
    }

    /**
     The end of scheduler_start_timer_at_head outside the interrupt: interrupts may come before its last statement,
     which then takes the counter to run although they may have stopped it. They do not read the flag that it sets,
     so that having set it before them too changes nothing.
     */
    method FinishStart(started: bool)
      requires Valid() && (started ==> !model.Idle())
      modifies this, dummy, pool
      ensures Valid() && Interrupted(old(model), model)
      ensures !interrupts || !started ==> model == old(model)
      ensures if started then isRunning else unchanged(`isRunning)
      ensures chronicle.births == old(chronicle).births
    {
      hide Interrupted;
      InterruptedNot(model);
      if started {
        HeadTells();
        Preempt();
        SetRunning();
      }
    }

    /** No interrupt stays enabled for nothing. */
    ghost predicate Quiet()
      reads `model, `isRunning
    {
      model.Idle() ==> !isRunning && !model.irq
    }

    /** The end of a restart of the clock, and interrupts behind it. */
    method FinishPreempted(started: bool)
      requires Valid() && (started ==> !model.Idle())
      modifies this, dummy, pool
      ensures Valid() && Fewer(old(model), model)
      ensures Timers(model) == Timers(old(model)) && old(model).queue <= model.queue
      ensures Headed(old(model)) ==> Headed(model)
      ensures !interrupts || old(model).Idle() ==> model == old(model) && (started || isRunning == old(isRunning))
    {
      hide Fewer, Inv, Punctual;
      ghost var s := model;
      FinishStart(started);
      ghost var t := model;
      Preempt();
      InterruptedFewer(s, t);
      InterruptedFewer(t, model);
      FewerTwice(s, t, model);
    }

    /** The masked section keeps what is sound; the counter is as it was, or loaded for the new head. */
    method TakeActive(timer: Timer) returns (found: bool, started: bool)
      requires Sound() && timer in pool
      modifies this, dummy, pool
      ensures Sound() && unchanged(`chronicle, `overflowFlag)
      ensures found == (IndexOf(old(model).active, timer) < |old(model).active|)
      ensures model == DeleteActive(old(model), timer)
      ensures var s := old(model);
              !model.Idle() ==> if !s.split && s.active[0].timer == timer then counter == MAX_LOAD - Load(model)
                                else counter == old(counter)
      ensures started ==> !model.Idle()
      ensures old(listHead) == timer && !started ==> model.Idle() && !isRunning && !model.irq
    {
      hide Lists, Shows, DeleteActive, Inv, Load;
      ghost var s := model;
      HeadIs(timer);
      NothingOverdue(s);
      DeleteActiveInv(s, timer);
      DeleteServed(s, timer);
      if listHead != timer { DeleteActiveClock(s, timer); }
      found, started := DeleteFromActive(timer);
    }

    method TakeQueued(timer: Timer) returns (found: bool, started: bool)
      requires Sound() && timer in pool
      modifies this, dummy, pool
      ensures Sound() && unchanged(`chronicle, `overflowFlag)
      ensures found == (timer in old(model).queue)
      ensures model == DeleteQueued(old(model), timer)
      ensures !model.Idle() ==> counter == MAX_LOAD - Load(model) || counter == old(counter)
      ensures started ==> !model.Idle()
      ensures old(executeQueueHead) == timer && !started ==> model.Idle() && !isRunning && !model.irq
    {
      ghost var s := model;
      DeleteQueuedInv(s, timer);
      found, started := DeleteFromQueue(timer);
    }

    /** A deletion from the active list makes no timer early, except by what `Skip` says. */
    method RemoveActive(timer: Timer) returns (found: bool, started: bool)
      requires Valid() && timer in pool
      modifies this, dummy, pool
      ensures Valid() && unchanged(`overflowFlag)
      ensures found == (IndexOf(old(model).active, timer) < |old(model).active|)
      ensures model == DeleteActive(old(model), timer)
      ensures chronicle == old(chronicle).(now := Moment(old(chronicle).now.ticks,
                old(chronicle).now.skipped + Skip(old(model), timer, old(overflowFlag))))
      ensures started ==> !model.Idle()
      ensures old(listHead) == timer && !started ==> model.Idle() && !isRunning && !model.irq
    {
      hide Distinct, NoneShared, Linked, Dated, Chain, Punctual, DeleteActive, Load;
      ghost var s, time, c, was, flag := model, Now(), chronicle, counter, overflowFlag;
      found, started := TakeActive(timer);
      DeleteActiveLeaves(s, timer);
      SkipPositive(s, timer, flag);
      if model.active != [] { ReadingOfDelete(s, timer, was, counter, flag); }
      Left(s, model, time, Now(), c, Skip(s, timer, flag));
      chronicle := c.(now := Moment(c.now.ticks, c.now.skipped + Skip(s, timer, flag)));
    }

    /** A deletion from the execute queue makes no timer early. */
    method RemoveQueued(timer: Timer) returns (found: bool, started: bool)
      requires Valid() && timer in pool
      modifies this, dummy, pool
      ensures Valid() && unchanged(`chronicle)
      ensures found == (timer in old(model).queue)
      ensures model == DeleteQueued(old(model), timer)
      ensures started ==> !model.Idle()
      ensures old(executeQueueHead) == timer && !started ==> model.Idle() && !isRunning && !model.irq
    {
      hide Distinct, NoneShared, Linked, Dated, Chain, Punctual, DeleteQueued, Load;
      ghost var s, time, was := model, Now(), counter;
      found, started := TakeQueued(timer);
      DeleteQueuedLeaves(s, timer, was, counter, overflowFlag);
      Left(s, model, time, Now(), chronicle, 0);
      assert chronicle == chronicle.(now := Moment(chronicle.now.ticks, chronicle.now.skipped + 0));
    }

    /** Clears the link of a timer that is in no list. */
    method ClearNext(timer: Timer)
      requires Valid() && timer in pool && Unqueued(model, timer)
      modifies timer`next
      ensures Valid() && timer.next == null
    {
      UnqueuedNode(model, dummy, timer);
      timer.next := null;
    }

    /** The first section of scheduler_timeout_delete, with interrupts between its test and its masked section, before
        the last statement of a restart of the clock, and after it. */
    method DeleteWaiting(timer: Timer) returns (found: bool)
      requires Valid() && timer in pool
      modifies this, dummy, pool
      ensures Valid() && Fewer(old(model), model)
      ensures found ==> Timers(model) == Timers(old(model)) - {timer}
      ensures !found ==> Timers(model) == Timers(old(model)) && forall e :: e in model.active ==> e.timer != timer
      ensures old(model).Idle() ==> !found && model == old(model) && unchanged(`isRunning)
      ensures !interrupts ==> model.log == old(model).log
      ensures !interrupts && old(listHead) == timer ==> found && Quiet()
    {
      hide Distinct, NoneShared, Linked, Dated, Chain, Punctual, DeleteActive, Inv, Clocked, Interrupted;
      found := false;
      ghost var s := model;
      HeadTells();
      HeadIs(timer);
      if listHead == null {
        Preempt();
        return;
      }
      Preempt();
      ghost var t := model;
      InterruptedFewer(s, t);
      HeadIs(timer);
      DeleteActiveRemoves(t, timer);
      DeleteActiveFewer(t, timer);
      var started;
      found, started := RemoveActive(timer);
      FinishPreempted(started);
    }

    /** Its second section, likewise. */
    method DeleteExpired(timer: Timer)
      requires Valid() && timer in pool && forall e :: e in model.active ==> e.timer != timer
      modifies this, dummy, pool
      ensures Valid() && Fewer(old(model), model)
      ensures Timers(model) == Timers(old(model)) - {timer}
      ensures !interrupts ==> model.log == old(model).log
      ensures old(model).Idle() && old(executeQueueHead) == timer ==> Quiet()
    {
      hide Distinct, NoneShared, Linked, Dated, Chain, Punctual, DeleteQueued, Inv, Clocked, Interrupted;
      ghost var s := model;
      TimersUnqueued(s, timer);
      FrontIs();
      if executeQueueHead == null {
        Preempt();
        return;
      }
      Preempt();
      ghost var t := model;
      InterruptedFewer(s, t);
      FrontIs();
      DeleteQueuedRemoves(t, timer);
      DeleteQueuedFewer(t, timer);
      var found, started := RemoveQueued(timer);
      FinishPreempted(started);
    }

    /**
     scheduler_timeout_delete: whatever interrupts come between its sections, the timer and no other
     is taken out of the lists.
     */
    method Delete(timer: Timer)
      requires Valid() && timer in pool
      modifies this, dummy, pool
      ensures Valid() && Fewer(old(model), model) && (!model.Idle() ==> overflowEnabled)
      ensures Timers(model) == Timers(old(model)) - {timer} && Unqueued(model, timer)
      ensures timer.next == null
      ensures !interrupts ==> model.log == old(model).log
      ensures !interrupts && old(listHead) == timer ==> Quiet()
      ensures old(model).Idle() && old(executeQueueHead) == timer ==> Quiet()
    {
      FrontIs();
      var found := DeleteWaiting(timer);
      FrontIs();
      if !found {
        DeleteExpired(timer);
      }
      TimersUnqueued(model, timer);
      ClearNext(timer);
    }

    /** The insertion of scheduler_timeout_create, and the restart of the clock if it was at the head. */
    method InsertAndStart(timer: Timer) returns (started: bool)
      requires Lists() && Shows() && Ordered(model) && Unqueued(model, timer)
      requires timer in pool && model.last <= timer.absoluteTime
      requires !model.Idle() ==> isRunning
      modifies this, dummy, pool
      ensures Lists() && Shows() && started == InsertsAtHead(old(model), old(timer.absoluteTime))
      ensures model == Insert(old(model), timer, old(timer.absoluteTime))
      ensures InsertsAtHead(old(model), old(timer.absoluteTime)) ==> Restarted(0)
      ensures InsertsAtHead(old(model), old(timer.absoluteTime)) ==> !overflowFlag
      ensures !InsertsAtHead(old(model), old(timer.absoluteTime)) ==>
                unchanged(`isRunning, `lastTimerLoad, `counter, `overflowFlag)
      ensures timer.absoluteTime == old(timer.absoluteTime) && unchanged(`chronicle)
    {
      hide Distinct, NoneShared, Linked, Dated, Chain;
      started := SortedInsert(timer);
      if started {
        var loaded := StartTimerAtHead();
      } else {
        if isRunning {
          EnableOverflow();
        }
      }
    }

    method DisableOverflow()
      requires Lists() && Shows()
      modifies `overflowEnabled, `model
      ensures Lists() && Shows() && model == old(model).(irq := false)
    {
      overflowEnabled, model := false, model.(irq := false);
    }

    method SetTime(timer: Timer, time: nat)
      requires Lists() && Shows() && Unqueued(model, timer) && timer in pool
      modifies timer`absoluteTime
      ensures Lists() && Shows() && timer.absoluteTime == time
    {
      timer.absoluteTime := time;
    }

    /** The masked section of scheduler_timeout_create: the timer is put in its place, due `timeout` from now. */
    method PutInPlace(timer: Timer, timeout: nat) returns (started: bool)
      requires Sound() && timer in pool && Unqueued(model, timer)
      modifies this, dummy, pool
      ensures Sound() && model.Armed() && unchanged(`chronicle)
      ensures old(model).last + timeout <= timer.absoluteTime == old(Now()) + timeout
      ensures old(model).Idle() ==>
                timer.absoluteTime
                == timeout + if !old(isRunning) then 0 else if old(overflowFlag) then MAX_LOAD else old(counter)
      ensures model == Insert(old(model), timer, timer.absoluteTime)
      ensures Now() <= old(Now()) && model.last == old(model).last && model.log == old(model).log
      ensures started == InsertsAtHead(old(model), timer.absoluteTime)
      ensures !model.Idle()
      ensures if InsertsAtHead(old(model), timer.absoluteTime) then counter == MAX_LOAD - Load(model) && !overflowFlag
              else unchanged(`counter, `overflowFlag)
    {
      hide Lists, Shows;
      ghost var s := model;
      var time := MakeAbsolute(timeout);
      ghost var s' := Insert(s, timer, time);
      InsertInv(s, timer, time, s');
      InsertEnables(s, timer, time);
      InsertKeepsLast(s, timer, time);
      if !InsertsAtHead(s, time) { InsertLoad(s, timer, time); }
      DisableOverflow();
      SetTime(timer, time);
      started := InsertAndStart(timer);
    }

    /** The creation is recorded: the wait begins at this tick, and makes no other timer early. */
    method Schedule(timer: Timer, timeout: nat) returns (started: bool)
      requires Valid() && timer in pool && Unqueued(model, timer)
      modifies this, dummy, pool
      ensures Valid() && model.Armed()
      ensures old(model).last + timeout <= timer.absoluteTime == old(Now()) + timeout
      ensures old(model).Idle() ==>
                timer.absoluteTime
                == timeout + if !old(isRunning) then 0 else if old(overflowFlag) then MAX_LOAD else old(counter)
      ensures model == Insert(old(model), timer, timer.absoluteTime)
      ensures model.last == old(model).last && model.log == old(model).log && !model.Idle()
      ensures started == InsertsAtHead(old(model), timer.absoluteTime)
      ensures if InsertsAtHead(old(model), timer.absoluteTime) then counter == MAX_LOAD - Load(model) && !overflowFlag
              else unchanged(`counter, `overflowFlag)
      ensures |old(chronicle).births| == old(model).clock
      ensures chronicle == old(chronicle).(births := old(chronicle).births + [Birth(old(chronicle).now, timeout)])
    {
      hide Distinct, NoneShared, Linked, Dated, Chain, Punctual, Insert, Reading;
      BirthsCounted();
      ghost var s, time, c := model, Now(), chronicle;
      started := PutInPlace(timer, timeout);
      Created(s, timer, timeout, time, Now(), c);
      chronicle := c.(births := c.births + [Birth(c.now, timeout)]);
    }

    lemma BirthsCounted()
      requires Valid()
      ensures |chronicle.births| == model.clock
    {}

    /**
     scheduler_timeout_create: an old entry of the timer is taken out first. Whatever interrupts come on the way, the
     timer is put into the state `start`, due its wait or more after the last timeout there, with its wait recorded;
     and no other timer has been lost. Interrupts may have expired it since.
     */
    method Create(timer: Timer, timeout: nat) returns (ghost start: State<Timer>, ghost due: nat)
      requires Valid() && timer in pool
      modifies this, dummy, pool
      ensures Valid() && model.Armed() && (!model.Idle() ==> overflowEnabled) && old(model).log <= model.log
      ensures Timers(model) == Timers(old(model)) + {timer}
      ensures Unqueued(start, timer) && Timers(start) == Timers(old(model)) - {timer}
      ensures start.last + timeout <= due && Interrupted(Insert(start, timer, due), model)
      ensures Kept(Entry(timer, due, start.clock), model)
      ensures start.clock < |chronicle.births| && chronicle.births[start.clock].wait == timeout
    {
      hide Distinct, NoneShared, Linked, Dated, Chain, Insert, Sound, Punctual, Unqueued, Kept;
      Delete(timer);
      TimersUnqueued(model, timer);
      Preempt();
      TimersUnqueued(model, timer);
      start := model;
      var started := Schedule(timer, timeout);
      due := timer.absoluteTime;
      InsertTimers(start, timer, due);
      InsertHolds(start, timer, due);
      FinishStart(started);
      Enabled();
    }

    /**
     scheduler_timeout_call_next_callback: the oldest expired timer leaves the queue; its callback answers
     `reschedule`, and the timer is created again unless that is zero. The interrupt enable is read before interrupts
     are masked, and interrupts may come in between.
     */
    method CallNextCallback(reschedule: nat)
      returns (callbackTimer: Timer?, ghost start: State<Timer>, ghost due: nat)
      requires Valid()
      modifies this, dummy, pool
      ensures Valid() && old(model).log <= model.log && (!model.Idle() ==> overflowEnabled)
      ensures callbackTimer == QueueFront(old(model).queue)
      ensures callbackTimer == null ==> model == old(model)
      ensures callbackTimer != null ==>
                Timers(model) == if reschedule == 0 then Timers(old(model)) - {callbackTimer} else Timers(old(model))
      ensures callbackTimer == null || reschedule == 0 ==> chronicle.births == old(chronicle).births
      ensures callbackTimer != null && reschedule != 0 ==>
                && Unqueued(start, callbackTimer) && Timers(start) == Timers(old(model)) - {callbackTimer}
                && start.last + reschedule <= due && Interrupted(Insert(start, callbackTimer, due), model)
                && Kept(Entry(callbackTimer, due, start.clock), model)
                && start.clock < |chronicle.births| && chronicle.births[start.clock].wait == reschedule
    {
      hide Lists, Shows, Clocked, Inv, Punctual, Interrupted, Insert, Kept;
      callbackTimer, start, due := executeQueueHead, model, 0;
      FrontIs();
      Enabled();
      if executeQueueHead == null {
        return;
      }
      Preempt();
      var tempIE := overflowEnabled;
      Preempt();
      callbackTimer := executeQueueHead;
      FrontIs();
      TakeCallbackTimers(model, tempIE);
      TakeExpired(callbackTimer, tempIE);
      Preempt();
      if reschedule != 0 {
        start, due := Create(callbackTimer, reschedule);
      }
      Enabled();
    }

    lemma FrontIs()
      requires Valid()
      ensures executeQueueHead == QueueFront(model.queue) && Apart(model.active, model.queue)
      ensures executeQueueHead != null ==> executeQueueHead in pool
    {}

    /** The masked section of scheduler_timeout_call_next_callback, which ends by putting the interrupt enable back. */
    method TakeFront(timer: Timer, tempIE: bool)
      requires Lists() && Shows() && timer == executeQueueHead
      modifies `executeQueueHead, `expired, `model, `overflowEnabled, timer`next
      ensures Lists() && Shows() && model == TakeCallback(old(model), tempIE) && timer.next == null
    {
      ghost var s := model;
      DisableOverflow();
      DropQueued();
      ClearLink(timer);
      if tempIE {
        EnableOverflow();
      }
      assert Without(s.queue, 0) == s.queue[1..];
    }

    method TakeExpired(timer: Timer, tempIE: bool)
      requires Valid() && timer == executeQueueHead && (!model.Idle() ==> tempIE)
      modifies this, timer`next
      ensures Valid() && model == TakeCallback(old(model), tempIE) && unchanged(`chronicle) && timer.next == null
    {
      ghost var s, time := model, Now();
      TakeCallbackInv(model, tempIE);
      TakeFront(timer, tempIE);
      Left(s, model, time, Now(), chronicle, 0);
      assert chronicle == chronicle.(now := Moment(chronicle.now.ticks, chronicle.now.skipped + 0));
    }

    /** Clears the link of a node that has left the lists. */
    method ClearLink(timer: Timer)
      requires Lists() && Shows() && timer !in list && timer !in expired
      modifies timer`next
      ensures Lists() && Shows() && timer.next == null
    {
      timer.next := null;
    }

    // ----- Flushing -----

    /** Takes the dummy off the head of the active list. */
    method DropDummy()
      requires Lists() && ShowsNodes() && model.split
      modifies `listHead, `list, `model
      ensures Lists() && Shows() && model == old(model).(split := false)
    {
      assert listHead == list[0] == dummy;
      DropHead();
      assert list == Nodes(model.active);
      Record(model.(split := false));
    }

    /** `dummy.next := null`: if the dummy heads the list, every timer behind it is lost from the list. */
    method ClearDummyLink()
      requires Lists() && Shows()
      modifies `list, `model, dummy`next
      ensures Lists() && Shows() && dummy.next == null
      ensures model == if old(model).split then old(model).(active := []) else old(model)
    {
      if model.split { assert list[0] == dummy; } else { assert forall i :: 0 <= i < |list| ==> list[i] in pool; }
      dummy.next := null;
      if model.split {
        list := [dummy];
        assert Nodes([]) == [];
        Record(model.(active := []));
      }
    }

    method ClearDummyNext()
      requires Valid()
      modifies `list, `model, dummy`next
      ensures Valid() && model == (if old(model).split then old(model).(active := []) else old(model))
      ensures dummy.next == null
    {
      hide Linked, Distinct, NoneShared, Dated, Chain, Punctual;
      ghost var s, time := model, Now();
      ClearDummyLink();
      Left(s, model, time, Now(), chronicle, 0);
      assert chronicle == chronicle.(now := Moment(chronicle.now.ticks, chronicle.now.skipped + 0));
    }

    /** The node that a clock stopped with timers waiting has at its head: a timer, or the dummy. */
    method DropStopped()
      requires Lists() && ShowsNodes() && (!model.split ==> Shows()) && listHead != null
      modifies `listHead, `list, `model
      ensures Lists() && Shows()
      ensures model == if old(model).split then old(model).(split := false)
                       else old(model).(active := Without(old(model).active, 0))
    {
      assert listHead == list[0];
      if listHead == dummy {
        DropDummy();
      } else {
        DropActive();
      }
    }

    /**
     The beginning of scheduler_timeout_flush_all, up to where the deletion of the first node enables the interrupt
     again: all waits now count from zero.
     */
    method StopAndDrop() returns (started: bool)
      requires Sound() && listHead != null
      modifies this, dummy, pool
      ensures Sound() && unchanged(`chronicle)
      ensures Dropped(old(model), model)
      ensures started == !model.Idle() && (!started ==> Quiet())
    {
      hide Linked, Distinct, NoneShared, Dated, Chain, Core, StartAtHead;
      ghost var s := model;
      HeadTells();
      StopTimeouts();
      DropStopped();
      StoppedCore(s, model);
      StartAtHeadInv(model);
      started := StartTimerAtHead();
    }

    method FlushFirst()
      requires Valid() && listHead != null
      modifies this, dummy, pool
      ensures Valid() && Fewer(old(model), model) && (!interrupts ==> model.log == old(model).log && Quiet())
      ensures old(listHead).next == null
    {
      hide Linked, Distinct, NoneShared, Dated, Chain, Punctual, Inv, Interrupted, Fewer, Dropped;
      ghost var s, time, c := model, Now(), chronicle;
      HeadTells();
      var timer: Timer := listHead;
      var started := StopAndDrop();
      ghost var skip := if Now() > time then Now() - time else 0;
      ghost var dropped := model;
      DroppedFewer(s, dropped);
      Left(s, model, time, Now(), c, skip);
      chronicle := c.(now := Moment(c.now.ticks, c.now.skipped + skip));
      FinishPreempted(started);
      FewerTwice(s, dropped, model);
      if timer == dummy {
        ghost var last := model;
        ClearDummyNext();
        ClearedFewer(last, model);
        FewerTwice(s, last, model);
      } else {
        TimersUnqueued(dropped, timer);
        TimersUnqueued(model, timer);
        ClearNext(timer);
      }
    }

    /** The masked section of scheduler_timeout_delete_helper that takes the dummy off the active list, if it is
        there. */
    method TakeDummy() returns (found: bool, started: bool)
      requires Sound()
      modifies this, dummy, pool
      ensures Sound() && unchanged(`chronicle, `overflowFlag)
      ensures model == DeleteDummy(old(model)) && found == old(model).split
      ensures started == (found && !model.Idle()) && (found && !started ==> Quiet())
      ensures found && started ==> counter == MAX_LOAD - Load(model)
      ensures !found ==> unchanged(`counter, `isRunning)
    {
      hide Linked, Distinct, NoneShared, Dated, Chain;
      ghost var s := model;
      HeadTells();
      DeleteDummyInv(s);
      found, started := listHead == dummy, false;
      if found {
        DropDummy();
        started := StartTimerAtHead();
      } else {
        MissDummy(listHead, list);
      }
    }

    /** The search for the dummy in a list that it is not in. */
    method MissDummy(head: Timer?, ghost nodes: seq<Timer>)
      requires Lists() && Shows() && Linked(head, nodes) && forall i :: 0 <= i < |nodes| ==> nodes[i] != dummy
      modifies `overflowEnabled, `model
      ensures Lists() && Shows() && model == old(model).(irq := true)
    {
      var found, prev;
      ghost var j;
      found, prev, j := Find(head, dummy, nodes);
      EnableOverflow();
    }

    /** Taking the dummy off makes no timer early. */
    method RemoveDummy() returns (found: bool, started: bool)
      requires Valid()
      modifies this, dummy, pool
      ensures Valid() && model == DeleteDummy(old(model)) && found == old(model).split
      ensures started == (found && !model.Idle()) && (found && !started ==> Quiet())
    {
      hide Linked, Distinct, NoneShared, Dated, Chain, Punctual;
      ghost var s, time, was := model, Now(), counter;
      found, started := TakeDummy();
      if model.active != [] { ReadingOfDummy(s, was, counter, overflowFlag); }
      Left(s, model, time, Now(), chronicle, 0);
      assert chronicle == chronicle.(now := Moment(chronicle.now.ticks, chronicle.now.skipped + 0));
    }

    /** scheduler_timeout_delete of the dummy, which may have been put back when its link is cleared at the end. */
    method DeleteDummyHead()
      requires Valid()
      modifies this, dummy, pool
      ensures Valid() && Fewer(old(model), model)
      ensures model.split ==> model.active == [] && old(model).active != []
      ensures !interrupts ==> model.log == old(model).log && (old(model).split ==> Quiet())
      ensures dummy.next == null
    {
      hide Linked, Distinct, NoneShared, Dated, Chain, Punctual, Inv, Interrupted, Fewer;
      ghost var s := model;
      HeadTells();
      var found := false;
      if listHead != null {
        found := DeleteDummyWaiting();
      }
      ghost var t := model;
      if !found {
        MissQueued();
        FewerTwice(s, t, model);
      }
      ghost var last := model;
      FewerWaiting(s, last);
      ClearDummyNext();
      ClearedFewer(last, model);
      FewerTwice(s, last, model);
    }

    method DeleteDummyWaiting() returns (found: bool)
      requires Valid() && listHead != null
      modifies this, dummy, pool
      ensures Valid() && Fewer(old(model), model) && Headed(model)
      ensures !interrupts ==> model.log == old(model).log && (old(model).split ==> found && Quiet())
    {
      hide Linked, Distinct, NoneShared, Dated, Chain, Punctual, Inv, Interrupted, Fewer, DeleteDummy;
      ghost var s := model;
      Preempt();
      ghost var t := model;
      InterruptedFewer(s, t);
      DeleteDummyLeaves(t);
      var started;
      found, started := RemoveDummy();
      ghost var u := model;
      if found {
        FinishPreempted(started);
        FewerTwice(t, u, model);
      } else {
        Preempt();
        InterruptedFewer(u, model);
        FewerTwice(t, u, model);
      }
      FewerTwice(s, t, model);
    }

    /** The search for the dummy in the execute queue. */
    method MissQueued()
      requires Valid() && Headed(model)
      modifies this, dummy, pool
      ensures Valid() && Fewer(old(model), model) && Headed(model) && (!interrupts ==> model.log == old(model).log)
    {
      hide Linked, Distinct, NoneShared, Dated, Chain, Punctual, Inv, Interrupted, Fewer;
      ghost var s := model;
      Preempt();
      ghost var t := model;
      InterruptedFewer(s, t);
      if executeQueueHead != null {
        Preempt();
        ghost var v := model;
        InterruptedFewer(t, v);
        SeekDummy();
        Enable();
        EnabledFewer(v, model);
        FewerTwice(t, v, model);
        FewerTwice(s, t, model);
      }
      ghost var u := model;
      Preempt();
      InterruptedFewer(u, model);
      FewerTwice(s, u, model);
    }

    method SeekDummy()
      requires Lists()
    {
      var found, prev;
      ghost var j;
      found, prev, j := Find(executeQueueHead, dummy, expired);
      assert !found;
    }

    /** One turn of the first loop of scheduler_timeout_flush_all. */
    method FlushHead()
      requires Valid() && listHead != null
      modifies this, dummy, pool
      ensures Valid() && Fewer(old(model), model)
      ensures Waiting(model) < Waiting(old(model))
              || (Waiting(model) == Waiting(old(model)) && old(model).split && !model.split)
      ensures !interrupts ==> model.log == old(model).log && Quiet()
    {
      hide Linked, Distinct, NoneShared, Dated, Chain, Punctual, Inv, Interrupted, Fewer, Waiting;
      ghost var s := model;
      HeadTells();
      var timer: Timer := listHead;
      Preempt();
      ghost var t := model;
      InterruptedFewer(s, t);
      HeadTells();
      if timer == dummy {
        DeleteDummyHead();
        FewerWaiting(s, t);
      } else {
        Delete(timer);
        LeftWaiting(s, model, s.active[0]);
      }
      FewerTwice(s, t, model);
      FewerWaiting(s, model);
    }

    lemma LeftWaiting(s: State<Timer>, s': State<Timer>, e: Entry<Timer>)
      requires e in s.active && Unqueued(s', e.timer)
      ensures e in Waiting(s) && e !in Waiting(s')
    {}

    /** One turn of the second loop: nothing waits any more. */
    method FlushFront()
      requires Valid() && model.Idle() && executeQueueHead != null
      modifies this, dummy, pool
      ensures Valid() && model.Idle() && Timers(model) < Timers(old(model)) && Quiet()
      ensures old(model).log <= model.log && (!interrupts ==> model.log == old(model).log)
    {
      hide Linked, Distinct, NoneShared, Dated, Chain, Punctual, Clocked, Inv;
      FrontIs();
      var timer: Timer := executeQueueHead;
      assert timer in Timers(model) by { assert model.queue[0] == timer; }
      Preempt();
      FrontIs();
      Delete(timer);
    }

    /**
     scheduler_timeout_flush_all: it ends, with both lists empty, from every state that the scheduler can be in and
     whatever interrupts come. Without them, the clock is stopped then.
     */
    method FlushAll()
      requires Valid()
      modifies this, dummy, pool
      ensures Valid() && old(model).log <= model.log
      ensures listHead == null && executeQueueHead == null && model.Idle() && model.queue == []
      ensures !interrupts ==> !isRunning && !overflowEnabled && model.log == old(model).log
    {
      hide Linked, Distinct, NoneShared, Dated, Chain, Punctual, Clocked, Inv;
      ghost var s := model;
      if listHead == null {
        StopIdle();
      } else {
        FlushFirst();
      }
      while listHead != null
        invariant Valid() && s.log <= model.log
        invariant !interrupts ==> model.log == s.log && Quiet()
        decreases Waiting(model), model.split
      {
        FlushHead();
      }
      HeadTells();
      while executeQueueHead != null
        invariant Valid() && model.Idle() && s.log <= model.log
        invariant !interrupts ==> model.log == s.log && Quiet()
        decreases Timers(model)
      {
        FlushFront();
      }
      HeadTells();
      FrontIs();
    }

    /** The clock stops with nothing waiting. */
    method StopIdle()
      requires Valid() && listHead == null
      modifies `overflowEnabled, `absoluteTimeOfLastTimeout, `isRunning, `model
      ensures Valid() && model.Idle() && Quiet() && model.log == old(model).log
    {
      hide Distinct, NoneShared, Dated, Punctual;
      ghost var s, time := model, Now();
      HeadTells();
      StopTimeouts();
      StoppedIdle(s);
      Left(s, model, time, Now(), chronicle, 0);
      assert chronicle == chronicle.(now := Moment(chronicle.now.ticks, chronicle.now.skipped + 0));
    }
  }

  lemma OneTimer(s: State<Timer>, a: Timer, due: nat)
    requires s.Idle() && s.last == 0 && due <= MAX_LOAD
    ensures var s' := Insert(s, a, due);
            && InsertsAtHead(s, due) && s'.active == [Entry(a, due, s.clock)] && !s'.split && s'.last == 0
            && s'.queue == s.queue && s'.log == s.log && s'.clock == s.clock + 1
  {
    assert Place(s.active, due) == 0 && Placed(s.active, Entry(a, due, s.clock)) == [Entry(a, due, s.clock)];
  }

  lemma TwoTimers(a: Timer, b: Timer, s: State<Timer>)
    requires a != b && s.active == [Entry(a, 5, 0)] && !s.split && s.last == 0 && s.queue == [] && s.log == []
    requires s.clock == 1
    ensures !InsertsAtHead(s, 100)
    ensures var s' := Insert(s, b, 100);
            && s'.active == [Entry(a, 5, 0), Entry(b, 100, 1)] && !s'.split && s'.last == 0
            && s'.queue == [] && s'.log == [] && s'.clock == 2
  {
    assert Place(s.active[1..], 100) == 0 && Place(s.active, 100) == 1;
    assert Placed(s.active, Entry(b, 100, 1)) == [Entry(a, 5, 0), Entry(b, 100, 1)];
  }

  /** A scheduler at rest that is given one timer 5 ticks away and one 100 ticks away. */
  method TwoScheduled(a: Timer, b: Timer) returns (s: TimerScheduler)
    requires a != b
    modifies a, b
    ensures s.Valid() && fresh(s) && fresh(s.dummy) && s.pool == {a, b}
    ensures s.model.active == [Entry(a, 5, 0), Entry(b, 100, 1)] && !s.model.split && s.model.last == 0
    ensures s.model.queue == [] && s.model.log == []
    ensures s.counter == MAX_LOAD - 5 && !s.overflowFlag
    ensures s.chronicle == Chronicle(Moment(0, 0), [Birth(Moment(0, 0), 5), Birth(Moment(0, 0), 100)], [])
  {
    hide Punctual, Inv, TimerScheduler.Sound, Insert, InsertsAtHead;
    s := new TimerScheduler({a, b}, true);
    OneTimer(s.model, a, 5);
    var started := s.Schedule(a, 5);
    TwoTimers(a, b, s.model);
    started := s.Schedule(b, 100);
  }

  lemma SecondLeft(a: Timer, b: Timer, s: State<Timer>)
    requires a != b && s.active == [Entry(a, 5, 0), Entry(b, 100, 1)] && !s.split && s.last == 0
    requires s.log == [] && s.queue == []
    ensures var s' := DeleteActive(s, a);
            && s'.active == [Entry(b, 100, 1)] && !s'.split && s'.last == 0 && s'.log == [] && s'.queue == []
            && Skip(s, a, true) == 95
            && Fire(s').queue == [b] && Fire(s').log == [Expiry(s'.epoch, 100, 1)]
  {
    assert Without(s.active, 0) == [Entry(b, 100, 1)];
  }

  /**
   The early timer is real: the overflow of the first timer is pending when that timer is deleted, and then
   expires the second one, after 6 of its 100 ticks.
   */
  method EarlyExpiry(a: Timer, b: Timer) returns (s: TimerScheduler)
    requires a != b
    modifies a, b
    ensures s.Valid() && s.model.queue == [b] && |s.model.log| == 1
    ensures var i := s.model.log[0].stamp;
            i < |s.chronicle.births| && |s.chronicle.expired| == 1
            && s.chronicle.births[i] == Birth(Moment(0, 0), 100) && s.chronicle.expired[0] == Moment(6, 95)
  {
    hide Punctual, Inv, TimerScheduler.Sound, Fire, DeleteActive, Skip;
    s := TwoScheduled(a, b);
    ghost var m := s.model;
    var i := 0;
    while i < 6
      invariant 0 <= i <= 6 && s.Valid() && s.model == m && fresh(s) && fresh(s.dummy) && s.pool == {a, b}
      invariant s.chronicle == Chronicle(Moment(i, 0), [Birth(Moment(0, 0), 5), Birth(Moment(0, 0), 100)], [])
      invariant if i < 6 then s.counter == MAX_LOAD - 5 + i && !s.overflowFlag else s.overflowFlag
    {
      s.Tick();
      i := i + 1;
    }
    SecondLeft(a, b, m);
    var found, started := s.RemoveActive(a);
    s.HeadPresent();
    s.ServeOverflow();
  }

  lemma OneExpires(s: State<Timer>, a: Timer)
    requires s.active == [Entry(a, 0, 0)] && !s.split && s.last == 0 && s.queue == [] && s.clock == 1
    ensures var s' := Fire(s); s'.Idle() && s'.queue == [a] && s'.last == 0 && s'.clock == 1
  {}

  /**
   The code can take the counter to run although nothing waits: a timer with no wait expires before the last statement
   of the restart for it. The next timer, created 1000 ticks later for 5 ticks, is then put 1005 ticks away.
   */
  method LateTimer(a: Timer, b: Timer) returns (s: TimerScheduler)
    requires a != b
    modifies a, b
    ensures s.Valid() && s.model.active == [Entry(b, 1005, 1)] && s.model.last == 0
    ensures s.counter == MAX_LOAD - 1005 && !s.overflowFlag
    ensures |s.chronicle.births| == 2 && s.chronicle.births[1] == Birth(s.chronicle.now, 5)
  {
    hide Punctual, Inv, TimerScheduler.Sound, Insert, InsertsAtHead, Fire;
    s := new TimerScheduler({a, b}, true);
    OneTimer(s.model, a, 0);
    var started := s.Schedule(a, 0);
    s.Tick();
    OneExpires(s.model, a);
    s.HeadPresent();
    s.ServeOverflow();
    s.SetRunning();
    ghost var m := s.model;
    var i := 0;
    while i < 1000
      invariant 0 <= i <= 1000 && s.Valid() && s.model == m && fresh(s) && fresh(s.dummy) && s.pool == {a, b}
      invariant s.isRunning && s.counter == i && !s.overflowFlag && |s.chronicle.births| == 1
    {
      s.Tick();
      i := i + 1;
    }
    OneTimer(m, b, 1005);
    started := s.Schedule(b, 5);
  }
}
