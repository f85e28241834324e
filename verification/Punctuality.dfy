/**
 How long the timers of rtc.c wait, in ticks of the counter. The scheduler reads the time as the last timeout plus
 what the counter has run since it was loaded; reloading the counter only sets that reading back. There is one
 exception: when the head of the list is deleted while its overflow is pending, the flag then counts as the
 overflow of the next timer, and the reading skips ahead.
 */
module Punctuality {
  import opened SchedulerSpec

  /** The ticks since reset, and by how many ticks the reading has skipped ahead. */
  datatype Moment = Moment(ticks: nat, skipped: nat)

  datatype Birth = Birth(at: Moment, wait: nat)

  /** The present, every creation by its stamp, and every expiry in the order of the log. */
  datatype Chronicle = Chronicle(now: Moment, births: seq<Birth>, expired: seq<Moment>)

  /** From a birth to a moment, ticks and skips make up the wait but for what is still ahead. */
  predicate Waited(b: Birth, m: Moment, ahead: int) {
    && b.at.ticks <= m.ticks && b.at.skipped <= m.skipped
    && b.wait <= m.ticks - b.at.ticks + (m.skipped - b.at.skipped) + ahead
  }

  /** `time` is the scheduler's reading of the time. */
  ghost predicate Punctual<T>(s: State<T>, time: int, c: Chronicle) {
    && |c.births| == s.clock && |c.expired| == |s.log|
    && (forall i :: 0 <= i < |s.active| ==>
          s.active[i].stamp < s.clock && Waited(c.births[s.active[i].stamp], c.now, s.active[i].due - time))
    && (forall i :: 0 <= i < |s.log| ==>
          s.log[i].stamp < s.clock && Waited(c.births[s.log[i].stamp], c.expired[i], 0))
  }

  /** No timer expires before its wait is over in ticks, unless the reading skipped ahead in the meantime, and
      then it is early by no more than that. */
  lemma NeverEarly<T>(s: State<T>, time: int, c: Chronicle, i: nat)
    requires Punctual(s, time, c) && i < |s.log|
    ensures s.log[i].stamp < |c.births| && i < |c.expired|
    ensures var b, m := c.births[s.log[i].stamp], c.expired[i];
            && m.ticks - b.at.ticks >= b.wait - (m.skipped - b.at.skipped)
            && (m.skipped == b.at.skipped ==> m.ticks - b.at.ticks >= b.wait)
  {}

  // ----- The reading of the time -----

  /** What scheduler_make_absolute(0) reads while the counter runs for the head of the list. */
  function Reading<T>(s: State<T>, counter: nat, overflow: bool): int {
    if s.Idle() then s.last else s.last + (if overflow then MAX_LOAD else counter) - (MAX_LOAD - Load(s))
  }

  /** By how much deleting a timer skips ahead. */
  function Skip<T(==)>(s: State<T>, t: T, overflow: bool): int {
    if overflow && !s.split && |s.active| > 1 && s.active[0].timer == t then Load(DeleteActive(s, t)) - Load(s) else 0
  }

  lemma SkipPositive<T>(s: State<T>, t: T, overflow: bool)
    requires Inv(s)
    ensures Skip(s, t, overflow) >= 0
  {
    if overflow && !s.split && |s.active| > 1 && s.active[0].timer == t {
      assert Before(s.active[0], s.active[1]);
      assert Without(s.active, 0)[0] == s.active[1];
    }
  }

  // ----- Steps -----

  /** A tick moves the reading on by one at most. */
  lemma Ticked<T>(s: State<T>, time: int, time': int, c: Chronicle)
    requires Punctual(s, time, c) && time' <= time + 1
    ensures Punctual(s, time', c.(now := Moment(c.now.ticks + 1, c.now.skipped)))
  {}

  /** While nothing waits, the reading does not matter. */
  lemma IdleIsPunctual<T>(s: State<T>, time: int, time': int, c: Chronicle)
    requires Punctual(s, time, c) && (s.Idle() || time' == time)
    ensures Punctual(s, time', c)
  {}

  /** Timers may leave, and the reading may go back, or ahead by what is skipped. */
  lemma Left<T>(s: State<T>, s': State<T>, time: int, time': int, c: Chronicle, skip: nat)
    requires Punctual(s, time, c) && s'.clock == s.clock && s'.log == s.log
    requires forall e :: e in s'.active ==> e in s.active
    requires s'.active == [] || time' <= time + skip
    ensures Punctual(s', time', c.(now := Moment(c.now.ticks, c.now.skipped + skip)))
  {
    forall i | 0 <= i < |s'.active|
      ensures s'.active[i].stamp < s.clock
      ensures Waited(c.births[s'.active[i].stamp], Moment(c.now.ticks, c.now.skipped + skip), s'.active[i].due - time')
    {
      assert s'.active[i] in s'.active;
      var j :| 0 <= j < |s.active| && s.active[j] == s'.active[i];
    }
  }

  lemma Created<T>(s: State<T>, t: T, wait: nat, time: int, time': int, c: Chronicle)
    requires Punctual(s, time, c) && time + wait >= 0 && time' <= time
    ensures Punctual(Insert(s, t, time + wait), time', c.(births := c.births + [Birth(c.now, wait)]))
  {
    hide Place, Placed;
    var e := Entry(t, time + wait, s.clock);
    var a := Insert(s, t, e.due).active;
    PlacedIs(s.active, e);
    var p := Place(s.active, e.due);
    forall i | 0 <= i < |a|
      ensures a[i].stamp <= s.clock
      ensures Waited((c.births + [Birth(c.now, wait)])[a[i].stamp], c.now, a[i].due - time')
    {
      if i != p { assert a[i] == s.active[if i < p then i else i - 1]; }
    }
  }

  /** When the overflow comes, the reading is that of the head. */
  lemma Fired<T>(s: State<T>, time: int, time': int, c: Chronicle)
    requires Punctual(s, time, c) && Inv(s) && !s.Idle() && time == s.last + Load(s)
    requires Fire(s).Idle() || time' <= Fire(s).last
    ensures Punctual(Fire(s), time', if s.split then c else c.(expired := c.expired + [c.now]))
  {
    if !s.split {
      assert forall i :: 0 <= i < |Fire(s).active| ==> Fire(s).active[i] == s.active[i + 1];
    }
  }

  // ----- Readings after the steps -----

  lemma ReadingOfTick<T>(s: State<T>, counter: nat, overflow: bool)
    requires counter <= MAX_LOAD
    ensures counter == MAX_LOAD ==> Reading(s, 0, true) <= Reading(s, counter, overflow)
    ensures counter < MAX_LOAD ==> Reading(s, counter + 1, overflow) <= Reading(s, counter, overflow) + 1
  {}

  /** After a deletion the counter is as it was, or loaded for the new head. */
  lemma ReadingOfDelete<T>(s: State<T>, t: T, counter: nat, counter': nat, overflow: bool)
    requires Inv(s) && counter <= MAX_LOAD
    requires !s.Idle() ==> overflow || MAX_LOAD - Load(s) <= counter
    requires var s' := DeleteActive(s, t);
             !s'.Idle() ==>
               counter' == if !s.split && s.active[0].timer == t then MAX_LOAD - Load(s') else counter
    requires DeleteActive(s, t).active != []
    ensures Reading(DeleteActive(s, t), counter', overflow) <= Reading(s, counter, overflow) + Skip(s, t, overflow)
  {
    SkipPositive(s, t, overflow);
    if s.split || s.active[0].timer != t { DeleteActiveLoad(s, t); }
  }

  lemma DeleteActiveLeaves<T>(s: State<T>, t: T)
    ensures var s' := DeleteActive(s, t);
            s'.clock == s.clock && s'.log == s.log && forall e :: e in s'.active ==> e in s.active
  {
    var i := IndexOf(s.active, t);
    if i < |s.active| { WithoutIs(s.active, i); }
  }

  lemma DeleteQueuedLeaves<T>(s: State<T>, t: T, counter: nat, counter': nat, overflow: bool)
    requires Inv(s) && counter <= MAX_LOAD
    requires !s.Idle() ==> overflow || MAX_LOAD - Load(s) <= counter
    requires var s' := DeleteQueued(s, t);
             !s'.Idle() ==> counter' == MAX_LOAD - Load(s') || counter' == counter
    ensures var s' := DeleteQueued(s, t);
            && s'.clock == s.clock && s'.log == s.log && s'.active == s.active
            && (s'.active == [] || Reading(s', counter', overflow) <= Reading(s, counter, overflow))
  {}
}
