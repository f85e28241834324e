/** Singly linked lists of timers, as sequences of nodes, and what one assignment to a link does to them. */
module TimerLists {

  class Timer {
    var next: Timer?
    var absoluteTime: nat

    constructor ()
      ensures next == null
    {
      next, absoluteTime := null, 0;
    }
  }

  /** The i-th node of a list; null past its end. */
  function NodeAt(s: seq<Timer>, i: nat): Timer? {
    if i < |s| then s[i] else null
  }

  ghost predicate Linked(head: Timer?, s: seq<Timer>)
    reads s
  {
    head == NodeAt(s, 0) && forall i :: 0 <= i < |s| ==> s[i].next == NodeAt(s, i + 1)
  }

  ghost predicate Distinct(s: seq<Timer>) {
    forall i, j :: 0 <= i < j < |s| ==> s[i] != s[j]
  }

  ghost predicate NoneShared(s: seq<Timer>, t: seq<Timer>) {
    forall i, j :: 0 <= i < |s| && 0 <= j < |t| ==> s[i] != t[j]
  }

  function Removed(s: seq<Timer>, i: nat): seq<Timer>
    requires i < |s|
  {
    s[..i] + s[i + 1..]
  }

  function InsertedAt(s: seq<Timer>, i: nat, t: Timer): seq<Timer>
    requires i <= |s|
  {
    s[..i] + [t] + s[i..]
  }

  lemma InsertedAtShift(d: Timer, s: seq<Timer>, i: nat, t: Timer)
    requires i <= |s|
    ensures [d] + InsertedAt(s, i, t) == InsertedAt([d] + s, i + 1, t)
  {}

  lemma RemovedShift(d: Timer, s: seq<Timer>, i: nat)
    requires i < |s|
    ensures [d] + Removed(s, i) == Removed([d] + s, i + 1)
  {}

  lemma DistinctRemoved(s: seq<Timer>, i: nat)
    requires Distinct(s) && i < |s|
    ensures Distinct(Removed(s, i)) && s[i] !in Removed(s, i)
  {}

  lemma DistinctInserted(s: seq<Timer>, i: nat, t: Timer)
    requires Distinct(s) && i <= |s| && t !in s
    ensures Distinct(InsertedAt(s, i, t))
  {
    var r := InsertedAt(s, i, t);
    forall j, k | 0 <= j < k < |r|
      ensures r[j] != r[k]
    {
      if j == i {
        assert r[k] == s[k - 1];
      } else if k == i {
        assert r[j] == s[j];
      }
    }
  }

  lemma NoneSharedInserted(s: seq<Timer>, i: nat, t: Timer, u: seq<Timer>)
    requires NoneShared(s, u) && i <= |s| && t !in u
    ensures NoneShared(InsertedAt(s, i, t), u)
  {
    var r := InsertedAt(s, i, t);
    forall j, k | 0 <= j < |r| && 0 <= k < |u|
      ensures r[j] != u[k]
    {
      if j != i { assert r[j] == s[if j < i then j else j - 1]; }
    }
  }

  lemma MembersInserted(s: seq<Timer>, i: nat, t: Timer, members: set<Timer>)
    requires (forall k :: 0 <= k < |s| ==> s[k] in members) && i <= |s| && t in members
    ensures var r := InsertedAt(s, i, t); forall k :: 0 <= k < |r| ==> r[k] in members
  {
    var r := InsertedAt(s, i, t);
    forall k | 0 <= k < |r|
      ensures r[k] in members
    {
      if k != i { assert r[k] == s[if k < i then k else k - 1]; }
    }
  }

  /** `prev.next := s[i].next` */
  lemma LinkedUnlink(head: Timer?, s: seq<Timer>, i: nat, prev: Timer)
    requires head == NodeAt(s, 0) && Distinct(s) && 0 < i < |s| && prev == s[i - 1]
    requires prev.next == NodeAt(s, i + 1)
    requires forall k :: 0 <= k < |s| && k != i - 1 ==> s[k].next == NodeAt(s, k + 1)
    ensures Linked(head, Removed(s, i))
  {
    var r := Removed(s, i);
    forall k | 0 <= k < |r|
      ensures r[k].next == NodeAt(r, k + 1)
    {
      if k < i - 1 {
        assert r[k] == s[k] && s[k].next == s[k + 1];
      } else if k == i - 1 {
        assert r[k] == prev;
      } else {
        assert r[k] == s[k + 1];
      }
    }
  }

  /** `t.next := prev.next; prev.next := t` */
  lemma LinkedInsert(head: Timer?, s: seq<Timer>, i: nat, prev: Timer, t: Timer)
    requires head == NodeAt(s, 0) && Distinct(s) && 0 < i <= |s| && prev == s[i - 1] && t !in s
    requires prev.next == t && t.next == NodeAt(s, i)
    requires forall k :: 0 <= k < |s| && k != i - 1 ==> s[k].next == NodeAt(s, k + 1)
    ensures Linked(head, InsertedAt(s, i, t))
  {
    var r := InsertedAt(s, i, t);
    forall k | 0 <= k < |r|
      ensures r[k].next == NodeAt(r, k + 1)
    {
      if k < i - 1 {
        assert r[k] == s[k] && s[k].next == s[k + 1];
      } else if k == i - 1 {
        assert r[k] == prev;
      } else if k == i {
        assert r[k] == t;
      } else {
        assert r[k] == s[k - 1];
      }
    }
  }

  /** `t.next := head; head := t` */
  lemma LinkedPush(head: Timer?, s: seq<Timer>, t: Timer)
    requires Linked(head, s) && t !in s && t.next == head
    ensures Linked(t, [t] + s)
  {
    assert forall k :: 1 <= k < |s| + 1 ==> ([t] + s)[k] == s[k - 1];
  }
}
