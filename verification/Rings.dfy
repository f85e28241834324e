/** Places in a ring of n slots. */
module Rings {
  import opened Arithmetic

  /** The place of the k-th byte in a ring of n, counted from one. */
  function Slot(k: nat, n: nat): (r: nat)
    requires n > 0
    ensures r < n
  {
    k % n
  }

  lemma NextSlot(k: nat, n: nat)
    requires n > 0
    ensures (Slot(k, n) + 1) % n == Slot(k + 1, n)
  {
    var q, r := k / n, k % n;
    if r + 1 < n {
      Quotient(k + 1, n, q, r + 1);
      Quotient(r + 1, n, 0, r + 1);
    } else {
      assert n * (q + 1) == n * q + n;
      Quotient(k + 1, n, q + 1, 0);
      Quotient(n, n, 1, 0);
    }
  }

  lemma SlotWraps(k: nat, n: nat)
    requires n > 0
    ensures Slot(k + n, n) == Slot(k, n)
  {
    var q, r := k / n, k % n;
    assert n * (q + 1) == n * q + n;
    Quotient(k + n, n, q + 1, r);
  }

  /** Fewer than n bytes apart, two bytes never share a slot. */
  lemma SlotsApart(j: nat, k: nat, n: nat)
    requires n > 0 && j < k < j + n
    ensures Slot(j, n) != Slot(k, n)
  {
    var d := k / n - j / n;
    assert n * d == k - j - (k % n - j % n);
    if k % n == j % n { ZeroMultiple(n, d); }
  }

  lemma SlotAdd(k: nat, i: nat, n: nat)
    requires n > 0
    ensures (Slot(k, n) + i) % n == Slot(k + i, n)
  {
    var q, m := k / n, k % n + i;
    assert n * (q + m / n) == n * q + n * (m / n);
    Quotient(k + i, n, q + m / n, m % n);
  }
}
