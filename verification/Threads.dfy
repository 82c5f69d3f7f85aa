/** The thread table that both thread systems share, and the cyclic scan that picks the next thread. */
module Threads {

  /** The scheduler's mark for "no thread to run". */
  const INFINIT: nat := 1000

  /** The C type uint32_t, in which the scan adds. */
  const WORD: nat := 0x1_0000_0000

  /** The fields the scheduler reads; inUse is the field called assigned. */
  datatype Tcb = Tcb(id: nat, finished: nat, inUse: nat)

  predicate Ready(t: Tcb) {
    t.inUse == 1 && t.finished == 0
  }

  /** The slot looked at after d steps from the current thread; -1 is the state before any thread runs. */
  function Slot(cur: int, d: nat, n: nat): (s: nat)
    requires n > 0
    ensures s < n
  {
    (cur + d) % WORD % n
  }

  /** What the scheduler's loop leaves in nextThread when it starts at distance d. */
  function Scan(tcb: seq<Tcb>, cur: int, d: nat): nat
    decreases |tcb| + 1 - d
  {
    if d > |tcb| || |tcb| == 0 then INFINIT
    else if Ready(tcb[Slot(cur, d, |tcb|)]) then Slot(cur, d, |tcb|)
    else Scan(tcb, cur, d + 1)
  }

  /** Tables whose slot numbers never meet the mark, seen from a thread of the table or from before all. */
  predicate Fits(tcb: seq<Tcb>, cur: int) {
    |tcb| <= INFINIT && -1 <= cur < |tcb|
  }

  /** n is the first ready thread after cur, going round the table. */
  ghost predicate IsNext(tcb: seq<Tcb>, cur: int, n: nat) {
    && n < |tcb| && Ready(tcb[n])
    && (n > cur ==> forall t :: 0 <= t < n && cur < t ==> !Ready(tcb[t]))
    && (n <= cur ==>
          && (forall t :: 0 <= t < |tcb| && cur < t ==> !Ready(tcb[t]))
          && (forall t :: 0 <= t < n ==> !Ready(tcb[t])))
  }

  lemma ModSmall(x: nat, n: nat)
    requires x < n
    ensures x % n == x
  {
  }

  lemma ModOnce(x: nat, n: nat)
    requires 0 < n <= x < 2 * n
    ensures x % n == x - n
  {
    ModSmall(x - n, n);
    assert x == n * 1 + (x - n);
  }

  lemma SlotValue(cur: int, d: nat, n: nat)
    requires 1 <= d <= n < 0x8000_0000 && -1 <= cur < n
    ensures Slot(cur, d, n) == if cur + d < n then cur + d else cur + d - n
  {
    var x: nat := cur + d;
    var w: nat := WORD;
    assert x < w;
    ModSmall(x, w);
    assert Slot(cur, d, n) == x % w % n == x % n;
    if x >= n {
      ModOnce(x, n);
    } else {
      ModSmall(x, n);
    }
  }

  /** The scan finds the next ready thread in cyclic order, and nothing only when nothing is ready. */
  lemma ScanFindsNext(tcb: seq<Tcb>, cur: int)
    requires Fits(tcb, cur)
    ensures Scan(tcb, cur, 1) == INFINIT <==> forall t :: 0 <= t < |tcb| ==> !Ready(tcb[t])
    ensures Scan(tcb, cur, 1) != INFINIT ==> IsNext(tcb, cur, Scan(tcb, cur, 1))
  {
    ScanFrom(tcb, cur, 1);
  }

  lemma {:induction false} ScanFrom(tcb: seq<Tcb>, cur: int, d: nat)
    requires Fits(tcb, cur) && 1 <= d <= |tcb| + 1
    requires forall t :: 0 <= t < |tcb| && cur < t < cur + d ==> !Ready(tcb[t])
    requires forall t :: 0 <= t < |tcb| && t <= cur && t + |tcb| < cur + d ==> !Ready(tcb[t])
    ensures Scan(tcb, cur, d) == INFINIT <==> forall t :: 0 <= t < |tcb| ==> !Ready(tcb[t])
    ensures Scan(tcb, cur, d) != INFINIT ==> IsNext(tcb, cur, Scan(tcb, cur, d))
    decreases |tcb| + 1 - d
  {
    hide Slot;
    if d <= |tcb| {
      SlotValue(cur, d, |tcb|);
      if !Ready(tcb[Slot(cur, d, |tcb|)]) {
        ScanFrom(tcb, cur, d + 1);
      }
    }
  }

  /** There is at most one next thread. */
  lemma NextUnique(tcb: seq<Tcb>, cur: int, m: nat, n: nat)
    requires IsNext(tcb, cur, m) && IsNext(tcb, cur, n)
    ensures m == n
  {
  }

  /** The scan reports nothing only when nothing is ready, for every table of n threads. */
  ghost predicate MarkIsSafe(n: nat) {
    forall tcb: seq<Tcb>, cur: int :: |tcb| == n && -1 <= cur < n && Scan(tcb, cur, 1) == INFINIT
                                      ==> forall t :: 0 <= t < n ==> !Ready(tcb[t])
  }

  /** Being the next thread and being found by the scan are the same. */
  lemma ScannedIffNext(tcb: seq<Tcb>, cur: int, n: nat)
    requires Fits(tcb, cur)
    ensures IsNext(tcb, cur, n) <==> Scan(tcb, cur, 1) == n && n != INFINIT
  {
    hide Scan;
    ScanFindsNext(tcb, cur);
    if IsNext(tcb, cur, n) { NextUnique(tcb, cur, n, Scan(tcb, cur, 1)); }
  }

  /**
   * The mark is also a slot number once the table has more than 1000 slots: then, and only then, some
   * table with a ready thread makes the scheduler announce that all threads are done.
   */
  lemma MarkIsSafeIff(n: nat)
    requires n < 0x8000_0000
    ensures MarkIsSafe(n) <==> n <= INFINIT
  {
    if n <= INFINIT {
      forall tcb: seq<Tcb>, cur: int | |tcb| == n && -1 <= cur < n && Scan(tcb, cur, 1) == INFINIT
        ensures forall t :: 0 <= t < n ==> !Ready(tcb[t])
      {
        ScanFindsNext(tcb, cur);
      }
    } else {
      MarkClashes(n);
    }
  }

  lemma MarkClashes(n: nat)
    requires INFINIT < n < 0x8000_0000
    ensures !MarkIsSafe(n)
  {
    var tcb: seq<Tcb> := seq(n, (i: nat) => Tcb(i, 0, 1));
    SlotValue(999, 1, n);
    assert Ready(tcb[INFINIT]) && Scan(tcb, 999, 1) == INFINIT;
  }

  /** How many picks away thread i is at most: the distance from cur to i going round. */
  function Distance(n: nat, cur: int, i: nat): (d: nat)
    requires i < n && -1 <= cur < n
    ensures 1 <= d <= n
  {
    if i > cur then i - cur else n - cur + i
  }

  /** A ready thread that is passed over comes strictly closer. */
  lemma NextComesCloser(tcb: seq<Tcb>, cur: int, n: nat, i: nat)
    requires Fits(tcb, cur) && IsNext(tcb, cur, n) && i < |tcb| && Ready(tcb[i]) && i != n
    ensures Distance(|tcb|, n, i) < Distance(|tcb|, cur, i)
  {
  }

  /** The table as the scheduler, the creation and the finish code change it. */
  class Table {
    const tcb: array<Tcb>
    var current: int

    ghost predicate Valid()
      reads this
    {
      tcb.Length <= INFINIT && -1 <= current < tcb.Length
    }

    /** initTCBArray. */
    constructor (n: nat)
      requires n <= INFINIT
      ensures Valid() && fresh(tcb) && current == -1 && tcb.Length == n
      ensures forall i :: 0 <= i < n ==> tcb[i].inUse == 0 && tcb[i].finished == 1
    {
      tcb := new Tcb[n](_ => Tcb(0, 0, 0));
      current := -1;
      new;
      var i := 0;
      while i < n
        invariant 0 <= i <= n && current == -1
        invariant forall j :: 0 <= j < i ==> tcb[j].inUse == 0 && tcb[j].finished == 1
      {
        tcb[i] := tcb[i].(inUse := 0, finished := 1);
        i := i + 1;
      }
    }

    /** threadCreate: the first unassigned slot becomes a ready thread; 0 when there is none. */
    method ThreadCreate() returns (ok: nat)
      requires Valid()
      modifies tcb
      ensures Valid()
      ensures ok == 0 <==> forall i :: 0 <= i < tcb.Length ==> old(tcb[i].inUse) != 0
      ensures ok == 0 ==> tcb[..] == old(tcb[..])
      ensures ok != 0 ==> ok == 1 && exists id :: 0 <= id < tcb.Length && Created(old(tcb[..]), tcb[..], id)
    {
      var id := 0;
      while id < tcb.Length && tcb[id].inUse != 0
        invariant 0 <= id <= tcb.Length
        invariant forall i :: 0 <= i < id ==> tcb[i].inUse != 0
      {
        id := id + 1;
      }
      if id == tcb.Length {
        return 0;
      }
      tcb[id] := Tcb(id, 0, 1);
      assert Created(old(tcb[..]), tcb[..], id);
      return 1;
    }

    /** The scheduler up to its switch: the scan, and the new current thread unless nothing is ready. */
    method Pick() returns (nextThread: nat)
      requires Valid()
      modifies `current
      ensures Valid()
      ensures nextThread == Scan(tcb[..], old(current), 1)
      ensures current == if nextThread == INFINIT then old(current) else nextThread
    {
      nextThread := INFINIT;
      var i := 1;
      while i < tcb.Length + 1
        invariant 1 <= i <= tcb.Length + 1 && nextThread == INFINIT
        invariant Scan(tcb[..], current, 1) == Scan(tcb[..], current, i)
      {
        var thread := Slot(current, i, tcb.Length);
        if tcb[thread].inUse == 1 && tcb[thread].finished == 0 {
          nextThread := thread;
          break;
        }
        i := i + 1;
      }
      ScanFindsNext(tcb[..], current);
      if nextThread != INFINIT {
        current := nextThread;
      }
    }

    /** The two stores of functionFinish. */
    method Finish()
      requires Valid() && current >= 0
      modifies tcb
      ensures Valid()
      ensures tcb[..] == old(tcb[..])[current := old(tcb[current]).(finished := 1, inUse := 0)]
    {
      tcb[current] := tcb[current].(finished := 1);
      tcb[current] := tcb[current].(inUse := 0);
    }
  }

  /** Slot id, the first unassigned one, has become a ready thread and nothing else has changed. */
  ghost predicate Created(before: seq<Tcb>, after: seq<Tcb>, id: nat) {
    && |before| == |after| && id < |before|
    && before[id].inUse == 0 && (forall i :: 0 <= i < id ==> before[i].inUse != 0)
    && Ready(after[id]) && after == before[id := Tcb(id, 0, 1)]
  }
}
