/** Cooperative threads: each runs until it yields or finishes, and the scheduler picks the next one. */
module Cooperative {
  import opened Rounds
  import opened Threads

  /** Threads below m have had their turn of round r, the others have not. */
  ghost predicate Turn(k: seq<nat>, r: nat, m: nat, tcb: seq<Tcb>, times: seq<nat>, trace: seq<Event>) {
    && r >= 1 && m <= |k| == |tcb| == |times|
    && (forall t :: 0 <= t < |k| ==> Ready(tcb[t]) == (k[t] >= if t < m then r else r - 1))
    && (forall t :: 0 <= t < m ==> times[t] == if k[t] >= r then k[t] - r else 0)
    && (forall t :: m <= t < |k| ==> times[t] == if k[t] >= r - 1 then k[t] - (r - 1) else 0)
    && trace == Upto(k, r - 1) + Part(k, r, m)
  }

  /** The scheduler, entered after the turns below m, moves on within the round or opens the next. */
  lemma TurnMoves(k: seq<nat>, r: nat, m: nat, n: nat, tcb: seq<Tcb>, times: seq<nat>, trace: seq<Event>)
    requires Turn(k, r, m, tcb, times, trace) && IsNext(tcb, m - 1, n)
    ensures n >= m ==> Turn(k, r, n, tcb, times, trace)
    ensures n < m ==> Turn(k, r + 1, n, tcb, times, trace)
    ensures n < m ==> k[n] >= r
  {
    hide Upto, Part;
    if n >= m {
      assert forall t :: m <= t < n ==> !Ready(tcb[t]);
      PartSkips(k, r, m, n);
    } else {
      RoundEnds(k, r, m, tcb, times, trace);
      assert forall t :: 0 <= t < n ==> !Ready(tcb[t]);
      PartSkips(k, r + 1, 0, n);
      NoPart(k, r + 1);
      assert trace == Upto(k, r) + Part(k, r + 1, n);
    }
  }

  lemma RoundEnds(k: seq<nat>, r: nat, m: nat, tcb: seq<Tcb>, times: seq<nat>, trace: seq<Event>)
    requires Turn(k, r, m, tcb, times, trace) && forall t :: m <= t < |tcb| ==> !Ready(tcb[t])
    ensures trace == Upto(k, r)
  {
    hide Part;
    PartSkips(k, r, m, |k|);
  }

  /** With nothing ready, the whole schedule has been written. */
  lemma TurnsEnd(k: seq<nat>, r: nat, m: nat, tcb: seq<Tcb>, times: seq<nat>, trace: seq<Event>)
    requires Turn(k, r, m, tcb, times, trace) && forall t :: 0 <= t < |tcb| ==> !Ready(tcb[t])
    ensures trace + [AllDone] == Schedule(k)
  {
    hide Upto, Part;
    RoundEnds(k, r, m, tcb, times, trace);
    forall t | 0 <= t < |k|
      ensures k[t] < r
    {
      assert !Ready(tcb[t]);
    }
    UptoEnds(k, r, r + MaxBudget(k) + 1);
    UptoEnds(k, MaxBudget(k) + 1, r + MaxBudget(k) + 1);
  }

  /** One activation of thread m takes its turn. */
  lemma TurnTaken(k: seq<nat>, r: nat, m: nat, tcb: seq<Tcb>, times: seq<nat>, trace: seq<Event>,
                  tcb': seq<Tcb>, times': seq<nat>, trace': seq<Event>)
    requires Turn(k, r, m, tcb, times, trace) && m < |k| && Ready(tcb[m])
    requires times[m] > 0 ==>
               tcb' == tcb && times' == times[m := times[m] - 1] && trace' == trace + [Tag(m)]
    requires times[m] == 0 ==>
               times' == times && trace' == trace + [Finish(m)]
               && tcb' == tcb[m := tcb[m].(finished := 1, inUse := 0)]
    ensures Turn(k, r, m + 1, tcb', times', trace')
  {
    hide Upto;
    assert Part(k, r, m + 1) == Part(k, r, m) + Emit(k, r, m);
  }

  class System {
    const table: Table
    const times: array<nat>
    var trace: seq<Event>
    var entries: nat

    ghost predicate Valid()
      reads this, table, table.tcb
    {
      table.Valid() && times.Length == table.tcb.Length
    }

    /** initTCBArray and createThreads, for any number of threads and any loop budgets. */
    constructor (k: seq<nat>)
      requires |k| <= INFINIT
      ensures Valid() && fresh(table) && fresh(table.tcb) && fresh(times)
      ensures table.current == -1 && trace == [] && entries == 0
      ensures Turn(k, 1, 0, table.tcb[..], times[..], trace)
    {
      var tab := new Table(|k|);
      table := tab;
      times := new nat[|k|](i requires 0 <= i < |k| => k[i]);
      trace := [];
      entries := 0;
      new;
      var i := 0;
      while i < |k|
        invariant 0 <= i <= |k|
        invariant Valid() && table.current == -1 && trace == [] && entries == 0 && table.tcb.Length == |k|
        invariant times[..] == k
        invariant forall t :: 0 <= t < i ==> Ready(table.tcb[t])
        invariant forall t :: i <= t < |k| ==> table.tcb[t].inUse == 0
      {
        ghost var before := table.tcb[..];
        var ok := table.ThreadCreate();
        assert before[i].inUse == 0;
        ghost var id :| 0 <= id < |k| && Created(before, table.tcb[..], id);
        assert id == i;
        i := i + 1;
      }
    }

    /** scheduler, up to the switch; true when it announces the end and stops instead. */
    method Scheduler() returns (done: bool)
      requires Valid()
      modifies this, table
      ensures Valid() && entries == old(entries) + 1
      ensures done <==> forall t :: 0 <= t < table.tcb.Length ==> !Ready(table.tcb[t])
      ensures done ==> trace == old(trace) + [AllDone] && table.current == old(table.current)
      ensures !done ==> trace == old(trace) && table.current >= 0
                        && IsNext(table.tcb[..], old(table.current), table.current)
    {
      entries := entries + 1;
      ScanFindsNext(table.tcb[..], table.current);
      var nextThread := table.Pick();
      done := nextThread == INFINIT;
      if done {
        trace := trace + [AllDone];
      }
    }

    /** The current thread runs from where it was switched to until it enters the scheduler again. */
    method Activate()
      requires Valid() && table.current >= 0
      modifies this, times, table.tcb
      ensures Valid() && entries == old(entries) && table.current == old(table.current)
      ensures old(times[table.current]) > 0 ==>
                && table.tcb[..] == old(table.tcb[..]) && trace == old(trace) + [Tag(table.current)]
                && times[..] == old(times[..])[table.current := old(times[table.current]) - 1]
      ensures old(times[table.current]) == 0 ==>
                && times[..] == old(times[..]) && trace == old(trace) + [Finish(table.current)]
                && table.tcb[..] == old(table.tcb[..])[
                     table.current := old(table.tcb[table.current]).(finished := 1, inUse := 0)]
    {
      var c: nat := table.current;
      if times[c] != 0 {
        trace := trace + [Tag(c)];
        times[c] := times[c] - 1;
      } else {
        trace := trace + [Finish(c)];
        table.Finish();
      }
    }

    /** The whole run from the first call of the scheduler. */
    method Run(ghost k: seq<nat>)
      requires Valid() && Turn(k, 1, 0, table.tcb[..], times[..], trace)
      requires table.current == -1 && entries == 0
      modifies this, table, times, table.tcb
      ensures trace == Schedule(k)
      ensures entries == 1 + |k| + Sum(k)
    {
      hide Turn, Schedule, IsNext;
      ghost var r, m := 1, 0;
      NothingYet(k, table.tcb[..], times[..], trace);
      var done := Scheduler();
      if !done {
        TurnMoves(k, r, m, table.current, table.tcb[..], times[..], trace);
        m := table.current;
      } else {
        TurnsEnd(k, r, m, table.tcb[..], times[..], []);
      }
      while !done
        invariant Valid() && r >= 1 && times.Length == |k|
        invariant !done ==> 0 <= m == table.current < |k| && Ready(table.tcb[m]) && m < |k|
        invariant !done ==> Turn(k, r, m, table.tcb[..], times[..], trace) && r <= MaxBudget(k) + 1
        invariant !done ==> entries == |trace| + 1
        invariant done ==> trace == Schedule(k) && entries == |trace|
        decreases !done, MaxBudget(k) + 1 - r, |k| - m
      {
        ghost var tcb, was, out := table.tcb[..], times[..], trace;
        Activate();
        TurnTaken(k, r, m, tcb, was, out, table.tcb[..], times[..], trace);
        m := m + 1;
        done := Scheduler();
        if done {
          TurnsEnd(k, r, m, table.tcb[..], times[..], trace[..|trace| - 1]);
        } else {
          TurnMoves(k, r, m, table.current, table.tcb[..], times[..], trace);
          r, m := if table.current >= m then r else r + 1, table.current;
        }
      }
      ScheduleLength(k);
    }
  }

  /** init: create the threads, enter the scheduler, and run until it stops. */
  method Init(k: seq<nat>) returns (trace: seq<Event>, entries: nat)
    requires |k| <= INFINIT
    ensures trace == Schedule(k)
    ensures entries == 1 + |k| + Sum(k)
    ensures forall i :: 0 <= i < |k| ==> Only(trace, i) == Tags(i, k[i]) + [Finish(i)]
  {
    hide Turn, Schedule;
    var system := new System(k);
    system.Run(k);
    trace, entries := system.trace, system.entries;
    forall i | 0 <= i < |k|
      ensures Only(trace, i) == Tags(i, k[i]) + [Finish(i)]
    {
      ThreadView(k, i);
    }
  }

  /** Before the first turn nothing has been written. */
  lemma NothingYet(k: seq<nat>, tcb: seq<Tcb>, times: seq<nat>, trace: seq<Event>)
    requires Turn(k, 1, 0, tcb, times, trace)
    ensures trace == [] && |tcb| == |times| == |k|
  {
  }
}
