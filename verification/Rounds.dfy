/** The schedule that cooperative threads should produce: rounds in index order. */
module Rounds {

  /** What a thread or the scheduler writes on the terminal. */
  datatype Event = Tag(i: nat) | Finish(i: nat) | AllDone

  /** What thread i writes in round r: its tag while its budget lasts, then its finish line. */
  function Emit(k: seq<nat>, r: nat, i: nat): seq<Event>
    requires i < |k| && r >= 1
  {
    if k[i] >= r then [Tag(i)] else if k[i] == r - 1 then [Finish(i)] else []
  }

  /** The threads below m in round r, in index order. */
  function Part(k: seq<nat>, r: nat, m: nat): seq<Event>
    requires m <= |k| && r >= 1
  {
    if m == 0 then [] else Part(k, r, m - 1) + Emit(k, r, m - 1)
  }

  /** Rounds 1..r. */
  function Upto(k: seq<nat>, r: nat): seq<Event> {
    if r == 0 then [] else Upto(k, r - 1) + Part(k, r, |k|)
  }

  function MaxBudget(k: seq<nat>): (m: nat)
    ensures forall i :: 0 <= i < |k| ==> k[i] <= m
    ensures k != [] ==> exists i :: 0 <= i < |k| && k[i] == m
  {
    if k == [] then 0
    else
      var m := MaxBudget(k[1..]);
      assert forall i :: 0 < i < |k| ==> k[i] == k[1..][i - 1];
      if k[0] > m then k[0]
      else
        assert |k| > 1 ==> exists i :: 0 <= i < |k[1..]| && k[1..][i] == m;
        assert |k| > 1 ==> exists i :: 0 <= i < |k| && k[i] == m by {
          if |k| > 1 {
            var i :| 0 <= i < |k[1..]| && k[1..][i] == m;
            assert k[i + 1] == m;
          }
        }
        m
  }

  /** The whole run: every thread's tags and finish line, then the scheduler's last line. */
  function Schedule(k: seq<nat>): seq<Event> {
    Upto(k, MaxBudget(k) + 1) + [AllDone]
  }

  function Sum(k: seq<nat>): nat {
    if k == [] then 0 else Sum(k[..|k| - 1]) + k[|k| - 1]
  }

  lemma {:induction false} PartSkips(k: seq<nat>, r: nat, m: nat, m': nat)
    requires m <= m' <= |k| && r >= 1 && forall i :: m <= i < m' ==> k[i] + 1 < r
    ensures Part(k, r, m') == Part(k, r, m)
    decreases m'
  {
    if m < m' {
      PartSkips(k, r, m, m' - 1);
    }
  }

  /** Once every budget is used up, further rounds are silent. */
  lemma {:induction false} UptoEnds(k: seq<nat>, r: nat, r': nat)
    requires r <= r' && forall i :: 0 <= i < |k| ==> k[i] < r
    ensures Upto(k, r') == Upto(k, r)
    decreases r'
  {
    if r < r' {
      PartSkips(k, r', 0, |k|);
      UptoEnds(k, r, r' - 1);
    }
  }

  /** Round r has one event for each thread with a budget of at least r - 1. */
  lemma {:induction false} PartLength(k: seq<nat>, r: nat, m: nat)
    requires m <= |k| && r >= 1
    ensures |Part(k, r, m)| + Capped(k, r - 1, m) == Capped(k, r, m)
  {
    if m > 0 { PartLength(k, r, m - 1); }
  }

  /** Sum over the threads below m of min(r, budget + 1). */
  function Capped(k: seq<nat>, r: nat, m: nat): nat
    requires m <= |k|
  {
    if m == 0 then 0 else Capped(k, r, m - 1) + if r < k[m - 1] + 1 then r else k[m - 1] + 1
  }

  lemma {:induction false} UptoLength(k: seq<nat>, r: nat)
    ensures |Upto(k, r)| == Capped(k, r, |k|)
  {
    if r > 0 {
      UptoLength(k, r - 1);
      PartLength(k, r, |k|);
    } else {
      CappedZero(k, |k|);
    }
  }

  lemma {:induction false} CappedZero(k: seq<nat>, m: nat)
    requires m <= |k|
    ensures Capped(k, 0, m) == 0
  {
    if m > 0 { CappedZero(k, m - 1); }
  }

  lemma {:induction false} CappedAll(k: seq<nat>, r: nat, m: nat)
    requires m <= |k| && forall i :: 0 <= i < |k| ==> k[i] < r
    ensures Capped(k, r, m) == m + Sum(k[..m])
  {
    if m > 0 {
      CappedAll(k, r, m - 1);
      assert k[..m][..m - 1] == k[..m - 1];
    }
  }

  /** The schedule has one event per tag and per finish line, and ends with AllDone, its only one. */
  lemma {:induction false} ScheduleLength(k: seq<nat>)
    ensures |Schedule(k)| == 1 + |k| + Sum(k)
    ensures forall e :: 0 <= e < |Schedule(k)| ==> (Schedule(k)[e].AllDone? <==> e == |Schedule(k)| - 1)
  {
    UptoLength(k, MaxBudget(k) + 1);
    CappedAll(k, MaxBudget(k) + 1, |k|);
    assert k[..|k|] == k;
    NoneDone(k, MaxBudget(k) + 1);
  }

  lemma {:induction false} NoneDone(k: seq<nat>, r: nat)
    ensures forall e :: 0 <= e < |Upto(k, r)| ==> !Upto(k, r)[e].AllDone?
  {
    if r > 0 {
      NoneDone(k, r - 1);
      NoneDoneInPart(k, r, |k|);
    }
  }

  lemma {:induction false} NoneDoneInPart(k: seq<nat>, r: nat, m: nat)
    requires m <= |k| && r >= 1
    ensures forall e :: 0 <= e < |Part(k, r, m)| ==> !Part(k, r, m)[e].AllDone?
  {
    if m > 0 { NoneDoneInPart(k, r, m - 1); }
  }

  /** The events of thread i. */
  function Only(t: seq<Event>, i: nat): seq<Event> {
    if t == [] then []
    else
      var e := t[|t| - 1];
      Only(t[..|t| - 1], i) + if e != AllDone && e.i == i then [e] else []
  }

  function Tags(i: nat, n: nat): seq<Event> {
    if n == 0 then [] else Tags(i, n - 1) + [Tag(i)]
  }

  lemma {:induction false} OnlyConcat(s: seq<Event>, t: seq<Event>, i: nat)
    ensures Only(s + t, i) == Only(s, i) + Only(t, i)
    decreases |t|
  {
    if t == [] {
      assert s + t == s;
    } else {
      assert (s + t)[..|s + t| - 1] == s + t[..|t| - 1];
      OnlyConcat(s, t[..|t| - 1], i);
    }
  }

  lemma {:induction false} OnlyOfPart(k: seq<nat>, r: nat, m: nat, i: nat)
    requires m <= |k| && r >= 1 && i < |k|
    ensures Only(Part(k, r, m), i) == if i < m then Emit(k, r, i) else []
  {
    hide Only, Emit, Part;
    if m == 0 {
      NoPart(k, r);
      OnlyNothing(i);
    } else {
      OnlyOfPart(k, r, m - 1, i);
      OnlyConcat(Part(k, r, m - 1), Emit(k, r, m - 1), i);
      OnlyOfEmit(k, r, m - 1, i);
      PartLast(k, r, m);
    }
  }

  lemma NoPart(k: seq<nat>, r: nat)
    requires r >= 1
    ensures Part(k, r, 0) == []
  {
  }

  lemma PartLast(k: seq<nat>, r: nat, m: nat)
    requires 1 <= m <= |k| && r >= 1
    ensures Part(k, r, m) == Part(k, r, m - 1) + Emit(k, r, m - 1)
  {
  }

  lemma OnlyOfEmit(k: seq<nat>, r: nat, j: nat, i: nat)
    requires j < |k| && r >= 1
    ensures Only(Emit(k, r, j), i) == if i == j then Emit(k, r, j) else []
  {
    var e := Emit(k, r, j);
    if e != [] {
      assert e[..|e| - 1] == [];
    }
  }

  /** What one thread writes over rounds 1..r: its tags, and its finish line once they are done. */
  lemma {:induction false} OnlyOfUpto(k: seq<nat>, r: nat, i: nat)
    requires i < |k|
    ensures Only(Upto(k, r), i) == if r <= k[i] then Tags(i, r) else Tags(i, k[i]) + [Finish(i)]
  {
    hide Only, Part, Emit;
    if r == 0 {
      OnlyNothing(i);
    } else {
      OnlyOfUpto(k, r - 1, i);
      OnlyOfPart(k, r, |k|, i);
      OnlyConcat(Upto(k, r - 1), Part(k, r, |k|), i);
      EmitCases(k, r, i);
    }
  }

  lemma OnlyNothing(i: nat)
    ensures Only([], i) == []
  {
  }

  lemma EmitCases(k: seq<nat>, r: nat, i: nat)
    requires i < |k| && r >= 1
    ensures r <= k[i] ==> Emit(k, r, i) == [Tag(i)]
    ensures r == k[i] + 1 ==> Emit(k, r, i) == [Finish(i)]
    ensures r > k[i] + 1 ==> Emit(k, r, i) == []
  {
  }

  /** Each thread's own view of the schedule: exactly its budget of tags, then its finish line. */
  lemma {:induction false} ThreadView(k: seq<nat>, i: nat)
    requires i < |k|
    ensures Only(Schedule(k), i) == Tags(i, k[i]) + [Finish(i)]
  {
    OnlyOfUpto(k, MaxBudget(k) + 1, i);
    OnlyConcat(Upto(k, MaxBudget(k) + 1), [AllDone], i);
    assert [AllDone][..0] == [];
  }
}
