/** Preemptive threads: the timer may enter the scheduler wherever interrupts are on. */
module Preemptive {
  import opened Rounds
  import opened Threads

  /**
   * Where a thread stands: the loop test, cli, the print, the decrement, sti, the finish line, the two
   * stores of functionFinish, its call of the scheduler, and past that call.
   */
  datatype Pc = Test | Cli | Print | Decrement | Sti | Say | MarkFinished | MarkFree | Enter | Gone

  datatype Local = Local(pc: Pc, times: nat)

  datatype Machine = Machine(tcb: seq<Tcb>, locals: seq<Local>, current: int, interrupts: bool,
                             halted: bool, trace: seq<Event>)

  /**
   * One move: the timer fires, or the processor executes one instruction. The flag is the interrupt
   * flag with which a thread that is switched to goes on; every value is allowed at every switch.
   */
  datatype Move = Timer(on: bool) | Go(on: bool)

  /** After sti in init, with every thread created and none running. */
  function Boot(k: seq<nat>): (m: Machine)
    requires |k| <= INFINIT
    ensures Shaped(k, m)
  {
    Machine(seq(|k|, (i: nat) => Tcb(i, 0, 1)), seq(|k|, i requires 0 <= i < |k| => Local(Test, k[i])),
            -1, true, false, [])
  }

  /** The scheduler, as one step. Inside the timer's handler interrupts are off. */
  function Switch(m: Machine, inHandler: bool, on: bool): Machine {
    var n := Scan(m.tcb, m.current, 1);
    if n == INFINIT then
      m.(halted := true, interrupts := m.interrupts && !inHandler, trace := m.trace + [AllDone])
    else
      m.(current := n, interrupts := on)
  }

  function At(m: Machine, l: Local): Machine
    requires 0 <= m.current < |m.locals|
  {
    m.(locals := m.locals[m.current := l])
  }

  /** One instruction of the current thread, whose loop budget is b. */
  function Execute(m: Machine, b: nat, on: bool): Machine
    requires 0 <= m.current < |m.locals| == |m.tcb|
  {
    var c: nat := m.current;
    var l := m.locals[c];
    match l.pc
    case Test => At(m, l.(pc := if 1 <= l.times <= b then Cli else Say))
    case Cli => At(m, l.(pc := Print)).(interrupts := false)
    case Print => At(m, l.(pc := Decrement)).(trace := m.trace + [Tag(c)])
    case Decrement => At(m, Local(Sti, if l.times > 0 then l.times - 1 else 0))
    case Sti => At(m, l.(pc := Test)).(interrupts := true)
    case Say => At(m, l.(pc := MarkFinished)).(trace := m.trace + [Finish(c)])
    case MarkFinished => At(m, l.(pc := MarkFree)).(tcb := m.tcb[c := m.tcb[c].(finished := 1)])
    case MarkFree => At(m, l.(pc := Enter)).(tcb := m.tcb[c := m.tcb[c].(inUse := 0)])
    case Enter => Switch(At(m, l.(pc := Gone)), false, on)
    case Gone => m
  }

  predicate Shaped(k: seq<nat>, m: Machine) {
    |m.tcb| == |m.locals| == |k| <= INFINIT && -1 <= m.current < |k|
  }

  /** Does this move execute an instruction of a thread? */
  predicate Executes(m: Machine, move: Move) {
    move.Go? && !m.halted && m.current >= 0
  }

  /** Does this move enter the scheduler? */
  predicate Enters(m: Machine, move: Move)
    requires 0 <= m.current < |m.locals| || m.current == -1
  {
    if move.Timer? then m.interrupts else Executes(m, move) && m.locals[m.current].pc == Enter
  }

  /** Before the first pick, and after the end, the processor spins in an empty loop. */
  function Step(k: seq<nat>, m: Machine, move: Move): Machine
    requires Shaped(k, m)
  {
    if move.Timer? then
      if m.interrupts then Switch(m, true, move.on) else m
    else if Executes(m, move) then Execute(m, k[m.current], move.on)
    else m
  }

  lemma StepShaped(k: seq<nat>, m: Machine, move: Move)
    requires Shaped(k, m)
    ensures Shaped(k, Step(k, m, move))
  {
    ScanFindsNext(m.tcb, m.current);
  }

  function Run(k: seq<nat>, m: Machine, moves: seq<Move>): (r: Machine)
    requires Shaped(k, m)
    ensures Shaped(k, r)
  {
    if moves == [] then m
    else
      var before := Run(k, m, moves[..|moves| - 1]);
      StepShaped(k, before, moves[|moves| - 1]);
      Step(k, before, moves[|moves| - 1])
  }

  predicate Printing(pc: Pc) { pc == Print || pc == Decrement || pc == Sti }

  predicate Done(pc: Pc) { pc == MarkFree || pc == Enter || pc == Gone }

  predicate Released(pc: Pc) { pc == Enter || pc == Gone }

  predicate Said(pc: Pc) { pc == MarkFinished || Done(pc) }

  /** What thread i has written, as a function of where it stands. */
  function View(i: nat, b: nat, l: Local): seq<Event> {
    Tags(i, if l.times > b then 0 else b - l.times + if l.pc == Decrement then 1 else 0)
    + if Said(l.pc) then [Finish(i)] else []
  }

  /** Thread i's locals and table entry agree with each other. */
  predicate ThreadOk(b: nat, l: Local, t: Tcb) {
    && l.times <= b
    && (l.pc == Cli || l.pc == Print || l.pc == Decrement ==> l.times >= 1)
    && (l.pc == Say || Said(l.pc) ==> l.times == 0)
    && t.finished == (if Done(l.pc) then 1 else 0)
    && t.inUse == (if Released(l.pc) then 0 else 1)
  }

  ghost predicate Inv(k: seq<nat>, m: Machine) {
    && Shaped(k, m)
    && (forall i :: 0 <= i < |k| ==> ThreadOk(k[i], m.locals[i], m.tcb[i]))
    && (forall i :: 0 <= i < |k| ==> Only(m.trace, i) == View(i, k[i], m.locals[i]))
    && (forall i :: 0 <= i < |k| && Printing(m.locals[i].pc) ==> i == m.current && !m.interrupts && !m.halted)
    && (forall i :: 0 <= i < |k| && m.locals[i].pc == Gone && i == m.current ==> m.halted)
    && (m.halted ==> forall i :: 0 <= i < |k| ==> Done(m.locals[i].pc))
  }

  lemma OnlyAppend(t: seq<Event>, e: Event, i: nat)
    ensures Only(t + [e], i) == if e != AllDone && e.i == i then Only(t, i) + [e] else Only(t, i)
  {
    assert (t + [e])[..|t + [e]| - 1] == t;
  }

  lemma BootInv(k: seq<nat>)
    requires |k| <= INFINIT
    ensures Inv(k, Boot(k))
  {
  }

  lemma SwitchKeepsInv(k: seq<nat>, m: Machine, inHandler: bool, on: bool)
    requires Shaped(k, m)
    requires forall i :: 0 <= i < |k| ==> ThreadOk(k[i], m.locals[i], m.tcb[i])
    requires forall i :: 0 <= i < |k| ==> Only(m.trace, i) == View(i, k[i], m.locals[i])
    requires forall i :: 0 <= i < |k| ==> !Printing(m.locals[i].pc)
    requires m.halted ==> forall i :: 0 <= i < |k| ==> Done(m.locals[i].pc)
    ensures Inv(k, Switch(m, inHandler, on))
  {
    hide View, Only, Scan, IsNext;
    ScanFindsNext(m.tcb, m.current);
    var n := Scan(m.tcb, m.current, 1);
    if n == INFINIT {
      forall i | 0 <= i < |k|
        ensures Only(m.trace + [AllDone], i) == Only(m.trace, i)
        ensures Done(m.locals[i].pc)
      {
        OnlyAppend(m.trace, AllDone, i);
        assert !Ready(m.tcb[i]);
      }
    } else {
      NextIsReady(m.tcb, m.current, n);
    }
  }

  lemma NextIsReady(tcb: seq<Tcb>, cur: int, n: nat)
    requires IsNext(tcb, cur, n)
    ensures n < |tcb| && Ready(tcb[n])
  {
  }

  /** A print adds a tag to the view, a decrement keeps it, and the finish line closes it. */
  lemma OwnViewMoves(m: Machine, b: nat, on: bool)
    requires 0 <= m.current < |m.locals| == |m.tcb| && m.locals[m.current].pc != Enter
    requires ThreadOk(b, m.locals[m.current], m.tcb[m.current])
    requires Only(m.trace, m.current) == View(m.current, b, m.locals[m.current])
    ensures var m' := Execute(m, b, on);
            |m'.locals| == |m.locals| && Only(m'.trace, m.current) == View(m.current, b, m'.locals[m.current])
  {
    hide Only, Ready;
    OnlyAppend(m.trace, Tag(m.current), m.current);
    OnlyAppend(m.trace, Finish(m.current), m.current);
  }

  lemma OtherViewsStay(m: Machine, b: nat, on: bool, i: nat)
    requires 0 <= m.current < |m.locals| == |m.tcb| && m.locals[m.current].pc != Enter
    requires i < |m.locals| && i != m.current
    ensures var m' := Execute(m, b, on);
            |m'.locals| == |m.locals| && m'.locals[i] == m.locals[i] && Only(m'.trace, i) == Only(m.trace, i)
  {
    hide Only, View, Ready;
    OnlyAppend(m.trace, Tag(m.current), i);
    OnlyAppend(m.trace, Finish(m.current), i);
  }

  lemma ViewMoves(k: seq<nat>, m: Machine, on: bool)
    requires Inv(k, m) && !m.halted && m.current >= 0 && m.locals[m.current].pc != Enter
    ensures var m' := Execute(m, k[m.current], on);
            |m'.locals| == |k| && forall i :: 0 <= i < |k| ==> Only(m'.trace, i) == View(i, k[i], m'.locals[i])
  {
    hide Only, View, Execute, ThreadOk;
    OwnViewMoves(m, k[m.current], on);
    forall i | 0 <= i < |k| && i != m.current
      ensures Only(Execute(m, k[m.current], on).trace, i) == View(i, k[i], Execute(m, k[m.current], on).locals[i])
    {
      OtherViewsStay(m, k[m.current], on, i);
    }
  }

  lemma ExecuteKeepsInv(k: seq<nat>, m: Machine, on: bool)
    requires Inv(k, m) && !m.halted && m.current >= 0 && m.locals[m.current].pc != Enter
    ensures Inv(k, Execute(m, k[m.current], on))
  {
    hide Only, View, Scan, Switch;
    ViewMoves(k, m, on);
    ExecuteKeepsOk(k, m, on);
  }

  lemma ExecuteKeepsOk(k: seq<nat>, m: Machine, on: bool)
    requires Inv(k, m) && !m.halted && m.current >= 0 && m.locals[m.current].pc != Enter
    ensures var m' := Execute(m, k[m.current], on);
            && Shaped(k, m') && m'.current == m.current && !m'.halted
            && (forall i :: 0 <= i < |k| ==> ThreadOk(k[i], m'.locals[i], m'.tcb[i]))
            && (forall i :: 0 <= i < |k| && i != m.current ==> m'.locals[i] == m.locals[i])
            && (Printing(m'.locals[m.current].pc) ==> !m'.interrupts)
            && m'.locals[m.current].pc != Gone
  {
    hide Only, View, Scan, Switch;
    assert ThreadOk(k[m.current], m.locals[m.current], m.tcb[m.current]);
  }

  lemma StepKeepsInv(k: seq<nat>, m: Machine, move: Move)
    requires Inv(k, m)
    ensures Inv(k, Step(k, m, move))
  {
    hide Only, View, Scan;
    if move.Timer? {
      if m.interrupts { SwitchKeepsInv(k, m, true, move.on); }
    } else if Executes(m, move) {
      if m.locals[m.current].pc == Enter {
        var g := At(m, m.locals[m.current].(pc := Gone));
        assert forall i :: 0 <= i < |k| ==> View(i, k[i], g.locals[i]) == View(i, k[i], m.locals[i]) by {
          SameView(m.current, k[m.current], m.locals[m.current]);
        }
        SwitchKeepsInv(k, g, false, move.on);
      } else {
        ExecuteKeepsInv(k, m, move.on);
      }
    }
  }

  lemma SameView(i: nat, b: nat, l: Local)
    requires l.pc == Enter
    ensures View(i, b, l.(pc := Gone)) == View(i, b, l)
  {
  }

  lemma {:induction false} RunKeepsInv(k: seq<nat>, m: Machine, moves: seq<Move>)
    requires Shaped(k, m) && Inv(k, m)
    ensures Inv(k, Run(k, m, moves))
  {
    hide Inv;
    if moves != [] {
      RunKeepsInv(k, m, moves[..|moves| - 1]);
      StepKeepsInv(k, Run(k, m, moves[..|moves| - 1]), moves[|moves| - 1]);
    }
  }

  /** A state that some sequence of timer firings and instructions leads to. */
  ghost predicate Reachable(k: seq<nat>, m: Machine) {
    |k| <= INFINIT && exists moves: seq<Move> :: m == Run(k, Boot(k), moves)
  }

  lemma ReachableInv(k: seq<nat>, m: Machine)
    requires Reachable(k, m)
    ensures Inv(k, m)
  {
    var moves: seq<Move> :| m == Run(k, Boot(k), moves);
    BootInv(k);
    RunKeepsInv(k, Boot(k), moves);
  }

  /**
   * Whatever the timer does, each thread writes a beginning of its budget of tags and one finish line;
   * when the scheduler announces the end, each has written all of it: what the cooperative schedule shows.
   */
  lemma EachThreadsOutput(k: seq<nat>, m: Machine, i: nat)
    requires Reachable(k, m) && i < |k|
    ensures Only(m.trace, i) <= Tags(i, k[i]) + [Finish(i)]
    ensures Only(m.trace, i) == View(i, k[i], m.locals[i])
    ensures Finish(i) in m.trace ==> Only(m.trace, i) == Tags(i, k[i]) + [Finish(i)]
    ensures m.halted ==> Only(m.trace, i) == Only(Schedule(k), i)
  {
    hide Only, Schedule;
    ReachableInv(k, m);
    ThreadView(k, i);
    assert ThreadOk(k[i], m.locals[i], m.tcb[i]);
    var l := m.locals[i];
    var n := k[i] - l.times + if l.pc == Decrement then 1 else 0;
    TagsPrefix(i, n, k[i]);
    if Finish(i) in m.trace {
      OnlyKeeps(m.trace, Finish(i), i);
      NoFinishInTags(i, n);
    }
  }

  lemma {:induction false} TagsPrefix(i: nat, n: nat, b: nat)
    requires n <= b
    ensures Tags(i, n) <= Tags(i, b) && |Tags(i, n)| == n
  {
    if n < b {
      TagsPrefix(i, n, b - 1);
    } else if n > 0 {
      TagsPrefix(i, n - 1, n - 1);
    }
  }

  lemma {:induction false} NoFinishInTags(i: nat, n: nat)
    ensures Finish(i) !in Tags(i, n)
  {
    if n > 0 { NoFinishInTags(i, n - 1); }
  }

  lemma {:induction false} OnlyKeeps(t: seq<Event>, e: Event, i: nat)
    requires e in t && e != AllDone && e.i == i
    ensures e in Only(t, i)
  {
    if t[|t| - 1] != e {
      OnlyKeeps(t[..|t| - 1], e, i);
    }
  }

  /**
   * Between cli and sti nothing else happens: a thread inside its print and decrement is the current one,
   * the timer does nothing, and the next move touches no other thread and writes no other thread's events.
   */
  lemma BodyIsNotSplit(k: seq<nat>, m: Machine, i: nat, move: Move)
    requires Reachable(k, m) && i < |k| && Printing(m.locals[i].pc)
    ensures m.current == i && Step(k, m, move).current == i
    ensures move.Timer? ==> Step(k, m, move) == m
    ensures Step(k, m, move).tcb == m.tcb
    ensures forall j :: 0 <= j < |k| && j != i ==> Step(k, m, move).locals[j] == m.locals[j]
    ensures Step(k, m, move).trace == m.trace || Step(k, m, move).trace == m.trace + [Tag(i)]
  {
    ReachableInv(k, m);
  }

  /** A thread's slot says what it has done: finished from its first store on, free from its second one on. */
  lemma SlotTellsWhere(k: seq<nat>, m: Machine, i: nat)
    requires Reachable(k, m) && i < |k|
    ensures m.tcb[i].finished == 1 <==> Done(m.locals[i].pc)
    ensures m.tcb[i].inUse == 0 <==> Released(m.locals[i].pc)
    ensures Ready(m.tcb[i]) <==> !Done(m.locals[i].pc)
  {
    ReachableInv(k, m);
    assert ThreadOk(k[i], m.locals[i], m.tcb[i]);
  }

  /** The current thread is between cli and sti. */
  predicate InBody(m: Machine) {
    0 <= m.current < |m.locals| && Printing(m.locals[m.current].pc)
  }

  lemma StepInterrupts(k: seq<nat>, m: Machine, move: Move)
    requires Inv(k, m) && move.on && (!m.halted ==> (m.interrupts <==> !InBody(m)))
    ensures var r := Step(k, m, move); !r.halted ==> (r.interrupts <==> !InBody(r))
  {
    hide Only, View;
    ScanFindsNext(m.tcb, m.current);
  }

  /** Over every run in which threads go on with interrupts on, as their frames have it, interrupts are off before
      the end exactly while the current thread is between cli and sti. */
  lemma {:induction false} InterruptsExact(k: seq<nat>, moves: seq<Move>)
    requires |k| <= INFINIT && forall j :: 0 <= j < |moves| ==> moves[j].on
    ensures var m := Run(k, Boot(k), moves); !m.halted ==> (m.interrupts <==> !InBody(m))
  {
    hide Inv, Step, InBody;
    if moves == [] {
      BootOutside(k);
    } else {
      var front := moves[..|moves| - 1];
      InterruptsExact(k, front);
      BootInv(k);
      RunKeepsInv(k, Boot(k), front);
      StepInterrupts(k, Run(k, Boot(k), front), moves[|moves| - 1]);
    }
  }

  lemma BootOutside(k: seq<nat>)
    requires |k| <= INFINIT
    ensures Boot(k).interrupts && !InBody(Boot(k))
  {
  }

  /** So the timer preempts every thread outside its body: its firing makes the next ready thread current and changes
      nothing else, and announces the end when none is ready. */
  lemma {:induction false} TimerPreempts(k: seq<nat>, moves: seq<Move>, n: nat, on: bool)
    requires |k| <= INFINIT && forall j :: 0 <= j < |moves| ==> moves[j].on
    requires var m := Run(k, Boot(k), moves); !m.halted && !InBody(m)
    ensures var m := Run(k, Boot(k), moves); var r := Step(k, m, Timer(on));
            && (IsNext(m.tcb, m.current, n) ==> r == m.(current := n, interrupts := on))
            && ((forall i :: 0 <= i < |k| ==> !Ready(m.tcb[i])) ==> r.halted && r.trace == m.trace + [AllDone])
  {
    hide InBody, IsNext, Ready, Step, Boot, Run;
    InterruptsExact(k, moves);
    SwitchesToNext(k, Run(k, Boot(k), moves), n, on);
  }

  /** One entry into the scheduler, by the timer or by a thread that has finished. */
  lemma SwitchesToNext(k: seq<nat>, m: Machine, n: nat, on: bool)
    requires Shaped(k, m)
    ensures m.interrupts ==>
              var r := Step(k, m, Timer(on));
              && (IsNext(m.tcb, m.current, n) ==> r == m.(current := n, interrupts := on))
              && ((forall i :: 0 <= i < |k| ==> !Ready(m.tcb[i])) ==> r.halted && r.trace == m.trace + [AllDone])
    ensures !m.halted && m.current >= 0 && m.locals[m.current].pc == Enter ==>
              var r := Step(k, m, Go(on));
              && (IsNext(m.tcb, m.current, n) ==> r.current == n && r.interrupts == on && r.tcb == m.tcb && r.trace == m.trace)
              && ((forall i :: 0 <= i < |k| ==> !Ready(m.tcb[i])) ==> r.halted && r.trace == m.trace + [AllDone])
  {
    hide IsNext, Ready, Scan;
    NextOrNone(m.tcb, m.current, n);
  }

  lemma NextOrNone(tcb: seq<Tcb>, cur: int, n: nat)
    requires Fits(tcb, cur)
    ensures IsNext(tcb, cur, n) ==> Scan(tcb, cur, 1) == n != INFINIT
    ensures (forall i :: 0 <= i < |tcb| ==> !Ready(tcb[i])) ==> Scan(tcb, cur, 1) == INFINIT
  {
    hide Scan;
    ScanFindsNext(tcb, cur);
    if IsNext(tcb, cur, n) { ScannedIffNext(tcb, cur, n); }
  }

  lemma StepLeavesOff(k: seq<nat>, m: Machine, i: nat, move: Move)
    requires Shaped(k, m) && i < |k| && m.tcb[i].finished == 1 && m.current != i
    ensures var r := Step(k, m, move);
            r.current != i && |r.locals| == |r.tcb| == |k| && r.locals[i] == m.locals[i] && r.tcb[i] == m.tcb[i]
  {
    ScanFindsNext(m.tcb, m.current);
  }

  /** A thread marked finished that is not running stays off the processor, whatever follows. */
  lemma {:induction false} FinishedIsNeverPicked(k: seq<nat>, m: Machine, i: nat, moves: seq<Move>)
    requires Shaped(k, m) && i < |k| && m.tcb[i].finished == 1 && m.current != i
    ensures Run(k, m, moves).current != i
    ensures Run(k, m, moves).locals[i] == m.locals[i] && Run(k, m, moves).tcb[i] == m.tcb[i]
  {
    if moves != [] {
      FinishedIsNeverPicked(k, m, i, moves[..|moves| - 1]);
      StepLeavesOff(k, Run(k, m, moves[..|moves| - 1]), i, moves[|moves| - 1]);
    }
  }

  /** Thread i waits over the whole of this run. */
  ghost predicate Waits(k: seq<nat>, m: Machine, i: nat, moves: seq<Move>)
    requires Shaped(k, m)
  {
    forall j :: 0 <= j <= |moves| ==> Run(k, m, moves[..j]).current != i
  }

  /** How often the scheduler is entered in this run. */
  function Entries(k: seq<nat>, m: Machine, moves: seq<Move>): nat
    requires Shaped(k, m)
  {
    if moves == [] then 0
    else
      Entries(k, m, moves[..|moves| - 1])
      + if Enters(Run(k, m, moves[..|moves| - 1]), moves[|moves| - 1]) then 1 else 0
  }

  /** A step that does not pick i leaves it ready, and each time the scheduler is entered it comes closer. */
  lemma StepBringsCloser(k: seq<nat>, m: Machine, i: nat, move: Move)
    requires Shaped(k, m) && i < |k| && Ready(m.tcb[i]) && m.current != i
    requires Step(k, m, move).current != i
    ensures var r := Step(k, m, move);
            Shaped(k, r) && r.tcb[i] == m.tcb[i]
            && Distance(|k|, r.current, i) + (if Enters(m, move) then 1 else 0) <= Distance(|k|, m.current, i)
  {
    StepShaped(k, m, move);
    ScanFindsNext(m.tcb, m.current);
    var n := Scan(m.tcb, m.current, 1);
    if n != INFINIT && n != i {
      NextComesCloser(m.tcb, m.current, n, i);
    }
  }

  /** Only by an entry does the processor go to another thread or the end get announced, and by each entry the next
      ready thread comes on, or the end. */
  lemma EntryExact(k: seq<nat>, m: Machine, move: Move, n: nat)
    requires Shaped(k, m) && !m.halted
    ensures var r := Step(k, m, move);
            && (!Enters(m, move) ==> r.current == m.current && !r.halted && DoneLines(r.trace) == DoneLines(m.trace))
            && (Enters(m, move) && IsNext(m.tcb, m.current, n) ==> r.current == n && !r.halted)
            && (Enters(m, move) && (forall i :: 0 <= i < |k| ==> !Ready(m.tcb[i])) ==> r.halted)
  {
    hide IsNext, Ready, Scan, DoneLines;
    NextOrNone(m.tcb, m.current, n);
    if m.current >= 0 {
      DoneAppend(m.trace, Tag(m.current));
      DoneAppend(m.trace, Finish(m.current));
    }
  }

  /** A live thread waits while the scheduler is entered at most N - 1 times: the next time it is picked. */
  lemma {:induction false} LiveThreadsWait(k: seq<nat>, m: Machine, i: nat, moves: seq<Move>)
    requires Shaped(k, m) && i < |k| && Ready(m.tcb[i]) && Waits(k, m, i, moves)
    ensures Run(k, m, moves).tcb[i] == m.tcb[i]
    ensures Distance(|k|, Run(k, m, moves).current, i) + Entries(k, m, moves) <= Distance(|k|, m.current, i)
    ensures Entries(k, m, moves) <= |k| - 1
  {
    if moves != [] {
      var front := moves[..|moves| - 1];
      forall j | 0 <= j <= |front|
        ensures Run(k, m, front[..j]).current != i
      {
        assert front[..j] == moves[..j];
      }
      LiveThreadsWait(k, m, i, front);
      assert moves[..|moves|] == moves && front[..|front|] == front;
      StepBringsCloser(k, Run(k, m, front), i, moves[|moves| - 1]);
    }
  }

  /** How many instructions a thread has left: five for each round of its loop, and five to finish. */
  function Work(l: Local): nat {
    match l.pc
    case Test => 5 * l.times + 5
    case Cli => 5 * l.times + 4
    case Print => 5 * l.times + 3
    case Decrement => 5 * l.times + 2
    case Sti => 5 * l.times + 6
    case Say => 4
    case MarkFinished => 3
    case MarkFree => 2
    case Enter => 1
    case Gone => 0
  }

  function TotalWork(ls: seq<Local>): nat {
    if ls == [] then 0 else TotalWork(ls[..|ls| - 1]) + Work(ls[|ls| - 1])
  }

  lemma {:induction false} TotalWorkAt(ls: seq<Local>, i: nat, l: Local)
    requires i < |ls|
    ensures TotalWork(ls[i := l]) + Work(ls[i]) == TotalWork(ls) + Work(l)
  {
    if i < |ls| - 1 {
      TotalWorkAt(ls[..|ls| - 1], i, l);
      assert ls[i := l][..|ls| - 1] == ls[..|ls| - 1][i := l];
    } else {
      assert ls[i := l][..|ls| - 1] == ls[..|ls| - 1];
    }
  }

  lemma {:induction false} BootWork(k: seq<nat>)
    requires |k| <= INFINIT
    ensures TotalWork(Boot(k).locals) == 5 * Sum(k) + 5 * |k|
  {
    if k != [] {
      var front := k[..|k| - 1];
      BootWork(front);
      assert Boot(k).locals[..|k| - 1] == Boot(front).locals;
    }
  }

  /** The instructions that threads execute in this run. */
  function Executed(k: seq<nat>, m: Machine, moves: seq<Move>): nat
    requires Shaped(k, m)
  {
    if moves == [] then 0
    else
      Executed(k, m, moves[..|moves| - 1])
      + if Executes(Run(k, m, moves[..|moves| - 1]), moves[|moves| - 1]) then 1 else 0
  }

  lemma ExecuteSpendsOne(m: Machine, b: nat, on: bool)
    requires 0 <= m.current < |m.locals| == |m.tcb|
    requires ThreadOk(b, m.locals[m.current], m.tcb[m.current]) && m.locals[m.current].pc != Gone
    ensures var r := Execute(m, b, on);
            && |r.locals| == |m.locals| && r.locals == m.locals[m.current := r.locals[m.current]]
            && Work(r.locals[m.current]) + 1 == Work(m.locals[m.current])
  {
    hide Scan, Ready;
  }

  lemma StepSpendsWork(k: seq<nat>, m: Machine, move: Move)
    requires Inv(k, m)
    ensures TotalWork(Step(k, m, move).locals) + (if Executes(m, move) then 1 else 0) == TotalWork(m.locals)
  {
    hide Scan, Ready, Execute, Work, ThreadOk, Only, View;
    if Executes(m, move) {
      var c: nat := m.current;
      ExecuteSpendsOne(m, k[c], move.on);
      TotalWorkAt(m.locals, c, Step(k, m, move).locals[c]);
    }
  }

  /** Each executed instruction is one of the 5(k_i + 1) of its thread; none is lost, repeated or left over. */
  lemma {:induction false} InstructionsConserved(k: seq<nat>, moves: seq<Move>)
    requires |k| <= INFINIT
    ensures var m := Run(k, Boot(k), moves);
            Executed(k, Boot(k), moves) + TotalWork(m.locals) == 5 * Sum(k) + 5 * |k|
  {
    hide Inv, Boot;
    BootWork(k);
    if moves != [] {
      InstructionsConserved(k, moves[..|moves| - 1]);
      BootInv(k);
      RunKeepsInv(k, Boot(k), moves[..|moves| - 1]);
      StepSpendsWork(k, Run(k, Boot(k), moves[..|moves| - 1]), moves[|moves| - 1]);
    }
  }

  lemma StepAnnounces(k: seq<nat>, m: Machine, move: Move)
    requires Shaped(k, m) && (m.halted <==> AllDone in m.trace)
    ensures Step(k, m, move).halted <==> AllDone in Step(k, m, move).trace
  {
    hide Scan;
    if Executes(m, move) {
      assert m.locals[m.current].pc == Enter || Step(k, m, move).halted == m.halted;
    }
  }

  /** The end has been announced exactly when the machine has halted. */
  lemma {:induction false} HaltedIffAnnounced(k: seq<nat>, moves: seq<Move>)
    requires |k| <= INFINIT
    ensures Run(k, Boot(k), moves).halted <==> AllDone in Run(k, Boot(k), moves).trace
  {
    if moves != [] {
      HaltedIffAnnounced(k, moves[..|moves| - 1]);
      StepAnnounces(k, Run(k, Boot(k), moves[..|moves| - 1]), moves[|moves| - 1]);
    }
  }

  predicate Fires(moves: seq<Move>) {
    exists j :: 0 <= j < |moves| && moves[j].Timer?
  }

  lemma FiresLast(moves: seq<Move>)
    requires moves != []
    ensures Fires(moves) <==> Fires(moves[..|moves| - 1]) || moves[|moves| - 1].Timer?
  {
    if Fires(moves[..|moves| - 1]) {
      var j :| 0 <= j < |moves| - 1 && moves[..|moves| - 1][j].Timer?;
      assert moves[j].Timer?;
    }
  }

  lemma StepAfterEnd(k: seq<nat>, m: Machine, move: Move)
    requires Shaped(k, m) && m.halted && forall i :: 0 <= i < |k| ==> !Ready(m.tcb[i])
    ensures Step(k, m, move)
            == if move.Timer? && m.interrupts then m.(trace := m.trace + [AllDone], interrupts := false) else m
  {
    hide Execute;
    ScanFindsNext(m.tcb, m.current);
  }

  /**
   * After the announcement the machine spins with interrupts as they were: on when the last thread's own
   * call of the scheduler found nothing, off when the timer's did. If they are on, the next firing of the
   * timer announces the end once more; after that nothing is ever written.
   */
  lemma {:induction false} EndIsAnnouncedAgain(k: seq<nat>, m: Machine, moves: seq<Move>)
    requires Shaped(k, m) && m.halted && forall i :: 0 <= i < |k| ==> !Ready(m.tcb[i])
    ensures Run(k, m, moves)
            == if m.interrupts && Fires(moves) then m.(trace := m.trace + [AllDone], interrupts := false) else m
  {
    hide Step, Fires;
    if moves != [] {
      EndIsAnnouncedAgain(k, m, moves[..|moves| - 1]);
      StepAfterEnd(k, Run(k, m, moves[..|moves| - 1]), moves[|moves| - 1]);
      FiresLast(moves);
    } else {
      NoFiring();
    }
  }

  lemma NoFiring()
    ensures !Fires([])
  {
  }

  /** How often the end is announced. */
  function DoneLines(t: seq<Event>): nat {
    if t == [] then 0 else DoneLines(t[..|t| - 1]) + if t[|t| - 1].AllDone? then 1 else 0
  }

  lemma DoneAppend(t: seq<Event>, e: Event)
    ensures DoneLines(t + [e]) == DoneLines(t) + if e.AllDone? then 1 else 0
  {
    assert (t + [e])[..|t + [e]| - 1] == t;
  }

  /** This move is a thread's own call of the scheduler that finds nothing, with interrupts on. */
  predicate EndsItself(k: seq<nat>, m: Machine, move: Move)
    requires Shaped(k, m)
  {
    !m.halted && m.interrupts && move.Go? && Step(k, m, move).halted
  }

  /** Somewhere in this run such a call has been made. */
  predicate Ended(k: seq<nat>, moves: seq<Move>)
    requires |k| <= INFINIT
  {
    moves != [] &&
    (var front := moves[..|moves| - 1];
     Ended(k, front) || EndsItself(k, Run(k, Boot(k), front), moves[|moves| - 1]))
  }

  /** Such a call, and later a firing of the timer. */
  predicate EndedThenFired(k: seq<nat>, moves: seq<Move>)
    requires |k| <= INFINIT
  {
    moves != [] &&
    (var front := moves[..|moves| - 1];
     EndedThenFired(k, front) || (Ended(k, front) && moves[|moves| - 1].Timer?))
  }

  /** What one move does to the number of announcements. */
  lemma StepDoneLines(k: seq<nat>, m: Machine, move: Move)
    requires Inv(k, m)
    ensures var r := Step(k, m, move);
            && (!m.halted && !r.halted ==> DoneLines(r.trace) == DoneLines(m.trace))
            && (!m.halted && r.halted ==> DoneLines(r.trace) == DoneLines(m.trace) + 1
                                          && (r.interrupts <==> EndsItself(k, m, move)))
  {
    hide Scan, View, Only, Ready, DoneLines;
    if m.current >= 0 {
      DoneAppend(m.trace, Tag(m.current));
      DoneAppend(m.trace, Finish(m.current));
    }
    DoneAppend(m.trace, AllDone);
  }

  lemma HaltedNotReady(k: seq<nat>, m: Machine)
    requires Inv(k, m) && m.halted
    ensures forall i :: 0 <= i < |k| ==> !Ready(m.tcb[i])
  {
    hide Only, View;
    forall i | 0 <= i < |k| ensures !Ready(m.tcb[i]) {
      assert ThreadOk(k[i], m.locals[i], m.tcb[i]);
    }
  }

  /**
   * Over every run from the start the end is announced as often as this: never before the machine stops,
   * twice when a thread's own call has ended the run with interrupts on and the timer has fired since, and
   * once otherwise.
   */
  lemma {:induction false} AnnouncementsExact(k: seq<nat>, moves: seq<Move>)
    requires |k| <= INFINIT
    ensures var r := Run(k, Boot(k), moves);
            && DoneLines(r.trace) == (if !r.halted then 0 else if EndedThenFired(k, moves) then 2 else 1)
            && (!r.halted ==> !Ended(k, moves) && !EndedThenFired(k, moves))
            && (r.halted ==> (r.interrupts <==> Ended(k, moves) && !EndedThenFired(k, moves)))
  {
    hide Inv, Step, Boot, EndsItself, DoneLines;
    if moves == [] {
      BootQuiet(k);
    } else {
      var front, last := moves[..|moves| - 1], moves[|moves| - 1];
      AnnouncementsExact(k, front);
      BootInv(k);
      RunKeepsInv(k, Boot(k), front);
      var m := Run(k, Boot(k), front);
      if m.halted {
        HaltedNotReady(k, m);
        StepAfterEnd(k, m, last);
        DoneAppend(m.trace, AllDone);
        NotEndedAgain(k, m, last);
      } else {
        StepDoneLines(k, m, last);
        OnlyByHalting(k, m, last);
      }
    }
  }

  lemma BootQuiet(k: seq<nat>)
    requires |k| <= INFINIT
    ensures DoneLines(Boot(k).trace) == 0 && !Boot(k).halted
  {
  }

  lemma NotEndedAgain(k: seq<nat>, m: Machine, move: Move)
    requires Shaped(k, m) && m.halted
    ensures !EndsItself(k, m, move)
  {
  }

  lemma OnlyByHalting(k: seq<nat>, m: Machine, move: Move)
    requires Shaped(k, m)
    ensures EndsItself(k, m, move) ==> Step(k, m, move).halted
  {
  }

  const GO: Move := Go(true)
  const FIRE: Move := Timer(true)

  /** One thread that prints nothing: picked by the timer, it finishes, and the timer fires once more. */
  const LATE: seq<Move> := [FIRE, GO, GO, GO, GO, GO, FIRE]

  /** The machine after j of these moves. */
  function LateMachine(j: nat): Machine
    requires j <= 7
  {
    var tcb := [if j < 4 then Tcb(0, 0, 1) else if j == 4 then Tcb(0, 1, 1) else Tcb(0, 1, 0)];
    var pc := if j <= 1 then Test else if j == 2 then Say else if j == 3 then MarkFinished
              else if j == 4 then MarkFree else if j == 5 then Enter else Gone;
    var trace := if j < 3 then [] else if j < 6 then [Finish(0)]
                 else if j == 6 then [Finish(0), AllDone] else [Finish(0), AllDone, AllDone];
    Machine(tcb, [Local(pc, 0)], if j == 0 then -1 else 0, j < 7, j >= 6, trace)
  }

  lemma LateStep(j: nat)
    requires j < 7
    ensures Shaped([0], LateMachine(j)) && Step([0], LateMachine(j), LATE[j]) == LateMachine(j + 1)
  {
    var m := LateMachine(j);
    ScanFindsNext(m.tcb, m.current);
    hide Scan;
  }

  lemma {:induction false} LateRun(j: nat)
    requires j <= 7
    ensures Run([0], Boot([0]), LATE[..j]) == LateMachine(j)
  {
    hide Step;
    if j == 0 {
      assert Boot([0]) == LateMachine(0);
    } else {
      hide LateMachine;
      LateRun(j - 1);
      LateStep(j - 1);
      assert LATE[..j][..j - 1] == LATE[..j - 1] && LATE[..j][j - 1] == LATE[j - 1];
    }
  }

  /** So there are runs that announce the end twice. */
  lemma AnnouncedTwice()
    ensures var r := Run([0], Boot([0]), LATE);
            r.halted && r.trace == [Finish(0), AllDone, AllDone] && DoneLines(r.trace) == 2
  {
    LateRun(7);
    assert LATE[..7] == LATE;
    hide Step, Run;
    DoneAppend([], Finish(0));
    DoneAppend([Finish(0)], AllDone);
    DoneAppend([Finish(0), AllDone], AllDone);
    assert [Finish(0), AllDone, AllDone] == [] + [Finish(0)] + [AllDone] + [AllDone];
  }

  /** The kernel's variables, changed in place by the timer's handler and by the threads' code. */
  class Kernel {
    const budgets: seq<nat>
    const table: Table
    const locals: array<Local>
    var interrupts: bool
    var halted: bool
    var trace: seq<Event>

    ghost predicate Valid()
      reads this, table, table.tcb, locals
    {
      table.Valid() && table.tcb.Length == locals.Length == |budgets|
    }

    ghost function State(): Machine
      reads this, table, table.tcb, locals
    {
      Machine(table.tcb[..], locals[..], table.current, interrupts, halted, trace)
    }

    /** init, from the table's initialisation to sti. */
    constructor (k: seq<nat>)
      requires |k| <= INFINIT
      ensures Valid() && fresh(table) && fresh(table.tcb) && fresh(locals) && budgets == k
      ensures State() == Boot(k)
    {
      var tab := new Table(|k|);
      budgets, table := k, tab;
      locals := new Local[|k|](i requires 0 <= i < |k| => Local(Test, k[i]));
      interrupts, halted, trace := false, false, [];
      new;
      var i := 0;
      while i < |k|
        invariant 0 <= i <= |k|
        invariant Valid() && table.current == -1 && trace == [] && !halted
        invariant locals[..] == Boot(k).locals
        invariant forall t :: 0 <= t < i ==> table.tcb[t] == Tcb(t, 0, 1)
        invariant forall t :: i <= t < |k| ==> table.tcb[t].inUse == 0
      {
        ghost var before := table.tcb[..];
        var ok := table.ThreadCreate();
        assert before[i].inUse == 0;
        ghost var id :| 0 <= id < |k| && Created(before, table.tcb[..], id);
        assert id == i;
        i := i + 1;
      }
      interrupts := true;
    }

    /** scheduler, with the switch. */
    method Scheduler(inHandler: bool, on: bool)
      requires Valid()
      modifies this, table
      ensures Valid() && State() == Switch(old(State()), inHandler, on)
    {
      var nextThread := table.Pick();
      if nextThread == INFINIT {
        trace := trace + [AllDone];
        halted := true;
        interrupts := interrupts && !inHandler;
      } else {
        interrupts := on;
      }
    }

    /** The timer's handler, if its interrupt is let through. */
    method Fire(on: bool)
      requires Valid()
      modifies this, table
      ensures Valid() && State() == Step(budgets, old(State()), Timer(on))
    {
      if interrupts {
        Scheduler(true, on);
      }
    }

    /** One instruction of the current thread. */
    method Execute(on: bool)
      requires Valid() && !halted && table.current >= 0
      modifies this, table, table.tcb, locals
      ensures Valid() && State() == Step(budgets, old(State()), Go(on))
    {
      hide Scan, Slot;
      var c: nat := table.current;
      var times := locals[c].times;
      match locals[c].pc
      case Test =>
        locals[c] := Local(if 1 <= times <= budgets[c] then Cli else Say, times);
      case Cli =>
        interrupts := false;
        locals[c] := Local(Print, times);
      case Print =>
        trace := trace + [Tag(c)];
        locals[c] := Local(Decrement, times);
      case Decrement =>
        locals[c] := Local(Sti, if times > 0 then times - 1 else 0);
      case Sti =>
        interrupts := true;
        locals[c] := Local(Test, times);
      case Say =>
        trace := trace + [Finish(c)];
        locals[c] := Local(MarkFinished, times);
      case MarkFinished =>
        table.tcb[c] := table.tcb[c].(finished := 1);
        locals[c] := Local(MarkFree, times);
      case MarkFree =>
        table.tcb[c] := table.tcb[c].(inUse := 0);
        locals[c] := Local(Enter, times);
      case Enter =>
        locals[c] := Local(Gone, times);
        Scheduler(false, on);
      case Gone =>
    }
  }

  /** The system from init on, under the given moves: what it writes and whether it has stopped. */
  method Simulate(k: seq<nat>, moves: seq<Move>) returns (trace: seq<Event>, halted: bool)
    requires |k| <= INFINIT
    ensures trace == Run(k, Boot(k), moves).trace && halted == Run(k, Boot(k), moves).halted
    ensures forall i :: 0 <= i < |k| ==> Only(trace, i) <= Tags(i, k[i]) + [Finish(i)]
    ensures halted ==> forall i :: 0 <= i < |k| ==> Only(trace, i) == Only(Schedule(k), i)
  {
    hide Step, Boot, Schedule, Only;
    var kernel := new Kernel(k);
    var j := 0;
    while j < |moves|
      invariant 0 <= j <= |moves| && kernel.Valid() && kernel.budgets == k
      invariant fresh(kernel) && fresh(kernel.table) && fresh(kernel.table.tcb) && fresh(kernel.locals)
      invariant kernel.State() == Run(k, Boot(k), moves[..j])
    {
      ghost var before := kernel.State();
      if moves[j].Timer? {
        kernel.Fire(moves[j].on);
      } else if !kernel.halted && kernel.table.current >= 0 {
        kernel.Execute(moves[j].on);
      } else {
        NoStep(k, before, moves[j]);
      }
      assert kernel.State() == Step(k, before, moves[j]);
      assert moves[..j + 1][..j] == moves[..j];
      j := j + 1;
    }
    assert moves[..|moves|] == moves;
    trace, halted := kernel.trace, kernel.halted;
    forall i | 0 <= i < |k|
      ensures Only(trace, i) <= Tags(i, k[i]) + [Finish(i)]
      ensures halted ==> Only(trace, i) == Only(Schedule(k), i)
    {
      EachThreadsOutput(k, kernel.State(), i);
    }
  }

  lemma NoStep(k: seq<nat>, m: Machine, move: Move)
    requires Shaped(k, m) && move.Go? && (m.halted || m.current < 0)
    ensures Step(k, m, move) == m
  {
  }
}
