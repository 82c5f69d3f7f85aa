/** switch_to: saving a thread's registers on its stack and loading another's, and the frames threads start from. */
module ContextSwitch {

  type Half = bv16

  /** A 32-bit value as the two halfwords it occupies. */
  datatype Word = Word(hi: Half, lo: Half)

  /** esp counts halfwords; eip is where the thread goes on when it is next resumed. */
  datatype Regs = Regs(eax: Word, ecx: Word, edx: Word, ebx: Word, ebp: Word, esi: Word, edi: Word, flags: Word,
                       ds: Half, es: Half, fs: Half, gs: Half, esp: nat, eip: Word)

  /** Memory as halfwords, the registers, and the stackPointer field of every thread's control block. */
  datatype Cpu = Cpu(mem: seq<Half>, regs: Regs, saved: seq<nat>)

  /** Halfwords in a saved frame: four segments, eight general registers, the flags, the return address. */
  const FRAME: nat := 24

  function PushW(c: Cpu, v: Half): (r: Cpu)
    requires 1 <= c.regs.esp <= |c.mem|
    ensures |r.mem| == |c.mem| && r.saved == c.saved
    ensures r.regs == c.regs.(esp := c.regs.esp - 1)
  {
    c.(mem := c.mem[c.regs.esp - 1 := v], regs := c.regs.(esp := c.regs.esp - 1))
  }

  function PushL(c: Cpu, w: Word): (r: Cpu)
    requires 2 <= c.regs.esp <= |c.mem|
    ensures |r.mem| == |c.mem| && r.saved == c.saved
    ensures r.regs == c.regs.(esp := c.regs.esp - 2)
  {
    PushW(PushW(c, w.hi), w.lo)
  }

  /** The halfword at distance d from the top of the stack, and the word there. */
  function HalfAt(c: Cpu, d: nat): Half
    requires c.regs.esp + d < |c.mem|
  {
    c.mem[c.regs.esp + d]
  }

  function WordAt(c: Cpu, d: nat): Word
    requires c.regs.esp + d + 1 < |c.mem|
  {
    Word(c.mem[c.regs.esp + d + 1], c.mem[c.regs.esp + d])
  }

  function Drop(c: Cpu, d: nat): Cpu {
    c.(regs := c.regs.(esp := c.regs.esp + d))
  }

  /** The value that pushal stores in its slot for esp; popal skips it. */
  function TempEsp(esp: nat): Word {
    Word((2 * esp / 0x10000 % 0x10000) as Half, (2 * esp % 0x10000) as Half)
  }

  /** Pushes of several words, the first one first. */
  function PushList(c: Cpu, ws: seq<Word>): (s: Cpu)
    requires 2 * |ws| <= c.regs.esp <= |c.mem|
    ensures |s.mem| == |c.mem| && s.saved == c.saved && s.regs == c.regs.(esp := c.regs.esp - 2 * |ws|)
  {
    if ws == [] then c else PushL(PushList(c, ws[..|ws| - 1]), ws[|ws| - 1])
  }

  function General(r: Regs): seq<Word> {
    [r.eax, r.ecx, r.edx, r.ebx, TempEsp(r.esp), r.ebp, r.esi, r.edi]
  }

  function PushAll(c: Cpu): (s: Cpu)
    requires 16 <= c.regs.esp <= |c.mem|
    ensures |s.mem| == |c.mem| && s.saved == c.saved && s.regs == c.regs.(esp := c.regs.esp - 16)
  {
    PushList(c, General(c.regs))
  }

  function PushSegments(c: Cpu): (s: Cpu)
    requires 4 <= c.regs.esp <= |c.mem|
    ensures |s.mem| == |c.mem| && s.saved == c.saved && s.regs == c.regs.(esp := c.regs.esp - 4)
  {
    var r := c.regs;
    PushW(PushW(PushW(PushW(c, r.ds), r.es), r.fs), r.gs)
  }

  /** call switch_to, and the pushes of its saving half. */
  function Save(c: Cpu): (s: Cpu)
    requires FRAME <= c.regs.esp <= |c.mem|
    ensures |s.mem| == |c.mem| && s.saved == c.saved && s.regs == c.regs.(esp := c.regs.esp - FRAME)
  {
    PushSegments(PushAll(PushL(PushL(c, c.regs.eip), c.regs.flags)))
  }

  function PopSegments(c: Cpu): (s: Cpu)
    requires c.regs.esp + 4 <= |c.mem|
    ensures s.mem == c.mem && s.saved == c.saved && s.regs.esp == c.regs.esp + 4
  {
    Drop(c.(regs := c.regs.(gs := HalfAt(c, 0), fs := HalfAt(c, 1), es := HalfAt(c, 2), ds := HalfAt(c, 3))), 4)
  }

  function PopAll(c: Cpu): (s: Cpu)
    requires c.regs.esp + 16 <= |c.mem|
    ensures s.mem == c.mem && s.saved == c.saved && s.regs.esp == c.regs.esp + 16
  {
    Drop(c.(regs := c.regs.(edi := WordAt(c, 0), esi := WordAt(c, 2), ebp := WordAt(c, 4), ebx := WordAt(c, 8),
                            edx := WordAt(c, 10), ecx := WordAt(c, 12), eax := WordAt(c, 14))), 16)
  }

  function PopFlags(c: Cpu): Cpu
    requires c.regs.esp + 2 <= |c.mem|
  {
    Drop(c.(regs := c.regs.(flags := WordAt(c, 0))), 2)
  }

  function Ret(c: Cpu): Cpu
    requires c.regs.esp + 2 <= |c.mem|
  {
    Drop(c.(regs := c.regs.(eip := WordAt(c, 0))), 2)
  }

  /** The restoring half, from the stack pointer of thread b. */
  function Restore(c: Cpu, b: nat): Cpu
    requires b < |c.saved| && c.saved[b] + FRAME <= |c.mem|
  {
    Ret(PopFlags(PopAll(PopSegments(c.(regs := c.regs.(esp := c.saved[b]))))))
  }

  /** The call and its saving half, which a null first argument skips. */
  function Leave(c: Cpu, a: int): (s: Cpu)
    requires -1 <= a < |c.saved| && FRAME <= c.regs.esp <= |c.mem|
    ensures |s.mem| == |c.mem|
    ensures s.saved == if a < 0 then c.saved else c.saved[a := c.regs.esp - FRAME]
  {
    if a < 0 then PushL(c, c.regs.eip)
    else
      var s := Save(c);
      s.(saved := s.saved[a := s.regs.esp])
  }

  /** The call: thread a is saved, unless there is none (a null pointer, here -1), and thread b restored. */
  function SwitchTo(c: Cpu, a: int, b: nat): Cpu
    requires -1 <= a < |c.saved| && b < |c.saved|
    requires FRAME <= c.regs.esp <= |c.mem| && (b != a ==> c.saved[b] + FRAME <= |c.mem|)
  {
    Restore(Leave(c, a), b)
  }

  /** The word w at p, the low halfword first. */
  ghost predicate WordIs(mem: seq<Half>, p: nat, w: Word) {
    p + 2 <= |mem| && mem[p] == w.lo && mem[p + 1] == w.hi
  }

  /** The general registers in the order pushal leaves them. */
  ghost predicate HoldsAll(mem: seq<Half>, p: nat, r: Regs) {
    && WordIs(mem, p, r.edi) && WordIs(mem, p + 2, r.esi) && WordIs(mem, p + 4, r.ebp) && WordIs(mem, p + 8, r.ebx)
    && WordIs(mem, p + 10, r.edx) && WordIs(mem, p + 12, r.ecx) && WordIs(mem, p + 14, r.eax)
  }

  /** A frame at p that restores to the registers r. */
  ghost predicate Holds(mem: seq<Half>, p: nat, r: Regs) {
    && p + FRAME <= |mem| && r.esp == p + FRAME
    && mem[p] == r.gs && mem[p + 1] == r.fs && mem[p + 2] == r.es && mem[p + 3] == r.ds
    && HoldsAll(mem, p + 4, r) && WordIs(mem, p + 20, r.flags) && WordIs(mem, p + 22, r.eip)
  }

  /** Everything but the halfwords from lo to hi is as it was. */
  ghost predicate Elsewhere(before: seq<Half>, after: seq<Half>, lo: int, hi: int) {
    |after| == |before| && forall h :: 0 <= h < |before| && !(lo <= h < hi) ==> after[h] == before[h]
  }

  lemma PushLFacts(c: Cpu, w: Word)
    requires 2 <= c.regs.esp <= |c.mem|
    ensures var s := PushL(c, w); var p := c.regs.esp - 2;
            WordIs(s.mem, p, w) && Elsewhere(c.mem, s.mem, p, p + 2)
  {
  }

  lemma {:induction false} PushListFacts(c: Cpu, ws: seq<Word>)
    requires 2 * |ws| <= c.regs.esp <= |c.mem|
    ensures var s := PushList(c, ws);
            && Elsewhere(c.mem, s.mem, c.regs.esp - 2 * |ws|, c.regs.esp)
            && forall j :: 0 <= j < |ws| ==> WordIs(s.mem, c.regs.esp - 2 * (j + 1), ws[j])
  {
    hide PushL;
    if ws != [] {
      var front := ws[..|ws| - 1];
      PushListFacts(c, front);
      var m := PushList(c, front);
      PushLFacts(m, ws[|ws| - 1]);
      forall j | 0 <= j < |front|
        ensures WordIs(PushList(c, ws).mem, c.regs.esp - 2 * (j + 1), ws[j])
      {
        assert WordIs(m.mem, c.regs.esp - 2 * (j + 1), front[j]);
      }
    }
  }

  lemma PushAllFacts(c: Cpu)
    requires 16 <= c.regs.esp <= |c.mem|
    ensures HoldsAll(PushAll(c).mem, c.regs.esp - 16, c.regs)
    ensures Elsewhere(c.mem, PushAll(c).mem, c.regs.esp - 16, c.regs.esp)
  {
    hide PushL, PushList, WordIs;
    var ws, e := General(c.regs), c.regs.esp;
    PushListFacts(c, ws);
    var mem := PushAll(c).mem;
    assert WordIs(mem, e - 2 * (7 + 1), ws[7]) && WordIs(mem, e - 2 * (6 + 1), ws[6]);
    assert WordIs(mem, e - 2 * (5 + 1), ws[5]) && WordIs(mem, e - 2 * (3 + 1), ws[3]);
    assert WordIs(mem, e - 2 * (2 + 1), ws[2]) && WordIs(mem, e - 2 * (1 + 1), ws[1]);
    assert WordIs(mem, e - 2 * (0 + 1), ws[0]);
  }

  lemma PushSegmentsFacts(c: Cpu)
    requires 4 <= c.regs.esp <= |c.mem|
    ensures var s := PushSegments(c); var p := c.regs.esp - 4;
            && Elsewhere(c.mem, s.mem, p, p + 4)
            && s.mem[p] == c.regs.gs && s.mem[p + 1] == c.regs.fs
            && s.mem[p + 2] == c.regs.es && s.mem[p + 3] == c.regs.ds
  {
  }

  lemma HoldsAllKept(before: seq<Half>, after: seq<Half>, lo: int, hi: int, p: nat, r: Regs)
    requires HoldsAll(before, p, r) && Elsewhere(before, after, lo, hi) && (hi <= p || p + 16 <= lo)
    ensures HoldsAll(after, p, r)
  {
  }

  /** Saving leaves a frame for the registers it was called with, and changes nothing but the frame. */
  lemma SaveFacts(c: Cpu)
    requires FRAME <= c.regs.esp <= |c.mem|
    ensures var s := Save(c);
            && s.saved == c.saved && s.regs == c.regs.(esp := c.regs.esp - FRAME)
            && Elsewhere(c.mem, s.mem, s.regs.esp, c.regs.esp) && Holds(s.mem, s.regs.esp, c.regs)
  {
    hide PushW, PushL, PushAll, PushSegments, HoldsAll;
    var c1 := PushL(c, c.regs.eip);
    var c2 := PushL(c1, c.regs.flags);
    PushLFacts(c, c.regs.eip);
    PushLFacts(c1, c.regs.flags);
    PushAllFacts(c2);
    var c3 := PushAll(c2);
    PushSegmentsFacts(c3);
    var s := PushSegments(c3);
    HoldsAllKept(c3.mem, s.mem, s.regs.esp, c3.regs.esp, c3.regs.esp, c2.regs);
    HoldsAllSame(s.mem, c3.regs.esp, c2.regs, c.regs);
  }

  lemma HoldsAllSame(mem: seq<Half>, p: nat, r: Regs, r': Regs)
    requires HoldsAll(mem, p, r) && r' == r.(esp := r'.esp)
    ensures HoldsAll(mem, p, r')
  {
  }

  /** Restoring a frame gives back its registers, every one of them, and writes no memory. */
  lemma RestoreFacts(c: Cpu, b: nat, r: Regs)
    requires b < |c.saved| && Holds(c.mem, c.saved[b], r)
    ensures Restore(c, b) == c.(regs := r)
  {
  }

  /** The halfwords from lo to hi that one stack may use. */
  datatype Stack = Stack(lo: nat, hi: nat)

  /** The processor and the thread it runs; the number after the last thread's is the boot code. */
  datatype Config = Config(cpu: Cpu, current: nat)

  /** A thread computes on its own stack and outside all stacks, or switches to thread b. */
  datatype Act = Compute(mem: seq<Half>, regs: Regs) | Switch(b: nat)

  /** Disjoint stacks, the running one holding esp, every other thread's holding its saved frame. */
  ghost predicate Legal(stacks: seq<Stack>, g: Config) {
    && |stacks| == |g.cpu.saved| + 1 && g.current < |stacks|
    && (forall s :: 0 <= s < |stacks| ==> stacks[s].lo <= stacks[s].hi <= |g.cpu.mem|)
    && (forall s, t :: 0 <= s < t < |stacks| ==> stacks[s].hi <= stacks[t].lo || stacks[t].hi <= stacks[s].lo)
    && stacks[g.current].lo <= g.cpu.regs.esp <= stacks[g.current].hi
    && (forall t :: 0 <= t < |g.cpu.saved| && t != g.current ==>
          stacks[t].lo <= g.cpu.saved[t] && g.cpu.saved[t] + FRAME <= stacks[t].hi)
  }

  /** No halfword of another stack differs. */
  ghost predicate OwnStackOnly(stacks: seq<Stack>, me: nat, before: seq<Half>, after: seq<Half>) {
    && |after| == |before|
    && forall t, h :: 0 <= t < |stacks| && t != me && stacks[t].lo <= h < stacks[t].hi && h < |before|
                      ==> after[h] == before[h]
  }

  /** A thread that switches has room for the return address and the frame on its own stack. */
  ghost predicate Enabled(stacks: seq<Stack>, g: Config, act: Act)
    requires Legal(stacks, g)
  {
    match act
    case Compute(mem, regs) =>
      OwnStackOnly(stacks, g.current, g.cpu.mem, mem)
      && stacks[g.current].lo <= regs.esp <= stacks[g.current].hi
    case Switch(b) =>
      b < |g.cpu.saved| && stacks[g.current].lo + FRAME <= g.cpu.regs.esp
  }

  ghost function Do(stacks: seq<Stack>, g: Config, act: Act): Config
    requires Legal(stacks, g) && Enabled(stacks, g, act)
  {
    match act
    case Compute(mem, regs) => Config(g.cpu.(mem := mem, regs := regs), g.current)
    case Switch(b) =>
      Config(SwitchTo(g.cpu, if g.current < |g.cpu.saved| then g.current else -1, b), b)
  }

  /** What a switch from c to s does in all, whoever is saved and whoever goes on. */
  ghost predicate Switched(c: Cpu, s: Cpu, a: int, b: nat)
    requires -1 <= a < |c.saved| && b < |c.saved| && FRAME <= c.regs.esp
  {
    && Elsewhere(c.mem, s.mem, c.regs.esp - FRAME, c.regs.esp)
    && s.saved == (if a < 0 then c.saved else c.saved[a := c.regs.esp - FRAME])
    && (a >= 0 ==> Holds(s.mem, c.regs.esp - FRAME, c.regs))
    && s.regs.esp == s.saved[b] + FRAME
    && forall r :: Holds(s.mem, s.saved[b], r) ==> s.regs == r
  }

  lemma SwitchFacts(c: Cpu, a: int, b: nat)
    requires -1 <= a < |c.saved| && b < |c.saved|
    requires FRAME <= c.regs.esp <= |c.mem| && (b != a ==> c.saved[b] + FRAME <= |c.mem|)
    ensures Switched(c, SwitchTo(c, a, b), a, b)
  {
    hide Save, Holds, Restore, PushL;
    SaveFacts(c);
    PushLFacts(c, c.regs.eip);
    var s := SwitchTo(c, a, b);
    var m := Leave(c, a);
    RestoreKeeps(m, b);
    forall r | Holds(s.mem, s.saved[b], r)
      ensures s.regs == r
    {
      RestoreFacts(m, b, r);
    }
  }

  lemma RestoreKeeps(c: Cpu, b: nat)
    requires b < |c.saved| && c.saved[b] + FRAME <= |c.mem|
    ensures Restore(c, b) == c.(regs := Restore(c, b).regs) && Restore(c, b).regs.esp == c.saved[b] + FRAME
  {
  }

  lemma DoKeepsLegal(stacks: seq<Stack>, g: Config, act: Act)
    requires Legal(stacks, g) && Enabled(stacks, g, act)
    ensures Legal(stacks, Do(stacks, g, act))
  {
    hide SwitchTo, Holds;
    if act.Switch? {
      SwitchFacts(g.cpu, if g.current < |g.cpu.saved| then g.current else -1, act.b);
    }
  }

  /** Thread a is off the processor, with a frame for r and the stack above it as in mem. */
  ghost predicate Parked(stacks: seq<Stack>, g: Config, a: nat, r: Regs, mem: seq<Half>) {
    && a < |g.cpu.saved| < |stacks| && g.current != a && |mem| == |g.cpu.mem| && r.esp <= stacks[a].hi
    && Holds(g.cpu.mem, g.cpu.saved[a], r)
    && forall h :: r.esp <= h < stacks[a].hi && h < |mem| ==> g.cpu.mem[h] == mem[h]
  }

  /** Nothing that other threads do, computing or switching among themselves, touches a parked thread. */
  lemma DoKeepsParked(stacks: seq<Stack>, g: Config, act: Act, a: nat, r: Regs, mem: seq<Half>)
    requires Legal(stacks, g) && Enabled(stacks, g, act) && act != Switch(a)
    requires Parked(stacks, g, a, r, mem)
    ensures Parked(stacks, Do(stacks, g, act), a, r, mem)
  {
    hide SwitchTo, Holds;
    if act.Switch? {
      SwitchFacts(g.cpu, if g.current < |g.cpu.saved| then g.current else -1, act.b);
    }
    var after := Do(stacks, g, act).cpu.mem;
    assert OwnStackOnly(stacks, g.current, g.cpu.mem, after);
    FrameKept(g.cpu.mem, after, stacks[a].lo, stacks[a].hi, g.cpu.saved[a], r);
  }

  lemma FrameKept(before: seq<Half>, after: seq<Half>, lo: nat, hi: nat, p: nat, r: Regs)
    requires Holds(before, p, r) && |after| == |before| && lo <= p && p + FRAME <= hi
    requires forall h :: lo <= h < hi && h < |before| ==> after[h] == before[h]
    ensures Holds(after, p, r)
  {
  }

  /** Every act can happen when its turn comes. */
  ghost predicate Possible(stacks: seq<Stack>, g: Config, acts: seq<Act>)
    requires Legal(stacks, g)
    decreases |acts|
  {
    acts == [] ||
    (Enabled(stacks, g, acts[0]) &&
     (DoKeepsLegal(stacks, g, acts[0]); Possible(stacks, Do(stacks, g, acts[0]), acts[1..])))
  }

  ghost function Run(stacks: seq<Stack>, g: Config, acts: seq<Act>): Config
    requires Legal(stacks, g) && Possible(stacks, g, acts)
    decreases |acts|
  {
    if acts == [] then g
    else
      DoKeepsLegal(stacks, g, acts[0]);
      Run(stacks, Do(stacks, g, acts[0]), acts[1..])
  }

  /** A parked thread that is switched to at last has its registers and the stack above them back. */
  lemma {:induction false} ParkedComesBack(stacks: seq<Stack>, g: Config, acts: seq<Act>, a: nat, r: Regs, mem: seq<Half>)
    requires Legal(stacks, g) && Possible(stacks, g, acts) && Parked(stacks, g, a, r, mem)
    requires acts != [] && acts[|acts| - 1] == Switch(a)
    requires forall i :: 0 <= i < |acts| - 1 ==> acts[i] != Switch(a)
    ensures var e := Run(stacks, g, acts);
            e.current == a && e.cpu.regs == r && |e.cpu.mem| == |mem|
            && forall h :: r.esp <= h < stacks[a].hi && h < |mem| ==> e.cpu.mem[h] == mem[h]
    decreases |acts|
  {
    hide SwitchTo, Holds;
    DoKeepsLegal(stacks, g, acts[0]);
    if |acts| == 1 {
      LastSwitch(stacks, g, a, r, mem);
      assert acts[1..] == [];
    } else {
      DoKeepsParked(stacks, g, acts[0], a, r, mem);
      ParkedComesBack(stacks, Do(stacks, g, acts[0]), acts[1..], a, r, mem);
    }
  }

  lemma LastSwitch(stacks: seq<Stack>, g: Config, a: nat, r: Regs, mem: seq<Half>)
    requires Legal(stacks, g) && Enabled(stacks, g, Switch(a)) && Parked(stacks, g, a, r, mem)
    ensures var e := Do(stacks, g, Switch(a));
            e.current == a && e.cpu.regs == r && |e.cpu.mem| == |mem|
            && forall h :: r.esp <= h < stacks[a].hi && h < |mem| ==> e.cpu.mem[h] == mem[h]
  {
    hide SwitchTo, Holds;
    var who := if g.current < |g.cpu.saved| then g.current else -1;
    SwitchFacts(g.cpu, who, a);
    var after := Do(stacks, g, Switch(a)).cpu.mem;
    FrameKept(g.cpu.mem, after, stacks[a].lo, stacks[a].hi, g.cpu.saved[a], r);
  }

  /**
   * A switch away from the running thread, anything the others do, and a switch back: all registers, the
   * flags, the segments, the return address and the whole of the thread's stack are as before the call.
   * One act that switches to the running thread itself is the case without others.
   */
  lemma SwitchBackRestores(stacks: seq<Stack>, g: Config, acts: seq<Act>)
    requires Legal(stacks, g) && Possible(stacks, g, acts) && g.current < |g.cpu.saved|
    requires acts != [] && acts[0].Switch? && acts[|acts| - 1] == Switch(g.current)
    requires forall i :: 0 <= i < |acts| - 1 ==> acts[i] != Switch(g.current)
    ensures var e := Run(stacks, g, acts);
            e.current == g.current && e.cpu.regs == g.cpu.regs && |e.cpu.mem| == |g.cpu.mem|
            && e.cpu.mem[g.cpu.regs.esp..stacks[g.current].hi] == g.cpu.mem[g.cpu.regs.esp..stacks[g.current].hi]
  {
    hide SwitchTo, Holds, HoldsAll;
    var a := g.current;
    var g1 := Do(stacks, g, acts[0]);
    DoKeepsLegal(stacks, g, acts[0]);
    SwitchFacts(g.cpu, a, acts[0].b);
    if |acts| == 1 {
      assert acts[1..] == [];
    } else {
      assert Parked(stacks, g1, a, g.cpu.regs, g.cpu.mem);
      ParkedComesBack(stacks, g1, acts[1..], a, g.cpu.regs, g.cpu.mem);
    }
  }

  const ZERO: Word := Word(0, 0)
  const DATA: Half := 0x10

  /** The registers with which a created thread is to start: at its function, with nothing on its stack. */
  function StartRegs(stack: nat, entry: Word, flags: Word, ds: Half): Regs {
    Regs(ZERO, ZERO, ZERO, ZERO, ZERO, ZERO, ZERO, flags, ds, DATA, DATA, DATA, stack + 2, entry)
  }

  /** threadCreate's frame, whose stackPointer is 11 words below the word at stack. */
  ghost predicate Fabricated(before: seq<Half>, after: seq<Half>, stack: nat, entry: Word, flags: Word, ds: Half)
    requires FRAME <= stack
  {
    Elsewhere(before, after, stack - 23, stack + 2) && Holds(after, stack - 22, StartRegs(stack, entry, flags, ds))
  }

  /**
   * However the others run first, the first switch to a created thread starts it at its function, with the
   * given flags, zeroed general registers and an empty stack. Its data segment is right exactly when the
   * frame's is.
   */
  lemma FirstRun(stacks: seq<Stack>, g: Config, acts: seq<Act>, a: nat,
                 before: seq<Half>, stack: nat, entry: Word, flags: Word, ds: Half)
    requires Legal(stacks, g) && Possible(stacks, g, acts) && a < |g.cpu.saved| && g.current != a
    requires acts != [] && acts[|acts| - 1] == Switch(a)
    requires forall i :: 0 <= i < |acts| - 1 ==> acts[i] != Switch(a)
    requires FRAME <= stack && Fabricated(before, g.cpu.mem, stack, entry, flags, ds)
    requires g.cpu.saved[a] == stack - 22
    ensures Run(stacks, g, acts).cpu.regs == StartRegs(stack, entry, flags, ds)
    ensures Run(stacks, g, acts).cpu.regs == StartRegs(stack, entry, flags, DATA) <==> ds == DATA
  {
    hide Holds, Legal, Possible, Run, Parked;
    CreatedIsParked(stacks, g, a, before, stack, entry, flags, ds);
    ParkedComesBack(stacks, g, acts, a, StartRegs(stack, entry, flags, ds), g.cpu.mem);
  }

  lemma CreatedIsParked(stacks: seq<Stack>, g: Config, a: nat,
                        before: seq<Half>, stack: nat, entry: Word, flags: Word, ds: Half)
    requires Legal(stacks, g) && a < |g.cpu.saved| && g.current != a
    requires FRAME <= stack && Fabricated(before, g.cpu.mem, stack, entry, flags, ds)
    requires g.cpu.saved[a] == stack - 22
    ensures Parked(stacks, g, a, StartRegs(stack, entry, flags, ds), g.cpu.mem)
  {
    hide HoldsAll;
  }

  method StoreWord(mem: array<Half>, p: nat, w: Word)
    requires p + 2 <= mem.Length
    modifies mem
    ensures WordIs(mem[..], p, w) && Elsewhere(old(mem[..]), mem[..], p, p + 2)
  {
    mem[p] := w.lo;
    mem[p + 1] := w.hi;
  }

  /** The stores that both versions of threadCreate make for the return address, the flags and pushal's words. */
  method StoreWords(mem: array<Half>, stack: nat, entry: Word, flags: Word)
    requires FRAME <= stack <= mem.Length - 2
    modifies mem
    ensures Elsewhere(old(mem[..]), mem[..], stack - 18, stack + 2)
    ensures WordIs(mem[..], stack, entry) && WordIs(mem[..], stack - 2, flags)
    ensures forall d: nat :: 2 <= d <= 9 ==> WordIs(mem[..], stack - 2 * d, ZERO)
  {
    StoreWord(mem, stack, entry);
    StoreWord(mem, stack - 2, flags);
    var d := 2;
    while d < 10
      invariant 2 <= d <= 10
      invariant Elsewhere(old(mem[..]), mem[..], stack - 2 * d + 2, stack + 2)
      invariant WordIs(mem[..], stack, entry) && WordIs(mem[..], stack - 2, flags)
      invariant forall e: nat :: 2 <= e < d ==> WordIs(mem[..], stack - 2 * e, ZERO)
    {
      StoreWord(mem, stack - 2 * d, ZERO);
      d := d + 1;
    }
  }

  /**
   * threadCreate as written: its segment stores are one halfword too low, so the slot that ds is loaded
   * from keeps what was there, and the halfword below the frame is overwritten.
   */
  method FabricateAsWritten(mem: array<Half>, stack: nat, entry: Word, flags: Word)
    requires FRAME <= stack <= mem.Length - 2
    modifies mem
    ensures Fabricated(old(mem[..]), mem[..], stack, entry, flags, old(mem[stack - 19]))
    ensures mem[stack - 23] == DATA
  {
    StoreWords(mem, stack, entry, flags);
    ghost var words := mem[..];
    mem[stack - 20] := DATA;
    mem[stack - 21] := DATA;
    mem[stack - 22] := DATA;
    mem[stack - 23] := DATA;
    WordsMakeFrame(words, mem[..], stack, entry, flags, mem[stack - 19]);
  }

  /** threadCreate repaired: the segment stores are the halfwords just below pushal's words. */
  method Fabricate(mem: array<Half>, stack: nat, entry: Word, flags: Word)
    requires FRAME <= stack <= mem.Length - 2
    modifies mem
    ensures Fabricated(old(mem[..]), mem[..], stack, entry, flags, DATA)
    ensures mem[stack - 23] == old(mem[stack - 23])
  {
    StoreWords(mem, stack, entry, flags);
    ghost var words := mem[..];
    mem[stack - 19] := DATA;
    mem[stack - 20] := DATA;
    mem[stack - 21] := DATA;
    mem[stack - 22] := DATA;
    WordsMakeFrame(words, mem[..], stack, entry, flags, DATA);
  }

  lemma WordsMakeFrame(words: seq<Half>, mem: seq<Half>, stack: nat, entry: Word, flags: Word, ds: Half)
    requires FRAME <= stack <= |mem| - 2 && Elsewhere(words, mem, stack - 23, stack - 18)
    requires WordIs(words, stack, entry) && WordIs(words, stack - 2, flags)
    requires forall d: nat :: 2 <= d <= 9 ==> WordIs(words, stack - 2 * d, ZERO)
    requires mem[stack - 19] == ds
    requires mem[stack - 20] == mem[stack - 21] == mem[stack - 22] == DATA
    ensures Holds(mem, stack - 22, StartRegs(stack, entry, flags, ds))
  {
    forall d: nat | 2 <= d <= 9
      ensures WordIs(mem, stack - 2 * d, ZERO)
    {
      assert WordIs(words, stack - 2 * d, ZERO);
    }
    assert WordIs(mem, stack - 2 * 9, ZERO) && WordIs(mem, stack - 2 * 8, ZERO) && WordIs(mem, stack - 2 * 7, ZERO);
    assert WordIs(mem, stack - 2 * 5, ZERO) && WordIs(mem, stack - 2 * 4, ZERO) && WordIs(mem, stack - 2 * 3, ZERO);
    assert WordIs(mem, stack - 2 * 2, ZERO);
  }

  /** The processor, with the instructions of switch_to changing memory and registers in place. */
  class Processor {
    const mem: array<Half>
    var saved: seq<nat>
    var regs: Regs

    constructor (m: array<Half>, s: seq<nat>, r: Regs)
      ensures mem == m && saved == s && regs == r
    {
      mem, saved, regs := m, s, r;
    }

    ghost function State(): Cpu
      reads this, mem
    {
      Cpu(mem[..], regs, saved)
    }

    method Pushw(v: Half)
      requires 1 <= regs.esp <= mem.Length
      modifies `regs, mem
      ensures State() == PushW(old(State()), v)
    {
      regs := regs.(esp := regs.esp - 1);
      mem[regs.esp] := v;
      assert mem[..] == old(mem[..])[regs.esp := v];
    }

    method Pushl(w: Word)
      requires 2 <= regs.esp <= mem.Length
      modifies `regs, mem
      ensures State() == PushL(old(State()), w)
    {
      Pushw(w.hi);
      Pushw(w.lo);
    }

    method Popw() returns (v: Half)
      requires regs.esp < mem.Length
      modifies `regs
      ensures v == mem[old(regs.esp)] && regs == old(regs).(esp := old(regs.esp) + 1)
    {
      v := mem[regs.esp];
      regs := regs.(esp := regs.esp + 1);
    }

    method Popl() returns (w: Word)
      requires regs.esp + 1 < mem.Length
      modifies `regs
      ensures w == Word(mem[old(regs.esp) + 1], mem[old(regs.esp)])
      ensures regs == old(regs).(esp := old(regs.esp) + 2)
    {
      var lo := Popw();
      var hi := Popw();
      w := Word(hi, lo);
    }

    method Pushal()
      requires 16 <= regs.esp <= mem.Length
      modifies `regs, mem
      ensures State() == PushAll(old(State()))
    {
      var ws := General(regs);
      ghost var c := State();
      var i := 0;
      while i < 8
        invariant 0 <= i <= 8 && regs.esp == c.regs.esp - 2 * i
        invariant State() == PushList(c, ws[..i])
      {
        Pushl(ws[i]);
        i := i + 1;
        assert ws[..i][..i - 1] == ws[..i - 1];
      }
      assert ws[..8] == ws;
    }

    method PopFour() returns (v: Word, w: Word, x: Word, y: Word)
      requires regs.esp + 8 <= mem.Length
      modifies `regs
      ensures v == WordAt(old(State()), 0) && w == WordAt(old(State()), 2)
      ensures x == WordAt(old(State()), 4) && y == WordAt(old(State()), 6)
      ensures regs == old(regs).(esp := old(regs.esp) + 8)
    {
      v := Popl();
      w := Popl();
      x := Popl();
      y := Popl();
    }

    method Popal()
      requires regs.esp + 16 <= mem.Length
      modifies `regs
      ensures State() == PopAll(old(State()))
    {
      var edi, esi, ebp, skipped := PopFour();
      var ebx, edx, ecx, eax := PopFour();
      regs := regs.(edi := edi, esi := esi, ebp := ebp, ebx := ebx, edx := edx, ecx := ecx, eax := eax);
    }

    method PushState()
      requires FRAME <= regs.esp <= mem.Length
      modifies `regs, mem
      ensures State() == Save(old(State()))
    {
      hide PushAll, PushW, PushL;
      Pushl(regs.eip);
      Pushl(regs.flags);
      Pushal();
      Pushw(regs.ds);
      Pushw(regs.es);
      Pushw(regs.fs);
      Pushw(regs.gs);
    }

    method PopSegmentRegs()
      requires regs.esp + 4 <= mem.Length
      modifies `regs
      ensures State() == PopSegments(old(State()))
    {
      var gs := Popw();
      var fs := Popw();
      var es := Popw();
      var ds := Popw();
      regs := regs.(gs := gs, fs := fs, es := es, ds := ds);
    }

    method PopState()
      requires regs.esp + FRAME <= mem.Length
      modifies `regs
      ensures State() == Ret(PopFlags(PopAll(PopSegments(old(State())))))
    {
      hide PopAll, PopSegments;
      PopSegmentRegs();
      Popal();
      var flags := Popl();
      regs := regs.(flags := flags);
      var eip := Popl();
      regs := regs.(eip := eip);
    }

    /** call switch_to: esi names thread a's control block, or is null; edi names thread b's. */
    method Switch(a: int, b: nat)
      requires -1 <= a < |saved| && b < |saved|
      requires FRAME <= regs.esp <= mem.Length && (b != a ==> saved[b] + FRAME <= mem.Length)
      modifies this, mem
      ensures State() == SwitchTo(old(State()), a, b)
    {
      hide Save, PushL, PopAll, PopSegments, PopFlags, Ret;
      if a < 0 {
        Pushl(regs.eip);
      } else {
        PushState();
        saved := saved[a := regs.esp];
      }
      assert State() == Leave(old(State()), a);
      regs := regs.(esp := saved[b]);
      PopState();
    }
  }
}
