/**
 Exception entry and return: what the processor pushes, what a vector's stub adds, the common
 stub that saves the rest, and the way back through iretq.
 */
module ExceptionEntry {
  import opened Machine

  /** A host between two instructions. Selectors are 16 bits wide. */
  datatype Host = Host(cpu: Cpu, ds: nat, es: nat, ss: nat, cs: nat, rflags: nat)

  const SELECTORS: nat := 0x10000
  const GDT_DATA: nat := 16

  ghost predicate Selectors(h: Host) {
    h.ds < SELECTORS && h.es < SELECTORS && h.ss < SELECTORS && h.cs < SELECTORS
  }

  /** An exception: its vector, its error code where it has one, and the flags and code segment it runs with. */
  datatype Event = Event(vector: nat, code: nat, flags: nat, gate: nat)

  const VECTORS: nat := 0x20

  /** Intel SDM volume 3A, section 6.13: the vectors for which the processor pushes an error code. */
  predicate PushesCode(v: nat) { v in {8, 10, 11, 12, 13, 14, 17, 21} }

  /** The vectors defined with the error-code stub, which pushes no zero of its own. */
  predicate ErrorStub(v: nat) { v in {0x08, 0x0a, 0x0b, 0x0c, 0x0d, 0x0e, 0x10} }

  predicate StubMatches(v: nat) { PushesCode(v) == ErrorStub(v) }

  // ---------------------------------------------------------------------------------------
  // Entry

  function PushWords(ws: seq<nat>): seq<Instr> { seq(|ws|, i requires 0 <= i < |ws| => PushImm(ws[i])) }

  /** What the processor pushes, first word first. */
  function HardwareFrame(h: Host, e: Event): seq<nat> {
    [h.ss, h.cpu.R(RSP), h.rflags, h.cs, h.cpu.ip] + if PushesCode(e.vector) then [e.code] else []
  }

  function StubWords(v: nat): seq<nat> {
    (if ErrorStub(v) then [] else [0]) + [v]
  }

  function AlignedStack(h: Host): nat { h.cpu.R(RSP) - h.cpu.R(RSP) % 16 }

  /** Delivery in 64-bit mode at the same privilege: rsp is aligned down to 16, then the frame is pushed. */
  function Deliver(h: Host, e: Event): Host {
    h.(cpu := Exec(PushWords(HardwareFrame(h, e)), h.cpu.Set(RSP, AlignedStack(h))), rflags := e.flags, cs := e.gate)
  }

  /** mov $16, %ax changes the low sixteen bits of rax only. */
  function SetAx(s: Cpu, v: nat): Cpu { s.Set(RAX, s.R(RAX) - s.R(RAX) % SELECTORS + v) }

  /** cld: bit 10 of rflags. */
  function ClearDirection(rflags: nat): nat { rflags - 0x400 * (rflags / 0x400 % 2) }

  /** common_exception_stub up to its call. */
  function Save(h: Host): Host {
    var saved := Exec([MovImm(RAX, h.ds), Push(RAX)], Exec(Pushes(GPRS), h.cpu));
    Host(Do(MovReg(RDI, RSP), SetAx(saved, GDT_DATA)), GDT_DATA, GDT_DATA, GDT_DATA, h.cs, ClearDirection(h.rflags))
  }

  function Stub(v: nat, h: Host): Host { Save(h.(cpu := Exec(PushWords(StubWords(v)), h.cpu))) }

  /** The machine as common_exception_handler is called. */
  function AtHandler(h: Host, e: Event): Host { Stub(e.vector, Deliver(h, e)) }

  // ---------------------------------------------------------------------------------------
  // The context and the way back

  /** Offsets of struct exception_context. */
  const DS: nat := 0
  const INT_NUM: nat := 128
  const ERROR_CODE: nat := 136
  const RIP_AT: nat := 144
  const CS: nat := 152
  const RFLAGS: nat := 160
  const RSP_AT: nat := 168
  const SS: nat := 176
  const CONTEXT_SIZE: nat := 184

  function At(r: Reg): nat {
    match r
    case R15 => 8 case R14 => 16 case R13 => 24 case R12 => 32 case R11 => 40 case R10 => 48 case R9 => 56 case R8 => 64
    case RBP => 72 case RDI => 80 case RSI => 88 case RDX => 96 case RCX => 104 case RBX => 112 case RAX => 120
    case RSP => RSP_AT
  }

  /** iretq: five words, of which the selectors keep sixteen bits. */
  function Iretq(h: Host): Host {
    var sp := h.cpu.R(RSP);
    h.(cpu := h.cpu.Set(RSP, h.cpu.M(sp + 24)).(ip := h.cpu.M(sp)), cs := h.cpu.M(sp + 8) % SELECTORS,
       rflags := h.cpu.M(sp + 16), ss := h.cpu.M(sp + 32) % SELECTORS)
  }

  /** common_exception_stub after its call. */
  function Return(h: Host): Host {
    var popped := Do(Pop(RAX), h.cpu);
    var ds := popped.R(RAX) % SELECTORS;
    Iretq(h.(cpu := Do(AddRsp(16), Exec(Pops(POP_ORDER), popped)), ds := ds, es := ds))
  }

  /** The fields r15 to rax and rsp of a struct exception_context at base. */
  ghost predicate ContextRegs(m: Cpu, base: nat, s: Cpu) {
    && m.M(base + 8) == s.R(R15) && m.M(base + 16) == s.R(R14) && m.M(base + 24) == s.R(R13)
    && m.M(base + 32) == s.R(R12) && m.M(base + 40) == s.R(R11) && m.M(base + 48) == s.R(R10)
    && m.M(base + 56) == s.R(R9) && m.M(base + 64) == s.R(R8) && m.M(base + 72) == s.R(RBP)
    && m.M(base + 80) == s.R(RDI) && m.M(base + 88) == s.R(RSI) && m.M(base + 96) == s.R(RDX)
    && m.M(base + 104) == s.R(RCX) && m.M(base + 112) == s.R(RBX) && m.M(base + 120) == s.R(RAX)
    && m.M(base + 168) == s.R(RSP)
  }

  lemma OffsetsOfContext()
    ensures At(R15) == 8 && At(R14) == 16 && At(R13) == 24 && At(R12) == 32 && At(R11) == 40 && At(R10) == 48
    ensures At(R9) == 56 && At(R8) == 64 && At(RBP) == 72 && At(RDI) == 80 && At(RSI) == 88 && At(RDX) == 96
    ensures At(RCX) == 104 && At(RBX) == 112 && At(RAX) == 120 && At(RSP) == 168
  {
  }

  /** The words from base on are a struct exception_context for the state h and the event e. */
  ghost predicate IsContext(m: Cpu, base: nat, h: Host, e: Event) {
    && m.M(base) == h.ds && ContextRegs(m, base, h.cpu)
    && m.M(base + 128) == e.vector
    && m.M(base + 136) == (if e.vector in {8, 10, 11, 12, 13, 14, 17, 21} then e.code else 0)
    && m.M(base + 144) == h.cpu.ip && m.M(base + 152) == h.cs && m.M(base + 160) == h.rflags
    && m.M(base + 176) == h.ss
  }

  /** The registers by their offsets. */
  ghost predicate RegsAt(m: Cpu, base: nat, s: Cpu) { forall r :: m.M(base + At(r)) == s.R(r) }

  lemma ContextRegsAt(m: Cpu, base: nat, s: Cpu)
    ensures ContextRegs(m, base, s) <==> RegsAt(m, base, s)
  {
    if ContextRegs(m, base, s) {
      forall r
        ensures m.M(base + At(r)) == s.R(r)
      {
      }
    } else if RegsAt(m, base, s) {
      OffsetsOfContext();
      assert m.M(base + At(RAX)) == s.R(RAX);
      assert ContextRegs(m, base, s);
    }
  }

  /** A context by its offsets. */
  ghost predicate ContextAt(m: Cpu, base: nat, h: Host, e: Event) {
    && RegsAt(m, base, h.cpu)
    && m.M(base + DS) == h.ds && m.M(base + SS) == h.ss && m.M(base + CS) == h.cs
    && m.M(base + RFLAGS) == h.rflags && m.M(base + RIP_AT) == h.cpu.ip
    && m.M(base + INT_NUM) == e.vector
    && m.M(base + ERROR_CODE) == if PushesCode(e.vector) then e.code else 0
  }

  lemma ContextIsStruct(m: Cpu, base: nat, h: Host, e: Event)
    ensures IsContext(m, base, h, e) <==> ContextAt(m, base, h, e)
  {
    ContextRegsAt(m, base, h.cpu);
    hide ContextRegs, RegsAt;
  }

  /** The handler gets, in rdi and on top of the stack, the context of the interrupted code. */
  ghost predicate HandlerSeesContext(h: Host, e: Event) {
    var s := AtHandler(h, e).cpu;
    s.R(RDI) == s.R(RSP) && IsContext(s, s.R(RSP), h, e)
  }

  /** Room for the frame and the context, and selectors in range. */
  ghost predicate Interruptible(h: Host) {
    Selectors(h) && AlignedStack(h) >= 192
  }

  // ---------------------------------------------------------------------------------------
  // What is on the stack

  lemma {:induction false} PushWordsEffect(ws: seq<nat>, s: Cpu)
    requires 8 * |ws| <= s.R(RSP)
    ensures
      var s' := Exec(PushWords(ws), s);
      && s'.R(RSP) == s.R(RSP) - 8 * |ws| && SameRegs(s, s', {RSP})
      && SameMem(s, s', s.R(RSP) - 8 * |ws|, s.R(RSP))
      && forall i :: 0 <= i < |ws| ==> s'.M(s.R(RSP) - 8 * (i + 1)) == ws[i]
  {
    if ws == [] {
    } else {
      var s1 := Do(PushImm(ws[0]), s);
      assert PushWords(ws)[1..] == PushWords(ws[1..]);
      PushWordsEffect(ws[1..], s1);
      var s' := Exec(PushWords(ws), s);
      forall i | 0 <= i < |ws|
        ensures s'.M(s.R(RSP) - 8 * (i + 1)) == ws[i]
      {
        if i > 0 {
          assert s'.M(s1.R(RSP) - 8 * ((i - 1) + 1)) == ws[1..][i - 1];
        }
      }
    }
  }

  /** Everything pushed before the general registers. */
  function Frame(h: Host, e: Event): seq<nat> { HardwareFrame(h, e) + StubWords(e.vector) }

  /** The stack pointer at the handler. */
  function Base(h: Host, e: Event): int { AlignedStack(h) - 8 * (|Frame(h, e)| + 16) }

  ghost predicate FrameOnStack(s: Cpu, h: Host, e: Event) {
    var n, top := 8 * |Frame(h, e)|, AlignedStack(h);
    && s.R(RSP) == top - n && SameRegs(h.cpu, s, {RSP}) && SameMem(h.cpu, s, top - n, top)
    && forall i :: 0 <= i < |Frame(h, e)| ==> s.M(top - 8 * (i + 1)) == Frame(h, e)[i]
  }

  lemma FrameLength(h: Host, e: Event)
    ensures 6 <= |Frame(h, e)| <= 8
  {
  }

  lemma FrameIsPushed(h: Host, e: Event)
    requires Interruptible(h)
    ensures FrameOnStack(Exec(PushWords(StubWords(e.vector)), Deliver(h, e).cpu), h, e)
  {
    var a, b := HardwareFrame(h, e), StubWords(e.vector);
    FrameLength(h, e);
    assert PushWords(a + b) == PushWords(a) + PushWords(b);
    var s := h.cpu.Set(RSP, AlignedStack(h));
    ExecAppend(PushWords(a), PushWords(b), s);
    hide Exec, HardwareFrame, StubWords, PushWords;
    PushWordsEffect(a + b, s);
  }

  /** s is h's machine with the registers and ds saved below t, and rdi pointing at them. */
  ghost predicate Saved(s: Cpu, h: Host, t: nat) {
    && t >= 128 && s.R(RSP) == s.R(RDI) == t - 128 && s.M(t - 128 + DS) == h.ds
    && (forall r :: r != RSP ==> s.M(t - 128 + At(r)) == h.cpu.R(r))
    && SameMem(h.cpu, s, t - 128, t)
  }

  /** The struct lists the registers in the reverse of the order they are pushed. */
  lemma AtPosition(r: Reg)
    requires r != RSP
    ensures At(r) == 120 - 8 * Position(r) && 8 <= At(r) <= 120
  {
  }

  lemma SaveDs(a: Cpu, ds: nat)
    requires a.R(RSP) >= 8
    ensures
      var s, t := Do(MovReg(RDI, RSP), SetAx(Exec([MovImm(RAX, ds), Push(RAX)], a), GDT_DATA)), a.R(RSP);
      s.R(RSP) == s.R(RDI) == t - 8 && s.M(t - 8) == ds && SameMem(a, s, t - 8, t)
  {
    ExecTwo(MovImm(RAX, ds), Push(RAX), a);
  }

  lemma SaveEffect(h: Host)
    requires h.cpu.R(RSP) >= 128
    ensures Saved(Save(h).cpu, h, h.cpu.R(RSP))
  {
    var t := h.cpu.R(RSP);
    var a := Exec(Pushes(GPRS), h.cpu);
    var s := Save(h).cpu;
    hide Exec, Pushes, Position, At, Do, SetAx;
    PushAllEffect(h.cpu);
    SaveDs(a, h.ds);
    forall r | r != RSP
      ensures s.M(t - 128 + At(r)) == h.cpu.R(r)
    {
      AtPosition(r);
      assert a.M(t - 8 * (Position(r) + 1)) == h.cpu.R(r);
    }
  }

  /** The stack at the handler, for every vector: the frame, and below it the registers and ds. */
  ghost predicate OnStack(s: Cpu, h: Host, e: Event) {
    var base, top := Base(h, e), AlignedStack(h);
    && s.R(RSP) == s.R(RDI) == base && s.M(base + DS) == h.ds
    && (forall r :: r != RSP ==> s.M(base + At(r)) == h.cpu.R(r))
    && (forall i :: 0 <= i < |Frame(h, e)| ==> s.M(top - 8 * (i + 1)) == Frame(h, e)[i])
    && SameMem(h.cpu, s, base, top)
  }

  lemma SavedBelowFrame(f: Host, s: Cpu, h: Host, e: Event)
    requires f.ds == h.ds && FrameOnStack(f.cpu, h, e) && Saved(s, f, f.cpu.R(RSP)) && |Frame(h, e)| > 0
    ensures Base(h, e) >= 0 && OnStack(s, h, e)
  {
    hide Frame, At, AlignedStack;
    var top := AlignedStack(h);
    forall i | 0 <= i < |Frame(h, e)|
      ensures s.M(top - 8 * (i + 1)) == Frame(h, e)[i]
    {
      assert f.cpu.M(top - 8 * (i + 1)) == Frame(h, e)[i];
    }
  }

  lemma HandlerStack(h: Host, e: Event)
    requires Interruptible(h)
    ensures Base(h, e) >= 0 && OnStack(AtHandler(h, e).cpu, h, e)
  {
    var d := Deliver(h, e);
    var f := d.(cpu := Exec(PushWords(StubWords(e.vector)), d.cpu));
    FrameLength(h, e);
    FrameIsPushed(h, e);
    hide Exec, PushWords, StubWords, Save, Frame, OnStack, Saved;
    SaveEffect(f);
    SavedBelowFrame(f, Save(f).cpu, h, e);
  }

  /** The handler runs with the kernel's data segment, the gate's code segment, and the direction flag clear. */
  lemma HandlerSelectors(h: Host, e: Event)
    ensures
      var s := AtHandler(h, e);
      && s.ds == s.es == s.ss == 16 && s.cs == e.gate
      && s.rflags / 0x400 % 2 == 0 && (e.flags / 0x400 % 2 == 0 ==> s.rflags == e.flags)
  {
    hide Exec, Pushes, PushWords;
  }

  lemma MatchingFrame(h: Host, e: Event)
    requires StubMatches(e.vector)
    ensures
      var f := Frame(h, e);
      && |f| == 7 && f[0] == h.ss && f[1] == h.cpu.R(RSP) && f[2] == h.rflags && f[3] == h.cs && f[4] == h.cpu.ip
      && f[5] == (if PushesCode(e.vector) then e.code else 0) && f[6] == e.vector
  {
  }

  /** When the stub and the processor agree, the handler's argument is the interrupted code's context. */
  lemma MatchingStubIsFaithful(h: Host, e: Event)
    requires Interruptible(h) && StubMatches(e.vector)
    ensures HandlerSeesContext(h, e)
  {
    MatchingFrame(h, e);
    hide Frame, At, AtHandler, AlignedStack, PushesCode, ErrorStub, StubMatches, Interruptible, IsContext;
    HandlerStack(h, e);
    var s, base := AtHandler(h, e).cpu, Base(h, e);
    FrameWords(s, h, e);
    ContextFromWords(s, base, h, e);
    ContextIsStruct(s, base, h, e);
  }

  /** The context lies right below the interrupted stack pointer, aligned down to 16. */
  lemma ContextDepth(h: Host, e: Event)
    requires Interruptible(h) && StubMatches(e.vector)
    ensures AtHandler(h, e).cpu.R(RSP) == h.cpu.R(RSP) - h.cpu.R(RSP) % 16 - 184
  {
    MatchingFrame(h, e);
    hide Frame, At, AtHandler, StubMatches;
    HandlerStack(h, e);
  }

  /** The seven words of a frame, as the fields of the context they are read as. */
  lemma FrameWords(s: Cpu, h: Host, e: Event)
    requires OnStack(s, h, e) && |Frame(h, e)| == 7 && Base(h, e) >= 0
    ensures
      var f, base := Frame(h, e), Base(h, e);
      && s.M(base + SS) == f[0] && s.M(base + RSP_AT) == f[1] && s.M(base + RFLAGS) == f[2] && s.M(base + CS) == f[3]
      && s.M(base + RIP_AT) == f[4] && s.M(base + ERROR_CODE) == f[5] && s.M(base + INT_NUM) == f[6]
  {
    hide Frame, OnStack;
    FrameWord(s, h, e, 0);
    FrameWord(s, h, e, 1);
    FrameWord(s, h, e, 2);
    FrameWord(s, h, e, 3);
    FrameWord(s, h, e, 4);
    FrameWord(s, h, e, 5);
    FrameWord(s, h, e, 6);
  }

  lemma ContextFromWords(m: Cpu, base: nat, h: Host, e: Event)
    requires forall r :: r != RSP ==> m.M(base + At(r)) == h.cpu.R(r)
    requires m.M(base + DS) == h.ds && m.M(base + SS) == h.ss && m.M(base + CS) == h.cs
    requires m.M(base + RFLAGS) == h.rflags && m.M(base + RIP_AT) == h.cpu.ip && m.M(base + RSP_AT) == h.cpu.R(RSP)
    requires m.M(base + INT_NUM) == e.vector
    requires m.M(base + ERROR_CODE) == if PushesCode(e.vector) then e.code else 0
    ensures ContextAt(m, base, h, e)
  {
    assert At(RSP) == RSP_AT;
  }

  /** Counted from the handler's stack pointer. */
  lemma FrameWord(s: Cpu, h: Host, e: Event, i: nat)
    requires OnStack(s, h, e) && i < |Frame(h, e)| && Base(h, e) >= 0
    ensures s.M(Base(h, e) + 8 * (|Frame(h, e)| + 15 - i)) == Frame(h, e)[i]
  {
    hide Frame, AlignedStack, At;
    assert s.M(AlignedStack(h) - 8 * (i + 1)) == Frame(h, e)[i];
  }

  /** Otherwise the word read as rip is the error code (one word too many) or cs (one too few). */
  lemma MismatchedStubShiftsRip(h: Host, e: Event)
    requires Interruptible(h) && !StubMatches(e.vector)
    ensures
      var s := AtHandler(h, e).cpu;
      s.M(s.R(RSP) + RIP_AT) == if PushesCode(e.vector) then e.code else h.cs
  {
    var f, top := Frame(h, e), AlignedStack(h);
    assert if PushesCode(e.vector) then |f| == 8 && f[5] == e.code else |f| == 6 && f[3] == h.cs;
    hide Frame, At, AtHandler, AlignedStack;
    HandlerStack(h, e);
    var s := AtHandler(h, e).cpu;
    assert s.M(top - 8 * (5 + 1)) == f[5];
    assert s.M(top - 8 * (3 + 1)) == f[3];
  }

  /** The context is right for every interrupted state exactly when the stub is the right one. */
  lemma EntryIsFaithfulIff(v: nat)
    requires v < VECTORS
    ensures
      (forall h: Host, e: Event :: Interruptible(h) && e.vector == v ==> HandlerSeesContext(h, e))
      <==> v !in {0x10, 0x11, 0x15}
  {
    assert StubMatches(v) <==> v !in {0x10, 0x11, 0x15};
    if StubMatches(v) {
      forall h: Host, e: Event | Interruptible(h) && e.vector == v
        ensures HandlerSeesContext(h, e)
      {
        MatchingStubIsFaithful(h, e);
      }
    } else {
      var h := Host(Cpu(map[RSP := 4096], map[], map[], 1), 0, 0, 0, 0, 0);
      var e := Event(v, 0, 0, 0);
      assert Interruptible(h);
      MismatchedStubShiftsRip(h, e);
      assert !HandlerSeesContext(h, e);
    }
  }

  // ---------------------------------------------------------------------------------------
  // The way back

  lemma PopEffect(base: nat, s: Cpu)
    requires s.R(RSP) == base
    ensures
      var p := Do(Pop(RAX), s);
      var q := Exec(Pops(POP_ORDER), p);
      && p.R(RAX) == s.M(base + DS) && q.R(RSP) == base + 128 && q.mem == s.mem
      && forall r :: r != RSP ==> q.R(r) == s.M(base + At(r))
  {
    var p := Do(Pop(RAX), s);
    hide Exec, Pops, Position, At;
    var saved := s.(regs := map r: Reg :: s.M(base + At(r)));
    forall r | r != RSP
      ensures p.M(base + 128 - 8 * (Position(r) + 1)) == saved.R(r)
    {
      AtPosition(r);
    }
    PopAllEffect(p, base + 128, saved);
  }

  lemma ReturnAt(h: Host)
    ensures
      var h', base := Return(h), h.cpu.R(RSP);
      && RegsAt(h.cpu, base, h'.cpu)
      && h'.cpu.ip == h.cpu.M(base + RIP_AT) && h'.cs == h.cpu.M(base + CS) % SELECTORS
      && h'.rflags == h.cpu.M(base + RFLAGS) && h'.ss == h.cpu.M(base + SS) % SELECTORS
      && h'.ds == h'.es == h.cpu.M(base + DS) % SELECTORS && h'.cpu.mem == h.cpu.mem
  {
    assert At(RSP) == RSP_AT;
    hide Exec, Pops, At;
    PopEffect(h.cpu.R(RSP), h.cpu);
  }

  /** iretq resumes with whatever the handler left in the context on top of the stack. */
  lemma ReturnRestoresContext(h: Host)
    ensures
      var h', base := Return(h), h.cpu.R(RSP);
      && ContextRegs(h.cpu, base, h'.cpu)
      && h'.cpu.ip == h.cpu.M(base + 144) && h'.cs == h.cpu.M(base + 152) % 0x1_0000
      && h'.rflags == h.cpu.M(base + 160) && h'.ss == h.cpu.M(base + 176) % 0x1_0000
      && h'.ds == h'.es == h.cpu.M(base) % 0x1_0000 && h'.cpu.mem == h.cpu.mem
  {
    hide Return, At, ContextRegs, RegsAt;
    ReturnAt(h);
    ContextRegsAt(h.cpu, h.cpu.R(RSP), Return(h).cpu);
  }

  lemma ContextOfSameWords(m: Cpu, m': Cpu, base: nat, h: Host, e: Event)
    requires ContextAt(m, base, h, e)
    requires forall a: nat :: base <= a < base + CONTEXT_SIZE ==> m'.M(a) == m.M(a)
    ensures ContextAt(m', base, h, e)
  {
    assert forall r :: At(r) < CONTEXT_SIZE;
    hide At, PushesCode;
    forall r
      ensures m'.M(base + At(r)) == h.cpu.R(r)
    {
      assert m.M(base + At(r)) == h.cpu.R(r);
    }
  }

  /**
   A handler that leaves the context words alone, whatever else it changes, resumes the interrupted
   code as it was; es alone comes back as ds.
   */
  lemma EntryThenReturnIsIdentity(h: Host, e: Event, handled: Host)
    requires Interruptible(h) && StubMatches(e.vector)
    requires handled.cpu.R(RSP) == Base(h, e)
    requires forall a: nat :: Base(h, e) <= a < Base(h, e) + CONTEXT_SIZE ==>
        handled.cpu.M(a) == AtHandler(h, e).cpu.M(a)
    ensures
      var back := Return(handled);
      && (forall r :: back.cpu.R(r) == h.cpu.R(r)) && back.cpu.ip == h.cpu.ip
      && back.cs == h.cs && back.ss == h.ss && back.rflags == h.rflags && back.ds == h.ds && back.es == h.ds
  {
    hide At, AtHandler, Return, Base, AlignedStack, PushesCode, StubMatches, IsContext;
    HandlerStack(h, e);
    MatchingStubIsFaithful(h, e);
    ContextIsStruct(AtHandler(h, e).cpu, Base(h, e), h, e);
    ContextOfSameWords(AtHandler(h, e).cpu, handled.cpu, Base(h, e), h, e);
    ReturnAt(handled);
  }

  /** From a mismatched vector such a handler resumes at the error code, or at the code selector. */
  lemma MismatchedVectorResumesElsewhere(h: Host, e: Event, handled: Host)
    requires Interruptible(h) && e.vector in {0x10, 0x11, 0x15}
    requires handled.cpu.R(RSP) == Base(h, e)
    requires forall a: nat :: Base(h, e) <= a < Base(h, e) + CONTEXT_SIZE ==>
        handled.cpu.M(a) == AtHandler(h, e).cpu.M(a)
    ensures Return(handled).cpu.ip == if e.vector == 0x10 then h.cs else e.code
  {
    hide At, AtHandler, Return, Base;
    HandlerStack(h, e);
    MismatchedStubShiftsRip(h, e);
    ReturnAt(handled);
  }
}
