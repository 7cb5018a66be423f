/**
 The world switch: vm_resume and the first launch, instruction by instruction, and the guest's
 registers over any number of exits.
 */
module WorldSwitch {
  import opened Machine

  const GUEST_RSP := 0x681C
  const GUEST_RIP := 0x681E
  const HOST_RSP := 0x6C14
  const HOST_RIP := 0x6C16

  /** The addresses of the labels res, hexit and cont. */
  const RES: nat := 1
  const HEXIT: nat := 2
  const CONT: nat := 3

  /** All but rdi, in the order the guest's values are loaded, and in the order they are stored. */
  const LOAD_ORDER: seq<Reg> := [RBX, RCX, RDX, RSI, RBP, R8, R9, R10, R11, R12, R13, R14, R15, RAX]
  const STORE_ORDER: seq<Reg> := [RAX, RBX, RCX, RDX, RSI, RBP, R8, R9, R10, R11, R12, R13, R14, R15]

  /** Offsets of struct guest_state. */
  function Offset(r: Reg): nat {
    match r
    case RAX => 0 case RBX => 8 case RCX => 16 case RDX => 24 case RSI => 32 case RDI => 40 case RBP => 48
    case R8 => 56 case R9 => 64 case R10 => 72 case R11 => 80 case R12 => 88 case R13 => 96 case R14 => 104
    case R15 => 112
    case RSP => 120
  }

  /** The fifteen register words and rflags. */
  const BLOCK_SIZE := 128

  function Loads(rs: seq<Reg>): seq<Instr> {
    seq(|rs|, i requires 0 <= i < |rs| => Load(rs[i], RDI, Offset(rs[i])))
  }

  function Stores(rs: seq<Reg>): seq<Instr> {
    seq(|rs|, i requires 0 <= i < |rs| => Store(RDI, Offset(rs[i]), rs[i]))
  }

  /** mov rdi, [rsp] and the loads, ending with rdi itself. */
  function LoadGuest(): seq<Instr> {
    [Load(RDI, RSP, 0), Load(RBX, RDI, 8), Load(RCX, RDI, 16), Load(RDX, RDI, 24), Load(RSI, RDI, 32),
     Load(RBP, RDI, 48), Load(R8, RDI, 56), Load(R9, RDI, 64), Load(R10, RDI, 72), Load(R11, RDI, 80),
     Load(R12, RDI, 88), Load(R13, RDI, 96), Load(R14, RDI, 104), Load(R15, RDI, 112), Load(RAX, RDI, 0),
     Load(RDI, RDI, 40)]
  }

  function SaveFirst(): seq<Instr> { [Push(RDI), Load(RDI, RSP, 8)] }

  function SaveLast(): seq<Instr> { [Pop(R8), Pop(R9), Store(R9, 40, R8)] }

  /** From push rdi to the store of the guest's rdi through r9. */
  function SaveGuest(): seq<Instr> {
    SaveFirst()
    + [Store(RDI, 0, RAX), Store(RDI, 8, RBX), Store(RDI, 16, RCX), Store(RDI, 24, RDX), Store(RDI, 32, RSI),
       Store(RDI, 48, RBP), Store(RDI, 56, R8), Store(RDI, 64, R9), Store(RDI, 72, R10), Store(RDI, 80, R11),
       Store(RDI, 88, R12), Store(RDI, 96, R13), Store(RDI, 104, R14), Store(RDI, 112, R15)]
    + SaveLast()
  }

  /** Keeps the block pointer on the stack and tells the VMCS where to come back. */
  function SetHost(): seq<Instr> {
    [Push(RDI), MovImm(RCX, HOST_RSP), MovImm(RDX, HOST_RIP), VmWrite(RCX, RSP), MovImm(RDI, RES), VmWrite(RDX, RDI)]
  }

  /** vm_resume up to vmresume. */
  function ResumeEntry(): seq<Instr> {
    Pushes(GPRS) + SetHost() + LoadGuest()
  }

  /** From the label res. */
  function ResumeExit(): seq<Instr> {
    SaveGuest() + Pops(POP_ORDER) + [Ret]
  }

  function LaunchHost(): seq<Instr> {
    [Push(RDI), MovImm(RCX, HOST_RSP), VmWrite(RCX, RSP), MovImm(RCX, GUEST_RSP), VmWrite(RCX, RSP),
     MovImm(RCX, HOST_RIP), MovImm(RSI, HEXIT), VmWrite(RCX, RSI),
     MovImm(RCX, GUEST_RIP), MovImm(RSI, CONT), VmWrite(RCX, RSI)]
  }

  /** vmlaunch_first up to vmlaunch. */
  function LaunchEntry(): seq<Instr> {
    LaunchHost() + LoadGuest()
  }

  /** From the label hexit to the jump to exit_handler. */
  function LaunchExit(): seq<Instr> {
    SaveGuest() + [Pop(RDI)]
  }

  /** How vmresume or vmlaunch ends: the guest ran and left these registers and this memory, or it did not start. */
  datatype Entry = Exited(guest: Regs, mem: map<nat, nat>) | Failed

  /**
   On an exit the processor loads rsp and rip from the fields 6C14H and 6C16H of the VMCS (appendix B.4.4 of
   Intel SDM volume 3D) and keeps the guest's other registers.
   */
  function Enter(s: Cpu, e: Entry, fallThrough: nat): Cpu {
    match e
    case Exited(guest, mem) =>
      s.(regs := guest[RSP := Cell(s.vmcs, 0x6C14)], mem := mem, ip := Cell(s.vmcs, 0x6C16))
    case Failed => s.(ip := fallThrough)
  }

  /** The guest has not written [lo, hi). */
  ghost predicate Spares(e: Entry, s: Cpu, lo: nat, hi: nat) {
    e.Exited? ==> forall a: nat :: lo <= a < hi ==> Cell(e.mem, a) == s.M(a)
  }

  /** A word of memory once the guest has run, or has not. */
  function WordAfter(s: Cpu, e: Entry, a: nat): nat { if e.Exited? then Cell(e.mem, a) else s.M(a) }

  /** A call of vm_resume: at entry, then back in the host, if control reaches res. */
  function AtVmResume(s: Cpu): Cpu { Exec(ResumeEntry(), s) }

  function VmResume(s: Cpu, e: Entry): Cpu {
    var s' := Enter(AtVmResume(s), e, RES);
    if s'.ip == RES then Exec(ResumeExit(), s') else s'
  }

  // ---------------------------------------------------------------------------------------

  /** The words from block on are the fields rax to r15 of a struct guest_state, and hold these registers. */
  ghost predicate BlockHolds(s: Cpu, block: nat, regs: Regs) {
    && s.M(block) == Get(regs, RAX) && s.M(block + 8) == Get(regs, RBX) && s.M(block + 16) == Get(regs, RCX)
    && s.M(block + 24) == Get(regs, RDX) && s.M(block + 32) == Get(regs, RSI) && s.M(block + 40) == Get(regs, RDI)
    && s.M(block + 48) == Get(regs, RBP) && s.M(block + 56) == Get(regs, R8) && s.M(block + 64) == Get(regs, R9)
    && s.M(block + 72) == Get(regs, R10) && s.M(block + 80) == Get(regs, R11) && s.M(block + 88) == Get(regs, R12)
    && s.M(block + 96) == Get(regs, R13) && s.M(block + 104) == Get(regs, R14) && s.M(block + 112) == Get(regs, R15)
  }

  /** The same, register by register. */
  ghost predicate AtOffsets(s: Cpu, block: nat, regs: Regs) {
    forall r :: r != RSP ==> s.M(block + Offset(r)) == Get(regs, r)
  }

  lemma BlockIsOffsets(s: Cpu, block: nat, regs: Regs)
    ensures BlockHolds(s, block, regs) <==> AtOffsets(s, block, regs)
  {
    if BlockHolds(s, block, regs) {
      forall r | r != RSP
        ensures s.M(block + Offset(r)) == Get(regs, r)
      {
        match r {
          case RSP =>
          case _ =>
        }
      }
    } else if AtOffsets(s, block, regs) {
      assert forall r :: r != RSP ==> s.M(block + Offset(r)) == Get(regs, r);
      OffsetsAre();
      assert BlockHolds(s, block, regs);
    }
  }

  lemma OffsetsAre()
    ensures Offset(RAX) == 0 && Offset(RBX) == 8 && Offset(RCX) == 16 && Offset(RDX) == 24 && Offset(RSI) == 32
    ensures Offset(RDI) == 40 && Offset(RBP) == 48 && Offset(R8) == 56 && Offset(R9) == 64 && Offset(R10) == 72
    ensures Offset(R11) == 80 && Offset(R12) == 88 && Offset(R13) == 96 && Offset(R14) == 104 && Offset(R15) == 112
  {
  }

  lemma LoadGuestIsLoads()
    ensures LoadGuest() == [Load(RDI, RSP, 0)] + Loads(LOAD_ORDER) + [Load(RDI, RDI, 40)]
  {
  }

  lemma SaveGuestIsStores()
    ensures SaveGuest() == SaveFirst() + Stores(STORE_ORDER) + SaveLast()
  {
  }

  lemma OffsetsDiffer()
    ensures forall r, q :: Offset(r) == Offset(q) ==> r == q
    ensures forall r :: Offset(r) < BLOCK_SIZE
    ensures Offset(RDI) == 40 && Offset(RSP) == 120
  {
  }

  lemma LoadOne(r: Reg, s: Cpu)
    ensures
      var s1 := Do(Load(r, RDI, Offset(r)), s);
      && s1.mem == s.mem && s1.vmcs == s.vmcs && SameRegs(s, s1, {r}) && s1.R(r) == s.M(s.R(RDI) + Offset(r))
  {
    hide Offset;
  }

  lemma LoadsStep(rs: seq<Reg>, s: Cpu)
    ensures rs == [] ==> Exec(Loads(rs), s) == s
    ensures rs != [] ==> Exec(Loads(rs), s) == Exec(Loads(rs[1..]), Do(Load(rs[0], RDI, Offset(rs[0])), s))
  {
    if rs != [] {
      assert Loads(rs)[0] == Load(rs[0], RDI, Offset(rs[0])) && Loads(rs)[1..] == Loads(rs[1..]);
    }
  }

  lemma {:induction false} LoadsEffect(rs: seq<Reg>, s: Cpu)
    requires Distinct(rs) && RDI !in rs
    ensures
      var s' := Exec(Loads(rs), s);
      && s'.mem == s.mem && s'.vmcs == s.vmcs && SameRegs(s, s', set r | r in rs)
      && forall r :: r in rs ==> s'.R(r) == s.M(s.R(RDI) + Offset(r))
  {
    hide Offset, Exec, Loads, Do, Distinct;
    LoadsStep(rs, s);
    if rs == [] {
    } else {
      HeadAndTail(rs);
      LoadOne(rs[0], s);
      LoadsEffect(rs[1..], Do(Load(rs[0], RDI, Offset(rs[0])), s));
    }
  }

  lemma StoreOne(r: Reg, s: Cpu)
    ensures
      var s1, b := Do(Store(RDI, Offset(r), r), s), s.R(RDI);
      && s1.regs == s.regs && s1.vmcs == s.vmcs && SameMem(s, s1, b, b + BLOCK_SIZE)
      && forall q :: s1.M(b + Offset(q)) == if q == r then s.R(r) else s.M(b + Offset(q))
  {
    hide Offset;
    OffsetsDiffer();
  }

  lemma StoresStep(rs: seq<Reg>, s: Cpu)
    ensures rs == [] ==> Exec(Stores(rs), s) == s
    ensures rs != [] ==> Exec(Stores(rs), s) == Exec(Stores(rs[1..]), Do(Store(RDI, Offset(rs[0]), rs[0]), s))
  {
    if rs != [] {
      assert Stores(rs)[0] == Store(RDI, Offset(rs[0]), rs[0]) && Stores(rs)[1..] == Stores(rs[1..]);
    }
  }

  lemma {:induction false} StoresEffect(rs: seq<Reg>, s: Cpu)
    requires Distinct(rs) && RDI !in rs
    ensures
      var s', b := Exec(Stores(rs), s), s.R(RDI);
      && s'.regs == s.regs && s'.vmcs == s.vmcs && SameMem(s, s', b, b + BLOCK_SIZE)
      && forall r :: s'.M(b + Offset(r)) == if r in rs then s.R(r) else s.M(b + Offset(r))
  {
    hide Offset, Exec, Stores, Do, Distinct;
    StoresStep(rs, s);
    if rs == [] {
    } else {
      HeadAndTail(rs);
      StoreOne(rs[0], s);
      StoresEffect(rs[1..], Do(Store(RDI, Offset(rs[0]), rs[0]), s));
    }
  }

  /** A list of all fifteen registers but rdi, in any order. */
  ghost predicate AllButRdi(rs: seq<Reg>) {
    Distinct(rs) && forall r :: r in rs <==> r != RSP && r != RDI
  }

  lemma LoadAround(rs: seq<Reg>, s: Cpu)
    requires AllButRdi(rs)
    ensures
      var s', block := Exec([Load(RDI, RSP, 0)] + Loads(rs) + [Load(RDI, RDI, 40)], s), s.M(s.R(RSP));
      && s'.mem == s.mem && s'.vmcs == s.vmcs && s'.R(RSP) == s.R(RSP)
      && AtOffsets(s, block, s'.regs)
  {
    var s1 := Do(Load(RDI, RSP, 0), s);
    var s2 := Exec(Loads(rs), s1);
    assert Exec([Load(RDI, RSP, 0)] + Loads(rs) + [Load(RDI, RDI, 40)], s) == Do(Load(RDI, RDI, 40), s2) by {
      ExecAppend([Load(RDI, RSP, 0)] + Loads(rs), [Load(RDI, RDI, 40)], s);
      ExecAppend([Load(RDI, RSP, 0)], Loads(rs), s);
      ExecOne(Load(RDI, RSP, 0), s);
      ExecOne(Load(RDI, RDI, 40), s2);
    }
    hide Exec, Loads;
    LoadsEffect(rs, s1);
    LoadsDone(rs, s, s2);
  }

  lemma LoadsDone(rs: seq<Reg>, s: Cpu, s2: Cpu)
    requires AllButRdi(rs) && s2.mem == s.mem
    requires SameRegs(Do(Load(RDI, RSP, 0), s), s2, set r | r in rs)
    requires forall r :: r in rs ==> s2.R(r) == s.M(s.M(s.R(RSP)) + Offset(r))
    ensures
      var s' := Do(Load(RDI, RDI, 40), s2);
      s'.R(RSP) == s.R(RSP) && AtOffsets(s, s.M(s.R(RSP)), s'.regs)
  {
    assert Offset(RDI) == 40;
    hide Offset, Distinct;
    assert RSP !in rs && s2.R(RSP) == s.R(RSP);
  }

  /** The registers of the guest arrive whole, rdi last and through itself. */
  lemma LoadGuestEffect(s: Cpu)
    ensures
      var s', block := Exec(LoadGuest(), s), s.M(s.R(RSP));
      && s'.mem == s.mem && s'.vmcs == s.vmcs && s'.R(RSP) == s.R(RSP)
      && BlockHolds(s, block, s'.regs) && AtOffsets(s, block, s'.regs)
  {
    OrdersComplete();
    LoadGuestIsLoads();
    hide LoadGuest, Exec, Loads;
    LoadAround(LOAD_ORDER, s);
    BlockIsOffsets(s, s.M(s.R(RSP)), Exec(LoadGuest(), s).regs);
  }

  lemma Members(r: Reg)
    ensures r in LOAD_ORDER <==> r != RSP && r != RDI
    ensures r in STORE_ORDER <==> r != RSP && r != RDI
  {
    match r {
      case RAX => assert LOAD_ORDER[13] == r && STORE_ORDER[0] == r;
      case RBX => assert LOAD_ORDER[0] == r && STORE_ORDER[1] == r;
      case RCX => assert LOAD_ORDER[1] == r && STORE_ORDER[2] == r;
      case RDX => assert LOAD_ORDER[2] == r && STORE_ORDER[3] == r;
      case RSI => assert LOAD_ORDER[3] == r && STORE_ORDER[4] == r;
      case RBP => assert LOAD_ORDER[4] == r && STORE_ORDER[5] == r;
      case R8 => assert LOAD_ORDER[5] == r && STORE_ORDER[6] == r;
      case R9 => assert LOAD_ORDER[6] == r && STORE_ORDER[7] == r;
      case R10 => assert LOAD_ORDER[7] == r && STORE_ORDER[8] == r;
      case R11 => assert LOAD_ORDER[8] == r && STORE_ORDER[9] == r;
      case R12 => assert LOAD_ORDER[9] == r && STORE_ORDER[10] == r;
      case R13 => assert LOAD_ORDER[10] == r && STORE_ORDER[11] == r;
      case R14 => assert LOAD_ORDER[11] == r && STORE_ORDER[12] == r;
      case R15 => assert LOAD_ORDER[12] == r && STORE_ORDER[13] == r;
      case RDI =>
      case RSP =>
    }
  }

  lemma LoadOrderDistinct()
    ensures Distinct(LOAD_ORDER)
  {
  }

  lemma StoreOrderDistinct()
    ensures Distinct(STORE_ORDER)
  {
  }

  lemma OrdersComplete()
    ensures AllButRdi(LOAD_ORDER) && AllButRdi(STORE_ORDER)
  {
    LoadOrderDistinct();
    StoreOrderDistinct();
    hide Distinct;
    forall r
      ensures r in LOAD_ORDER <==> r != RSP && r != RDI
      ensures r in STORE_ORDER <==> r != RSP && r != RDI
    {
      Members(r);
    }
  }

  /** The block shares no byte with [lo, hi). */
  ghost predicate Apart(block: nat, lo: nat, hi: nat) {
    block + BLOCK_SIZE <= lo || hi <= block
  }

  /** The guest's rdi goes on the stack, above it lies the block pointer, and rdi takes that. */
  lemma SaveStart(s: Cpu, block: nat)
    requires s.R(RSP) >= 8 && s.M(s.R(RSP)) == block
    ensures
      var s' := Exec(SaveFirst(), s);
      && s'.R(RDI) == block && s'.R(RSP) == s.R(RSP) - 8 && SameRegs(s, s', {RDI, RSP}) && s'.vmcs == s.vmcs
      && forall a: nat :: s'.M(a) == if a == s.R(RSP) - 8 then s.R(RDI) else s.M(a)
  {
    ExecTwo(Push(RDI), Load(RDI, RSP, 8), s);
  }

  /** The guest's rdi and the block pointer come off the stack, and the one goes into the block. */
  lemma SaveEnd(s: Cpu, block: nat, rdi: nat)
    requires s.M(s.R(RSP)) == rdi && s.M(s.R(RSP) + 8) == block
    ensures
      var s' := Exec(SaveLast(), s);
      && s'.R(RSP) == s.R(RSP) + 16 && s'.vmcs == s.vmcs
      && forall a: nat :: s'.M(a) == if a == block + 40 then rdi else s.M(a)
  {
    ExecThree(Pop(R8), Pop(R9), Store(R9, 40, R8), s);
  }

  lemma SaveAround(rs: seq<Reg>, s: Cpu, block: nat)
    requires AllButRdi(rs) && s.R(RSP) >= 8 && s.M(s.R(RSP)) == block
    requires Apart(block, s.R(RSP) - 8, s.R(RSP) + 8)
    ensures
      var s' := Exec(SaveFirst() + Stores(rs) + SaveLast(), s);
      && AtOffsets(s', block, s.regs) && s'.M(block + Offset(RSP)) == s.M(block + Offset(RSP))
      && s'.R(RSP) == s.R(RSP) + 8 && s'.vmcs == s.vmcs
      && forall a: nat :: !(block <= a < block + BLOCK_SIZE) && a != s.R(RSP) - 8 ==> s'.M(a) == s.M(a)
  {
    hide SaveFirst, SaveLast, Stores, Exec, Offset;
    var s2 := Exec(SaveFirst(), s);
    var s3 := Exec(Stores(rs), s2);
    ExecAppend(SaveFirst() + Stores(rs), SaveLast(), s);
    ExecAppend(SaveFirst(), Stores(rs), s);
    SaveStart(s, block);
    StoresEffect(rs, s2);
    OffsetsDiffer();
    SaveEnd(s3, block, s.R(RDI));
    SavedBlock(rs, s, s2, s3, Exec(SaveLast(), s3), block);
  }

  lemma SavedBlock(rs: seq<Reg>, s: Cpu, s2: Cpu, s3: Cpu, s': Cpu, block: nat)
    requires AllButRdi(rs) && SameRegs(s, s2, {RDI, RSP})
    requires s2.M(block + Offset(RSP)) == s.M(block + Offset(RSP))
    requires forall r :: s3.M(block + Offset(r)) == if r in rs then s2.R(r) else s2.M(block + Offset(r))
    requires forall a: nat :: s'.M(a) == if a == block + 40 then s.R(RDI) else s3.M(a)
    ensures AtOffsets(s', block, s.regs) && s'.M(block + Offset(RSP)) == s.M(block + Offset(RSP))
  {
    OffsetsDiffer();
    hide Offset;
    assert forall r :: s'.M(block + Offset(r)) == if r == RDI then s.R(RDI) else s3.M(block + Offset(r));
  }

  /** The exit path stores the guest's fifteen registers into the block whose address is on the stack. */
  lemma SaveGuestEffect(s: Cpu, block: nat)
    requires s.R(RSP) >= 8 && s.M(s.R(RSP)) == block && Apart(block, s.R(RSP) - 8, s.R(RSP) + 8)
    ensures
      var s' := Exec(SaveGuest(), s);
      && BlockHolds(s', block, s.regs) && AtOffsets(s', block, s.regs) && s'.M(block + 120) == s.M(block + 120)
      && s'.R(RSP) == s.R(RSP) + 8 && s'.vmcs == s.vmcs
      && forall a: nat :: !(block <= a < block + BLOCK_SIZE) && a != s.R(RSP) - 8 ==> s'.M(a) == s.M(a)
  {
    OrdersComplete();
    SaveGuestIsStores();
    OffsetsDiffer();
    hide SaveGuest, Exec, Stores, SaveFirst, SaveLast;
    SaveAround(STORE_ORDER, s, block);
    BlockIsOffsets(Exec(SaveGuest(), s), block, s.regs);
  }

  // ---------------------------------------------------------------------------------------
  // vm_resume

  lemma SetHostEffect(s: Cpu)
    requires s.R(RSP) >= 8
    ensures
      var s' := Exec(SetHost(), s);
      && s'.R(RSP) == s.R(RSP) - 8
      && (forall a: nat :: s'.M(a) == if a == s.R(RSP) - 8 then s.R(RDI) else s.M(a))
      && Cell(s'.vmcs, HOST_RSP) == s.R(RSP) - 8 && Cell(s'.vmcs, HOST_RIP) == RES
  {
    var s3 := Do(MovImm(RDX, HOST_RIP), Do(MovImm(RCX, HOST_RSP), Do(Push(RDI), s)));
    ExecThree(Push(RDI), MovImm(RCX, HOST_RSP), MovImm(RDX, HOST_RIP), s);
    ExecThree(VmWrite(RCX, RSP), MovImm(RDI, RES), VmWrite(RDX, RDI), s3);
    ExecAppend([Push(RDI), MovImm(RCX, HOST_RSP), MovImm(RDX, HOST_RIP)],
               [VmWrite(RCX, RSP), MovImm(RDI, RES), VmWrite(RDX, RDI)], s);
    assert SetHost() == [Push(RDI), MovImm(RCX, HOST_RSP), MovImm(RDX, HOST_RIP)]
                        + [VmWrite(RCX, RSP), MovImm(RDI, RES), VmWrite(RDX, RDI)];
  }

  /** Bytes of stack vm_resume uses below the return address. */
  const FRAME := 136

  /** At vmresume the guest's fifteen registers are loaded and everything of the host is on its stack. */
  lemma AtVmResumeEffect(s: Cpu, block: nat)
    requires s.R(RDI) == block && s.R(RSP) >= FRAME && Apart(block, s.R(RSP) - FRAME, s.R(RSP) + 8)
    ensures
      var at, top := AtVmResume(s), s.R(RSP);
      && BlockHolds(s, block, at.regs) && at.R(RSP) == top - 128 && at.M(top - 128) == block
      && GprsSaved(at, top, s)
      && Cell(at.vmcs, 0x6C14) == top - 128 && Cell(at.vmcs, 0x6C16) == RES
      && SameMem(s, at, top - FRAME, top)
  {
    hide Exec, Pushes, SetHost, LoadGuest, Offset, BlockHolds;
    var top := s.R(RSP);
    var s1 := Exec(Pushes(GPRS), s);
    var s2 := Exec(SetHost(), s1);
    ExecAppend(Pushes(GPRS) + SetHost(), LoadGuest(), s);
    ExecAppend(Pushes(GPRS), SetHost(), s);
    PushAllEffect(s);
    SetHostEffect(s1);
    LoadGuestEffect(s2);
    OffsetsDiffer();
    BlockIsOffsets(s, block, AtVmResume(s).regs);
  }

  lemma ReturnEffect(m: Cpu, top: nat, host: Cpu)
    requires m.R(RSP) == top - 120 && GprsSaved(m, top, host)
    ensures
      var s' := Exec(Pops(POP_ORDER) + [Ret], m);
      && (forall r :: r != RSP ==> s'.R(r) == host.R(r)) && s'.R(RSP) == top + 8
      && s'.ip == m.M(top) && s'.mem == m.mem && s'.vmcs == m.vmcs
  {
    ExecAppend(Pops(POP_ORDER), [Ret], m);
    ExecOne(Ret, Exec(Pops(POP_ORDER), m));
    hide Exec, Pops;
    PopAllEffect(m, top, host);
  }

  /**
   One call of vm_resume. At vmresume the fifteen registers are the block's. When the guest ran, the
   block then holds exactly the guest's; when vmresume failed, the block is as it was. Either way the
   host's fifteen registers, its stack pointer and the return address are as at the call, and outside
   the block and the stack frame memory is what the guest left. The guest may write anything, the block
   included, but the host's stack frame.
   */
  lemma VmResumeRoundTrip(s: Cpu, e: Entry, block: nat)
    requires s.R(RDI) == block && s.R(RSP) >= FRAME && Apart(block, s.R(RSP) - FRAME, s.R(RSP) + 8)
    requires Spares(e, AtVmResume(s), s.R(RSP) - 128, s.R(RSP) + 8)
    ensures BlockHolds(s, block, AtVmResume(s).regs)
    ensures
      var s' := VmResume(s, e);
      && BlockHolds(s', block, if e.Exited? then e.guest else AtVmResume(s).regs)
      && s'.M(block + 120) == WordAfter(s, e, block + 120)
      && (forall r :: r != RSP ==> s'.R(r) == s.R(r)) && s'.R(RSP) == s.R(RSP) + 8
      && s'.ip == s.M(s.R(RSP))
      && forall a: nat :: !(block <= a < block + BLOCK_SIZE) && !(s.R(RSP) - FRAME <= a < s.R(RSP)) ==>
           s'.M(a) == WordAfter(s, e, a)
  {
    hide Exec, SaveGuest, Pops, Offset, AtVmResume, BlockHolds;
    var top, at := s.R(RSP), AtVmResume(s);
    AtVmResumeEffect(s, block);
    var m := Enter(at, e, RES);
    assert m.R(RSP) == top - 128 && m.ip == RES;
    assert forall a: nat :: top - 128 <= a < top + 8 ==> m.M(a) == at.M(a);
    var m' := Exec(SaveGuest(), m);
    SaveGuestEffect(m, block);
    assert GprsSaved(m', top, s);
    ExecAppend(SaveGuest(), Pops(POP_ORDER) + [Ret], m);
    assert ResumeExit() == SaveGuest() + (Pops(POP_ORDER) + [Ret]);
    ReturnEffect(m', top, s);
    forall a: nat | !(block <= a < block + BLOCK_SIZE) && !(top - FRAME <= a < top)
      ensures m'.M(a) == WordAfter(s, e, a)
    {
      assert m'.M(a) == m.M(a) == WordAfter(at, e, a);
    }
    OffsetsDiffer();
    BlockIsOffsets(VmResume(s, e), block, if e.Exited? then e.guest else at.regs);
    hide AtOffsets;
    assert AtOffsets(m', block, m.regs);
  }

  // ---------------------------------------------------------------------------------------
  // Over many exits

  /** A call of vm_resume, from the machine as it is at the call. */
  datatype Round = Round(before: Cpu, entry: Entry)

  ghost predicate SameBlock(m: Cpu, m': Cpu, block: nat) {
    forall i: nat :: i < 15 ==> m'.M(block + 8 * i) == m.M(block + 8 * i)
  }

  /** The guest leaves the stack frame of the world switch alone. */
  ghost predicate GuestSparesFrame(r: Round) {
    var top := r.before.R(RSP);
    top >= 128 && Spares(r.entry, AtVmResume(r.before), top - 128, top + 8)
  }

  /**
   A run of the loop, first entered with rsp at top. Between two world switches exit_handler may change
   any registers and any memory, but it passes its block pointer, leaves the block alone, and calls from
   the stack depth it was returned to: the call pushes the eight bytes that ret has popped.
   */
  ghost predicate LoopRun(rounds: seq<Round>, block: nat, top: nat) {
    && top >= FRAME && Apart(block, top - FRAME, top + 8)
    && (rounds != [] ==> rounds[0].before.R(RSP) == top)
    && (forall k :: 0 <= k < |rounds| ==> rounds[k].before.R(RDI) == block && GuestSparesFrame(rounds[k]))
    && (forall k :: 0 <= k < |rounds| - 1 ==>
          var back, next := VmResume(rounds[k].before, rounds[k].entry), rounds[k + 1].before;
          SameBlock(back, next, block) && next.R(RSP) + 8 == back.R(RSP))
  }

  /** The guest's registers at its last exit before round k, or what the block held at first. */
  function LastGuest(rounds: seq<Round>, first: Regs, k: nat): Regs
    requires k <= |rounds|
  {
    if k == 0 then first
    else if rounds[k - 1].entry.Exited? then rounds[k - 1].entry.guest
    else LastGuest(rounds, first, k - 1)
  }

  /**
   Guest continuity: however often the guest leaves, and however often vmresume fails in between, each
   entry gives it the fifteen registers it had when it last left, and every round starts and ends with
   the host's stack where it was in the first.
   */
  lemma {:induction false} GuestContinuity(rounds: seq<Round>, block: nat, top: nat, first: Regs, k: nat)
    requires LoopRun(rounds, block, top) && k < |rounds| && BlockHolds(rounds[0].before, block, first)
    ensures rounds[k].before.R(RSP) == top
    ensures forall r :: r != RSP ==> AtVmResume(rounds[k].before).R(r) == Get(LastGuest(rounds, first, k), r)
    ensures VmResume(rounds[k].before, rounds[k].entry).R(RSP) == top + 8
    ensures BlockHolds(VmResume(rounds[k].before, rounds[k].entry), block, LastGuest(rounds, first, k + 1))
  {
    hide VmResume, AtVmResume, Offset;
    var s := rounds[k].before;
    if k == 0 {
      assert s.R(RSP) == top;
    } else {
      GuestContinuity(rounds, block, top, first, k - 1);
      var back := VmResume(rounds[k - 1].before, rounds[k - 1].entry);
      assert SameBlock(back, rounds[k - 1 + 1].before, block) && s.R(RSP) + 8 == back.R(RSP);
    }
    assert GuestSparesFrame(rounds[k]) && s.R(RDI) == block;
    if k > 0 {
      SameBlockHolds(VmResume(rounds[k - 1].before, rounds[k - 1].entry), s, block, LastGuest(rounds, first, k));
    }
    hide BlockHolds;
    VmResumeRoundTrip(s, rounds[k].entry, block);
    HeldRegs(s, block, AtVmResume(s).regs, LastGuest(rounds, first, k));
  }

  lemma SameBlockHolds(m: Cpu, m': Cpu, block: nat, regs: Regs)
    requires SameBlock(m, m', block) && BlockHolds(m, block, regs)
    ensures BlockHolds(m', block, regs)
  {
    assert forall i: nat :: i < 15 ==> m'.M(block + 8 * i) == m.M(block + 8 * i);
    assert m'.M(block + 8 * 0) == m.M(block) && m'.M(block + 8 * 1) == m.M(block + 8);
    assert m'.M(block + 8 * 2) == m.M(block + 16) && m'.M(block + 8 * 3) == m.M(block + 24);
    assert m'.M(block + 8 * 4) == m.M(block + 32) && m'.M(block + 8 * 5) == m.M(block + 40);
    assert m'.M(block + 8 * 6) == m.M(block + 48) && m'.M(block + 8 * 7) == m.M(block + 56);
    assert m'.M(block + 8 * 8) == m.M(block + 64) && m'.M(block + 8 * 9) == m.M(block + 72);
    assert m'.M(block + 8 * 10) == m.M(block + 80) && m'.M(block + 8 * 11) == m.M(block + 88);
    assert m'.M(block + 8 * 12) == m.M(block + 96) && m'.M(block + 8 * 13) == m.M(block + 104);
    assert m'.M(block + 8 * 14) == m.M(block + 112);
  }

  /** A block holds one set of registers only. */
  lemma HeldRegs(s: Cpu, block: nat, regs: Regs, regs': Regs)
    requires BlockHolds(s, block, regs) && BlockHolds(s, block, regs')
    ensures forall r :: r != RSP ==> Get(regs, r) == Get(regs', r)
  {
    forall r | r != RSP
      ensures Get(regs, r) == Get(regs', r)
    {
      match r {
        case RSP =>
        case _ =>
      }
    }
  }

  // ---------------------------------------------------------------------------------------
  // The first launch

  lemma SetLaunchHost(s: Cpu)
    requires s.R(RSP) >= 8
    ensures
      var s' := Exec(LaunchHost(), s);
      && s'.R(RSP) == s.R(RSP) - 8
      && (forall a: nat :: s'.M(a) == if a == s.R(RSP) - 8 then s.R(RDI) else s.M(a))
      && Cell(s'.vmcs, HOST_RSP) == s.R(RSP) - 8 && Cell(s'.vmcs, HOST_RIP) == HEXIT
      && Cell(s'.vmcs, GUEST_RSP) == s.R(RSP) - 8 && Cell(s'.vmcs, GUEST_RIP) == CONT
  {
    var a := [Push(RDI), MovImm(RCX, HOST_RSP), VmWrite(RCX, RSP)];
    var b := [MovImm(RCX, GUEST_RSP), VmWrite(RCX, RSP)];
    var c := [MovImm(RCX, HOST_RIP), MovImm(RSI, HEXIT), VmWrite(RCX, RSI)];
    var d := [MovImm(RCX, GUEST_RIP), MovImm(RSI, CONT), VmWrite(RCX, RSI)];
    assert LaunchHost() == a + (b + (c + d));
    var s1 := Exec(a, s);
    var s2 := Exec(b, s1);
    var s3 := Exec(c, s2);
    ExecAppend(a, b + (c + d), s);
    ExecAppend(b, c + d, s1);
    ExecAppend(c, d, s2);
    ExecThree(Push(RDI), MovImm(RCX, HOST_RSP), VmWrite(RCX, RSP), s);
    ExecTwo(MovImm(RCX, GUEST_RSP), VmWrite(RCX, RSP), s1);
    ExecThree(MovImm(RCX, HOST_RIP), MovImm(RSI, HEXIT), VmWrite(RCX, RSI), s2);
    ExecThree(MovImm(RCX, GUEST_RIP), MovImm(RSI, CONT), VmWrite(RCX, RSI), s3);
  }

  /** vmlaunch_first up to the jump to exit_handler. */
  function FirstExit(s: Cpu, e: Entry): Cpu {
    var s' := Enter(Exec(LaunchEntry(), s), e, HEXIT);
    if s'.ip == HEXIT then Exec(LaunchExit(), s') else s'
  }

  /** At vmlaunch the guest's registers equal the block, it starts at cont, and the VMCS leads back to hexit. */
  lemma AtLaunchEffect(s: Cpu, block: nat)
    requires s.R(RDI) == block && s.R(RSP) >= 8 && Apart(block, s.R(RSP) - 8, s.R(RSP) + 8)
    ensures
      var at, top := Exec(LaunchEntry(), s), s.R(RSP);
      && BlockHolds(s, block, at.regs) && BlockHolds(at, block, at.regs)
      && at.R(RSP) == top - 8 && at.M(top - 8) == block && at.M(top) == s.M(top)
      && Cell(at.vmcs, 0x6C14) == top - 8 && Cell(at.vmcs, 0x6C16) == HEXIT
      && Cell(at.vmcs, 0x681C) == top - 8 && Cell(at.vmcs, 0x681E) == CONT
  {
    hide Exec, Offset, LoadGuest, LaunchHost, BlockHolds;
    var s1 := Exec(LaunchHost(), s);
    ExecAppend(LaunchHost(), LoadGuest(), s);
    SetLaunchHost(s);
    LoadGuestEffect(s1);
    var at := Exec(LaunchEntry(), s);
    OffsetsDiffer();
    BlockIsOffsets(s, block, at.regs);
    BlockIsOffsets(at, block, at.regs);
  }

  /**
   The first exit saves the guest's registers like the others, but what it leaves in rdi for
   exit_handler is the return address of vmlaunch_first: the handler gets the block exactly when the
   two coincide.
   */
  lemma FirstExitPassesReturnAddress(s: Cpu, e: Entry, block: nat)
    requires s.R(RDI) == block && s.R(RSP) >= 16 && Apart(block, s.R(RSP) - 16, s.R(RSP) + 8)
    requires Spares(e, Exec(LaunchEntry(), s), s.R(RSP) - 8, s.R(RSP) + 8)
    ensures BlockHolds(s, block, Exec(LaunchEntry(), s).regs)
    ensures
      var s' := FirstExit(s, e);
      && BlockHolds(s', block, if e.Exited? then e.guest else Exec(LaunchEntry(), s).regs)
      && s'.R(RDI) == s.M(s.R(RSP)) && s'.R(RSP) == s.R(RSP) + 8
      && (s'.R(RDI) == block <==> s.M(s.R(RSP)) == block)
  {
    hide Exec, SaveGuest, Offset, LaunchEntry, BlockHolds;
    var top, at := s.R(RSP), Exec(LaunchEntry(), s);
    AtLaunchEffect(s, block);
    var m := Enter(at, e, HEXIT);
    assert m.R(RSP) == top - 8 && m.ip == HEXIT;
    assert forall a: nat :: top - 8 <= a < top + 8 ==> m.M(a) == at.M(a);
    SaveGuestEffect(m, block);
    var m' := Exec(SaveGuest(), m);
    ExecAppend(SaveGuest(), [Pop(RDI)], m);
    ExecOne(Pop(RDI), m');
    assert m'.M(top) == s.M(top);
    OffsetsDiffer();
    BlockIsOffsets(FirstExit(s, e), block, if e.Exited? then e.guest else at.regs);
  }
}
