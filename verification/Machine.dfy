/**
 A small interpreter for the instructions the repository's hand-written assembly uses: 64-bit
 registers, memory of 64-bit words by byte address, and VMCS fields.

 Memory cells are whole words, so a caller must show that no two accesses overlap partly: every
 use here touches addresses a multiple of 8 apart, or lies in ranges that are disjoint.
 */
module Machine {

  datatype Reg = RAX | RBX | RCX | RDX | RSI | RDI | RBP | RSP | R8 | R9 | R10 | R11 | R12 | R13 | R14 | R15

  type Regs = map<Reg, nat>

  function Get(regs: Regs, r: Reg): nat {
    if r in regs then regs[r] else 0
  }

  function Cell(mem: map<nat, nat>, a: nat): nat {
    if a in mem then mem[a] else 0
  }

  datatype Cpu = Cpu(regs: Regs, mem: map<nat, nat>, vmcs: map<nat, nat>, ip: nat) {
    function R(r: Reg): nat { Get(regs, r) }
    function M(a: nat): nat { Cell(mem, a) }
    function Set(r: Reg, v: nat): Cpu { this.(regs := regs[r := v]) }
    function Put(a: nat, v: nat): Cpu { this.(mem := mem[a := v]) }
  }

  datatype Instr =
    | Push(r: Reg)
    | PushImm(imm: nat)
    | Pop(r: Reg)
    | MovImm(r: Reg, imm: nat)
    | MovReg(dst: Reg, src: Reg)
    | Load(dst: Reg, base: Reg, off: nat)
    | Store(base: Reg, off: nat, src: Reg)
    | VmWrite(field: Reg, value: Reg)
    | AddRsp(n: nat)
    | Ret

  /** Pushes below address 8 do not happen: the stack is assumed to have room. */
  function Do(i: Instr, s: Cpu): Cpu {
    match i
    case Push(r) => PushWord(s, s.R(r))
    case PushImm(imm) => PushWord(s, imm)
    case Pop(r) => s.Set(RSP, s.R(RSP) + 8).Set(r, s.M(s.R(RSP)))
    case MovImm(r, imm) => s.Set(r, imm)
    case MovReg(dst, src) => s.Set(dst, s.R(src))
    case Load(dst, base, off) => s.Set(dst, s.M(s.R(base) + off))
    case Store(base, off, src) => s.Put(s.R(base) + off, s.R(src))
    case VmWrite(field, value) => s.(vmcs := s.vmcs[s.R(field) := s.R(value)])
    case AddRsp(n) => s.Set(RSP, s.R(RSP) + n)
    case Ret => s.Set(RSP, s.R(RSP) + 8).(ip := s.M(s.R(RSP)))
  }

  function PushWord(s: Cpu, v: nat): Cpu {
    if s.R(RSP) < 8 then s else s.Set(RSP, s.R(RSP) - 8).Put(s.R(RSP) - 8, v)
  }

  function Exec(code: seq<Instr>, s: Cpu): Cpu {
    if code == [] then s else Exec(code[1..], Do(code[0], s))
  }

  lemma {:induction false} ExecAppend(a: seq<Instr>, b: seq<Instr>, s: Cpu)
    ensures Exec(a + b, s) == Exec(b, Exec(a, s))
  {
    if a == [] {
      assert a + b == b;
    } else {
      assert (a + b)[1..] == a[1..] + b;
      ExecAppend(a[1..], b, Do(a[0], s));
    }
  }

  lemma ExecOne(i: Instr, s: Cpu)
    ensures Exec([i], s) == Do(i, s)
  {
  }

  lemma ExecTwo(i: Instr, j: Instr, s: Cpu)
    ensures Exec([i, j], s) == Do(j, Do(i, s))
  {
    assert [i, j] == [i] + [j];
    ExecAppend([i], [j], s);
    ExecOne(i, s);
    ExecOne(j, Do(i, s));
  }

  lemma ExecThree(i: Instr, j: Instr, k: Instr, s: Cpu)
    ensures Exec([i, j, k], s) == Do(k, Do(j, Do(i, s)))
  {
    assert [i, j, k] == [i, j] + [k];
    ExecAppend([i, j], [k], s);
    ExecTwo(i, j, s);
    ExecOne(k, Do(j, Do(i, s)));
  }

  // ---------------------------------------------------------------------------------------
  // Runs of one instruction

  function Pushes(rs: seq<Reg>): seq<Instr> { seq(|rs|, i requires 0 <= i < |rs| => Push(rs[i])) }

  function Pops(rs: seq<Reg>): seq<Instr> { seq(|rs|, i requires 0 <= i < |rs| => Pop(rs[i])) }

  ghost predicate Distinct(rs: seq<Reg>) {
    && RSP !in rs
    && forall i, j :: 0 <= i < j < |rs| ==> rs[i] != rs[j]
  }

  /** The registers of two states agree except on some. */
  ghost predicate SameRegs(s: Cpu, s': Cpu, but: set<Reg>) {
    forall r :: r !in but ==> s'.R(r) == s.R(r)
  }

  /** Memory agrees outside [lo, hi). */
  ghost predicate SameMem(s: Cpu, s': Cpu, lo: nat, hi: nat) {
    forall a: nat :: !(lo <= a < hi) ==> s'.M(a) == s.M(a)
  }

  lemma {:induction false} PushesEffect(rs: seq<Reg>, s: Cpu)
    requires RSP !in rs && 8 * |rs| <= s.R(RSP)
    ensures
      var s' := Exec(Pushes(rs), s);
      && s'.R(RSP) == s.R(RSP) - 8 * |rs| && SameRegs(s, s', {RSP}) && s'.vmcs == s.vmcs
      && SameMem(s, s', s.R(RSP) - 8 * |rs|, s.R(RSP))
      && forall i :: 0 <= i < |rs| ==> s'.M(s.R(RSP) - 8 * (i + 1)) == s.R(rs[i])
  {
    if rs == [] {
    } else {
      var s1 := Do(Push(rs[0]), s);
      assert Pushes(rs)[1..] == Pushes(rs[1..]);
      PushesEffect(rs[1..], s1);
      var s' := Exec(Pushes(rs), s);
      forall i | 0 <= i < |rs|
        ensures s'.M(s.R(RSP) - 8 * (i + 1)) == s.R(rs[i])
      {
        if i > 0 {
          assert s'.M(s1.R(RSP) - 8 * ((i - 1) + 1)) == s1.R(rs[1..][i - 1]);
        }
      }
    }
  }

  lemma HeadAndTail(rs: seq<Reg>)
    requires Distinct(rs) && rs != []
    ensures Distinct(rs[1..]) && rs[0] !in rs[1..] && rs[0] != RSP
    ensures forall r :: r in rs <==> r == rs[0] || r in rs[1..]
  {
  }

  lemma PopOne(r: Reg, s: Cpu)
    requires r != RSP
    ensures
      var s1 := Do(Pop(r), s);
      && s1.R(RSP) == s.R(RSP) + 8 && s1.R(r) == s.M(s.R(RSP)) && s1.mem == s.mem && s1.vmcs == s.vmcs && s1.ip == s.ip
      && forall q :: q != RSP && q != r ==> s1.R(q) == s.R(q)
  {
  }

  lemma PopsStep(rs: seq<Reg>, s: Cpu)
    ensures rs == [] ==> Exec(Pops(rs), s) == s
    ensures rs != [] ==> Exec(Pops(rs), s) == Exec(Pops(rs[1..]), Do(Pop(rs[0]), s))
  {
    if rs != [] {
      assert Pops(rs)[0] == Pop(rs[0]) && Pops(rs)[1..] == Pops(rs[1..]);
    }
  }

  lemma {:induction false} PopsEffect(rs: seq<Reg>, s: Cpu)
    requires Distinct(rs)
    ensures
      var s' := Exec(Pops(rs), s);
      && s'.R(RSP) == s.R(RSP) + 8 * |rs| && s'.mem == s.mem && s'.vmcs == s.vmcs && s'.ip == s.ip
      && (forall r :: r != RSP && r !in rs ==> s'.R(r) == s.R(r))
      && forall i :: 0 <= i < |rs| ==> s'.R(rs[i]) == s.M(s.R(RSP) + 8 * i)
  {
    hide Exec, Pops, Do, Distinct;
    PopsStep(rs, s);
    if rs == [] {
    } else {
      HeadAndTail(rs);
      PopOne(rs[0], s);
      var s1 := Do(Pop(rs[0]), s);
      PopsEffect(rs[1..], s1);
      var s' := Exec(Pops(rs), s);
      forall i | 0 <= i < |rs|
        ensures s'.R(rs[i]) == s.M(s.R(RSP) + 8 * i)
      {
        if i > 0 {
          assert s'.R(rs[1..][i - 1]) == s1.M(s1.R(RSP) + 8 * (i - 1));
        }
      }
    }
  }

  /** The fifteen general registers, in the order every save sequence of the repository pushes them. */
  const GPRS: seq<Reg> := [RAX, RBX, RCX, RDX, RSI, RDI, RBP, R8, R9, R10, R11, R12, R13, R14, R15]
  const POP_ORDER: seq<Reg> := [R15, R14, R13, R12, R11, R10, R9, R8, RBP, RDI, RSI, RDX, RCX, RBX, RAX]

  function Position(r: Reg): (i: nat)
    ensures r != RSP ==> i < 15
  {
    match r
    case RAX => 0 case RBX => 1 case RCX => 2 case RDX => 3 case RSI => 4 case RDI => 5 case RBP => 6
    case R8 => 7 case R9 => 8 case R10 => 9 case R11 => 10 case R12 => 11 case R13 => 12 case R14 => 13 case R15 => 14
    case RSP => 15
  }

  /** The fifteen registers of a machine, pushed one after another below top. */
  ghost predicate GprsSaved(m: Cpu, top: nat, saved: Cpu) {
    top >= 120 && forall r :: r != RSP ==> m.M(top - 8 * (Position(r) + 1)) == saved.R(r)
  }

  lemma Orders()
    ensures |GPRS| == |POP_ORDER| == 15 && RSP !in GPRS && Distinct(POP_ORDER)
  {
    PopOrderDistinct();
    hide Distinct;
  }

  lemma PopOrderDistinct()
    ensures Distinct(POP_ORDER)
  {
    hide Position;
    forall i, j | 0 <= i < j < |POP_ORDER|
      ensures POP_ORDER[i] != POP_ORDER[j]
    {
      PopPosition(i);
      PopPosition(j);
    }
  }

  lemma PopPosition(i: nat)
    requires i < |POP_ORDER|
    ensures Position(POP_ORDER[i]) == 14 - i
  {
  }

  lemma PositionIn(r: Reg)
    requires r != RSP
    ensures GPRS[Position(r)] == r == POP_ORDER[14 - Position(r)]
  {
  }

  lemma PushAllEffect(s: Cpu)
    requires s.R(RSP) >= 120
    ensures
      var s' := Exec(Pushes(GPRS), s);
      && s'.R(RSP) == s.R(RSP) - 120 && SameRegs(s, s', {RSP}) && s'.vmcs == s.vmcs
      && GprsSaved(s', s.R(RSP), s) && SameMem(s, s', s.R(RSP) - 120, s.R(RSP))
  {
    hide *;
    Orders();
    PushesEffect(GPRS, s);
    var s' := Exec(Pushes(GPRS), s);
    forall r | r != RSP
      ensures s'.M(s.R(RSP) - 8 * (Position(r) + 1)) == s.R(r)
    {
      PositionIn(r);
    }
    SavedByWords(s', s.R(RSP), s);
  }

  lemma SavedByWords(m: Cpu, top: nat, saved: Cpu)
    requires top >= 120 && forall r :: r != RSP ==> m.M(top - 8 * (Position(r) + 1)) == saved.R(r)
    ensures GprsSaved(m, top, saved)
  {
  }

  lemma SavedWord(m: Cpu, top: nat, saved: Cpu, r: Reg)
    requires GprsSaved(m, top, saved) && r != RSP
    ensures top >= 120 && m.M(top - 8 * (Position(r) + 1)) == saved.R(r)
  {
  }

  lemma PopAllEffect(m: Cpu, top: nat, saved: Cpu)
    requires m.R(RSP) == top - 120 && GprsSaved(m, top, saved)
    ensures
      var s' := Exec(Pops(POP_ORDER), m);
      && s'.R(RSP) == top && s'.mem == m.mem && s'.vmcs == m.vmcs && s'.ip == m.ip
      && forall r :: r != RSP ==> s'.R(r) == saved.R(r)
  {
    hide *;
    Orders();
    PopsEffect(POP_ORDER, m);
    var s' := Exec(Pops(POP_ORDER), m);
    forall r | r != RSP
      ensures s'.R(r) == saved.R(r)
    {
      var i := 14 - Position(r);
      PositionIn(r);
      SavedWord(m, top, saved, r);
      assert s'.R(POP_ORDER[i]) == m.M(m.R(RSP) + 8 * i);
    }
  }
}
