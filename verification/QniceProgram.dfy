/** The assembler and the processor agree on where instructions lie and end
    (assembler/qasm.c, emulator/qnice.c). */
module QniceProgram {
  import opened Arithmetic
  import opened Options
  import opened Qnice
  import A = Assembler

  // ----- what the parts of an instruction do to the PC -----

  lemma PcAfterWrite(regs: seq<nat>, r: nat, v: nat)
    requires |regs| == REGISTERS
    ensures ReadRegister(WriteRegister(regs, r, v), PC) == if r % 16 == PC then v % WORD else ReadRegister(regs, PC)
  {
    hide ReadRegister, WriteRegister;
    if r % 16 == PC {
      ReadWritten(regs, r, v);
      SamePc(WriteRegister(regs, r, v), r);
    } else {
      ReadOther(regs, r, v, PC);
    }
  }

  lemma SamePc(regs: seq<nat>, r: nat)
    requires |regs| == REGISTERS && r % 16 == PC
    ensures ReadRegister(regs, r) == ReadRegister(regs, PC)
  {
  }

  /** Writing the PC leaves every other register. */
  lemma OtherThanPc(regs: seq<nat>, v: nat, b: nat)
    requires |regs| == REGISTERS && b < 15
    ensures ReadRegister(WriteRegister(regs, PC, v), b) == ReadRegister(regs, b)
  {
    hide Bank, WithLsb;
  }

  /** By how much an operand of that mode moves the PC when it is used up. */
  function Step(mode: nat, r: nat): nat {
    if mode == 2 && r == PC then 1 else 0
  }

  predicate SourceFollows(mode: nat, r: nat) {
    r == PC ==> mode != 3
  }

  predicate DestFollows(mode: nat, r: nat) {
    r == PC ==> mode == 1 || mode == 2
  }

  lemma SourcePc(s: State, mode: nat, r: nat, suppress: bool, dev: Devices)
    requires HasSizes(s) && mode < 4 && r < 16 && SourceFollows(mode, r)
    ensures Pc(ReadSourceOperand(s, mode, r, suppress, dev).1) == (Pc(s) + if suppress then 0 else Step(mode, r)) % WORD
  {
    hide ReadRegister, WriteRegister, ReadMemory;
    PcAfterWrite(s.regs, r, ReadRegister(s.regs, r) + 1);
    PcAfterWrite(s.regs, r, ReadRegister(s.regs, r) + MINUS_ONE);
  }

  lemma DestPc(s: State, mode: nat, r: nat, value: nat, suppress: bool)
    requires HasSizes(s) && mode < 4 && r < 16 && DestFollows(mode, r)
    ensures Pc(WriteDestination(s, mode, r, value, suppress)) == (Pc(s) + Step(mode, r)) % WORD
  {
    hide ReadRegister, WriteRegister;
    PcAfterWrite(s.regs, r, value);
    PcAfterWrite(s.regs, r, ReadRegister(s.regs, r) + 1);
    PcAfterWrite(s.regs, r, ReadRegister(s.regs, r) + MINUS_ONE);
  }

  lemma StatusPc(s: State, r: nat, value: nat)
    requires HasSizes(s) && r < PC
    ensures Pc(SetRegister(s, r, value)) == Pc(s)
  {
    hide ReadRegister, WriteRegister;
    PcAfterWrite(s.regs, r, value);
  }

  predicate Follows(i: nat) {
    SourceFollows(SourceMode(i), SourceRegister(i)) && DestFollows(DestMode(i), DestRegister(i))
  }

  function SourceStep(i: nat): nat {
    Step(SourceMode(i), SourceRegister(i))
  }

  function DestStep(i: nat): nat {
    Step(DestMode(i), DestRegister(i))
  }

  lemma OneOperandPc(s: State, i: nat, dev: Devices)
    requires HasSizes(s) && Follows(i)
    ensures Pc(OneOperand(s, i, dev)) == (Pc(s) + SourceStep(i) + DestStep(i)) % WORD
  {
    hide ReadRegister, WriteRegister, ReadSourceOperand, WriteDestination, StatusBits;
    var (s0, s1) := ReadSourceOperand(s, SourceMode(i), SourceRegister(i), false, dev);
    SourcePc(s, SourceMode(i), SourceRegister(i), false, dev);
    var value := if Opcode(i) == 0 then s0 else if Opcode(i) == 7 then s0 / 256 + s0 % 256 * 256 else 0xffff - s0;
    StatusPc(s1, SR, StatusBits(Status(s1), value, s0, s0, LOGIC, false));
    DestPc(UpdateStatusBits(s1, value, s0, s0, LOGIC, false), DestMode(i), DestRegister(i), value, false);
  }

  lemma TwoOperandsPc(s: State, i: nat, dev: Devices)
    requires HasSizes(s) && Follows(i)
    ensures Pc(TwoOperands(s, i, dev)) == (Pc(s) + SourceStep(i) + DestStep(i)) % WORD
  {
    hide ReadRegister, WriteRegister, ReadSourceOperand, WriteDestination, StatusBits, Combined;
    var (src1, t1) := ReadSourceOperand(s, SourceMode(i), SourceRegister(i), false, dev);
    SourcePc(s, SourceMode(i), SourceRegister(i), false, dev);
    var (src0, t2) := ReadSourceOperand(t1, DestMode(i), DestRegister(i), true, dev);
    SourcePc(t1, DestMode(i), DestRegister(i), true, dev);
    var value := Combined(Opcode(i), src0, src1, BitOf(Status(t2), 4));
    var keep := if Opcode(i) <= 4 then ALL else LOGIC;
    StatusPc(t2, SR, StatusBits(Status(t2), value, src0, src1, keep, Opcode(i) <= 4));
    DestPc(UpdateStatusBits(t2, value, src0, src1, keep, Opcode(i) <= 4), DestMode(i), DestRegister(i), value, true);
  }

  /** A shift by nothing does not use up its destination. */
  lemma ShiftPc(s: State, i: nat, dev: Devices)
    requires HasSizes(s) && Follows(i)
    ensures var count := ReadSourceOperand(s, SourceMode(i), SourceRegister(i), false, dev).0;
      Pc(Shift(s, i, dev)) == (Pc(s) + SourceStep(i) + if count == 0 then 0 else DestStep(i)) % WORD
  {
    hide ReadRegister, WriteRegister, ReadSourceOperand, WriteDestination, StatusBits, ShiftLeft, ShiftRight, SetBit;
    var (count, t1) := ReadSourceOperand(s, SourceMode(i), SourceRegister(i), false, dev);
    SourcePc(s, SourceMode(i), SourceRegister(i), false, dev);
    var (x, t2) := ReadSourceOperand(t1, DestMode(i), DestRegister(i), true, dev);
    SourcePc(t1, DestMode(i), DestRegister(i), true, dev);
    if count == 0 {
      StatusPc(t2, SR, StatusBits(Status(t2), x, count, count, SHIFT, false));
    } else {
      var sr := Status(t2);
      var (y, flag) := if Opcode(i) == 5 then ShiftLeft(x, count, BitOf(sr, 2)) else ShiftRight(x, count, BitOf(sr, 4));
      var v := SetBit(sr, if Opcode(i) == 5 then 4 else 2, flag);
      StatusPc(t2, SR, v);
      var t3 := SetRegister(t2, SR, v);
      DestPc(t3, DestMode(i), DestRegister(i), y, false);
      var t4 := WriteDestination(t3, DestMode(i), DestRegister(i), y, false);
      StatusPc(t4, SR, StatusBits(Status(t4), y, count, count, SHIFT, false));
    }
  }

  lemma ComparePc(s: State, i: nat, dev: Devices)
    requires HasSizes(s)
    requires SourceFollows(SourceMode(i), SourceRegister(i)) && SourceFollows(DestMode(i), DestRegister(i))
    ensures Pc(Compare(s, i, dev)) == (Pc(s) + SourceStep(i) + DestStep(i)) % WORD
  {
    hide ReadRegister, WriteRegister, ReadSourceOperand, Compared;
    var (s0, t1) := ReadSourceOperand(s, SourceMode(i), SourceRegister(i), false, dev);
    SourcePc(s, SourceMode(i), SourceRegister(i), false, dev);
    var (s1, t2) := ReadSourceOperand(t1, DestMode(i), DestRegister(i), false, dev);
    SourcePc(t1, DestMode(i), DestRegister(i), false, dev);
    StatusPc(t2, SR, WithLsb(Compared(Status(t2), s0, s1)));
  }

  /** INT, INCRB and DECRB. */
  lemma ControlPc(s: State, i: nat, dev: Devices)
    requires HasSizes(s) && 2 <= ControlCode(i) <= 4
    requires ControlCode(i) == 2 ==> !s.active && DestFollows(DestMode(i), DestRegister(i))
    ensures Pc(Control(s, i, dev).0) == (Pc(s) + if ControlCode(i) == 2 then DestStep(i) else 0) % WORD
    ensures !Control(s, i, dev).1
  {
    hide ReadRegister, WriteRegister, ReadSourceOperand, WriteDestination;
    if ControlCode(i) == 2 {
      var (a, t1) := ReadSourceOperand(s, DestMode(i), DestRegister(i), true, dev);
      SourcePc(s, DestMode(i), DestRegister(i), true, dev);
      DestPc(t1.(address := a), DestMode(i), DestRegister(i), a, true);
    } else {
      StatusPc(s, SR, Status(s) % 256 + (Status(s) / 256 + 1) % 256 * 256);
      StatusPc(s, SR, Status(s) % 256 + (Status(s) / 256 + 255) % 256 * 256);
    }
  }

  /** A branch: not taken, absolute, relative to the instruction behind it; and what a
      subroutine call leaves on the stack. */
  lemma BranchPc(s: State, i: nat, dev: Devices)
    requires HasSizes(s) && SourceFollows(SourceMode(i), SourceRegister(i))
    ensures var (dest, t1) := ReadSourceOperand(s, SourceMode(i), SourceRegister(i), false, dev);
      var next := (Pc(s) + SourceStep(i)) % WORD;
      var t := Branch(s, i, dev);
      && Pc(t) == (if !Condition(Status(t1), i) then next else if i / 16 % 4 < 2 then dest else (next + dest) % WORD)
      && (Condition(Status(t1), i) && i / 16 % 4 % 2 == 1 ==> Pushed(t1, t, next))
  {
    hide ReadRegister, WriteRegister, ReadSourceOperand, Condition, Push, Pushed;
    var (dest, t1) := ReadSourceOperand(s, SourceMode(i), SourceRegister(i), false, dev);
    SourcePc(s, SourceMode(i), SourceRegister(i), false, dev);
    if Condition(Status(t1), i) {
      var kind := i / 16 % 4;
      var t2 := if kind % 2 == 0 then t1 else Push(t1);
      var target := if kind < 2 then dest else Pc(t2) + dest;
      PcAfterWrite(t2.regs, PC, target);
      if kind % 2 == 1 { PushKeepsPc(t1, target); }
    }
  }

  /** The stack pointer went down by one; it points to a word that holds v. */
  ghost predicate Pushed(s: State, t: State, v: nat) {
    HasSizes(s) && HasSizes(t) &&
    var sp := ReadRegister(t.regs, SP);
    sp == (ReadRegister(s.regs, SP) + MINUS_ONE) % WORD && (sp < IO_AREA_START ==> t.mem[sp] == v)
  }

  lemma PushKeepsPc(s: State, target: nat)
    requires HasSizes(s)
    ensures Pc(Push(s)) == Pc(s) && Pushed(s, SetRegister(Push(s), PC, target), Pc(s))
  {
    hide ReadRegister, WriteRegister;
    var d := ReadRegister(s.regs, SP) + MINUS_ONE;
    PcAfterWrite(s.regs, SP, d);
    ReadWritten(s.regs, SP, d);
    var t := Push(s);
    assert t.regs == WriteRegister(s.regs, SP, d);
    OtherThanPc(t.regs, target, SP);
    assert Pc(s) % WORD == Pc(s);
  }

  // ----- the processor at a line of an assembled source -----

  function Word(v: int): (w: nat)
    ensures w < WORD
  {
    v % WORD
  }

  lemma WordSum(x: int, y: int)
    ensures (Word(x) + Word(y)) % WORD == Word(x + y) && (Word(x) + y % WORD) % WORD == Word(x + y)
    ensures Word(y % WORD) == Word(y)
  {
    var w: int := (Word(x) + Word(y)) % WORD;
    var q := x / WORD + y / WORD + (Word(x) + Word(y)) / WORD;
    DivModUnique(x + y, WORD, q, w);
  }

  lemma WordStep(x: int, d: nat)
    ensures (Word(x) + d) % WORD == Word(x + d)
  {
    WordSum(x, d);
    DivModUnique(Word(x) + d, WORD, (Word(x) + d % WORD) / WORD + d / WORD, (Word(x) + d % WORD) % WORD);
  }

  /** Where the entry behind line k lies. */
  function Next(source: seq<A.Line>, k: nat): int
    requires k < |source|
  {
    A.Position(source, k) + A.Size(source, k)
  }

  ghost predicate Fine(source: seq<A.Line>, k: nat) {
    k < |source| && A.Accepted(source, k) && A.Known(source, k)
  }

  /** The words of line k lie in memory where the assembler has put them, the PC points
      there and no interrupt waits to be served. */
  ghost predicate AtLine(s: State, source: seq<A.Line>, k: nat) {
    && HasSizes(s) && Fine(source, k) && A.Code(source, k) != []
    && Pc(s) == Word(A.Position(source, k)) && !(s.request && !s.active)
    && forall i :: 0 <= i < |A.Code(source, k)| ==> Holds(s, A.Position(source, k) + i, A.Code(source, k)[i])
  }

  ghost predicate Holds(s: State, a: int, w: int)
    requires HasSizes(s)
  {
    Word(a) < IO_AREA_START && s.mem[Word(a)] == Word(w)
  }

  function Mode(o: A.Operand): nat {
    A.OperandCode(o) % 4
  }

  function Number(o: A.Operand): nat {
    A.OperandCode(o) / 4
  }

  lemma CodeParts(o: A.Operand)
    requires A.Legal(o)
    ensures A.OperandCode(o) == 4 * Number(o) + Mode(o) && Mode(o) < 4 && Number(o) < 16
    ensures o.Immediate? ==> Mode(o) == 2 && Number(o) == PC && Step(Mode(o), Number(o)) == 1
    ensures !o.Immediate? ==> Number(o) == o.r
  {
  }

  /** Two six-bit operands behind an opcode. */
  lemma SourceFields(i: nat, op: nat, src: nat, dst: nat)
    requires op < 16 && src < 64 && dst < 64 && i == op * 0x1000 + src * 64 + dst
    ensures i < WORD && Opcode(i) == op && SourceMode(i) == src % 4 && SourceRegister(i) == src / 4
  {
    DivModUnique(i, 0x1000, op, src * 64 + dst);
    DivModUnique(i, 64, op * 64 + src, dst);
    DivModUnique(i, 256, op * 16 + src / 4, src % 4 * 64 + dst);
  }

  lemma DestFields(i: nat, high: nat, dst: nat)
    requires dst < 64 && i == high * 64 + dst
    ensures DestMode(i) == dst % 4 && DestRegister(i) == dst / 4
  {
    DivModUnique(i, 4, high * 16 + dst / 4, dst % 4);
  }

  /** The fields of an instruction word are those the assembler has put in. */
  lemma NormalFields(op: A.NormalCode, src: A.Operand, dst: A.Operand)
    requires A.Legal(src) && A.Legal(dst)
    ensures var i := A.NormalHead(op, src, dst);
      && 0 <= i < WORD && Opcode(i) == op
      && SourceMode(i) == Mode(src) && SourceRegister(i) == Number(src)
      && DestMode(i) == Mode(dst) && DestRegister(i) == Number(dst)
  {
    hide A.OperandCode, Opcode, SourceMode, SourceRegister, DestMode, DestRegister;
    SourceFields(A.NormalHead(op, src, dst), op, A.OperandCode(src), A.OperandCode(dst));
    DestFields(A.NormalHead(op, src, dst), op * 64 + A.OperandCode(src), A.OperandCode(dst));
  }

  lemma JumpFields(kind: A.Kind, target: A.Operand, negate: bool, flag: nat)
    requires A.Legal(target) && flag <= 7
    ensures var i := A.JumpHead(kind, target, negate, flag);
      && 0 <= i < WORD && Opcode(i) == 15 && SourceMode(i) == Mode(target) && SourceRegister(i) == Number(target)
      && i / 16 % 4 == kind && (BitOf(i, 8) == 1 <==> negate) && i % 8 == flag
  {
    hide A.OperandCode, Opcode, SourceMode, SourceRegister;
    var low := kind * 16 + (if negate then 8 else 0) + flag;
    SourceFields(A.JumpHead(kind, target, negate, flag), 15, A.OperandCode(target), low);
    LowFields(A.JumpHead(kind, target, negate, flag), 15 * 64 + A.OperandCode(target), kind, negate, flag);
  }

  lemma LowFields(i: nat, high: nat, kind: nat, negate: bool, flag: nat)
    requires kind < 4 && flag <= 7 && i == high * 64 + kind * 16 + (if negate then 8 else 0) + flag
    ensures i / 16 % 4 == kind && (BitOf(i, 8) == 1 <==> negate) && i % 8 == flag
  {
    var bit := if negate then 1 else 0;
    DivModUnique(i, 16, high * 4 + kind, 8 * bit + flag);
    DivModUnique(i, 8, 2 * (high * 4 + kind) + bit, flag);
    KindField(i / 16, high, kind);
    FlagField(i / 8, high * 4 + kind, bit);
  }

  lemma KindField(q: nat, high: nat, kind: nat)
    requires q == high * 4 + kind && kind < 4
    ensures q % 4 == kind
  {
    DivModUnique(q, 4, high, kind);
  }

  lemma FlagField(q: nat, high: nat, bit: nat)
    requires q == 2 * high + bit && bit <= 1
    ensures q % 2 == bit
  {
  }

  lemma ControlFields(code: A.ControlCode, arg: A.Operand)
    requires code == A.INT ==> A.Legal(arg)
    ensures var i := A.ControlHead(code, arg);
      && 0 <= i < WORD && Opcode(i) == 14 && ControlCode(i) == code
      && (code == A.INT ==> DestMode(i) == Mode(arg) && DestRegister(i) == Number(arg))
  {
    hide A.OperandCode;
    if code == A.INT { CodeParts(arg); }
  }

  /** What is fetched at line k is the first of its words. */
  lemma Fetches(s: State, source: seq<A.Line>, k: nat, dev: Devices)
    requires AtLine(s, source, k)
    ensures Enter(s) == s && ReadMemory(s, Pc(s), dev) == Word(A.Code(source, k)[0])
    ensures Pc(Fetched(s)) == Word(A.Position(source, k) + 1) && Fetched(s).mem == s.mem
  {
    hide ReadRegister, WriteRegister, A.Code, A.Position, A.Accepted, A.Known;
    PcAfterWrite(s.regs, PC, Pc(s) + 1);
  }

  /** A register less one; the low bit of the status register cannot be cleared. */
  function Lowered(s: State, r: nat): nat
    requires HasSizes(s)
  {
    var v := (ReadRegister(s.regs, r) + MINUS_ONE) % WORD;
    if r == SR then WithLsb(v) else v
  }

  /** The value that an operand stands for when the PC is past the instruction word. */
  function OperandValue(s: State, source: seq<A.Line>, o: A.Operand, dev: Devices): nat
    requires HasSizes(s) && A.Legal(o) && A.Resolved(source, o)
  {
    match o
    case Register(r) => ReadRegister(s.regs, r)
    case Indirect(r) => ReadMemory(s, ReadRegister(s.regs, r), dev)
    case PostIncrement(r) => ReadMemory(s, ReadRegister(s.regs, r), dev)
    case PreDecrement(r) => ReadMemory(s, Lowered(s, r), dev)
    case Immediate(v) => Word(A.Resolve(source, v).value)
  }

  /** The processor reads what the operand stands for. */
  lemma OperandRead(s: State, source: seq<A.Line>, o: A.Operand, dev: Devices)
    requires HasSizes(s) && A.Legal(o) && A.Resolved(source, o)
    requires o.Immediate? ==>
      Pc(s) < IO_AREA_START && s.mem[Pc(s)] == Word(A.Resolve(source, o.v).value)
    ensures ReadSourceOperand(s, Mode(o), Number(o), false, dev).0 == OperandValue(s, source, o, dev)
  {
    hide WriteRegister, A.Resolve, ReadRegister, ReadMemory;
    CodeParts(o);
    match o
    case Register(_) =>
    case Indirect(_) =>
    case PostIncrement(_) =>
    case PreDecrement(r) => Decremented(s, r, dev);
    case Immediate(_) => MemoryWord(s, dev);
  }

  lemma Decremented(s: State, r: nat, dev: Devices)
    requires HasSizes(s) && r < 16
    ensures var t := Bump(s, r, MINUS_ONE);
      ReadMemory(t, ReadRegister(t.regs, r), dev) == ReadMemory(s, Lowered(s, r), dev)
  {
    hide ReadRegister, WriteRegister;
    ReadWritten(s.regs, r, ReadRegister(s.regs, r) + MINUS_ONE);
  }

  lemma MemoryWord(s: State, dev: Devices)
    requires HasSizes(s) && Pc(s) < IO_AREA_START && s.mem[Pc(s)] < WORD
    ensures ReadMemory(s, ReadRegister(s.regs, PC), dev) == s.mem[Pc(s)]
  {
  }

  /** Explicit operands leave the PC alone, and a constant does not meet a name. */
  predicate AvoidsPc(op: A.NormalCode, src: A.Operand, dst: A.Operand) {
    && NotStepped(src) && NotStepped(dst)
    && (op != 12 && dst.Register? ==> dst.r != PC)
    && !A.Mixed(src, dst)
  }

  predicate NotStepped(o: A.Operand) {
    o.PostIncrement? || o.PreDecrement? ==> o.r != PC
  }

  lemma OperandSteps(o: A.Operand)
    requires A.Legal(o) && NotStepped(o)
    ensures Mode(o) < 4 && Number(o) < 16 && Step(Mode(o), Number(o)) == A.Extra(o) && SourceFollows(Mode(o), Number(o))
    ensures (o.Register? ==> o.r != PC) ==> DestFollows(Mode(o), Number(o))
  {
  }

  predicate IsShift(op: A.NormalCode) {
    op == 5 || op == 6
  }

  /** A shift by nothing whose destination is an immediate. */
  ghost predicate ShiftsConstantByNothing(s: State, source: seq<A.Line>, k: nat, dev: Devices)
    requires HasSizes(s) && Fine(source, k) && source[k].body.Normal?
  {
    var b := source[k].body;
    IsShift(b.op) && b.dst.Immediate? && OperandValue(Fetched(s), source, b.src, dev) == 0
  }

  /** An instruction ends where the next entry begins. The one exception is a shift by
      nothing of an immediate, which then runs into the constant. */
  lemma InstructionEnds(s: State, source: seq<A.Line>, k: nat, dev: Devices)
    requires AtLine(s, source, k) && source[k].body.Normal?
    requires var b := source[k].body; AvoidsPc(b.op, b.src, b.dst)
    ensures !Execute(s, dev).1
    ensures Pc(Execute(s, dev).0) == Word(Next(source, k) - if ShiftsConstantByNothing(s, source, k, dev) then 1 else 0)
  {
    hide ReadRegister, WriteRegister, ReadMemory, ReadSourceOperand, Perform, A.Position, A.OperandCode, A.NormalHead,
      Pc, Fetched, OperandValue, A.Code, A.Accepted, A.Known, Mode, Number, Opcode, SourceMode, SourceRegister,
      DestMode, DestRegister, Step, Word, A.Size, Next, Execute;
    var b := source[k].body;
    NormalAtLine(s, source, k, dev);
    OperandSteps(b.src);
    OperandSteps(b.dst);
    PerformEnds(Fetched(s), A.NormalHead(b.op, b.src, b.dst), dev);
    var nothing := ShiftsConstantByNothing(s, source, k, dev);
    WordStep(A.Position(source, k) + 1, A.Extra(b.src) + if nothing then 0 else A.Extra(b.dst));
    NormalSize(source, k);
  }

  /** SHL R0, 7 */
  const SHIFT_LINE := A.Line("", A.Normal(5, A.Register(0), A.Immediate(A.Number(7))))

  /** Memory and registers hold 0, but for that line at address 0. */
  function Loaded(): State {
    State(seq(REGISTERS, _ => 0),
          seq(WORD, i => if i == 0 then A.NormalHead(SHIFT_LINE.body.op, SHIFT_LINE.body.src, SHIFT_LINE.body.dst)
                         else if i == 1 then 7 else 0),
          false, false, 0, 0, 0)
  }

  /** An example: it takes two words and leaves the PC at 1, at its own constant. */
  lemma ShiftRunsIntoConstant(dev: Devices)
    ensures AtLine(Loaded(), [SHIFT_LINE], 0) && Next([SHIFT_LINE], 0) == 2
    ensures Pc(Execute(Loaded(), dev).0) == 1
  {
    hide Execute;
    var s, source := Loaded(), [SHIFT_LINE];
    assert A.Code(source, 0) == [A.NormalHead(5, A.Register(0), A.Immediate(A.Number(7))), 7];
    InstructionEnds(s, source, 0, dev);
  }

  lemma NormalSize(source: seq<A.Line>, k: nat)
    requires k < |source| && source[k].body.Normal?
    ensures var b := source[k].body; Next(source, k) == A.Position(source, k) + 1 + A.Extra(b.src) + A.Extra(b.dst)
  {
    hide A.Position;
  }

  /** Where an instruction other than a branch leaves the PC. */
  lemma PerformEnds(s: State, i: nat, dev: Devices)
    requires HasSizes(s) && Opcode(i) <= 12
    requires SourceFollows(SourceMode(i), SourceRegister(i)) && SourceFollows(DestMode(i), DestRegister(i))
    requires Opcode(i) != 12 ==> DestFollows(DestMode(i), DestRegister(i))
    ensures var count := ReadSourceOperand(s, SourceMode(i), SourceRegister(i), false, dev).0;
      var t := Perform(s, i, dev);
      !t.1 && Pc(t.0) == (Pc(s) + SourceStep(i) + if 5 <= Opcode(i) <= 6 && count == 0 then 0 else DestStep(i)) % WORD
  {
    hide ReadSourceOperand, OneOperand, TwoOperands, Shift, Compare, Pc, SourceStep, DestStep, Opcode, SourceMode,
      SourceRegister, DestMode, DestRegister, SourceFollows, DestFollows;
    if Opcode(i) == 12 {
      ComparePc(s, i, dev);
    } else if 5 <= Opcode(i) <= 6 {
      ShiftPc(s, i, dev);
    } else if Opcode(i) == 0 || Opcode(i) == 7 || Opcode(i) == 8 {
      OneOperandPc(s, i, dev);
    } else {
      TwoOperandsPc(s, i, dev);
    }
  }

  lemma NormalCode(source: seq<A.Line>, k: nat)
    requires Fine(source, k) && source[k].body.Normal? && !A.Mixed(source[k].body.src, source[k].body.dst)
    ensures var b := source[k].body;
      && A.Legal(b.src) && A.Legal(b.dst) && A.Resolved(source, b.src)
      && A.Code(source, k) != [] && A.Code(source, k)[0] == A.NormalHead(b.op, b.src, b.dst)
      && (b.src.Immediate? ==>
            |A.Code(source, k)| >= 2 && Word(A.Code(source, k)[1]) == Word(A.Resolve(source, b.src.v).value))
  {
    hide A.OperandCode, A.NormalHead, A.Resolve, A.EquIn, A.LabelIn;
  }

  /** Word i of line k in the fetched state. */
  lemma WordAt(s: State, source: seq<A.Line>, k: nat, i: nat)
    requires AtLine(s, source, k) && i < |A.Code(source, k)|
    ensures var a := Word(A.Position(source, k) + i);
      a < IO_AREA_START && Fetched(s).mem == s.mem && s.mem[a] == Word(A.Code(source, k)[i])
    ensures Pc(Fetched(s)) == Word(A.Position(source, k) + 1)
  {
    hide ReadRegister, WriteRegister, A.Position, A.Code;
    assert Holds(s, A.Position(source, k) + i, A.Code(source, k)[i]);
    PcAfterWrite(s.regs, PC, Pc(s) + 1);
  }

  /** An instruction at line k is performed as it was written: its fields are those of
      the line, and its source stands for the value that the line names. */
  lemma NormalAtLine(s: State, source: seq<A.Line>, k: nat, dev: Devices)
    requires AtLine(s, source, k) && source[k].body.Normal? && !A.Mixed(source[k].body.src, source[k].body.dst)
    ensures var b := source[k].body;
      var i := A.NormalHead(b.op, b.src, b.dst);
      && A.Legal(b.src) && A.Legal(b.dst) && A.Resolved(source, b.src)
      && 0 <= i && Execute(s, dev) == Perform(Fetched(s), i, dev)
      && Opcode(i) == b.op
      && SourceMode(i) == Mode(b.src) && SourceRegister(i) == Number(b.src)
      && DestMode(i) == Mode(b.dst) && DestRegister(i) == Number(b.dst)
      && Pc(Fetched(s)) == Word(A.Position(source, k) + 1)
      && ReadSourceOperand(Fetched(s), Mode(b.src), Number(b.src), false, dev).0 ==
           OperandValue(Fetched(s), source, b.src, dev)
  {
    hide ReadRegister, WriteRegister, ReadMemory, ReadSourceOperand, A.Position, A.OperandCode, A.NormalHead, Perform,
      OperandValue, Fetched, A.Code, A.Accepted, A.Known, A.Resolve, A.Resolved, Mode, Number, Opcode, SourceMode,
      SourceRegister, DestMode, DestRegister, Enter, A.Mixed, A.Legal;
    var b := source[k].body;
    NormalCode(source, k);
    Fetches(s, source, k, dev);
    NormalFields(b.op, b.src, b.dst);
    if b.src.Immediate? { WordAt(s, source, k, 1); }
    OperandRead(Fetched(s), source, b.src, dev);
  }

  // ----- branches -----

  lemma JumpCode(source: seq<A.Line>, k: nat)
    requires Fine(source, k) && source[k].body.Jump?
    ensures var b := source[k].body;
      && A.Legal(b.target) && A.Resolved(source, b.target) && b.flag <= 7
      && A.Code(source, k) != [] && A.Code(source, k)[0] == A.JumpHead(b.kind, b.target, b.negate, b.flag)
      && (b.target.Immediate? ==>
            |A.Code(source, k)| == 2 && Word(A.Code(source, k)[1]) == Word(A.JumpWords(source, k, b.kind, b.target)[0]))
      && A.Size(source, k) == 1 + A.Extra(b.target)
  {
    hide A.OperandCode, A.JumpHead, A.JumpWords, A.EquIn, A.LabelIn;
    JumpLength(source, k, source[k].body.kind, source[k].body.target);
  }

  lemma JumpLength(source: seq<A.Line>, k: nat, kind: A.Kind, target: A.Operand)
    requires k < |source| && A.Resolved(source, target)
    ensures |A.JumpWords(source, k, kind, target)| == A.Extra(target)
  {
  }

  /** Where a jump to a constant or a name goes: to the value of a name; to a constant, or
      that far from the entry behind the jump. */
  function Target(source: seq<A.Line>, k: nat): int
    requires Fine(source, k) && source[k].body.Jump? && source[k].body.target.Immediate?
  {
    JumpCode(source, k);
    var b := source[k].body;
    var v := A.Resolve(source, b.target.v).value;
    if b.kind < 2 || b.target.v.Named? then v else v + Next(source, k)
  }

  /** The word behind a jump leads to its target. */
  lemma WordLeadsToTarget(source: seq<A.Line>, k: nat)
    requires Fine(source, k) && source[k].body.Jump? && source[k].body.target.Immediate?
    ensures var b := source[k].body;
      A.Legal(b.target) && A.Resolved(source, b.target) && |A.JumpWords(source, k, b.kind, b.target)| == 1 &&
      var w := Word(A.JumpWords(source, k, b.kind, b.target)[0]);
      Word(Target(source, k)) == if b.kind < 2 then w else (Word(Next(source, k)) + w) % WORD
  {
    hide A.EquIn, A.LabelIn, A.Position, A.Resolve;
    JumpCode(source, k);
    var b := source[k].body;
    var v := A.Resolve(source, b.target.v).value;
    WordSum(Next(source, k), v - Next(source, k));
    WordSum(Next(source, k), v);
  }

  predicate FlagSet(sr: nat, flag: nat, negate: bool) {
    (Pow2Bit(sr, flag) == 1) != negate
  }

  lemma FetchKeeps(s: State)
    requires HasSizes(s)
    ensures Status(Fetched(s)) == Status(s) && ReadRegister(Fetched(s).regs, SP) == ReadRegister(s.regs, SP)
  {
    hide ReadRegister, WriteRegister;
    OtherThanPc(s.regs, ReadRegister(s.regs, PC) + 1, SR);
    OtherThanPc(s.regs, ReadRegister(s.regs, PC) + 1, SP);
  }

  lemma ImmediateRead(s: State, dev: Devices)
    requires HasSizes(s) && Pc(s) < IO_AREA_START && s.mem[Pc(s)] < WORD
    ensures var (v, t) := ReadSourceOperand(s, 2, PC, false, dev);
      v == s.mem[Pc(s)] && Status(t) == Status(s) && ReadRegister(t.regs, SP) == ReadRegister(s.regs, SP)
  {
    hide ReadRegister, WriteRegister;
    FetchKeeps(s);
    MemoryWord(s, dev);
  }

  /** The processor is at a jump: the fields, and what it finds behind the instruction. */
  lemma JumpAtLine(s: State, source: seq<A.Line>, k: nat, dev: Devices)
    requires AtLine(s, source, k) && source[k].body.Jump? && source[k].body.target.Immediate?
    ensures var b := source[k].body;
      var i := A.JumpHead(b.kind, b.target, b.negate, b.flag);
      && 0 <= i && Execute(s, dev) == (Branch(Fetched(s), i, dev), false)
      && SourceMode(i) == 2 && SourceRegister(i) == PC && i / 16 % 4 == b.kind
      && Condition(Status(s), i) == FlagSet(Status(s), b.flag, b.negate)
      && (Pc(Fetched(s)) + 1) % WORD == Word(Next(source, k))
      && |A.JumpWords(source, k, b.kind, b.target)| == 1
      && Pc(Fetched(s)) < IO_AREA_START
      && Fetched(s).mem[Pc(Fetched(s))] == Word(A.JumpWords(source, k, b.kind, b.target)[0])
  {
    hide ReadRegister, WriteRegister, ReadMemory, Branch, A.Position, A.JumpHead, Fetched, A.Code, A.Accepted, A.Known,
      A.JumpWords, A.Size, Status, Opcode, SourceMode, SourceRegister, BitOf, Pow2Bit;
    var b := source[k].body;
    JumpCode(source, k);
    WordStep(A.Position(source, k) + 1, 1);
    WordLeadsToTarget(source, k);
    Fetches(s, source, k, dev);
    JumpFields(b.kind, b.target, b.negate, b.flag);
    WordAt(s, source, k, 1);
  }

  /** A jump with an immediate target goes there if its flag is set, else on to the next
      entry; a subroutine call pushes the address of the next entry. */
  lemma JumpEnds(s: State, source: seq<A.Line>, k: nat, dev: Devices)
    requires AtLine(s, source, k) && source[k].body.Jump? && source[k].body.target.Immediate?
    ensures var b := source[k].body;
      var (t, stop) := Execute(s, dev);
      && !stop
      && Pc(t) == Word(if FlagSet(Status(s), b.flag, b.negate) then Target(source, k) else Next(source, k))
      && (FlagSet(Status(s), b.flag, b.negate) && b.kind % 2 == 1 ==> Pushed(s, t, Word(Next(source, k))))
  {
    hide ReadRegister, WriteRegister, ReadSourceOperand, Branch, A.Position, A.JumpHead, Fetched, A.Code, A.Accepted,
      A.Known, A.JumpWords, Execute, Condition, FlagSet, Status, Pc, Target, Next, SourceMode, SourceRegister;
    var b := source[k].body;
    JumpAtLine(s, source, k, dev);
    WordLeadsToTarget(source, k);
    FetchKeeps(s);
    ImmediateRead(Fetched(s), dev);
    BranchPc(Fetched(s), A.JumpHead(b.kind, b.target, b.negate, b.flag), dev);
  }

  lemma ControlShape(source: seq<A.Line>, k: nat)
    requires Fine(source, k) && source[k].body.Control?
    ensures var b := source[k].body;
      && (b.code == A.INT ==> A.Legal(b.arg))
      && A.Code(source, k) != [] && A.Code(source, k)[0] == A.ControlHead(b.code, b.arg)
      && A.Size(source, k) == 1 + if b.code == A.INT then A.Extra(b.arg) else 0
  {
  }

  /** The instructions of the control group that go on; INT while no service routine
      runs. */
  lemma ControlEnds(s: State, source: seq<A.Line>, k: nat, dev: Devices)
    requires AtLine(s, source, k) && source[k].body.Control? && source[k].body.code >= 2
    requires var b := source[k].body;
      b.code == A.INT ==> !s.active && NotStepped(b.arg) && (b.arg.Register? ==> b.arg.r != PC)
    ensures Pc(Execute(s, dev).0) == Word(Next(source, k)) && !Execute(s, dev).1
  {
    hide ReadRegister, WriteRegister, ReadMemory, Control, A.Position, A.OperandCode, A.ControlHead, A.Accepted,
      A.Known, A.Code, Step, Fetched, Mode, Number, Opcode, DestMode, DestRegister;
    var b := source[k].body;
    Fetches(s, source, k, dev);
    ControlShape(source, k);
    ControlFields(b.code, b.arg);
    if b.code == A.INT { OperandSteps(b.arg); }
    ControlPc(Fetched(s), A.ControlHead(b.code, b.arg), dev);
    WordStep(A.Position(source, k) + 1, if b.code == A.INT then A.Extra(b.arg) else 0);
  }

  // ----- from line to line -----

  /** The line j behind line k has the address at which line k ends, unless an .ORG or
      other words lie between them. */
  lemma {:induction false} NextIsNextEntry(source: seq<A.Line>, k: nat, j: nat)
    requires k < j < |source|
    requires forall i :: k < i < j ==> !source[i].body.Org? && A.Size(source, i) == 0
    requires !source[k].body.Org? && !source[j].body.Org? && !source[j].body.Equ? && !source[j].body.Blank?
    ensures A.AddressOf(source, j) == Next(source, k)
    decreases j
  {
    PositionAfter(source, k, j);
  }

  lemma {:induction false} PositionAfter(source: seq<A.Line>, k: nat, j: nat)
    requires k < j <= |source| && !source[k].body.Org?
    requires forall i :: k < i < j ==> !source[i].body.Org? && A.Size(source, i) == 0
    ensures A.Position(source, j) == Next(source, k)
    decreases j
  {
    hide A.Size;
    if j > k + 1 { PositionAfter(source, k, j - 1); }
  }

  /** A jump to a label goes to the line that has the label. */
  lemma JumpReachesLabel(s: State, source: seq<A.Line>, k: nat, j: nat, dev: Devices)
    requires AtLine(s, source, k) && source[k].body.Jump? && A.Assembles(source) && j < |source|
    requires var b := source[k].body;
      && b.target == A.Immediate(A.Named(source[j].name)) && FlagSet(Status(s), b.flag, b.negate)
      && A.EquIn(source, |source|, source[j].name).None?
    requires source[j].name != "" && !source[j].body.Org? && !source[j].body.Equ? && !source[j].body.Blank?
    ensures Pc(Execute(s, dev).0) == Word(A.Position(source, j))
  {
    hide ReadRegister, WriteRegister, Execute, FlagSet, Status, Pc, A.Code, A.Position, A.EquIn, A.LabelIn;
    JumpEnds(s, source, k, dev);
    LabelIsFound(source, |source|, j);
  }

  /** Labels are unique in a source that assembles. */
  lemma {:induction false} LabelIsFound(source: seq<A.Line>, n: nat, j: nat)
    requires A.Assembles(source) && j < n <= |source|
    requires source[j].name != "" && !source[j].body.Equ? && !source[j].body.Blank?
    ensures A.LabelIn(source, n, source[j].name) == Some(A.AddressOf(source, j) % A.WORD)
    decreases n
  {
    hide A.AddressOf;
    assert A.Accepted(source, j);
    if j < n - 1 { LabelIsFound(source, n - 1, j); }
  }

  /** MOVE leaves in a register the value that its source stands for. */
  lemma MoveMoves(s: State, source: seq<A.Line>, k: nat, dev: Devices)
    requires AtLine(s, source, k) && source[k].body.Normal?
    requires var b := source[k].body; b.op == 0 && b.dst.Register? && !A.Mixed(b.src, b.dst)
    ensures A.Legal(source[k].body.src) && A.Resolved(source, source[k].body.src)
    ensures var b := source[k].body;
      var v := OperandValue(Fetched(s), source, b.src, dev);
      ReadRegister(Execute(s, dev).0.regs, b.dst.r) == if b.dst.r == SR then WithLsb(v) else v
  {
    hide ReadRegister, WriteRegister, ReadSourceOperand, A.Position, Fetched, A.Code, A.Accepted, A.Known,
      OperandValue, UpdateStatusBits, A.NormalHead, Opcode, SourceMode, SourceRegister, DestMode, DestRegister,
      Execute, A.Resolve;
    var b := source[k].body;
    var i := A.NormalHead(b.op, b.src, b.dst);
    NormalAtLine(s, source, k, dev);
    CodeParts(b.dst);
    var (v, t) := ReadSourceOperand(Fetched(s), SourceMode(i), SourceRegister(i), false, dev);
    ReadWritten(UpdateStatusBits(t, v, v, v, LOGIC, false).regs, b.dst.r, v);
  }
}
