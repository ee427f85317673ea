/** The QNICE processor: registers in banks, operands, instructions and interrupts
    (emulator/qnice.c). */
module Qnice {
  const WORD: nat := 0x1_0000
  const REGISTERS: nat := 4096
  const IO_AREA_START: nat := 0xff00

  const PC := 15
  const SR := 14
  const SP := 13

  /** Registers and memory; request, active, the address of the service routine and the
      saved SR and PC of the interrupt logic. */
  datatype State = State(regs: seq<nat>, mem: seq<nat>, request: bool, active: bool, address: nat, r14: nat, r15: nat)

  /** Sizes, and 16-bit contents. */
  ghost predicate IsState(s: State) {
    && |s.regs| == REGISTERS && |s.mem| == WORD
    && AllWords(s.regs) && AllWords(s.mem)
    && s.address < WORD && s.r14 < WORD && s.r15 < WORD
  }

  /** The interrupt logic is the same. */
  predicate SameLogic(s: State, t: State) {
    s.request == t.request && s.active == t.active && s.address == t.address && s.r14 == t.r14 && s.r15 == t.r15
  }

  /** value | 1 */
  function WithLsb(value: nat): nat {
    value + 1 - value % 2
  }

  /** Where a register is kept: the upper half always in bank 0, the lower half in the
      bank that the upper byte of the status register selects. */
  function RegisterIndex(regs: seq<nat>, a: nat): (i: nat)
    requires |regs| == REGISTERS
    ensures i < REGISTERS && i % 16 == a % 16 && (a % 16 >= 8 ==> i == a % 16)
  {
    var r := a % 16;
    if r >= 8 then r else r + 16 * Bank(regs[SR])
  }

  /** The bank that a status word selects. */
  function Bank(sr: nat): (b: nat)
    ensures b < 256
  {
    WithLsb(sr) % WORD / 256
  }

  function ReadRegister(regs: seq<nat>, a: nat): (v: nat)
    requires |regs| == REGISTERS
    ensures v < WORD && (a % 16 == SR ==> v % 2 == 1)
  {
    var x := regs[RegisterIndex(regs, a)];
    (if a % 16 == SR then WithLsb(x) else x) % WORD
  }

  ghost predicate AllWords(s: seq<nat>) {
    forall i :: 0 <= i < |s| ==> s[i] < WORD
  }

  function WriteRegister(regs: seq<nat>, a: nat, value: nat): (r: seq<nat>)
    requires |regs| == REGISTERS
    ensures |r| == REGISTERS && (AllWords(regs) ==> AllWords(r))
  {
    var v := value % WORD;
    regs[RegisterIndex(regs, a) := if a % 16 == SR then WithLsb(v) else v]
  }

  /** A register that was written reads as the value, the status register with its low
      bit set. */
  lemma ReadWritten(regs: seq<nat>, a: nat, value: nat)
    requires |regs| == REGISTERS
    ensures ReadRegister(WriteRegister(regs, a, value), a) == if a % 16 == SR then WithLsb(value % WORD)
      else value % WORD
  {
    hide Bank;
    SameIndex(regs, a, value, a);
    SmallWord(value);
  }

  /** Writing another register leaves the upper registers alone. */
  lemma ReadOther(regs: seq<nat>, a: nat, value: nat, b: nat)
    requires |regs| == REGISTERS && 8 <= b < 16 && a % 16 != b
    ensures ReadRegister(WriteRegister(regs, a, value), b) == ReadRegister(regs, b)
  {
    hide Bank, WithLsb;
  }

  /** Registers do not move unless the status register is written. */
  lemma SameIndex(regs: seq<nat>, a: nat, value: nat, b: nat)
    requires |regs| == REGISTERS && (a % 16 != SR || b % 16 >= 8)
    ensures RegisterIndex(WriteRegister(regs, a, value), b) == RegisterIndex(regs, b)
  {
    hide Bank, WithLsb;
  }

  lemma SmallWord(value: nat)
    ensures value % WORD % WORD == value % WORD && WithLsb(value % WORD) < WORD
    ensures WithLsb(WithLsb(value % WORD)) % WORD == WithLsb(value % WORD)
  {
  }

  // ----- memory and operands -----

  /** What the devices answer at each address of the I/O area. */
  type Devices = nat -> nat

  function ReadMemory(s: State, a: nat, dev: Devices): (v: nat)
    requires |s.mem| == WORD
    ensures v < WORD
  {
    var i := a % WORD;
    (if i < IO_AREA_START then s.mem[i] else dev(i)) % WORD
  }

  /** A write to the I/O area changes devices only. */
  function WriteMemory(s: State, a: nat, value: nat): (t: State)
    requires |s.mem| == WORD
    ensures SameLogic(s, t) && (IsState(s) ==> IsState(t))
  {
    var i := a % WORD;
    if i < IO_AREA_START then s.(mem := s.mem[i := value % WORD]) else s
  }

  /** R plus d, modulo 2^16. */
  function Bump(s: State, r: nat, d: nat): (t: State)
    requires |s.regs| == REGISTERS
    ensures SameLogic(s, t) && (IsState(s) ==> IsState(t))
  {
    s.(regs := WriteRegister(s.regs, r, ReadRegister(s.regs, r) + d))
  }

  const MINUS_ONE: nat := 0xffff

  predicate HasSizes(s: State) {
    |s.regs| == REGISTERS && |s.mem| == WORD
  }

  function ReadSourceOperand(s: State, mode: nat, r: nat, suppressIncrement: bool, dev: Devices): (res: (nat, State))
    requires HasSizes(s) && mode < 4
    ensures res.0 < WORD && HasSizes(res.1) && SameLogic(s, res.1) && (IsState(s) ==> IsState(res.1))
  {
    if mode == 0 then (ReadRegister(s.regs, r), s)
    else if mode == 1 then (ReadMemory(s, ReadRegister(s.regs, r), dev), s)
    else if mode == 2 then
      (ReadMemory(s, ReadRegister(s.regs, r), dev), if suppressIncrement then s else Bump(s, r, 1))
    else
      var t := Bump(s, r, MINUS_ONE);
      (ReadMemory(t, ReadRegister(t.regs, r), dev), t)
  }

  function WriteDestination(s: State, mode: nat, r: nat, value: nat, suppressDecrement: bool): (t: State)
    requires HasSizes(s) && mode < 4
    ensures HasSizes(t) && SameLogic(s, t) && (IsState(s) ==> IsState(t))
  {
    if mode == 0 then s.(regs := WriteRegister(s.regs, r, value))
    else if mode == 1 then WriteMemory(s, ReadRegister(s.regs, r), value)
    else if mode == 2 then Bump(WriteMemory(s, ReadRegister(s.regs, r), value), r, 1)
    else
      var t := if suppressDecrement then s else Bump(s, r, MINUS_ONE);
      WriteMemory(t, ReadRegister(t.regs, r), value)
  }

  // ----- status bits -----

  function BitOf(x: nat, weight: nat): (b: nat)
    requires weight > 0
    ensures b <= 1
  {
    (x / weight) % 2
  }

  function If(b: bool): nat {
    if b then 1 else 0
  }

  datatype Keep = Keep(carry: bool, x: bool, overflow: bool)

  /** The status register with X, C, Z, N and V set from a 17-bit result. */
  function StatusBits(sr: nat, destination: nat, s0: nat, s1: nat, keep: Keep, isSum: bool): nat {
    var x := if keep.x then BitOf(sr, 2) else If(destination % WORD == 0xffff);
    var c := if keep.carry then BitOf(sr, 4) else BitOf(destination, WORD);
    var z := If(destination % WORD == 0);
    var n := BitOf(destination, 0x8000);
    var v := if !keep.overflow && isSum
      then If((BitOf(s0, 0x8000) == 0 && BitOf(s1, 0x8000) == 0 && n == 1) ||
              (BitOf(s0, 0x8000) == 1 && BitOf(s1, 0x8000) == 1 && n == 0))
      else BitOf(sr, 0x20);
    sr - sr % 64 + sr % 2 + 2 * x + 4 * c + 8 * z + 16 * n + 32 * v
  }

  function UpdateStatusBits(s: State, destination: nat, s0: nat, s1: nat, keep: Keep, isSum: bool): (t: State)
    requires HasSizes(s)
    ensures HasSizes(t) && SameLogic(s, t) && (IsState(s) ==> IsState(t))
  {
    s.(regs := WriteRegister(s.regs, SR, StatusBits(ReadRegister(s.regs, SR), destination, s0, s1, keep, isSum)))
  }

  const ALL := Keep(false, false, false)
  const LOGIC := Keep(true, false, true)
  const SHIFT := Keep(true, true, true)

  // ----- instructions -----

  /** The fields of an instruction word. */
  function SourceMode(i: nat): nat { i / 0x40 % 4 }
  function SourceRegister(i: nat): nat { i / 0x100 % 16 }
  function DestMode(i: nat): nat { i % 4 }
  function DestRegister(i: nat): nat { i / 4 % 16 }
  function Opcode(i: nat): nat { i / 0x1000 % 16 }
  function ControlCode(i: nat): nat { i / 0x40 % 64 }

  const UINT: nat := 0x1_0000_0000

  function And(x: nat, y: nat): nat
    requires x < WORD && y < WORD
  {
    (x as bv16 & y as bv16) as nat
  }

  function Or(x: nat, y: nat): nat
    requires x < WORD && y < WORD
  {
    (x as bv16 | y as bv16) as nat
  }

  function Xor(x: nat, y: nat): nat
    requires x < WORD && y < WORD
  {
    (x as bv16 ^ y as bv16) as nat
  }

  /** The two-operand computations: what source_0 and source_1 give. */
  function Combined(op: nat, s0: nat, s1: nat, carry: nat): nat
    requires s0 < WORD && s1 < WORD
  {
    match op
    case 1 => s0 + s1
    case 2 => s0 + s1 + carry
    case 3 => (s0 + UINT - s1) % UINT
    case 4 => (s0 + 2 * UINT - s1 - carry) % UINT
    case 9 => And(s0, s1)
    case 10 => Or(s0, s1)
    case _ => Xor(s0, s1)
  }

  /** SHL: n single shifts that fill with the X bit; the result in 32 bits, and the last
      bit that left bit 15. */
  function ShiftLeft(x: nat, n: nat, fill: nat): (r: (nat, nat))
    requires fill <= 1
    ensures r.1 <= 1
    decreases n
  {
    if n == 0 then (x, 0)
    else
      var y := ShiftLeft(x, n - 1, fill).0;
      ((y * 2) % UINT + fill, BitOf(y, 0x8000))
  }

  /** SHR: n single shifts that fill with the C bit. */
  function ShiftRight(x: nat, n: nat, fill: nat): (r: (nat, nat))
    requires x < WORD && fill <= 1
    ensures r.0 < WORD && r.1 <= 1
    decreases n
  {
    if n == 0 then (x, 0)
    else
      var y := ShiftRight(x, n - 1, fill).0;
      (y / 2 + 0x8000 * fill, y % 2)
  }

  function SetBit(x: nat, weight: nat, b: nat): nat
    requires weight > 0 && b <= 1
  {
    x - weight * BitOf(x, weight) + weight * b
  }

  function Signed(x: nat): int {
    if x >= 0x8000 then x - WORD else x
  }

  function Compared(sr: nat, s0: nat, s1: nat): nat {
    SetBit(SetBit(SetBit(sr, 8, If(s0 == s1)), 0x10, If(s0 > s1)), 0x20, If(Signed(s0) > Signed(s1)))
  }

  function Status(s: State): nat
    requires HasSizes(s)
  {
    ReadRegister(s.regs, SR)
  }

  function SetRegister(s: State, r: nat, value: nat): (t: State)
    requires HasSizes(s)
    ensures HasSizes(t) && SameLogic(s, t) && (IsState(s) ==> IsState(t))
  {
    s.(regs := WriteRegister(s.regs, r, value))
  }

  /** MOVE, SWAP and NOT: one source. */
  function OneOperand(s: State, i: nat, dev: Devices): (t: State)
    requires HasSizes(s)
    ensures HasSizes(t) && SameLogic(s, t) && (IsState(s) ==> IsState(t))
  {
    var (s0, s1) := ReadSourceOperand(s, SourceMode(i), SourceRegister(i), false, dev);
    var value := if Opcode(i) == 0 then s0 else if Opcode(i) == 7 then s0 / 256 + s0 % 256 * 256 else 0xffff - s0;
    WriteDestination(UpdateStatusBits(s1, value, s0, s0, LOGIC, false), DestMode(i), DestRegister(i), value, false)
  }

  /** ADD to SUBC, AND, OR and XOR. */
  function TwoOperands(s: State, i: nat, dev: Devices): (t: State)
    requires HasSizes(s)
    ensures HasSizes(t) && SameLogic(s, t) && (IsState(s) ==> IsState(t))
  {
    var (src1, t1) := ReadSourceOperand(s, SourceMode(i), SourceRegister(i), false, dev);
    var (src0, t2) := ReadSourceOperand(t1, DestMode(i), DestRegister(i), true, dev);
    var value := Combined(Opcode(i), src0, src1, BitOf(Status(t2), 4));
    var t3 := UpdateStatusBits(t2, value, src0, src1, if Opcode(i) <= 4 then ALL else LOGIC, Opcode(i) <= 4);
    WriteDestination(t3, DestMode(i), DestRegister(i), value, true)
  }

  function Shift(s: State, i: nat, dev: Devices): (t: State)
    requires HasSizes(s)
    ensures HasSizes(t) && SameLogic(s, t) && (IsState(s) ==> IsState(t))
  {
    var (count, t1) := ReadSourceOperand(s, SourceMode(i), SourceRegister(i), false, dev);
    var (x, t2) := ReadSourceOperand(t1, DestMode(i), DestRegister(i), true, dev);
    if count == 0 then UpdateStatusBits(t2, x, count, count, SHIFT, false)
    else
      var sr := Status(t2);
      var (y, flag) := if Opcode(i) == 5 then ShiftLeft(x, count, BitOf(sr, 2)) else ShiftRight(x, count, BitOf(sr, 4));
      var t3 := SetRegister(t2, SR, SetBit(sr, if Opcode(i) == 5 then 4 else 2, flag));
      UpdateStatusBits(WriteDestination(t3, DestMode(i), DestRegister(i), y, false), y, count, count, SHIFT, false)
  }

  function Compare(s: State, i: nat, dev: Devices): (t: State)
    requires HasSizes(s)
    ensures HasSizes(t) && SameLogic(s, t) && (IsState(s) ==> IsState(t))
  {
    var (s0, t1) := ReadSourceOperand(s, SourceMode(i), SourceRegister(i), false, dev);
    var (s1, t2) := ReadSourceOperand(t1, DestMode(i), DestRegister(i), false, dev);
    SetRegister(t2, SR, WithLsb(Compared(Status(t2), s0, s1)))
  }

  /** Branches and subroutine calls, absolute and relative. */
  function Branch(s: State, i: nat, dev: Devices): (t: State)
    requires HasSizes(s)
    ensures HasSizes(t) && SameLogic(s, t) && (IsState(s) ==> IsState(t))
  {
    var (dest, t1) := ReadSourceOperand(s, SourceMode(i), SourceRegister(i), false, dev);
    if !Condition(Status(t1), i) then t1
    else
      var kind := i / 16 % 4;
      var t2 := if kind % 2 == 0 then t1 else Push(t1);
      SetRegister(t2, PC, if kind < 2 then dest else ReadRegister(t2.regs, PC) + dest)
  }

  function Condition(sr: nat, i: nat): bool {
    (Pow2Bit(sr, i % 8) == 1) != (BitOf(i, 8) == 1)
  }

  /** (sr >> flag) & 1 */
  function Pow2Bit(sr: nat, flag: nat): nat {
    if flag == 0 then sr % 2 else Pow2Bit(sr / 2, flag - 1)
  }

  function Push(s: State): (t: State)
    requires HasSizes(s)
    ensures HasSizes(t) && SameLogic(s, t) && (IsState(s) ==> IsState(t))
  {
    var t1 := Bump(s, SP, MINUS_ONE);
    WriteMemory(t1, ReadRegister(t1.regs, SP), ReadRegister(t1.regs, PC))
  }

  /** HALT, RTI, INT, INCRB and DECRB; the second part says whether the machine stops. */
  function Control(s: State, i: nat, dev: Devices): (t: (State, bool))
    requires HasSizes(s)
    ensures HasSizes(t.0) && (IsState(s) ==> IsState(t.0))
  {
    var cmd := ControlCode(i);
    if cmd == 0 then (s, true)
    else if cmd == 1 then
      if !s.active then (s, true)
      else (SetRegister(SetRegister(s.(active := false), SR, s.r14), PC, s.r15), false)
    else if cmd == 2 then
      if s.active then (s, true)
      else
        var (a, t1) := ReadSourceOperand(s, DestMode(i), DestRegister(i), true, dev);
        (WriteDestination(t1.(address := a), DestMode(i), DestRegister(i), a, true).(request := true), false)
    else if cmd == 3 then
      (SetRegister(s, SR, Status(s) % 256 + (Status(s) / 256 + 1) % 256 * 256), false)
    else if cmd == 4 then
      (SetRegister(s, SR, Status(s) % 256 + (Status(s) / 256 + 255) % 256 * 256), false)
    else (s, false)
  }

  /** The state in which the word at the PC has been fetched. */
  function Fetched(s: State): (t: State)
    requires HasSizes(s)
    ensures HasSizes(t) && SameLogic(s, t) && (IsState(s) ==> IsState(t))
  {
    SetRegister(s, PC, ReadRegister(s.regs, PC) + 1)
  }

  /** One instruction, fetched where the PC points. */
  function Instruct(s: State, dev: Devices): (t: (State, bool))
    requires HasSizes(s)
    ensures HasSizes(t.0) && (IsState(s) ==> IsState(t.0))
  {
    Perform(Fetched(s), ReadMemory(s, ReadRegister(s.regs, PC), dev), dev)
  }

  function Perform(s: State, i: nat, dev: Devices): (t: (State, bool))
    requires HasSizes(s)
    ensures HasSizes(t.0) && (IsState(s) ==> IsState(t.0))
  {
    var op := Opcode(i);
    if op == 0 || op == 7 || op == 8 then (OneOperand(s, i, dev), false)
    else if op <= 4 || 9 <= op <= 11 then (TwoOperands(s, i, dev), false)
    else if op <= 6 then (Shift(s, i, dev), false)
    else if op == 12 then (Compare(s, i, dev), false)
    else if op == 13 then (s, true)
    else if op == 14 then Control(s, i, dev)
    else (Branch(s, i, dev), false)
  }

  /** The entry into a service routine, if one is requested and none is running. */
  function Enter(s: State): (t: State)
    requires HasSizes(s)
    ensures HasSizes(t) && (IsState(s) ==> IsState(t))
  {
    if s.request && !s.active then
      var t := s.(active := true, request := false, r14 := Status(s), r15 := ReadRegister(s.regs, PC));
      SetRegister(t, PC, t.address)
    else s
  }

  function Execute(s: State, dev: Devices): (t: (State, bool))
    requires HasSizes(s)
    ensures HasSizes(t.0) && (IsState(s) ==> IsState(t.0))
  {
    Instruct(Enter(s), dev)
  }

  // ----- interrupts under an environment -----

  /** Where the processor is: it has found a request; it has cleared it and saved SR and
      PC; it runs an instruction; it is at the end of an INT instruction; it has stopped. */
  datatype Phase = Ready | Clearing | Jumping | Running | Storing(i: nat) | Requesting | Stopped

  /** The status register and program counter when a service routine is entered, and
      when it has returned. */
  datatype Event = Entry(sr: nat, pc: nat) | Return(sr: nat, pc: nat)

  datatype Machine = Machine(s: State, phase: Phase, events: seq<Event>)

  /** Timers write the address of their routine and the request at any time. */
  datatype Action = Cpu(dev: Devices) | TimerAddress(a: nat) | TimerRequest

  function Pc(s: State): nat
    requires HasSizes(s)
  {
    ReadRegister(s.regs, PC)
  }

  function IsReturn(s: State, dev: Devices): bool
    requires HasSizes(s)
  {
    var i := ReadMemory(s, Pc(s), dev);
    Opcode(i) == 14 && ControlCode(i) == 1 && s.active
  }

  function IsRequest(s: State, dev: Devices): bool
    requires HasSizes(s)
  {
    var i := ReadMemory(s, Pc(s), dev);
    Opcode(i) == 14 && ControlCode(i) == 2 && !s.active
  }

  /** The state in which an INT instruction has stored the address that it jumps to. */
  function Addressed(s: State, dev: Devices): (t: State)
    requires HasSizes(s)
    ensures HasSizes(t)
  {
    var i := ReadMemory(s, Pc(s), dev);
    var (a, t) := ReadSourceOperand(Fetched(s), DestMode(i), DestRegister(i), true, dev);
    t.(address := a)
  }

  /** The processor's next access to what it shares with the timers. */
  function CpuStep(m: Machine, dev: Devices): (n: Machine)
    requires HasSizes(m.s)
    ensures HasSizes(n.s)
  {
    var s := m.s;
    match m.phase
    case Ready =>
      if s.request && !s.active
      then Machine(s.(active := true), Clearing, m.events + [Entry(Status(s), Pc(s))])
      else m.(phase := Running)
    case Clearing => m.(s := s.(request := false, r14 := Status(s), r15 := Pc(s)), phase := Jumping)
    case Jumping => m.(s := SetRegister(s, PC, s.address), phase := Running)
    case Running =>
      if IsRequest(s, dev) then m.(s := Addressed(s, dev), phase := Storing(ReadMemory(s, Pc(s), dev)))
      else
        var (t, stop) := Instruct(s, dev);
        Machine(t, if stop then Stopped else Ready,
                if IsReturn(s, dev) then m.events + [Return(Status(t), Pc(t))] else m.events)
    case Storing(i) => m.(s := WriteDestination(s, DestMode(i), DestRegister(i), s.address, true), phase := Requesting)
    case Requesting => m.(s := s.(request := true), phase := Ready)
    case Stopped => m
  }

  function Step(m: Machine, a: Action): (n: Machine)
    requires HasSizes(m.s)
    ensures HasSizes(n.s)
  {
    match a
    case Cpu(dev) => CpuStep(m, dev)
    case TimerAddress(v) => m.(s := m.s.(address := v % WORD))
    case TimerRequest => m.(s := m.s.(request := true))
  }

  function Run(m: Machine, actions: seq<Action>): (n: Machine)
    requires HasSizes(m.s)
    ensures HasSizes(n.s)
    decreases |actions|
  {
    if actions == [] then m
    else Step(Run(m, actions[..|actions| - 1]), actions[|actions| - 1])
  }

  /** After reset. */
  ghost predicate IsInitial(m: Machine) {
    IsState(m.s) && !m.s.request && !m.s.active && m.phase == Ready && m.events == []
  }

  /** Entries and returns take turns, and each return restores what was held at entry. */
  ghost predicate Alternates(events: seq<Event>) {
    forall i :: 0 <= i < |events| ==> InTurn(events[..i], events[i])
  }

  /** An entry after a return; after an entry, the return to where it came from. */
  ghost predicate InTurn(before: seq<Event>, e: Event) {
    if |before| % 2 == 0 then e.Entry?
    else e == Return(before[|before| - 1].sr, before[|before| - 1].pc)
  }

  ghost predicate Inv(m: Machine) {
    && IsState(m.s) && Alternates(m.events)
    && (m.s.active <==> |m.events| % 2 == 1)
    && (m.s.active ==>
          var e := m.events[|m.events| - 1];
          && e.sr < WORD && e.sr % 2 == 1 && e.pc < WORD
          && if m.phase == Clearing then e.sr == Status(m.s) && e.pc == Pc(m.s) else e.sr == m.s.r14 && e.pc == m.s.r15)
    && (m.phase == Clearing || m.phase == Jumping ==> m.s.active)
    && (m.phase.Storing? || m.phase == Requesting ==> !m.s.active)
  }

  /** What one instruction does to the interrupt logic: nothing, but for RTI and INT. */
  lemma InstructLogic(s: State, dev: Devices)
    requires HasSizes(s)
    ensures var t := Instruct(s, dev).0;
      if IsReturn(s, dev) then
        && !t.active && t.r14 == s.r14 && t.r15 == s.r15
        && Status(t) == WithLsb(s.r14 % WORD) && Pc(t) == s.r15 % WORD
      else if IsRequest(s, dev) then t.request && t.active == s.active && t.r14 == s.r14 && t.r15 == s.r15
      else SameLogic(s, t)
  {
    hide OneOperand, TwoOperands, Shift, Compare, Branch, ReadMemory, WriteDestination, ReadSourceOperand,
      WriteRegister, ReadRegister;
    var i := ReadMemory(s, Pc(s), dev);
    if IsReturn(s, dev) {
      ReturnRestores(Fetched(s));
    }
  }

  lemma ReturnRestores(s: State)
    requires HasSizes(s)
    ensures var t := SetRegister(SetRegister(s.(active := false), SR, s.r14), PC, s.r15);
      Status(t) == WithLsb(s.r14 % WORD) && Pc(t) == s.r15 % WORD
  {
    var t1 := SetRegister(s.(active := false), SR, s.r14);
    ReadWritten(s.regs, SR, s.r14);
    ReadWritten(t1.regs, PC, s.r15);
    ReadOther(t1.regs, PC, s.r15, SR);
  }

  lemma StepKeepsInv(m: Machine, a: Action)
    requires Inv(m)
    ensures Inv(Step(m, a))
  {
    hide ReadRegister, WriteRegister, ReadMemory, WriteDestination, ReadSourceOperand, Instruct, Alternates;
    var n := Step(m, a);
    match a
    case TimerAddress(_) =>
    case TimerRequest =>
    case Cpu(dev) =>
      MoreEvents(m.events, Status(m.s), Pc(m.s));
      if m.phase == Running {
        InstructLogic(m.s, dev);
        if IsReturn(m.s, dev) {
          OddValue(m.s.r14);
          OddValue(m.s.r15);
        }
      }
  }

  lemma MoreEvents(events: seq<Event>, sr: nat, pc: nat)
    requires Alternates(events)
    ensures |events| % 2 == 1 ==>
      var e := events[|events| - 1];
      Alternates(events + [Return(e.sr, e.pc)]) && |events + [Return(e.sr, e.pc)]| % 2 == 0
    ensures |events| % 2 == 0 ==> Alternates(events + [Entry(sr, pc)]) && |events + [Entry(sr, pc)]| % 2 == 1
  {
    if |events| % 2 == 0 {
      OneMoreEvent(events, Entry(sr, pc));
    } else {
      var e := events[|events| - 1];
      OneMoreEvent(events, Return(e.sr, e.pc));
    }
  }

  lemma OneMoreEvent(events: seq<Event>, e: Event)
    requires Alternates(events) && InTurn(events, e)
    ensures Alternates(events + [e])
  {
    var more := events + [e];
    forall i | 0 <= i < |more| ensures InTurn(more[..i], more[i]) {
      if i < |events| {
        assert more[..i] == events[..i];
      } else {
        assert more[..i] == events;
      }
    }
  }

  lemma OddValue(x: nat)
    ensures x < WORD && x % 2 == 1 ==> WithLsb(x % WORD) == x
    ensures x < WORD ==> x % WORD == x
  {
  }

  lemma {:induction false} RunKeepsInv(m: Machine, actions: seq<Action>)
    requires Inv(m)
    ensures Inv(Run(m, actions))
    decreases |actions|
  {
    hide Step;
    if actions != [] {
      RunKeepsInv(m, actions[..|actions| - 1]);
      StepKeepsInv(Run(m, actions[..|actions| - 1]), actions[|actions| - 1]);
    }
  }

  /** In every interleaving of the processor's steps and the timers' writes, entries and
      returns take turns and each return restores SR and PC. While a service routine
      runs, the saved values are those held at its entry. */
  lemma InterruptsAlternate(m: Machine, actions: seq<Action>)
    requires IsInitial(m)
    ensures var n := Run(m, actions);
      && IsState(n.s) && Alternates(n.events)
      && (n.s.active <==> |n.events| % 2 == 1)
      && (n.s.active && n.phase != Clearing ==>
            n.s.r14 == n.events[|n.events| - 1].sr && n.s.r15 == n.events[|n.events| - 1].pc)
  {
    hide Run;
    assert Inv(m);
    RunKeepsInv(m, actions);
  }

  /** Undisturbed, the steps of the processor amount to one execution. */
  lemma UndisturbedIsExecute(s: State, events: seq<Event>, dev: Devices)
    requires HasSizes(s)
    ensures var m0 := CpuStep(Machine(s, Ready, events), dev);
      var m1 := if m0.phase == Clearing then CpuStep(CpuStep(m0, dev), dev) else m0;
      var m2 := CpuStep(m1, dev);
      var m3 := if m2.phase.Storing? then CpuStep(CpuStep(m2, dev), dev) else m2;
      m3.s == Execute(s, dev).0 && (m3.phase == Ready || m3.phase == Stopped) &&
        (m3.phase == Stopped <==> Execute(s, dev).1)
  {
    hide ReadRegister, WriteRegister, ReadMemory, WriteDestination, ReadSourceOperand, OneOperand, TwoOperands, Shift,
      Compare, Branch;
    var s1 := Enter(s);
    EnterKeeps(s);
  }

  /** Saving SR and PC after the request is cleared saves the same values. */
  lemma EnterKeeps(s: State)
    requires HasSizes(s)
    ensures Status(s.(active := true)) == Status(s) && Pc(s.(active := true)) == Pc(s)
  {
  }
}
