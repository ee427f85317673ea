/** The emulator that runs the processor on its registers and memory in place
    (emulator/qnice.c). */
module QniceEmulator {
  import opened Qnice

  class Emulator {
    const registers: array<nat>
    const memory: array<nat>
    var request: bool
    var active: bool
    var address: nat
    var r14: nat
    var r15: nat

    ghost predicate Valid()
      reads this, registers, memory
    {
      registers.Length == REGISTERS && memory.Length == WORD && registers != memory
    }

    ghost function Value(): (s: State)
      reads this, registers, memory
      requires Valid()
      ensures HasSizes(s)
    {
      State(registers[..], memory[..], request, active, address, r14, r15)
    }

    /** The machine after reset. */
    constructor ()
      ensures Valid() && fresh(registers) && fresh(memory)
      ensures IsState(Value()) && IsInitial(Machine(Value(), Ready, []))
    {
      registers := new nat[REGISTERS](_ => 0);
      memory := new nat[WORD](_ => 0);
      request, active, address, r14, r15 := false, false, 0, 0, 0;
    }

    method Read(a: nat) returns (v: nat)
      requires Valid()
      ensures v == ReadRegister(registers[..], a)
    {
      var r := a % 16;
      if r >= 8 {
        v := registers[r];
        if r == SR { v := WithLsb(v); }
      } else {
        v := registers[r + WithLsb(registers[SR]) % WORD / 256 * 16];
      }
      v := v % WORD;
    }

    method Write(a: nat, value: nat)
      requires Valid()
      modifies registers
      ensures registers[..] == WriteRegister(old(registers[..]), a, value)
    {
      var r, v := a % 16, value % WORD;
      if r >= 8 {
        registers[r] := if r == SR then WithLsb(v) else v;
      } else {
        var sr := Read(SR);
        registers[r + sr / 256 * 16] := v;
      }
    }

    method ReadWord(a: nat, dev: Devices) returns (v: nat)
      requires Valid()
      ensures v == ReadMemory(Value(), a, dev)
    {
      var i := a % WORD;
      v := if i < IO_AREA_START then memory[i] else dev(i);
      v := v % WORD;
    }

    method WriteWord(a: nat, value: nat)
      requires Valid()
      modifies memory
      ensures Value() == WriteMemory(old(Value()), a, value)
    {
      var i := a % WORD;
      if i < IO_AREA_START { memory[i] := value % WORD; }
    }

    /** Adds d to a register. */
    method Add(r: nat, d: nat)
      requires Valid()
      modifies registers
      ensures Value() == Bump(old(Value()), r, d)
    {
      hide ReadRegister, WriteRegister;
      var v := Read(r);
      Write(r, v + d);
    }

    method ReadSource(mode: nat, r: nat, suppressIncrement: bool, dev: Devices) returns (v: nat)
      requires Valid() && mode < 4
      modifies registers
      ensures (v, Value()) == ReadSourceOperand(old(Value()), mode, r, suppressIncrement, dev)
    {
      hide ReadRegister, WriteRegister, ReadMemory, Bump;
      if mode == 0 {
        v := Read(r);
        return;
      }
      if mode == 3 { Add(r, MINUS_ONE); }
      var a := Read(r);
      v := ReadWord(a, dev);
      if mode == 2 && !suppressIncrement { Add(r, 1); }
    }

    method WriteDest(mode: nat, r: nat, value: nat, suppressDecrement: bool)
      requires Valid() && mode < 4
      modifies registers, memory
      ensures Value() == WriteDestination(old(Value()), mode, r, value, suppressDecrement)
    {
      hide ReadRegister, WriteRegister, WriteMemory, Bump;
      if mode == 0 {
        Write(r, value);
        return;
      }
      if mode == 3 && !suppressDecrement { Add(r, MINUS_ONE); }
      var a := Read(r);
      WriteWord(a, value);
      if mode == 2 { Add(r, 1); }
    }

    method UpdateStatus(destination: nat, s0: nat, s1: nat, keep: Keep, isSum: bool)
      requires Valid()
      modifies registers
      ensures Value() == UpdateStatusBits(old(Value()), destination, s0, s1, keep, isSum)
    {
      hide ReadRegister, WriteRegister;
      var sr := Read(SR);
      Write(SR, StatusBits(sr, destination, s0, s1, keep, isSum));
    }

    method RunOneOperand(i: nat, dev: Devices)
      requires Valid()
      modifies registers, memory
      ensures Value() == OneOperand(old(Value()), i, dev)
    {
      hide ReadSourceOperand, WriteDestination, UpdateStatusBits;
      var s0 := ReadSource(SourceMode(i), SourceRegister(i), false, dev);
      var value := s0;
      if Opcode(i) == 7 {
        value := s0 / 256 + s0 % 256 * 256;
      } else if Opcode(i) != 0 {
        value := 0xffff - s0;
      }
      UpdateStatus(value, s0, s0, LOGIC, false);
      WriteDest(DestMode(i), DestRegister(i), value, false);
    }

    method RunTwoOperands(i: nat, dev: Devices)
      requires Valid()
      modifies registers, memory
      ensures Value() == TwoOperands(old(Value()), i, dev)
    {
      hide ReadSourceOperand, WriteDestination, UpdateStatusBits, ReadRegister, Combined;
      var src1 := ReadSource(SourceMode(i), SourceRegister(i), false, dev);
      var src0 := ReadSource(DestMode(i), DestRegister(i), true, dev);
      var sr := Read(SR);
      var value := Combined(Opcode(i), src0, src1, BitOf(sr, 4));
      UpdateStatus(value, src0, src1, if Opcode(i) <= 4 then ALL else LOGIC, Opcode(i) <= 4);
      WriteDest(DestMode(i), DestRegister(i), value, true);
    }

    /** SHL and SHR, bit by bit. */
    method RunShift(i: nat, dev: Devices)
      requires Valid()
      modifies registers, memory
      ensures Value() == Shift(old(Value()), i, dev)
    {
      hide ReadSourceOperand, WriteDestination, UpdateStatusBits, ReadRegister, WriteRegister;
      var count := ReadSource(SourceMode(i), SourceRegister(i), false, dev);
      var x := ReadSource(DestMode(i), DestRegister(i), true, dev);
      var y := x;
      if count != 0 {
        var sr := Read(SR);
        var flag;
        if Opcode(i) == 5 {
          y, flag := ShiftUp(x, count, BitOf(sr, 2));
        } else {
          y, flag := ShiftDown(x, count, BitOf(sr, 4));
        }
        Write(SR, SetBit(sr, if Opcode(i) == 5 then 4 else 2, flag));
        WriteDest(DestMode(i), DestRegister(i), y, false);
      }
      UpdateStatus(y, count, count, SHIFT, false);
    }

    static method ShiftUp(x: nat, n: nat, fill: nat) returns (y: nat, flag: nat)
      requires fill <= 1
      ensures (y, flag) == ShiftLeft(x, n, fill)
    {
      y, flag := x, 0;
      for k := 0 to n
        invariant (y, flag) == ShiftLeft(x, k, fill)
      {
        flag := BitOf(y, 0x8000);
        y := (y * 2) % UINT + fill;
      }
    }

    static method ShiftDown(x: nat, n: nat, fill: nat) returns (y: nat, flag: nat)
      requires x < WORD && fill <= 1
      ensures (y, flag) == ShiftRight(x, n, fill)
    {
      y, flag := x, 0;
      for k := 0 to n
        invariant (y, flag) == ShiftRight(x, k, fill)
      {
        flag := y % 2;
        y := y / 2 + 0x8000 * fill;
      }
    }

    method RunCompare(i: nat, dev: Devices)
      requires Valid()
      modifies registers, memory
      ensures Value() == Compare(old(Value()), i, dev)
    {
      hide ReadSourceOperand, ReadRegister, WriteRegister, SetBit;
      var s0 := ReadSource(SourceMode(i), SourceRegister(i), false, dev);
      var s1 := ReadSource(DestMode(i), DestRegister(i), false, dev);
      var sr := Read(SR);
      sr := SetBit(sr, 8, If(s0 == s1));
      sr := SetBit(sr, 0x10, If(s0 > s1));
      sr := SetBit(sr, 0x20, If(Signed(s0) > Signed(s1)));
      Write(SR, WithLsb(sr));
    }

    method PushPc()
      requires Valid()
      modifies registers, memory
      ensures Value() == Push(old(Value()))
    {
      hide ReadRegister, WriteRegister, Bump, WriteMemory;
      Add(SP, MINUS_ONE);
      var sp := Read(SP);
      var pc := Read(PC);
      WriteWord(sp, pc);
    }

    method RunBranch(i: nat, dev: Devices)
      requires Valid()
      modifies registers, memory
      ensures Value() == Branch(old(Value()), i, dev)
    {
      hide ReadSourceOperand, ReadRegister, WriteRegister, Push, Condition;
      var dest := ReadSource(SourceMode(i), SourceRegister(i), false, dev);
      var sr := Read(SR);
      if Condition(sr, i) {
        var kind := i / 16 % 4;
        if kind % 2 == 1 { PushPc(); }
        if kind >= 2 {
          var pc := Read(PC);
          dest := pc + dest;
        }
        Write(PC, dest);
      }
    }

    method RunControl(i: nat, dev: Devices) returns (stop: bool)
      requires Valid()
      modifies this, registers, memory
      ensures Valid() && (Value(), stop) == Control(old(Value()), i, dev)
    {
      hide ReadSourceOperand, WriteDestination, ReadRegister, WriteRegister;
      var cmd := ControlCode(i);
      stop := false;
      if cmd == 0 {
        stop := true;
      } else if cmd == 1 {
        if !active { return true; }
        active := false;
        Write(SR, r14);
        Write(PC, r15);
      } else if cmd == 2 {
        if active { return true; }
        address := ReadSource(DestMode(i), DestRegister(i), true, dev);
        WriteDest(DestMode(i), DestRegister(i), address, true);
        request := true;
      } else if cmd == 3 {
        var sr := Read(SR);
        Write(SR, sr % 256 + (sr / 256 + 1) % 256 * 256);
      } else if cmd == 4 {
        var sr := Read(SR);
        Write(SR, sr % 256 + (sr / 256 + 255) % 256 * 256);
      }
    }

    /** The entry into a requested service routine. */
    method EnterRoutine()
      requires Valid()
      modifies this, registers
      ensures Valid() && Value() == Enter(old(Value()))
    {
      hide ReadRegister, WriteRegister;
      if request && !active {
        active := true;
        request := false;
        r14 := Read(SR);
        r15 := Read(PC);
        Write(PC, address);
      }
    }

    method Step(dev: Devices) returns (stop: bool)
      requires Valid()
      modifies this, registers, memory
      ensures Valid() && (Value(), stop) == Execute(old(Value()), dev)
      ensures IsState(old(Value())) ==> IsState(Value())
    {
      hide Enter, ReadRegister, WriteRegister, ReadMemory, OneOperand, TwoOperands, Shift, Compare, Branch, Control,
        IsState;
      EnterRoutine();
      var pc := Read(PC);
      var i := ReadWord(pc, dev);
      Write(PC, pc + 1);
      var op := Opcode(i);
      stop := false;
      if op == 0 || op == 7 || op == 8 {
        RunOneOperand(i, dev);
      } else if op <= 4 || 9 <= op <= 11 {
        RunTwoOperands(i, dev);
      } else if op <= 6 {
        RunShift(i, dev);
      } else if op == 12 {
        RunCompare(i, dev);
      } else if op == 13 {
        stop := true;
      } else if op == 14 {
        stop := RunControl(i, dev);
      } else {
        RunBranch(i, dev);
      }
    }
  }
}
