/** The eager CPU of apps/litenes/src/cpu.c: registers and flags are bytes, and every instruction stores its flags. */
module LiteNes {
  import opened Bits
  import opened Mos6502

  class Cpu {
    var A: byte
    var X: byte
    var Y: byte
    var SP: byte
    var P: byte
    var PC: word
    const ram: array<byte>

    constructor ()
      ensures ram.Length == RAM_SIZE && fresh(ram) && PC == 0
      ensures State() == View(0, 0, 0, 0, false, false, true, false, false, true, false, false, seq(0x800, _ => 0))
    {
      A, X, Y, SP, P, PC := 0, 0, 0, 0, 0x24, 0;
      ram := new byte[RAM_SIZE](_ => 0);
    }

    /** cpu_reset */
    method Reset(read: word -> byte)
      requires ram.Length == RAM_SIZE
      modifies `SP, `P, `PC
      ensures PC == Vector(RESET_VECTOR, read)
      ensures State() == WithFlag(old(State()), INTERRUPT_BP, true).(sp := (old(State()).sp - 3) % 256)
    {
      hide GetBit, Unpacked, WithFlag;
      PC := WordAt(read(RESET_VECTOR), read(RESET_VECTOR + 1));
      StateIs();
      SpWithFlag(State(), (SP - 3) % 256, INTERRUPT_BP, true);
      SetSP((SP - 3) % 256);
      ModifyFlag(INTERRUPT_BP, true);
    }

    function State(): View
      requires ram.Length == RAM_SIZE
      reads `A, `X, `Y, `SP, `P, ram
    {
      Unpacked(View(A, X, Y, SP, false, false, false, false, false, false, false, false, ram[..]), P)
    }

    lemma StateIs()
      requires ram.Length == RAM_SIZE
      ensures State().a == A && State().x == X && State().y == Y && State().sp == SP && State().ram == ram[..]
      ensures Packed(State()) == P && State().c == GetBit(P, 0) && State() == Unpacked(State(), P)
    {
      hide GetBit, Packed;
      PackedIsUnpacked(State(), P);
    }

    method SetA(value: byte)
      requires ram.Length == RAM_SIZE
      modifies `A
      ensures A == value && State() == old(State()).(a := value)
    {
      A := value;
    }

    /** cpu_modify_flag, cpu_set_flag and cpu_unset_flag */
    method ModifyFlag(bp: nat, value: bool)
      requires ram.Length == RAM_SIZE && bp < 8
      modifies `P
      ensures State() == WithFlag(old(State()), bp, value)
    {
      hide GetBit, SetBit, Pow2, Unpacked, WithFlag;
      UnpackedWithFlag(View(A, X, Y, SP, false, false, false, false, false, false, false, false, ram[..]), P, bp,
                       value);
      P := SetBit(P, bp, value);
    }

    /** cpu_update_zn_flags */
    method UpdateZn(value: byte)
      requires ram.Length == RAM_SIZE
      modifies `P
      ensures State() == Flagged(old(State()), value)
    {
      hide State;
      ModifyFlag(ZERO_BP, value == 0);
      ModifyFlag(NEGATIVE_BP, value >= 128);
    }

    method OpAdc(m: byte)
      requires ram.Length == RAM_SIZE
      modifies `A, `P
      ensures State() == Added(old(State()), m)
    {
      hide State, Added, GetBit, WithFlag, Flagged;
      StateIs();
      AddedByBits(State(), m, A);
      var result := A + m + (if GetBit(P, CARRY_BP) then 1 else 0);
      ModifyFlag(CARRY_BP, GetBit(result, 8));
      ModifyFlag(OVERFLOW_BP, GetBit(A, 7) == GetBit(m, 7) && GetBit(A, 7) != GetBit(result, 7));
      SetA(result % 256);
      UpdateZn(A);
    }

    method OpSbc(m: byte)
      requires ram.Length == RAM_SIZE
      modifies `A, `P
      ensures State() == Subtracted(old(State()), m)
    {
      hide State, Subtracted, GetBit, WithFlag, Flagged;
      StateIs();
      SubtractedByBits(State(), m, A);
      var result: nat := (A - m - (if GetBit(P, CARRY_BP) then 0 else 1)) % TWO32;
      ModifyFlag(CARRY_BP, !GetBit(result, 8));
      ModifyFlag(OVERFLOW_BP, GetBit(A, 7) != GetBit(m, 7) && GetBit(A, 7) != GetBit(result, 7));
      SetA(result % 256);
      UpdateZn(A);
    }

    /** and, eor and ora */
    method OpLogic(op: LogicOp, m: byte)
      requires ram.Length == RAM_SIZE
      modifies `A, `P
      ensures State() == Exec(old(State()), Logic(op), m)
    {
      hide State, Flagged, AndByte, OrByte, XorByte, Packed, Unpacked;
      StateIs();
      match op {
        case AndOp =>
          SetA(AndByte(A, m));
        case Ora =>
          SetA(OrByte(A, m));
        case Eor =>
          SetA(XorByte(A, m));
      }
      UpdateZn(A);
    }

    method OpBit(m: byte)
      requires ram.Length == RAM_SIZE
      modifies `P
      ensures State() == Tested(old(State()), m)
    {
      hide State, GetBit, AndByte, WithFlag, Tested;
      StateIs();
      TestedByBits(State(), m);
      ModifyFlag(ZERO_BP, AndByte(A, m) == 0);
      ModifyFlag(OVERFLOW_BP, GetBit(m, 6));
      ModifyFlag(NEGATIVE_BP, GetBit(m, 7));
    }

    /** cpu_compare */
    method Compare(reg: byte, m: byte)
      requires ram.Length == RAM_SIZE
      modifies `P
      ensures State() == Compared(old(State()), reg, m)
    {
      hide State, GetBit, WithFlag, Compared;
      ComparedByBits(State(), reg, m);
      var result := reg - m;
      ModifyFlag(CARRY_BP, result >= 0);
      ModifyFlag(ZERO_BP, result == 0);
      ModifyFlag(NEGATIVE_BP, GetBit(result % TWO32, 7));
    }

    /** asl, lsr, rol and ror, and the forms that work on A; an or on disjoint bits is a sum. */
    method OpShift(op: ShiftOp, m: byte) returns (r: byte)
      requires ram.Length == RAM_SIZE
      modifies `P
      ensures State() == Shifted(old(State()), op, m) && r == ShiftOf(old(State()), op, m)
    {
      hide State, GetBit, WithFlag, Flagged, Shifted;
      StateIs();
      ShiftedByBits(State(), op, m);
      var carry := GetBit(P, CARRY_BP);
      if op.Asl? {
        ModifyFlag(CARRY_BP, GetBit(m, 7));
        r := 2 * m % 256;
        UpdateZn(r);
      } else if op.Lsr? {
        ModifyFlag(CARRY_BP, GetBit(m, 0));
        r := m / 2;
        UpdateZn(r);
      } else if op.Rol? {
        var value := 2 * m + if carry then 1 else 0;
        ModifyFlag(CARRY_BP, value > 0xFF);
        r := value % 256;
        UpdateZn(r);
      } else {
        ModifyFlag(CARRY_BP, GetBit(m, 0));
        r := m / 2 + if carry then 128 else 0;
        FlaggedByBits(State(), r);
        ModifyFlag(ZERO_BP, r == 0);
        ModifyFlag(NEGATIVE_BP, carry);
      }
    }

    method SetX(value: byte)
      requires ram.Length == RAM_SIZE
      modifies `X
      ensures X == value && State() == old(State()).(x := value)
    {
      X := value;
    }

    method SetY(value: byte)
      requires ram.Length == RAM_SIZE
      modifies `Y
      ensures Y == value && State() == old(State()).(y := value)
    {
      Y := value;
    }

    method SetSP(value: byte)
      requires ram.Length == RAM_SIZE
      modifies `SP
      ensures SP == value && State() == old(State()).(sp := value)
    {
      SP := value;
    }

    method OpShiftA(op: ShiftOp)
      requires ram.Length == RAM_SIZE
      modifies `A, `P
      ensures State() == ShiftedA(old(State()), op)
    {
      hide State, Shifted, ShiftOf, Packed, Unpacked;
      StateIs();
      var r := OpShift(op, A);
      SetA(r);
    }

    method OpCount(op: CountOp, m: byte) returns (r: byte)
      requires ram.Length == RAM_SIZE
      modifies `P
      ensures r == CountOf(op, m) && State() == Flagged(old(State()), r)
    {
      hide State, Flagged;
      r := if op.Inc? then (m + 1) % 256 else (m - 1) % 256;
      UpdateZn(r);
    }

    method OpCountRegister(op: CountRegisterOp)
      requires ram.Length == RAM_SIZE
      modifies `X, `Y, `P
      ensures State() == Counted(old(State()), op)
    {
      hide State, Flagged, Packed, Unpacked;
      StateIs();
      match op
      case Inx => SetX((X + 1) % 256); UpdateZn(X);
      case Iny => SetY((Y + 1) % 256); UpdateZn(Y);
      case Dex => SetX((X - 1) % 256); UpdateZn(X);
      case Dey => SetY((Y - 1) % 256); UpdateZn(Y);
    }

    method OpLoad(op: LoadOp, m: byte)
      requires ram.Length == RAM_SIZE
      modifies `A, `X, `Y, `P
      ensures State() == Loaded(old(State()), op, m)
    {
      hide State, Flagged;
      match op {
        case Lda => SetA(m);
        case Ldx => SetX(m);
        case Ldy => SetY(m);
        case Lax => SetX(m); SetA(m);
      }
      UpdateZn(m);
    }

    method OpTransfer(op: TransferOp)
      requires ram.Length == RAM_SIZE
      modifies `A, `X, `Y, `SP, `P
      ensures State() == Transferred(old(State()), op)
    {
      hide State, Flagged, GetBit, Packed, Unpacked;
      StateIs();
      match op
      case Tax => SetX(A); UpdateZn(X);
      case Txa => SetA(X); UpdateZn(A);
      case Tay => SetY(A); UpdateZn(Y);
      case Tya => SetA(Y); UpdateZn(A);
      case Tsx => SetX(SP); UpdateZn(X);
      case Txs => SetSP(X);
    }

    method OpChangeFlag(op: FlagOp)
      requires ram.Length == RAM_SIZE
      modifies `P
      ensures State() == FlagChanged(old(State()), op)
    {
      hide State, WithFlag;
      match op
      case Clc => ModifyFlag(CARRY_BP, false);
      case Cld => ModifyFlag(DECIMAL_BP, false);
      case Cli => ModifyFlag(INTERRUPT_BP, false);
      case Clv => ModifyFlag(OVERFLOW_BP, false);
      case Sec => ModifyFlag(CARRY_BP, true);
      case Sed => ModifyFlag(DECIMAL_BP, true);
      case Sei => ModifyFlag(INTERRUPT_BP, true);
    }

    method OpArithmetic(op: ArithmeticOp, m: byte)
      requires ram.Length == RAM_SIZE
      modifies `A, `P
      ensures State() == Calculated(old(State()), op, m)
    {
      hide State, Added, Subtracted, Tested, Compared, Packed, Unpacked;
      StateIs();
      match op
      case Adc => OpAdc(m);
      case Sbc => OpSbc(m);
      case BitOp => OpBit(m);
      case Cmp => Compare(A, m);
      case Cpx => Compare(X, m);
      case Cpy => Compare(Y, m);
    }

    /** The handlers of all operations; w is what a handler that writes to memory writes. */
    method Execute(op: Op, m: byte) returns (w: byte)
      requires ram.Length == RAM_SIZE
      modifies `A, `X, `Y, `SP, `P
      ensures State() == Exec(old(State()), op, m)
      ensures IsWrite(op) ==> w == Written(old(State()), op, m)
    {
      hide State, Shifted, ShiftOf, ShiftedA, Calculated, Counted, CountOf, Loaded, Transferred, FlagChanged, Flagged;
      hide LogicOf, Packed, Unpacked;
      w := 0;
      match op
      case Nop =>
      case Logic(logic) => OpLogic(logic, m);
      case Arithmetic(arithmetic) => OpArithmetic(arithmetic, m);
      case Shift(shift) => w := OpShift(shift, m);
      case ShiftA(shift) => OpShiftA(shift);
      case Count(count) => w := OpCount(count, m);
      case CountRegister(register) => OpCountRegister(register);
      case Load(load) => OpLoad(load, m);
      case Store(store) =>
        StateIs();
        w := match store case Sta => A case Stx => X case Sty => Y;
      case Transfer(transfer) => OpTransfer(transfer);
      case ChangeFlag(flag) => OpChangeFlag(flag);
    }

    // ---------- memory and stack ----------

    /** cpu_ram_write; the 2 KiB of RAM are mirrored. */
    method WriteRam(address: nat, m: byte)
      requires ram.Length == RAM_SIZE
      modifies ram
      ensures State() == old(State()).(ram := old(State()).ram[address % RAM_SIZE := m])
    {
      ram[address % RAM_SIZE] := m;
    }

    /** Two neighbouring bytes of the zero page */
    method LoadZeroPageWord(base: nat) returns (w: word)
      requires ram.Length == RAM_SIZE
      ensures w == ZeroPageWord(State(), base)
    {
      hide Unpacked;
      StateIs();
      w := WordAt(ram[base % 256], ram[(base + 1) % 256]);
    }

    /** The addressing modes; the addresses are words. */
    method EffectiveAddress(mode: Mode, base: word) returns (address: word)
      requires ram.Length == RAM_SIZE
      ensures address == Address(State(), mode, base)
    {
      hide ZeroPageWord, Packed, Unpacked, State;
      StateIs();
      match mode
      case ZeroPage => address := base % 256;
      case ZeroPageX => address := (base + X) % 256;
      case ZeroPageY => address := (base + Y) % 256;
      case Absolute => address := base;
      case AbsoluteX => address := (base + X) % 65536;
      case AbsoluteY => address := (base + Y) % 65536;
      case IndirectX => address := LoadZeroPageWord(base + X);
      case IndirectY =>
        var w := LoadZeroPageWord(base);
        address := (w + Y) % 65536;
    }

    /** memory_readb, as far as reading has no effect or its effect is told by the caller */
    method LoadByte(address: word, read: word -> byte) returns (m: byte)
      requires ram.Length == RAM_SIZE
      ensures m == ByteAt(State(), address, read)
    {
      m := if address < 0x800 then ram[address] else read(address);
    }

    /** The operand of the indirect jump */
    method LoadPointer(pointer: word, read: word -> byte) returns (w: word)
      requires ram.Length == RAM_SIZE
      ensures w == Pointer(State(), pointer, read)
    {
      hide State, ByteAt;
      var low := LoadByte(pointer, read);
      var high := LoadByte(if pointer % 256 == 255 then pointer - 255 else pointer + 1, read);
      w := WordAt(low, high);
    }

    method ExecuteInside(op: Op, address: word)
      requires ram.Length == RAM_SIZE && address < 0x800
      modifies `A, `X, `Y, `SP, `P, ram
      ensures State() == ExecInside(old(State()), op, address)
    {
      hide State, Exec, Written, Packed, Unpacked;
      StateIs();
      var w := Execute(op, ram[address]);
      if IsWrite(op) {
        WriteRam(address, w);
      }
    }

    /** The addressing mode, which loads the operand, the handler, and memory_writeb */
    method ExecuteMemory(op: Op, mode: Mode, base: word, read: word -> byte) returns (out: seq<Access>)
      requires ram.Length == RAM_SIZE
      modifies `A, `X, `Y, `SP, `P, ram
      ensures State() == ExecMemory(old(State()), op, Address(old(State()), mode, base), read)
      ensures out == EagerAccesses(old(State()), Memory(op, mode, base), read)
    {
      hide State, Exec, Written, ExecInside, Packed, Unpacked, Address;
      var address := EffectiveAddress(mode, base);
      out := if IsDevice(address) then [Read(address)] else [];
      if address < 0x800 {
        ExecuteInside(op, address);
      } else {
        var w := Execute(op, read(address));
        if IsWrite(op) && IsDevice(address) {
          out := out + [Wrote(address, w)];
        }
      }
    }

    /** cpu_stack_pushb */
    method PushByte(m: byte)
      requires ram.Length == RAM_SIZE && 1 <= State().sp < 256
      modifies ram, `SP
      ensures State() == Pushed(old(State()), m)
    {
      ram[0x100 + SP] := m;
      SP := (SP - 1) % 256;
    }

    /** cpu_stack_pushw */
    method PushWord(w: word)
      requires ram.Length == RAM_SIZE && 2 <= State().sp < 256
      modifies ram, `SP
      ensures State() == PushedWord(old(State()), w)
    {
      ram[0xFF + SP] := w % 256;
      ram[0x100 + SP] := w / 256;
      SP := (SP - 2) % 256;
    }

    /** cpu_stack_popb */
    method PopByte() returns (m: byte)
      requires ram.Length == RAM_SIZE && 0 <= State().sp < 255
      modifies `SP
      ensures m == Top(old(State())) && State() == Popped(old(State()))
    {
      SP := (SP + 1) % 256;
      m := ram[0x100 + SP];
    }

    /** cpu_stack_popw */
    method PopWord() returns (w: word)
      requires ram.Length == RAM_SIZE && 0 <= State().sp < 254
      modifies `SP
      ensures w == TopWord(old(State())) && State() == PoppedWord(old(State()))
    {
      SP := (SP + 2) % 256;
      w := WordAt(ram[0xFF + SP], ram[0x100 + SP]);
    }

    method SetP(value: byte)
      requires ram.Length == RAM_SIZE
      modifies `P
      ensures State() == Unpacked(old(State()), value)
    {
      hide GetBit;
      P := value;
    }

    /** cpu_flag_set and cpu_branch */
    method Test(condition: Condition) returns (taken: bool)
      requires ram.Length == RAM_SIZE
      ensures taken == IsTaken(State(), condition)
    {
      hide GetBit;
      match condition
      case Cs => taken := GetBit(P, CARRY_BP);
      case Eq => taken := GetBit(P, ZERO_BP);
      case Mi => taken := GetBit(P, NEGATIVE_BP);
      case Vs => taken := GetBit(P, OVERFLOW_BP);
      case Ne => taken := !GetBit(P, ZERO_BP);
      case Cc => taken := !GetBit(P, CARRY_BP);
      case Pl => taken := !GetBit(P, NEGATIVE_BP);
      case Vc => taken := !GetBit(P, OVERFLOW_BP);
    }

    method OpPhp(ghost read: word -> byte)
      requires ram.Length == RAM_SIZE && IsSafe(State(), Php)
      modifies ram, `SP
      ensures State() == Mos6502.Step(old(State()), PC, Php, read)
    {
      hide State, GetBit, SetBit, WithFlag, Packed, Unpacked, Pushed;
      StateIs();
      PackedWithFlag(State(), BREAK_BP, true);
      PackedWithFlag(WithFlag(State(), BREAK_BP, true), UNUSED_BP, true);
      PushByte(SetBit(SetBit(P, BREAK_BP, true), UNUSED_BP, true));
    }

    method OpPlp(ghost read: word -> byte)
      requires ram.Length == RAM_SIZE && IsSafe(State(), Plp)
      modifies `SP, `P
      ensures State() == Mos6502.Step(old(State()), PC, Plp, read)
    {
      hide State, GetBit, SetBit, WithFlag, Packed, Unpacked, Popped, Top;
      var m := PopByte();
      UnpackedWithFlag(State(), m, BREAK_BP, false);
      UnpackedWithFlag(State(), SetBit(m, BREAK_BP, false), UNUSED_BP, true);
      SetP(SetBit(SetBit(m, BREAK_BP, false), UNUSED_BP, true));
    }

    method OpBrk(ghost read: word -> byte)
      requires ram.Length == RAM_SIZE && IsSafe(State(), Brk)
      modifies ram, `SP, `P
      ensures State() == Mos6502.Step(old(State()), PC, Brk, read)
    {
      hide State, GetBit, WithFlag, Packed, Unpacked;
      StateIs();
      SmallMod(PC, 65536);
      PushWord(PC);
      PushByte(P);
      ModifyFlag(UNUSED_BP, true);
      ModifyFlag(BREAK_BP, true);
    }

    /** cpu_interrupt */
    method Interrupt(ghost read: word -> byte)
      requires ram.Length == RAM_SIZE && IsSafe(State(), Nmi)
      modifies ram, `SP, `P
      ensures State() == Mos6502.Step(old(State()), PC, Nmi, read)
    {
      hide State, GetBit, Packed, Unpacked;
      ModifyFlag(INTERRUPT_BP, true);
      ModifyFlag(UNUSED_BP, false);
      StateIs();
      SmallMod(PC, 65536);
      PushWord(PC);
      PushByte(P);
    }

    method OpRti(ghost read: word -> byte)
      requires ram.Length == RAM_SIZE && IsSafe(State(), Rti)
      modifies `SP, `P, `PC
      ensures State() == Mos6502.Step(old(State()), old(PC), Rti, read) && PC == TopWord(Popped(old(State())))
    {
      hide State, GetBit, SetBit;
      var m := PopByte();
      UnpackedWithFlag(State(), m, UNUSED_BP, true);
      SetP(SetBit(m, UNUSED_BP, true));
      PC := PopWord();
    }

    method OpRts(ghost read: word -> byte)
      requires ram.Length == RAM_SIZE && IsSafe(State(), Rts)
      modifies `SP, `PC
      ensures State() == Mos6502.Step(old(State()), old(PC), Rts, read) && PC == (TopWord(old(State())) + 1) % 65536
    {
      hide State;
      PC := PopWord();
      var next: int := PC;
      PC := (next + 1) % 65536;
    }

    /** The relative mode and cpu_branch */
    method OpBranch(condition: Condition, offset: byte)
      requires ram.Length == RAM_SIZE
      modifies `PC
      ensures PC == (old(PC) + 2 + BranchOffset(State(), condition, offset)) % 65536
    {
      hide State, IsTaken;
      var target := PC + 2 + if offset >= 128 then offset - 256 else offset;
      var taken := Test(condition);
      PC := (if taken then target else PC + 2) % 65536;
    }

    /** The instructions that change nothing but registers, flags and the stack, apart from the counter */
    method StepRegisters(instr: Instr, ghost read: word -> byte)
      requires ram.Length == RAM_SIZE && IsSafe(State(), instr)
      requires instr.Implied? || instr.Immediate? || instr.Pha? || instr.Pla? || instr.Php? || instr.Plp?
      modifies `A, `X, `Y, `SP, `P, ram
      ensures State() == Mos6502.Step(old(State()), PC, instr, read)
    {
      hide State, Exec, Packed, Unpacked, WithFlag, Flagged, Pushed, Popped, Top, PoppedFlags;
      match instr
      case Implied(op) =>
        var w := Execute(op, 0);
      case Immediate(op, m) =>
        var w := Execute(op, m);
      case Pha =>
        StateIs();
        PushByte(A);
      case Php => OpPhp(read);
      case Pla =>
        var m := PopByte();
        SetA(m);
        UpdateZn(m);
      case Plp => OpPlp(read);
    }

    /** The instructions that set the counter; the absolute mode of JMP and JSR loads the byte that is jumped to. */
    method StepCounter(instr: Instr, read: word -> byte) returns (out: seq<Access>)
      requires ram.Length == RAM_SIZE && IsSafe(State(), instr) && IsJump(instr)
      modifies `SP, `P, `PC, ram
      ensures State() == Mos6502.Step(old(State()), old(PC), instr, read)
      ensures PC == NextPc(old(State()), old(PC), instr, read) % 65536
      ensures out == EagerAccesses(old(State()), instr, read)
    {
      hide State, Packed, Unpacked, WithFlag, PushedWord, PoppedWord, TopWord, Popped, Interrupted, PoppedFlags;
      hide Pointer, BranchOffset, Vector;
      out := [];
      match instr
      case Branch(condition, offset) => OpBranch(condition, offset);
      case Jmp(target) =>
        out := if IsDevice(target) then [Read(target)] else [];
        PC := target;
      case JmpIndirect(pointer) => PC := LoadPointer(pointer, read);
      case Jsr(target) =>
        out := if IsDevice(target) then [Read(target)] else [];
        PushWord((PC + 2) % 65536);
        PC := target;
      case Rts => OpRts(read);
      case Brk =>
        OpBrk(read);
        PC := Vector(NMI_VECTOR, read);
      case Rti => OpRti(read);
      case Nmi =>
        Interrupt(read);
        PC := Vector(NMI_VECTOR, read);
    }

    /** One turn of cpu_run, or an interrupt between two calls of it. */
    method Step(instr: Instr, read: word -> byte) returns (out: seq<Access>)
      requires ram.Length == RAM_SIZE && IsSafe(State(), instr)
      modifies this, ram
      ensures State() == Mos6502.Step(old(State()), old(PC), instr, read)
      ensures PC == NextPc(old(State()), old(PC), instr, read) % 65536
      ensures instr.Implied? || instr.Pha? || instr.Pla? || instr.Php? || instr.Plp? ==> PC == (old(PC) + 1) % 65536
      ensures instr.Immediate? ==> PC == (old(PC) + 2) % 65536
      ensures instr.Memory? ==>
                var size := if instr.mode.Absolute? || instr.mode.AbsoluteX? || instr.mode.AbsoluteY? then 3 else 2;
                PC == (old(PC) + size) % 65536
      ensures instr.Brk? || instr.Nmi? ==> PC == (read(0xFFFA) + 256 * read(0xFFFB)) % 65536
      ensures out == EagerAccesses(old(State()), instr, read)
    {
      hide State, Exec, ExecMemory, Address, Packed, Unpacked, WithFlag, Flagged, Pushed, PushedWord;
      hide Popped, PoppedWord, Top, TopWord, BranchOffset, PoppedFlags, Interrupted, Pointer, Vector;
      CounterIs(State(), PC, instr, read);
      out := [];
      if IsJump(instr) {
        out := StepCounter(instr, read);
      } else if instr.Memory? {
        out := ExecuteMemory(instr.op, instr.mode, instr.base, read);
        PC := (PC + Length(instr)) % 65536;
      } else {
        StepRegisters(instr, read);
        PC := (PC + Length(instr)) % 65536;
      }
    }
  }
}
