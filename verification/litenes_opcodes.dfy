/** The opcodes that both LiteNES CPUs know (cpu_init in apps/litenes/src/cpu.c, cpu_run in apps/litenes_opt/src/cpu.c):
    how the bytes of a program become instructions.
 */
module Opcodes {
  import opened Bits
  import opened Mos6502

  /** What an opcode stands for, and what operand follows it. */
  datatype Format =
    | Alone(instr: Instr)
    | WithByte(op: Op)
    | WithMemory(op: Op, mode: Mode)
    | ByOffset(condition: Condition)
    | JumpTo | JumpThrough | Call
    | Unknown

  /** The table, in eighths; the unofficial opcodes are unknown, but for LAX and the second SBC. */
  function FormatOf(opcode: byte): Format {
    if opcode < 0x20 then FormatFrom00(opcode)
    else if opcode < 0x40 then FormatFrom20(opcode)
    else if opcode < 0x60 then FormatFrom40(opcode)
    else if opcode < 0x80 then FormatFrom60(opcode)
    else if opcode < 0xA0 then FormatFrom80(opcode)
    else if opcode < 0xC0 then FormatFromA0(opcode)
    else if opcode < 0xE0 then FormatFromC0(opcode)
    else FormatFromE0(opcode)
  }

  function FormatFrom00(opcode: byte): Format {
    match opcode
    case 0x00 => Alone(Brk)
    case 0x01 => WithMemory(Logic(Ora), IndirectX)
    case 0x05 => WithMemory(Logic(Ora), ZeroPage)
    case 0x06 => WithMemory(Shift(Asl), ZeroPage)
    case 0x08 => Alone(Php)
    case 0x09 => WithByte(Logic(Ora))
    case 0x0A => Alone(Implied(ShiftA(Asl)))
    case 0x0D => WithMemory(Logic(Ora), Absolute)
    case 0x0E => WithMemory(Shift(Asl), Absolute)
    case 0x10 => ByOffset(Pl)
    case 0x11 => WithMemory(Logic(Ora), IndirectY)
    case 0x15 => WithMemory(Logic(Ora), ZeroPageX)
    case 0x16 => WithMemory(Shift(Asl), ZeroPageX)
    case 0x18 => Alone(Implied(ChangeFlag(Clc)))
    case 0x19 => WithMemory(Logic(Ora), AbsoluteY)
    case 0x1D => WithMemory(Logic(Ora), AbsoluteX)
    case 0x1E => WithMemory(Shift(Asl), AbsoluteX)
    case _ => Unknown
  }

  function FormatFrom20(opcode: byte): Format {
    match opcode
    case 0x20 => Call
    case 0x21 => WithMemory(Logic(AndOp), IndirectX)
    case 0x24 => WithMemory(Arithmetic(BitOp), ZeroPage)
    case 0x25 => WithMemory(Logic(AndOp), ZeroPage)
    case 0x26 => WithMemory(Shift(Rol), ZeroPage)
    case 0x28 => Alone(Plp)
    case 0x29 => WithByte(Logic(AndOp))
    case 0x2A => Alone(Implied(ShiftA(Rol)))
    case 0x2C => WithMemory(Arithmetic(BitOp), Absolute)
    case 0x2D => WithMemory(Logic(AndOp), Absolute)
    case 0x2E => WithMemory(Shift(Rol), Absolute)
    case 0x30 => ByOffset(Mi)
    case 0x31 => WithMemory(Logic(AndOp), IndirectY)
    case 0x35 => WithMemory(Logic(AndOp), ZeroPageX)
    case 0x36 => WithMemory(Shift(Rol), ZeroPageX)
    case 0x38 => Alone(Implied(ChangeFlag(Sec)))
    case 0x39 => WithMemory(Logic(AndOp), AbsoluteY)
    case 0x3D => WithMemory(Logic(AndOp), AbsoluteX)
    case 0x3E => WithMemory(Shift(Rol), AbsoluteX)
    case _ => Unknown
  }

  function FormatFrom40(opcode: byte): Format {
    match opcode
    case 0x40 => Alone(Rti)
    case 0x41 => WithMemory(Logic(Eor), IndirectX)
    case 0x45 => WithMemory(Logic(Eor), ZeroPage)
    case 0x46 => WithMemory(Shift(Lsr), ZeroPage)
    case 0x48 => Alone(Pha)
    case 0x49 => WithByte(Logic(Eor))
    case 0x4A => Alone(Implied(ShiftA(Lsr)))
    case 0x4C => JumpTo
    case 0x4D => WithMemory(Logic(Eor), Absolute)
    case 0x4E => WithMemory(Shift(Lsr), Absolute)
    case 0x50 => ByOffset(Vc)
    case 0x51 => WithMemory(Logic(Eor), IndirectY)
    case 0x55 => WithMemory(Logic(Eor), ZeroPageX)
    case 0x56 => WithMemory(Shift(Lsr), ZeroPageX)
    case 0x58 => Alone(Implied(ChangeFlag(Cli)))
    case 0x59 => WithMemory(Logic(Eor), AbsoluteY)
    case 0x5D => WithMemory(Logic(Eor), AbsoluteX)
    case 0x5E => WithMemory(Shift(Lsr), AbsoluteX)
    case _ => Unknown
  }

  function FormatFrom60(opcode: byte): Format {
    match opcode
    case 0x60 => Alone(Rts)
    case 0x61 => WithMemory(Arithmetic(Adc), IndirectX)
    case 0x65 => WithMemory(Arithmetic(Adc), ZeroPage)
    case 0x66 => WithMemory(Shift(Ror), ZeroPage)
    case 0x68 => Alone(Pla)
    case 0x69 => WithByte(Arithmetic(Adc))
    case 0x6A => Alone(Implied(ShiftA(Ror)))
    case 0x6C => JumpThrough
    case 0x6D => WithMemory(Arithmetic(Adc), Absolute)
    case 0x6E => WithMemory(Shift(Ror), Absolute)
    case 0x70 => ByOffset(Vs)
    case 0x71 => WithMemory(Arithmetic(Adc), IndirectY)
    case 0x75 => WithMemory(Arithmetic(Adc), ZeroPageX)
    case 0x76 => WithMemory(Shift(Ror), ZeroPageX)
    case 0x78 => Alone(Implied(ChangeFlag(Sei)))
    case 0x79 => WithMemory(Arithmetic(Adc), AbsoluteY)
    case 0x7D => WithMemory(Arithmetic(Adc), AbsoluteX)
    case 0x7E => WithMemory(Shift(Ror), AbsoluteX)
    case _ => Unknown
  }

  function FormatFrom80(opcode: byte): Format {
    match opcode
    case 0x81 => WithMemory(Store(Sta), IndirectX)
    case 0x84 => WithMemory(Store(Sty), ZeroPage)
    case 0x85 => WithMemory(Store(Sta), ZeroPage)
    case 0x86 => WithMemory(Store(Stx), ZeroPage)
    case 0x88 => Alone(Implied(CountRegister(Dey)))
    case 0x8A => Alone(Implied(Transfer(Txa)))
    case 0x8C => WithMemory(Store(Sty), Absolute)
    case 0x8D => WithMemory(Store(Sta), Absolute)
    case 0x8E => WithMemory(Store(Stx), Absolute)
    case 0x90 => ByOffset(Cc)
    case 0x91 => WithMemory(Store(Sta), IndirectY)
    case 0x94 => WithMemory(Store(Sty), ZeroPageX)
    case 0x95 => WithMemory(Store(Sta), ZeroPageX)
    case 0x96 => WithMemory(Store(Stx), ZeroPageY)
    case 0x98 => Alone(Implied(Transfer(Tya)))
    case 0x99 => WithMemory(Store(Sta), AbsoluteY)
    case 0x9A => Alone(Implied(Transfer(Txs)))
    case 0x9D => WithMemory(Store(Sta), AbsoluteX)
    case _ => Unknown
  }

  function FormatFromA0(opcode: byte): Format {
    match opcode
    case 0xA0 => WithByte(Load(Ldy))
    case 0xA1 => WithMemory(Load(Lda), IndirectX)
    case 0xA2 => WithByte(Load(Ldx))
    case 0xA3 => WithMemory(Load(Lax), IndirectX)
    case 0xA4 => WithMemory(Load(Ldy), ZeroPage)
    case 0xA5 => WithMemory(Load(Lda), ZeroPage)
    case 0xA6 => WithMemory(Load(Ldx), ZeroPage)
    case 0xA7 => WithMemory(Load(Lax), ZeroPage)
    case 0xA8 => Alone(Implied(Transfer(Tay)))
    case 0xA9 => WithByte(Load(Lda))
    case 0xAA => Alone(Implied(Transfer(Tax)))
    case 0xAC => WithMemory(Load(Ldy), Absolute)
    case 0xAD => WithMemory(Load(Lda), Absolute)
    case 0xAE => WithMemory(Load(Ldx), Absolute)
    case 0xAF => WithMemory(Load(Lax), Absolute)
    case 0xB0 => ByOffset(Cs)
    case 0xB1 => WithMemory(Load(Lda), IndirectY)
    case 0xB3 => WithMemory(Load(Lax), IndirectY)
    case 0xB4 => WithMemory(Load(Ldy), ZeroPageX)
    case 0xB5 => WithMemory(Load(Lda), ZeroPageX)
    case 0xB6 => WithMemory(Load(Ldx), ZeroPageY)
    case 0xB7 => WithMemory(Load(Lax), ZeroPageY)
    case 0xB8 => Alone(Implied(ChangeFlag(Clv)))
    case 0xB9 => WithMemory(Load(Lda), AbsoluteY)
    case 0xBA => Alone(Implied(Transfer(Tsx)))
    case 0xBC => WithMemory(Load(Ldy), AbsoluteX)
    case 0xBD => WithMemory(Load(Lda), AbsoluteX)
    case 0xBE => WithMemory(Load(Ldx), AbsoluteY)
    case 0xBF => WithMemory(Load(Lax), AbsoluteY)
    case _ => Unknown
  }

  function FormatFromC0(opcode: byte): Format {
    match opcode
    case 0xC0 => WithByte(Arithmetic(Cpy))
    case 0xC1 => WithMemory(Arithmetic(Cmp), IndirectX)
    case 0xC4 => WithMemory(Arithmetic(Cpy), ZeroPage)
    case 0xC5 => WithMemory(Arithmetic(Cmp), ZeroPage)
    case 0xC6 => WithMemory(Count(Dec), ZeroPage)
    case 0xC8 => Alone(Implied(CountRegister(Iny)))
    case 0xC9 => WithByte(Arithmetic(Cmp))
    case 0xCA => Alone(Implied(CountRegister(Dex)))
    case 0xCC => WithMemory(Arithmetic(Cpy), Absolute)
    case 0xCD => WithMemory(Arithmetic(Cmp), Absolute)
    case 0xCE => WithMemory(Count(Dec), Absolute)
    case 0xD0 => ByOffset(Ne)
    case 0xD1 => WithMemory(Arithmetic(Cmp), IndirectY)
    case 0xD5 => WithMemory(Arithmetic(Cmp), ZeroPageX)
    case 0xD6 => WithMemory(Count(Dec), ZeroPageX)
    case 0xD8 => Alone(Implied(ChangeFlag(Cld)))
    case 0xD9 => WithMemory(Arithmetic(Cmp), AbsoluteY)
    case 0xDD => WithMemory(Arithmetic(Cmp), AbsoluteX)
    case 0xDE => WithMemory(Count(Dec), AbsoluteX)
    case _ => Unknown
  }

  function FormatFromE0(opcode: byte): Format {
    match opcode
    case 0xE0 => WithByte(Arithmetic(Cpx))
    case 0xE1 => WithMemory(Arithmetic(Sbc), IndirectX)
    case 0xE4 => WithMemory(Arithmetic(Cpx), ZeroPage)
    case 0xE5 => WithMemory(Arithmetic(Sbc), ZeroPage)
    case 0xE6 => WithMemory(Count(Inc), ZeroPage)
    case 0xE8 => Alone(Implied(CountRegister(Inx)))
    case 0xE9 => WithByte(Arithmetic(Sbc))
    case 0xEA => Alone(Implied(Nop))
    case 0xEB => WithByte(Arithmetic(Sbc))
    case 0xEC => WithMemory(Arithmetic(Cpx), Absolute)
    case 0xED => WithMemory(Arithmetic(Sbc), Absolute)
    case 0xEE => WithMemory(Count(Inc), Absolute)
    case 0xF0 => ByOffset(Eq)
    case 0xF1 => WithMemory(Arithmetic(Sbc), IndirectY)
    case 0xF5 => WithMemory(Arithmetic(Sbc), ZeroPageX)
    case 0xF6 => WithMemory(Count(Inc), ZeroPageX)
    case 0xF8 => Alone(Implied(ChangeFlag(Sed)))
    case 0xF9 => WithMemory(Arithmetic(Sbc), AbsoluteY)
    case 0xFD => WithMemory(Arithmetic(Sbc), AbsoluteX)
    case 0xFE => WithMemory(Count(Inc), AbsoluteX)
    case _ => Unknown
  }

  // ---------- the table is regular ----------

  /** The modes of the accumulator operations, in the order of bits 2 to 4 of an opcode that ends in 01. */
  function OfMode(op: Op, bits: nat): Format
    requires bits < 8
  {
    match bits
    case 0 => WithMemory(op, IndirectX)
    case 1 => WithMemory(op, ZeroPage)
    case 2 => WithByte(op)
    case 3 => WithMemory(op, Absolute)
    case 4 => WithMemory(op, IndirectY)
    case 5 => WithMemory(op, ZeroPageX)
    case 6 => WithMemory(op, AbsoluteY)
    case _ => WithMemory(op, AbsoluteX)
  }

  lemma OraRow(bits: nat)
    requires bits < 8
    ensures FormatOf(0x00 + 4 * bits + 1) == OfMode(Logic(Ora), bits)
  {
  }

  lemma AndRow(bits: nat)
    requires bits < 8
    ensures FormatOf(0x20 + 4 * bits + 1) == OfMode(Logic(AndOp), bits)
  {
  }

  lemma EorRow(bits: nat)
    requires bits < 8
    ensures FormatOf(0x40 + 4 * bits + 1) == OfMode(Logic(Eor), bits)
  {
  }

  lemma AdcRow(bits: nat)
    requires bits < 8
    ensures FormatOf(0x60 + 4 * bits + 1) == OfMode(Arithmetic(Adc), bits)
  {
  }

  lemma LdaRow(bits: nat)
    requires bits < 8
    ensures FormatOf(0xA0 + 4 * bits + 1) == OfMode(Load(Lda), bits)
  {
  }

  lemma CmpRow(bits: nat)
    requires bits < 8
    ensures FormatOf(0xC0 + 4 * bits + 1) == OfMode(Arithmetic(Cmp), bits)
  {
  }

  lemma SbcRow(bits: nat)
    requires bits < 8
    ensures FormatOf(0xE0 + 4 * bits + 1) == OfMode(Arithmetic(Sbc), bits)
  {
  }

  lemma StaRow(bits: nat)
    requires bits < 8
    ensures FormatOf(0x80 + 4 * bits + 1) == if bits == 2 then Unknown else OfMode(Store(Sta), bits)
  {
  }

  /** The accumulator operations are regular: bits 5 to 7 of an opcode that ends in 01 choose the operation, bits 2 to 4
      the mode. Only the store with an immediate operand is missing.
   */
  lemma AccumulatorGroup(row: nat, bits: nat)
    requires row < 8 && bits < 8
    ensures var ops := [Logic(Ora), Logic(AndOp), Logic(Eor), Arithmetic(Adc), Store(Sta), Load(Lda), Arithmetic(Cmp),
                        Arithmetic(Sbc)];
            FormatOf(0x20 * row + 4 * bits + 1) ==
            if row == 4 && bits == 2 then Unknown else OfMode(ops[row], bits)
  {
    hide FormatOf, OfMode;
    if row == 0 {
      OraRow(bits);
    } else if row == 1 {
      AndRow(bits);
    } else if row == 2 {
      EorRow(bits);
    } else if row == 3 {
      AdcRow(bits);
    } else if row == 4 {
      StaRow(bits);
    } else if row == 5 {
      LdaRow(bits);
    } else if row == 6 {
      CmpRow(bits);
    } else {
      SbcRow(bits);
    }
  }

  /** The shifts: bits 5 and 6 of an opcode that ends in 10 choose the operation, bits 2 to 4 the mode. */
  lemma ShiftGroup(row: nat)
    requires row < 4
    ensures var op := [Asl, Lsr, Rol, Ror][if row == 1 then 2 else if row == 2 then 1 else row];
            && FormatOf(0x20 * row + 0x06) == WithMemory(Shift(op), ZeroPage)
            && FormatOf(0x20 * row + 0x0A) == Alone(Implied(ShiftA(op)))
            && FormatOf(0x20 * row + 0x0E) == WithMemory(Shift(op), Absolute)
            && FormatOf(0x20 * row + 0x16) == WithMemory(Shift(op), ZeroPageX)
            && FormatOf(0x20 * row + 0x1E) == WithMemory(Shift(op), AbsoluteX)
  {
  }

  lemma CountGroup(row: nat)
    requires row < 2
    ensures var op := Count(if row == 0 then Dec else Inc);
            && FormatOf(0xC6 + 0x20 * row) == WithMemory(op, ZeroPage)
            && FormatOf(0xCE + 0x20 * row) == WithMemory(op, Absolute)
            && FormatOf(0xD6 + 0x20 * row) == WithMemory(op, ZeroPageX)
            && FormatOf(0xDE + 0x20 * row) == WithMemory(op, AbsoluteX)
  {
  }

  /** The index registers: X is indexed by Y, and Y by X. */
  lemma LoadXGroup()
    ensures FormatOf(0xA2) == WithByte(Load(Ldx)) && FormatOf(0xA6) == WithMemory(Load(Ldx), ZeroPage)
    ensures FormatOf(0xAE) == WithMemory(Load(Ldx), Absolute) && FormatOf(0xB6) == WithMemory(Load(Ldx), ZeroPageY)
    ensures FormatOf(0xBE) == WithMemory(Load(Ldx), AbsoluteY)
  {
  }

  lemma LoadYGroup()
    ensures FormatOf(0xA0) == WithByte(Load(Ldy)) && FormatOf(0xA4) == WithMemory(Load(Ldy), ZeroPage)
    ensures FormatOf(0xAC) == WithMemory(Load(Ldy), Absolute) && FormatOf(0xB4) == WithMemory(Load(Ldy), ZeroPageX)
    ensures FormatOf(0xBC) == WithMemory(Load(Ldy), AbsoluteX)
  {
  }

  lemma StoreIndexGroup()
    ensures FormatOf(0x86) == WithMemory(Store(Stx), ZeroPage) && FormatOf(0x8E) == WithMemory(Store(Stx), Absolute)
    ensures FormatOf(0x96) == WithMemory(Store(Stx), ZeroPageY)
    ensures FormatOf(0x84) == WithMemory(Store(Sty), ZeroPage) && FormatOf(0x8C) == WithMemory(Store(Sty), Absolute)
    ensures FormatOf(0x94) == WithMemory(Store(Sty), ZeroPageX)
  {
  }

  lemma CompareGroup()
    ensures FormatOf(0xE0) == WithByte(Arithmetic(Cpx)) && FormatOf(0xE4) == WithMemory(Arithmetic(Cpx), ZeroPage)
    ensures FormatOf(0xEC) == WithMemory(Arithmetic(Cpx), Absolute)
    ensures FormatOf(0xC0) == WithByte(Arithmetic(Cpy)) && FormatOf(0xC4) == WithMemory(Arithmetic(Cpy), ZeroPage)
    ensures FormatOf(0xCC) == WithMemory(Arithmetic(Cpy), Absolute)
    ensures FormatOf(0x24) == WithMemory(Arithmetic(BitOp), ZeroPage)
    ensures FormatOf(0x2C) == WithMemory(Arithmetic(BitOp), Absolute)
  {
  }

  /** The flags: the opcode that sets one is 0x20 behind that which clears it. V can only be cleared. */
  lemma FlagColumn(row: nat)
    requires row < 8
    ensures FormatOf(0x20 * row + 0x18) ==
            Alone(Implied([ChangeFlag(Clc), ChangeFlag(Sec), ChangeFlag(Cli), ChangeFlag(Sei), Transfer(Tya),
                           ChangeFlag(Clv), ChangeFlag(Cld), ChangeFlag(Sed)][row]))
  {
  }

  /** The stack, Y and X: the pull is 0x20 behind its push. */
  lemma StackColumn(row: nat)
    requires row < 8
    ensures FormatOf(0x20 * row + 0x08) ==
            Alone([Php, Plp, Pha, Pla, Implied(CountRegister(Dey)), Implied(Transfer(Tay)),
                   Implied(CountRegister(Iny)), Implied(CountRegister(Inx))][row])
  {
  }

  lemma TransferColumn()
    ensures FormatOf(0x8A) == Alone(Implied(Transfer(Txa))) && FormatOf(0x9A) == Alone(Implied(Transfer(Txs)))
    ensures FormatOf(0xAA) == Alone(Implied(Transfer(Tax))) && FormatOf(0xBA) == Alone(Implied(Transfer(Tsx)))
    ensures FormatOf(0xCA) == Alone(Implied(CountRegister(Dex))) && FormatOf(0xEA) == Alone(Implied(Nop))
  {
  }

  lemma JumpColumn()
    ensures FormatOf(0x00) == Alone(Brk) && FormatOf(0x20) == Call
    ensures FormatOf(0x40) == Alone(Rti) && FormatOf(0x60) == Alone(Rts)
    ensures FormatOf(0x4C) == JumpTo && FormatOf(0x6C) == JumpThrough
  {
  }

  /** LAX is known in the modes of LDA and LDX together; of the second SBC there is one. */
  lemma UnofficialGroup()
    ensures FormatOf(0xA3) == WithMemory(Load(Lax), IndirectX) && FormatOf(0xA7) == WithMemory(Load(Lax), ZeroPage)
    ensures FormatOf(0xAF) == WithMemory(Load(Lax), Absolute) && FormatOf(0xB3) == WithMemory(Load(Lax), IndirectY)
    ensures FormatOf(0xB7) == WithMemory(Load(Lax), ZeroPageY) && FormatOf(0xBF) == WithMemory(Load(Lax), AbsoluteY)
    ensures FormatOf(0xEB) == FormatOf(0xE9)
  {
  }

  /** The branches: bits 6 and 7 choose the flag, bit 5 says whether it is to be set. */
  lemma BranchGroup(bits: nat)
    requires bits < 8
    ensures FormatOf(0x20 * bits + 0x10) == ByOffset([Pl, Mi, Vc, Vs, Cc, Cs, Ne, Eq][bits])
  {
  }

  /** The instruction of an opcode and the two bytes behind it, of which it may use one or none. */
  function Decoded(opcode: byte, b1: byte, b2: byte): Instr {
    match FormatOf(opcode)
    case Alone(instr) => instr
    case WithByte(op) => Immediate(op, b1)
    case WithMemory(op, mode) => Memory(op, mode, if Size(mode) == 2 then b1 + 256 * b2 else b1)
    case ByOffset(condition) => Branch(condition, b1)
    case JumpTo => Jmp(b1 + 256 * b2)
    case JumpThrough => JmpIndirect(b1 + 256 * b2)
    case Call => Jsr(b1 + 256 * b2)
    case Unknown => Invalid
  }

  /** The instruction at an address of the cartridge. */
  function InstrAt(rom: word -> byte, pc: word): Instr {
    Decoded(rom(pc), rom((pc + 1) % 65536), rom((pc + 2) % 65536))
  }

  /** A mode has one byte of operand exactly if its address depends on the low byte of the operand only. */
  lemma SizeMeans(s: View, mode: Mode)
    ensures Size(mode) == 1 || Size(mode) == 2
    ensures Size(mode) == 1 <==> forall base: word {:trigger Address(s, mode, base)} ::
                                   Address(s, mode, base) == Address(s, mode, base % 256)
  {
    match mode
    case Absolute => TwoBytes(s, Absolute);
    case AbsoluteX => TwoBytes(s, AbsoluteX);
    case AbsoluteY => TwoBytes(s, AbsoluteY);
    case _ =>
      forall base: word
        ensures Address(s, mode, base) == Address(s, mode, base % 256)
      {
        OneByte(s, mode, base);
      }
  }

  lemma TwoBytes(s: View, mode: Mode)
    requires mode.Absolute? || mode.AbsoluteX? || mode.AbsoluteY?
    ensures Address(s, mode, 0x100) != Address(s, mode, 0x100 % 256)
  {
  }

  lemma OneByte(s: View, mode: Mode, base: word)
    requires !mode.Absolute? && !mode.AbsoluteX? && !mode.AbsoluteY?
    ensures Address(s, mode, base) == Address(s, mode, base % 256)
  {
    LowOfSum(base, s.x);
    LowOfSum(base, s.y);
    LowOfSum(base, 0);
    LowOfSum(base, 1);
    LowOfSum(base, s.x + 1);
  }

  lemma LowOfSum(base: nat, x: nat)
    ensures (base + x) % 256 == (base % 256 + x) % 256
  {
    SameModulo(base + x, base % 256 + x, base / 256, 256);
  }
}
