/** What the registers, flags and stack of the 6502 do, as far as the two LiteNES versions model it: the common
    specification of the eager CPU (apps/litenes) and of the optimised one (apps/litenes_opt).
 */
module Mos6502 {
  import opened Bits

  type byte = x: int | 0 <= x < 256
  type word = x: int | 0 <= x < 65536

  const RAM_SIZE: nat := 0x800

  const CARRY_BP: nat := 0
  const ZERO_BP: nat := 1
  const INTERRUPT_BP: nat := 2
  const DECIMAL_BP: nat := 3
  const BREAK_BP: nat := 4
  const UNUSED_BP: nat := 5
  const OVERFLOW_BP: nat := 6
  const NEGATIVE_BP: nat := 7

  type Ram = s: seq<byte> | |s| == 0x800 witness seq(0x800, _ => 0)

  /** The programmer's view of the CPU; the flags are carry, zero, interrupt, decimal, break, unused, overflow,
      negative.
   */
  datatype View = View(a: byte, x: byte, y: byte, sp: int, c: bool, z: bool, i: bool, d: bool, b: bool, u: bool,
                       v: bool, n: bool, ram: Ram)

  datatype LogicOp = AndOp | Ora | Eor
  datatype ArithmeticOp = Adc | Sbc | BitOp | Cmp | Cpx | Cpy
  datatype ShiftOp = Asl | Lsr | Rol | Ror
  datatype CountOp = Inc | Dec
  datatype CountRegisterOp = Inx | Iny | Dex | Dey
  datatype LoadOp = Lda | Ldx | Ldy | Lax
  datatype StoreOp = Sta | Stx | Sty
  datatype TransferOp = Tax | Txa | Tay | Tya | Tsx | Txs
  datatype FlagOp = Clc | Cld | Cli | Clv | Sec | Sed | Sei

  /** The operations; ShiftA has the forms of the shifts that work on A. */
  datatype Op =
    | Nop
    | Logic(logic: LogicOp)
    | Arithmetic(arithmetic: ArithmeticOp)
    | Shift(shift: ShiftOp)
    | ShiftA(shift: ShiftOp)
    | Count(count: CountOp)
    | CountRegister(register: CountRegisterOp)
    | Load(load: LoadOp)
    | Store(store: StoreOp)
    | Transfer(transfer: TransferOp)
    | ChangeFlag(flag: FlagOp)

  datatype Condition = Cs | Eq | Mi | Vs | Ne | Cc | Pl | Vc

  function Signed(m: byte): int {
    if m < 128 then m else m - 256
  }

  function Carry(s: View): int {
    if s.c then 1 else 0
  }

  function Flagged(s: View, r: byte): View {
    s.(z := r == 0, n := r >= 128)
  }

  /** Overflow means that the sum of the signed operands does not fit in a signed byte. */
  function Added(s: View, m: byte): View {
    var sum := s.a + m + Carry(s);
    var signed := Signed(s.a) + Signed(m) + Carry(s);
    Flagged(s.(a := sum % 256, c := sum >= 256, v := !(-128 <= signed < 128)), sum % 256)
  }

  function Subtracted(s: View, m: byte): View {
    var difference := s.a - m - (1 - Carry(s));
    var signed := Signed(s.a) - Signed(m) - (1 - Carry(s));
    Flagged(s.(a := difference % 256, c := difference >= 0, v := !(-128 <= signed < 128)), difference % 256)
  }

  function Compared(s: View, r: byte, m: byte): View {
    Flagged(s.(c := r >= m), (r - m) % 256)
  }

  predicate IsWrite(op: Op) {
    op.Shift? || op.Count? || op.Store?
  }

  function ShiftOf(s: View, op: ShiftOp, m: byte): byte {
    match op
    case Asl => 2 * m % 256
    case Lsr => m / 2
    case Rol => (2 * m + Carry(s)) % 256
    case Ror => m / 2 + 128 * Carry(s)
  }

  function Shifted(s: View, op: ShiftOp, m: byte): View {
    Flagged(s.(c := if op.Asl? || op.Rol? then m >= 128 else m % 2 == 1), ShiftOf(s, op, m))
  }

  function ShiftedA(s: View, op: ShiftOp): View {
    Shifted(s, op, s.a).(a := ShiftOf(s, op, s.a))
  }

  function CountOf(op: CountOp, m: byte): byte {
    match op
    case Inc => (m + 1) % 256
    case Dec => (m - 1) % 256
  }

  /** A bitwise operator on bytes. */
  function AndByte(a: byte, m: byte): byte {
    AndBelow(a, m);
    And(a, m)
  }

  function OrByte(a: byte, m: byte): byte {
    Or(a, m) % 256
  }

  function XorByte(a: byte, m: byte): byte {
    Xor(a, m) % 256
  }

  function LogicOf(op: LogicOp, a: byte, m: byte): byte {
    match op
    case AndOp => AndByte(a, m)
    case Ora => OrByte(a, m)
    case Eor => XorByte(a, m)
  }

  function Tested(s: View, m: byte): View {
    s.(z := AndByte(s.a, m) == 0, v := m % 128 >= 64, n := m >= 128)
  }

  function Calculated(s: View, op: ArithmeticOp, m: byte): View {
    match op
    case Adc => Added(s, m)
    case Sbc => Subtracted(s, m)
    case BitOp => Tested(s, m)
    case Cmp => Compared(s, s.a, m)
    case Cpx => Compared(s, s.x, m)
    case Cpy => Compared(s, s.y, m)
  }

  function Loaded(s: View, op: LoadOp, m: byte): View {
    match op
    case Lda => Flagged(s.(a := m), m)
    case Ldx => Flagged(s.(x := m), m)
    case Ldy => Flagged(s.(y := m), m)
    case Lax => Flagged(s.(a := m, x := m), m)
  }

  function Stored(s: View, op: StoreOp): byte {
    match op
    case Sta => s.a
    case Stx => s.x
    case Sty => s.y
  }

  function Transferred(s: View, op: TransferOp): View {
    match op
    case Tax => Flagged(s.(x := s.a), s.a)
    case Txa => Flagged(s.(a := s.x), s.x)
    case Tay => Flagged(s.(y := s.a), s.a)
    case Tya => Flagged(s.(a := s.y), s.y)
    case Tsx => Flagged(s.(x := s.sp % 256), s.sp % 256)
    case Txs => s.(sp := s.x)
  }

  /** The position of the flag that is cleared or set. */
  function FlagOf(op: FlagOp): nat {
    match op
    case Clc => CARRY_BP
    case Sec => CARRY_BP
    case Cli => INTERRUPT_BP
    case Sei => INTERRUPT_BP
    case Cld => DECIMAL_BP
    case Sed => DECIMAL_BP
    case Clv => OVERFLOW_BP
  }

  function FlagChanged(s: View, op: FlagOp): View {
    WithFlag(s, FlagOf(op), op.Sec? || op.Sei? || op.Sed?)
  }

  function Counted(s: View, op: CountRegisterOp): View {
    match op
    case Inx => Flagged(s.(x := CountOf(Inc, s.x)), CountOf(Inc, s.x))
    case Iny => Flagged(s.(y := CountOf(Inc, s.y)), CountOf(Inc, s.y))
    case Dex => Flagged(s.(x := CountOf(Dec, s.x)), CountOf(Dec, s.x))
    case Dey => Flagged(s.(y := CountOf(Dec, s.y)), CountOf(Dec, s.y))
  }

  /** Registers and flags after an operation on the operand m. */
  function Exec(s: View, op: Op, m: byte): View {
    match op
    case Nop => s
    case Logic(logic) => Flagged(s.(a := LogicOf(logic, s.a, m)), LogicOf(logic, s.a, m))
    case Arithmetic(arithmetic) => Calculated(s, arithmetic, m)
    case Shift(shift) => Shifted(s, shift, m)
    case ShiftA(shift) => ShiftedA(s, shift)
    case Count(count) => Flagged(s, CountOf(count, m))
    case CountRegister(register) => Counted(s, register)
    case Load(load) => Loaded(s, load, m)
    case Store(_) => s
    case Transfer(transfer) => Transferred(s, transfer)
    case ChangeFlag(flag) => FlagChanged(s, flag)
  }

  /** What an operation that writes to memory writes. */
  function Written(s: View, op: Op, m: byte): byte
    requires IsWrite(op)
  {
    match op
    case Shift(shift) => ShiftOf(s, shift, m)
    case Count(count) => CountOf(count, m)
    case Store(store) => Stored(s, store)
  }

  function IsTaken(s: View, condition: Condition): bool {
    match condition
    case Cs => s.c
    case Eq => s.z
    case Mi => s.n
    case Vs => s.v
    case Ne => !s.z
    case Cc => !s.c
    case Pl => !s.n
    case Vc => !s.v
  }

  // ---------- instructions ----------

  datatype Mode = ZeroPage | ZeroPageX | ZeroPageY | Absolute | AbsoluteX | AbsoluteY | IndirectX | IndirectY

  /** The bytes of an operand. */
  function Size(mode: Mode): nat {
    if mode.Absolute? || mode.AbsoluteX? || mode.AbsoluteY? then 2 else 1
  }

  /** A decoded instruction. An operation works on the registers alone, on the byte m, or on memory, with the operand
      base; an interrupt is one more instruction. What the CPUs do not both know is invalid.
   */
  datatype Instr =
    | Implied(op: Op)
    | Immediate(op: Op, m: byte)
    | Memory(op: Op, mode: Mode, base: word)
    | Branch(condition: Condition, offset: byte)
    | Pha | Pla | Php | Plp
    | Jmp(target: word) | JmpIndirect(pointer: word)
    | Jsr(target: word) | Rts | Brk | Rti | Nmi
    | Invalid

  /** The counter does not just move on. */
  predicate IsJump(instr: Instr) {
    match instr
    case Branch(_, _) => true
    case Jmp(_) => true
    case JmpIndirect(_) => true
    case Jsr(_) => true
    case Rts => true
    case Brk => true
    case Rti => true
    case Nmi => true
    case _ => false
  }

  const NMI_VECTOR: word := 0xFFFA
  const RESET_VECTOR: word := 0xFFFC

  function Length(instr: Instr): nat {
    match instr
    case Immediate(_, _) => 2
    case Memory(_, mode, _) => 1 + Size(mode)
    case Branch(_, _) => 2
    case Jmp(_) => 3
    case JmpIndirect(_) => 3
    case Jsr(_) => 3
    case Nmi => 0
    case _ => 1
  }

  function WordAt(low: byte, high: byte): word {
    low + 256 * high
  }

  /** The word at two neighbouring bytes of the zero page, whose end is its beginning. */
  function ZeroPageWord(s: View, base: nat): word {
    WordAt(s.ram[base % 256], s.ram[(base + 1) % 256])
  }

  function Address(s: View, mode: Mode, base: word): word {
    match mode
    case ZeroPage => base % 256
    case ZeroPageX => (base + s.x) % 256
    case ZeroPageY => (base + s.y) % 256
    case Absolute => base
    case AbsoluteX => (base + s.x) % 65536
    case AbsoluteY => (base + s.y) % 65536
    case IndirectX => ZeroPageWord(s, base + s.x)
    case IndirectY => (ZeroPageWord(s, base) + s.y) % 65536
  }

  /** Where the high byte of an indirect jump is: not on the next page. */
  function NextInPage(pointer: word): word {
    if pointer % 256 == 255 then pointer - 255 else pointer + 1
  }

  /** A byte of the RAM, or else what read finds there: a device or the cartridge. */
  function ByteAt(s: View, address: word, read: word -> byte): byte {
    if address < 0x800 then s.ram[address] else read(address)
  }

  function Pointer(s: View, pointer: word, read: word -> byte): word {
    WordAt(ByteAt(s, pointer, read), ByteAt(s, NextInPage(pointer), read))
  }

  function Vector(address: word, read: word -> byte): word
    requires address < 0xFFFF
  {
    WordAt(read(address), read(address + 1))
  }

  predicate IsDevice(address: word) {
    0x2000 <= address < 0x6000
  }

  /** The RAM itself and not its mirrors, and the cartridge: reading it has no effect. */
  predicate IsPlain(address: word) {
    address < 0x800 || 0x8000 <= address
  }

  /** The addresses that both CPUs decode alike; the optimised CPU does not write to the cartridge. */
  predicate IsDecoded(op: Op, address: word) {
    address < 0x800 || IsDevice(address) || (0x8000 <= address && !IsWrite(op))
  }

  /** The access is decoded, and the stack pointer does not wrap. What writes to memory needs an address. */
  predicate IsSafe(s: View, instr: Instr) {
    match instr
    case Implied(op) => !IsWrite(op)
    case Immediate(op, _) => !IsWrite(op)
    case Memory(op, mode, base) => IsDecoded(op, Address(s, mode, base))
    case Branch(_, _) => true
    case Pha => 1 <= s.sp < 256
    case Php => 1 <= s.sp < 256
    case Pla => 0 <= s.sp < 255
    case Plp => 0 <= s.sp < 255
    case Jmp(_) => true
    case JmpIndirect(pointer) => IsPlain(pointer) && IsPlain(NextInPage(pointer))
    case Jsr(_) => 2 <= s.sp < 256
    case Rts => 0 <= s.sp < 254
    case Brk => 3 <= s.sp < 256
    case Rti => 0 <= s.sp < 253
    case Nmi => 3 <= s.sp < 256
    case Invalid => false
  }

  function Pushed(s: View, m: byte): View
    requires 1 <= s.sp < 256
  {
    s.(ram := s.ram[0x100 + s.sp := m], sp := s.sp - 1)
  }

  function Popped(s: View): View
    requires 0 <= s.sp < 255
  {
    s.(sp := s.sp + 1)
  }

  function Top(s: View): byte
    requires 0 <= s.sp < 255
  {
    s.ram[0x101 + s.sp]
  }

  /** The high byte is pushed first. */
  function PushedWord(s: View, w: word): (r: View)
    requires 2 <= s.sp < 256
    ensures r.sp == s.sp - 2
  {
    Pushed(Pushed(s, w / 256), w % 256)
  }

  function PoppedWord(s: View): View
    requires 0 <= s.sp < 254
  {
    Popped(Popped(s))
  }

  function TopWord(s: View): word
    requires 0 <= s.sp < 254
  {
    WordAt(Top(s), Top(Popped(s)))
  }

  /** An operation on a byte of the RAM. */
  function ExecInside(s: View, op: Op, address: nat): View
    requires address < 0x800
  {
    var r := Exec(s, op, s.ram[address]);
    if IsWrite(op) then r.(ram := r.ram[address := Written(s, op, s.ram[address])]) else r
  }

  function ExecMemory(s: View, op: Op, address: word, read: word -> byte): View {
    if address < 0x800 then ExecInside(s, op, address) else Exec(s, op, read(address))
  }

  /** The counter and the flags are pushed, and then two flags change. */
  function Interrupted(s: View, pc: word): View
    requires 3 <= s.sp < 256
  {
    Pushed(PushedWord(s, pc), Packed(s))
  }

  /** The flags of the popped byte. */
  function PoppedFlags(s: View): (r: View)
    requires 0 <= s.sp < 255
    ensures r.sp == s.sp + 1
  {
    Unpacked(Popped(s), Top(s))
  }

  /** Registers, flags and RAM after an instruction at pc. */
  function Step(s: View, pc: nat, instr: Instr, read: word -> byte): View
    requires IsSafe(s, instr)
  {
    match instr
    case Implied(op) => Exec(s, op, 0)
    case Immediate(op, m) => Exec(s, op, m)
    case Memory(op, mode, base) => ExecMemory(s, op, Address(s, mode, base), read)
    case Branch(_, _) => s
    case Pha => Pushed(s, s.a)
    case Php => Pushed(s, Packed(WithFlag(WithFlag(s, BREAK_BP, true), UNUSED_BP, true)))
    case Pla => Flagged(Popped(s).(a := Top(s)), Top(s))
    case Plp => WithFlag(WithFlag(PoppedFlags(s), BREAK_BP, false), UNUSED_BP, true)
    case Jmp(_) => s
    case JmpIndirect(_) => s
    case Jsr(_) => PushedWord(s, (pc + 2) % 65536)
    case Rts => PoppedWord(s)
    case Brk => WithFlag(WithFlag(Interrupted(s, pc % 65536), UNUSED_BP, true), BREAK_BP, true)
    case Rti => PoppedWord(WithFlag(PoppedFlags(s), UNUSED_BP, true))
    case Nmi => Interrupted(WithFlag(WithFlag(s, INTERRUPT_BP, true), UNUSED_BP, false), pc % 65536)
    case Invalid => s
  }

  function BranchOffset(s: View, condition: Condition, offset: byte): int {
    if IsTaken(s, condition) then Signed(offset) else 0
  }

  /** The counter after an instruction at pc, before it is cut to the width of a register. */
  function NextPc(s: View, pc: nat, instr: Instr, read: word -> byte): int
    requires IsSafe(s, instr)
  {
    match instr
    case Branch(condition, offset) => pc + 2 + BranchOffset(s, condition, offset)
    case Jmp(target) => target
    case JmpIndirect(pointer) => Pointer(s, pointer, read)
    case Jsr(target) => target
    case Rts => TopWord(s) + 1
    case Brk => Vector(NMI_VECTOR, read)
    case Rti => TopWord(Popped(s))
    case Nmi => Vector(NMI_VECTOR, read)
    case _ => pc + Length(instr)
  }

  /** The next counter in figures: behind the bytes of the instruction, at the target, at the vector, or at what the
      stack says.
   */
  lemma CounterIs(s: View, pc: nat, instr: Instr, read: word -> byte)
    requires IsSafe(s, instr)
    ensures instr.Implied? || instr.Pha? || instr.Pla? || instr.Php? || instr.Plp? ==>
              NextPc(s, pc, instr, read) == pc + 1
    ensures instr.Immediate? ==> NextPc(s, pc, instr, read) == pc + 2
    ensures instr.Memory? ==>
              NextPc(s, pc, instr, read) ==
              pc + if instr.mode.Absolute? || instr.mode.AbsoluteX? || instr.mode.AbsoluteY? then 3 else 2
    ensures instr.Branch? ==>
              NextPc(s, pc, instr, read) ==
              pc + 2 + if !IsTaken(s, instr.condition) then 0
                       else if instr.offset < 128 then instr.offset else instr.offset - 256
    ensures instr.Jmp? || instr.Jsr? ==> NextPc(s, pc, instr, read) == instr.target
    ensures instr.Brk? || instr.Nmi? ==> NextPc(s, pc, instr, read) == read(0xFFFA) + 256 * read(0xFFFB)
    ensures instr.Rts? ==>
              var low: int, high: int := s.ram[0x101 + s.sp], s.ram[0x102 + s.sp];
              NextPc(s, pc, instr, read) == low + 256 * high + 1
    ensures instr.Rti? ==>
              var low: int, high: int := s.ram[0x102 + s.sp], s.ram[0x103 + s.sp];
              NextPc(s, pc, instr, read) == low + 256 * high
  {
  }

  // ---------- accesses to devices ----------

  datatype Access = Read(address: word) | Wrote(address: word, m: byte)

  /** The address whose byte an instruction loads although it does not use it. */
  function LoadedInVain(s: View, instr: Instr): seq<word> {
    match instr
    case Memory(op, mode, base) => if op.Store? then [Address(s, mode, base)] else []
    case Jmp(target) => [target]
    case Jsr(target) => [target]
    case _ => []
  }

  function ReadsOf(addresses: seq<word>): seq<Access> {
    if addresses != [] && IsDevice(addresses[0]) then [Read(addresses[0])] else []
  }

  /** What a memory operation reads, and what it writes. */
  function AccessesOfMemory(s: View, op: Op, address: word, read: word -> byte): seq<Access> {
    var wrote := if IsDevice(address) && IsWrite(op) then [Wrote(address, Written(s, op, read(address)))] else [];
    if op.Store? then wrote else ReadsOf([address]) + wrote
  }

  /** The accesses to devices that an instruction needs, in order. */
  function Accesses(s: View, instr: Instr, read: word -> byte): seq<Access> {
    if instr.Memory? then AccessesOfMemory(s, instr.op, Address(s, instr.mode, instr.base), read) else []
  }

  /** The accesses of a CPU that loads a byte even where it does not use it. */
  function EagerAccesses(s: View, instr: Instr, read: word -> byte): seq<Access> {
    ReadsOf(LoadedInVain(s, instr)) + Accesses(s, instr, read)
  }

  /** An access more than needed: a store to a device, or a jump to one. */
  predicate IsReadInVain(s: View, instr: Instr) {
    match instr
    case Memory(op, mode, base) => op.Store? && IsDevice(Address(s, mode, base))
    case Jmp(target) => IsDevice(target)
    case Jsr(target) => IsDevice(target)
    case _ => false
  }

  /** Loading more than needed shows at the devices exactly at stores and jumps to them. */
  lemma AccessesAgree(s: View, instr: Instr, read: word -> byte)
    ensures EagerAccesses(s, instr, read) == Accesses(s, instr, read) <==> !IsReadInVain(s, instr)
    ensures IsReadInVain(s, instr) ==> |EagerAccesses(s, instr, read)| == |Accesses(s, instr, read)| + 1
  {
    hide Accesses, Address, IsDevice;
    var extra := ReadsOf(LoadedInVain(s, instr));
    if extra == [] {
      assert extra + Accesses(s, instr, read) == Accesses(s, instr, read);
    }
  }

  /** STA $2007: a read and a write on the eager CPU, a write on the other. */
  lemma StoreToDevice(s: View, read: word -> byte)
    ensures var sta := Memory(Store(Sta), Absolute, 0x2007);
            && EagerAccesses(s, sta, read) == [Read(0x2007), Wrote(0x2007, s.a)]
            && Accesses(s, sta, read) == [Wrote(0x2007, s.a)]
  {
  }

  // ---------- the flags as a byte ----------

  function Join(b: bool, r: nat): nat {
    (if b then 1 else 0) + 2 * r
  }

  function Pack(c: bool, z: bool, i: bool, d: bool, b: bool, u: bool, v: bool, n: bool): byte {
    Join(c, Join(z, Join(i, Join(d, Join(b, Join(u, Join(v, Join(n, 0))))))))
  }

  function Packed(s: View): byte {
    Pack(s.c, s.z, s.i, s.d, s.b, s.u, s.v, s.n)
  }

  function Unpacked(s: View, p: byte): View {
    s.(c := GetBit(p, 0), z := GetBit(p, 1), i := GetBit(p, 2), d := GetBit(p, 3), b := GetBit(p, 4), u := GetBit(p, 5),
       v := GetBit(p, 6), n := GetBit(p, 7))
  }

  /** The view with one flag replaced, by the position of the flag in the byte. */
  function WithFlag(s: View, bp: nat, b: bool): View {
    s.(c := if bp == 0 then b else s.c, z := if bp == 1 then b else s.z, i := if bp == 2 then b else s.i,
       d := if bp == 3 then b else s.d, b := if bp == 4 then b else s.b, u := if bp == 5 then b else s.u,
       v := if bp == 6 then b else s.v, n := if bp == 7 then b else s.n)
  }

  lemma GetJoin(b: bool, r: nat, k: nat)
    ensures GetBit(Join(b, r), k) == if k == 0 then b else GetBit(r, k - 1)
  {
  }

  lemma PackBits(c: bool, z: bool, i: bool, d: bool, b: bool, u: bool, v: bool, n: bool)
    ensures GetBit(Pack(c, z, i, d, b, u, v, n), 0) == c && GetBit(Pack(c, z, i, d, b, u, v, n), 1) == z
    ensures GetBit(Pack(c, z, i, d, b, u, v, n), 2) == i && GetBit(Pack(c, z, i, d, b, u, v, n), 3) == d
    ensures GetBit(Pack(c, z, i, d, b, u, v, n), 4) == b && GetBit(Pack(c, z, i, d, b, u, v, n), 5) == u
    ensures GetBit(Pack(c, z, i, d, b, u, v, n), 6) == v && GetBit(Pack(c, z, i, d, b, u, v, n), 7) == n
  {
    hide GetBit, Join;
    var p7 := Join(n, 0);
    var p6 := Join(v, p7);
    var p5 := Join(u, p6);
    var p4 := Join(b, p5);
    var p3 := Join(d, p4);
    var p2 := Join(i, p3);
    var p1 := Join(z, p2);
    forall k | 0 <= k < 8
      ensures GetBit(Join(c, p1), k) == if k == 0 then c else GetBit(p1, k - 1)
      ensures k > 0 ==> GetBit(p1, k - 1) == if k == 1 then z else GetBit(p2, k - 2)
      ensures k > 1 ==> GetBit(p2, k - 2) == if k == 2 then i else GetBit(p3, k - 3)
      ensures k > 2 ==> GetBit(p3, k - 3) == if k == 3 then d else GetBit(p4, k - 4)
      ensures k > 3 ==> GetBit(p4, k - 4) == if k == 4 then b else GetBit(p5, k - 5)
      ensures k > 4 ==> GetBit(p5, k - 5) == if k == 5 then u else GetBit(p6, k - 6)
      ensures k > 5 ==> GetBit(p6, k - 6) == if k == 6 then v else GetBit(p7, k - 7)
      ensures k > 6 ==> GetBit(p7, k - 7) == n
    {
      GetJoin(c, p1, k);
      if k > 0 { GetJoin(z, p2, k - 1); }
      if k > 1 { GetJoin(i, p3, k - 2); }
      if k > 2 { GetJoin(d, p4, k - 3); }
      if k > 3 { GetJoin(b, p5, k - 4); }
      if k > 4 { GetJoin(u, p6, k - 5); }
      if k > 5 { GetJoin(v, p7, k - 6); }
      if k > 6 { GetJoin(n, 0, k - 7); }
    }
  }

  /** Packing and unpacking the flags undo each other. */
  lemma UnpackedIsPacked(s: View)
    ensures Unpacked(s, Packed(s)) == s
  {
    hide GetBit, Pack;
    PackBits(s.c, s.z, s.i, s.d, s.b, s.u, s.v, s.n);
  }

  lemma ByteIsBelow()
    ensures Pow2(8) == 256 && Pow2(9) == 512 && Pow2(7) == 128 && Pow2(6) == 64
  {
    Pow2Of4();
  }

  lemma PackedPushed(s: View, w: word)
    requires 2 <= s.sp < 256
    ensures Packed(PushedWord(s, w)) == Packed(s)
  {
  }

  lemma PackedIsUnpacked(s: View, p: byte)
    ensures Packed(Unpacked(s, p)) == p
  {
    hide GetBit, Pow2, Pack;
    var q := Packed(Unpacked(s, p));
    PackBits(GetBit(p, 0), GetBit(p, 1), GetBit(p, 2), GetBit(p, 3), GetBit(p, 4), GetBit(p, 5), GetBit(p, 6),
             GetBit(p, 7));
    ByteIsBelow();
    forall j: nat | j < 8
      ensures GetBit(q, j) == GetBit(p, j)
    {
      assert j == 0 || j == 1 || j == 2 || j == 3 || j == 4 || j == 5 || j == 6 || j == 7;
    }
    BitsDetermine(q, p, 8);
  }

  lemma SpWithFlag(s: View, sp: int, bp: nat, b: bool)
    ensures WithFlag(s.(sp := sp), bp, b) == WithFlag(s, bp, b).(sp := sp)
  {
  }

  /** Single bits by arithmetic. */
  lemma BitsOf(p: nat)
    ensures GetBit(p, 0) <==> p % 2 == 1
    ensures GetBit(p, 6) <==> p % 128 >= 64
    ensures GetBit(p, 7) <==> p % 256 >= 128
    ensures GetBit(p, 8) <==> p % 512 >= 256
  {
    BitIs(p, 6);
    BitIs(p, 7);
    BitIs(p, 8);
    hide Pow2;
    ByteIsBelow();
  }

  // ---------- the tricks of the implementations ----------

  /** Bitwise operators on wide words, seen as operators on their low bytes. */
  lemma LogicOnWords(wide: u32, m: byte)
    ensures And(wide, m) < 256 && And(wide, m) == AndByte(wide % 256, m)
    ensures Or(wide, m) < TWO32 && Or(wide, m) % 256 == OrByte(wide % 256, m)
    ensures Xor(wide, m) < TWO32 && Xor(wide, m) % 256 == XorByte(wide % 256, m)
  {
    hide Pow2, And, Or, Xor;
    ByteIsBelow();
    Pow2Constants();
    AndLow(wide, m, 8);
    AndBelow(wide, m);
    OrXorLow(wide, m, 8);
    OrXorBelow(wide, m, 32);
  }

  /** A flag modified in the byte is the flag modified in the view. */
  lemma UnpackedWithFlag(s: View, p: byte, bp: nat, value: bool)
    requires bp < 8
    ensures SetBit(p, bp, value) < 256
    ensures Unpacked(s, SetBit(p, bp, value)) == WithFlag(Unpacked(s, p), bp, value)
  {
    hide GetBit, SetBit, Pow2;
    ByteIsBelow();
    SetBitBelow(p, bp, value, 8);
    GetSet(p, bp, value, 0);
    GetSet(p, bp, value, 1);
    GetSet(p, bp, value, 2);
    GetSet(p, bp, value, 3);
    GetSet(p, bp, value, 4);
    GetSet(p, bp, value, 5);
    GetSet(p, bp, value, 6);
    GetSet(p, bp, value, 7);
  }

  lemma PackedWithFlag(s: View, bp: nat, value: bool)
    requires bp < 8
    ensures SetBit(Packed(s), bp, value) < 256
    ensures Packed(WithFlag(s, bp, value)) == SetBit(Packed(s), bp, value)
  {
    hide *;
    UnpackedIsPacked(s);
    UnpackedWithFlag(s, Packed(s), bp, value);
    PackedIsUnpacked(s, SetBit(Packed(s), bp, value));
  }

  lemma SmallSum(x: nat)
    requires x < 512
    ensures x % 256 == (if x < 256 then x else x - 256) && x % 512 == x
  {
    DivModUnique(x, 256, if x < 256 then 0 else 1, if x < 256 then x else x - 256);
    DivModUnique(x, 512, 0, x);
  }

  lemma OverflowRule(a: byte, m: byte, carry: nat, result: nat)
    requires carry <= 1 && result == a + m + carry
    ensures !(-128 <= Signed(a) + Signed(m) + carry < 128) <==>
            (a >= 128) == (m >= 128) && (a >= 128) != (result % 256 >= 128)
    ensures result >= 256 <==> result % 512 >= 256
  {
    SmallSum(result);
  }

  /** A difference of bytes, as a byte and as a 32-bit word. */
  lemma SmallDifference(x: int)
    requires -256 <= x < 256
    ensures x % 256 == (if x >= 0 then x else x + 256) && x % TWO32 == (if x >= 0 then x else x + TWO32)
    ensures x % TWO32 % 256 == x % 256 && x % TWO32 % 512 == if x >= 0 then x else x + 512
  {
    NegativeMod(x, 256);
    NegativeMod(x, TWO32);
    if x >= 0 {
      DivModUnique(x, 256, 0, x);
      DivModUnique(x, TWO32, 0, x);
      DivModUnique(x, 512, 0, x);
    } else if x == -256 {
      DivModUnique(x + TWO32, 256, 0xFF_FFFF, 0);
      DivModUnique(x + TWO32, 512, 0x7F_FFFF, 256);
    } else {
      DivModUnique(x + TWO32, 256, 0xFF_FFFF, x + 256);
      DivModUnique(x + TWO32, 512, 0x7F_FFFF, x + 512);
    }
  }

  lemma NegativeMod(x: int, d: nat)
    requires d > 0
    ensures 0 <= x + d < d ==> x % d == x + d
  {
    if 0 <= x + d < d {
      var q, r := x / d, x % d;
      assert (q + 1) * d == (x + d) - r;
      ZeroMultiple(q + 1, d);
    }
  }

  lemma BorrowRule(a: byte, m: byte, borrow: nat, result: nat)
    requires borrow <= 1 && result == (a - m - borrow) % TWO32
    ensures !(-128 <= Signed(a) - Signed(m) - borrow < 128) <==>
            (a >= 128) != (m >= 128) && (a >= 128) != (result % 256 >= 128)
    ensures a - m - borrow >= 0 <==> result % 512 < 256
    ensures result % 256 == (a - m - borrow) % 256
  {
    SmallDifference(a - m - borrow);
    hide TWO32;
  }

  lemma ByteMod(m: byte)
    ensures m % 256 == m
  {
  }

  lemma AddedBits(a: byte, m: byte, carry: nat, wide: nat, result: nat)
    requires carry <= 1 && wide % 256 == a && result == a + m + carry
    ensures (GetBit(wide, 7) == GetBit(m, 7) && GetBit(wide, 7) != GetBit(result, 7)) <==>
            !(-128 <= Signed(a) + Signed(m) + carry < 128)
    ensures GetBit(result, 8) <==> result >= 256
  {
    hide *;
    OverflowRule(a, m, carry, result);
    BitsOf(result);
    BitsOf(wide);
    BitsOf(m);
    ByteMod(m);
  }

  lemma SubtractedBits(a: byte, m: byte, borrow: nat, wide: nat, result: nat)
    requires borrow <= 1 && wide % 256 == a && result == (a - m - borrow) % TWO32
    ensures (GetBit(wide, 7) != GetBit(m, 7) && GetBit(wide, 7) != GetBit(result, 7)) <==>
            !(-128 <= Signed(a) - Signed(m) - borrow < 128)
    ensures !GetBit(result, 8) <==> a - m - borrow >= 0
    ensures result % 256 == (a - m - borrow) % 256
  {
    hide *;
    BorrowRule(a, m, borrow, result);
    BitsOf(result);
    BitsOf(wide);
    BitsOf(m);
    ByteMod(m);
  }

  /** Carry out of bit 7, and the sign rule for overflow: equal signs of the operands, another sign of the sum. */
  lemma AddedByBits(s: View, m: byte, wide: nat)
    requires wide % 256 == s.a
    ensures Added(s, m) ==
            var result: nat := s.a + m + Carry(s);
            var overflow := GetBit(wide, 7) == GetBit(m, 7) && GetBit(wide, 7) != GetBit(result, 7);
            Flagged(WithFlag(WithFlag(s, 0, GetBit(result, 8)), 6, overflow).(a := result % 256), result % 256)
  {
    hide GetBit, Flagged, Signed, Carry;
    CarryIs(s);
    AddedBits(s.a, m, Carry(s), wide, s.a + m + Carry(s));
  }

  lemma CarryIs(s: View)
    ensures Carry(s) == if s.c then 1 else 0
  {
  }

  lemma CompareRule(r: byte, m: byte, result: nat)
    requires result == (r - m) % TWO32
    ensures (r - m) % 256 == 0 <==> r - m == 0
    ensures (r - m) % 256 >= 128 <==> result % 256 >= 128
  {
    SmallDifference(r - m);
    hide TWO32;
  }

  lemma ComparedByBits(s: View, r: byte, m: byte)
    ensures Compared(s, r, m) ==
            WithFlag(WithFlag(WithFlag(s, 0, r - m >= 0), 1, r - m == 0), 7, GetBit((r - m) % TWO32, 7))
  {
    hide GetBit, Flagged;
    var result: nat := (r - m) % TWO32;
    hide TWO32;
    BitsOf(result);
    CompareRule(r, m, result);
    FlaggedByBits(s.(c := r >= m), (r - m) % 256);
  }

  lemma TestedByBits(s: View, m: byte)
    ensures Tested(s, m) == WithFlag(WithFlag(WithFlag(s, 1, AndByte(s.a, m) == 0), 6, GetBit(m, 6)), 7, GetBit(m, 7))
  {
    hide GetBit, AndByte;
    BitsOf(m);
  }

  lemma TestedLazily(s: View, m: byte)
    ensures Tested(s, m) == Flagged(WithFlag(s, 6, GetBit(m, 6)), AndByte(s.a, m)).(n := GetBit(m, 7))
  {
    hide GetBit, AndByte;
    BitsOf(m);
  }

  lemma ShiftedByBits(s: View, op: ShiftOp, m: byte)
    ensures Shifted(s, op, m) ==
            Flagged(WithFlag(s, 0, if op.Asl? || op.Rol? then GetBit(m, 7) else GetBit(m, 0)), ShiftOf(s, op, m))
    ensures op.Rol? ==> (2 * m + Carry(s) > 0xFF <==> GetBit(m, 7))
    ensures op.Ror? ==> (ShiftOf(s, op, m) >= 128 <==> s.c)
  {
    hide GetBit, Flagged, ShiftOf, Carry;
    BitsOf(m);
    ByteMod(m);
    RotateRules(s, m);
  }

  lemma RotateRules(s: View, m: byte)
    ensures 2 * m + Carry(s) > 0xFF <==> m >= 128
    ensures ShiftOf(s, Ror, m) >= 128 <==> s.c
  {
  }

  /** The shifts on wide words, of which only the low byte is shifted in. */
  lemma ShiftOnWords(s: View, op: ShiftOp, wide: u32)
    ensures Shifted(s, op, wide % 256) ==
            Flagged(WithFlag(s, 0, if op.Asl? || op.Rol? then GetBit(wide, 7) else GetBit(wide, 0)),
                    ShiftOf(s, op, wide % 256))
    ensures op.Asl? ==> 2 * wide % TWO32 % 256 == ShiftOf(s, op, wide % 256)
    ensures op.Rol? ==> (2 * (wide % 256) + Carry(s)) % 256 == ShiftOf(s, op, wide % 256)
    ensures op.Rol? ==> (GetBit(2 * (wide % 256) + Carry(s), 8) <==> GetBit(wide, 7))
  {
    hide GetBit, Flagged, WithFlag, ShiftOf, Shifted, Carry;
    ShiftedByBits(s, op, wide % 256);
    BitsOf(wide);
    BitsOf(wide % 256);
    CarryIs(s);
    ShiftRules(s, wide);
    BitsOf(2 * (wide % 256) + Carry(s));
  }

  lemma ShiftRules(s: View, wide: u32)
    ensures 2 * wide % TWO32 % 256 == ShiftOf(s, Asl, wide % 256)
    ensures (2 * (wide % 256) + Carry(s)) % 256 == ShiftOf(s, Rol, wide % 256)
    ensures (2 * (wide % 256) + Carry(s)) % 512 >= 256 <==> wide % 256 >= 128
    ensures wide % 256 % 256 == wide % 256 && wide % 256 % 2 == wide % 2
  {
    ByteOfWord(2 * wide);
    DoubledByte(wide, 0);
    DoubledByte(wide, Carry(s));
    SmallDouble(wide % 256, Carry(s));
    ByteMod(wide % 256);
    ByteParity(wide);
  }

  lemma ByteOfWord(x: nat)
    ensures x % TWO32 % 256 == x % 256
  {
    var q, b := x / TWO32, x % TWO32;
    SameModulo(x, b, 0x100_0000 * q, 256);
  }

  lemma DoubledByte(x: nat, carry: nat)
    requires carry <= 1
    ensures (2 * x + carry) % 256 == (2 * (x % 256) + carry) % 256
  {
    var q, b := x / 256, x % 256;
    SameModulo(2 * x + carry, 2 * b + carry, 2 * q, 256);
  }

  lemma ByteParity(x: nat)
    ensures x % 256 % 2 == x % 2
  {
    var q, b := x / 256, x % 256;
    SameModulo(x, b, 128 * q, 2);
  }

  lemma SmallDouble(b: byte, carry: nat)
    requires carry <= 1
    ensures (2 * b + carry) % 512 >= 256 <==> b >= 128
  {
    SmallSum(2 * b + carry);
  }

  lemma CarryFlag(s: View, b: bool)
    ensures WithFlag(s, CARRY_BP, b) == s.(c := b)
  {
  }

  lemma FlaggedByBits(s: View, r: byte)
    ensures Flagged(s, r) == WithFlag(WithFlag(s, 1, r == 0), 7, r >= 128)
  {
  }

  lemma SubtractedByBits(s: View, m: byte, wide: nat)
    requires wide % 256 == s.a
    ensures Subtracted(s, m) ==
            var result: nat := (s.a - m - (1 - Carry(s))) % TWO32;
            var overflow := GetBit(wide, 7) != GetBit(m, 7) && GetBit(wide, 7) != GetBit(result, 7);
            Flagged(WithFlag(WithFlag(s, 0, !GetBit(result, 8)), 6, overflow).(a := result % 256), result % 256)
  {
    hide GetBit, Flagged, Signed, Carry;
    CarryIs(s);
    SubtractedBits(s.a, m, 1 - Carry(s), wide, (s.a - m - (1 - Carry(s))) % TWO32);
  }
}
