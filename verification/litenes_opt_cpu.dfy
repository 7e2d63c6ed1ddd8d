/** The optimised CPU of apps/litenes_opt/src/cpu.c: registers are 32-bit and are masked only where it matters, flags
    are ints of which only the truth counts, and zero and negative are computed lazily from lz.
 */
module LiteNesOpt {
  import opened Bits
  import opened Mos6502

  const LAZY_N: nat := 25
  const RAM_ARRAY_SIZE: nat := 0x8000

  class Cpu {
    var A: u32
    var X: u32
    var Y: u32
    var SP: u32
    const P: array<int>
    var lz: u32
    var PC: u32
    const ram: array<byte>

    constructor ()
      ensures IsCpu() && fresh(P) && fresh(ram) && PC == 0
      ensures State() == View(0, 0, 0, 0, false, true, true, false, false, true, false, false, seq(0x800, _ => 0))
    {
      A, X, Y, SP, lz, PC := 0, 0, 0, 0, 0, 0;
      P := new int[8](k => if k == 2 || k == 5 then 1 else 0);
      ram := new byte[RAM_ARRAY_SIZE](_ => 0);
    }

    /** cpu_reset */
    method Reset(read: word -> byte)
      requires IsCpu()
      modifies `SP, `PC, P
      ensures PC == Vector(RESET_VECTOR, read)
      ensures State() == WithFlag(old(State()), INTERRUPT_BP, true).(sp := (old(State()).sp - 3) % TWO32)
    {
      hide GetBit;
      PC := WordAt(read(RESET_VECTOR), read(RESET_VECTOR + 1));
      SP := (SP - 3) % TWO32;
      P[INTERRUPT_BP] := 1;
    }

    predicate IsCpu() {
      P.Length == 8 && ram.Length == 0x8000
    }

    /** Z is read off the low byte of lz; N is bit 7 of lz as long as lz says that N is lazy. */
    function State(): View
      requires IsCpu()
      reads `A, `X, `Y, `SP, `lz, P, ram
    {
      View(A % 256, X % 256, Y % 256, SP, P[0] != 0, lz % 256 == 0, P[2] != 0, P[3] != 0, P[4] != 0, P[5] != 0,
           P[6] != 0, if GetBit(lz, LAZY_N) then GetBit(lz, 7) else P[7] != 0, ram[..0x800])
    }

    lemma StateIs()
      requires IsCpu()
      ensures State().a == A % 256 && State().x == X % 256 && State().y == Y % 256 && State().sp == SP
      ensures State().c == (P[0] != 0) && State().ram == ram[..0x800]
    {
      hide GetBit;
    }

    method SetA(value: u32)
      requires IsCpu()
      modifies `A
      ensures A == value && State() == old(State()).(a := value % 256)
    {
      hide GetBit;
      A := value;
    }

    method SetX(value: u32)
      requires IsCpu()
      modifies `X
      ensures X == value && State() == old(State()).(x := value % 256)
    {
      hide GetBit;
      X := value;
    }

    method SetY(value: u32)
      requires IsCpu()
      modifies `Y
      ensures Y == value && State() == old(State()).(y := value % 256)
    {
      hide GetBit;
      Y := value;
    }

    method SetSP(value: u32)
      requires IsCpu()
      modifies `SP
      ensures SP == value && State() == old(State()).(sp := value)
    {
      hide GetBit;
      SP := value;
    }

    /** cpu_modify_flag, cpu_set_flag and cpu_unset_flag, for the flags that are not lazy */
    method ModifyFlag(bp: nat, value: int)
      requires IsCpu() && (bp == 0 || 2 <= bp <= 6)
      modifies P
      ensures State() == WithFlag(old(State()), bp, value != 0)
      ensures forall k | 0 <= k < 8 && k != bp :: P[k] == old(P[k])
    {
      hide GetBit;
      P[bp] := value;
    }

    /** cpu_update_zn_flags */
    method UpdateZn(value: u32)
      requires IsCpu()
      modifies `lz
      ensures State() == Flagged(old(State()), value % 256)
    {
      hide GetBit, SetBit;
      LazyBits(value);
      lz := SetBit(value, LAZY_N, true);
    }

    /** lz_compute_n */
    method ComputeN()
      requires IsCpu()
      modifies `lz, P
      ensures State() == old(State()) && State().n == (P[7] != 0) && !GetBit(lz, LAZY_N)
      ensures forall k | 0 <= k < 7 :: P[k] == old(P[k])
    {
      hide GetBit, SetBit;
      if GetBit(lz, LAZY_N) {
        LazyBits(lz);
        P[7] := if GetBit(lz, 7) then 0x80 else 0;
        lz := SetBit(lz, LAZY_N, false);
      }
    }

    /** lz_compute_z */
    method ComputeZ()
      requires IsCpu()
      modifies P
      ensures State() == old(State()) && State().z == (P[1] != 0)
      ensures forall k | 0 <= k < 8 && k != 1 :: P[k] == old(P[k])
    {
      hide GetBit;
      P[1] := if lz % 256 == 0 then 1 else 0;
    }

    /** (Areg & 0xff) + op_value + carry, and what its bits say */
    method Total(m: byte) returns (result: u32)
      requires IsCpu()
      ensures var overflow := GetBit(A, 7) == GetBit(m, 7) && GetBit(A, 7) != GetBit(result, 7);
              Added(State(), m) ==
              Flagged(WithFlag(WithFlag(State(), CARRY_BP, GetBit(result, 8)), OVERFLOW_BP, overflow)
                      .(a := result % 256), result % 256)
    {
      hide State, Added, GetBit, WithFlag, Flagged, Carry;
      StateIs();
      CarryIs(State());
      AddedByBits(State(), m, A);
      result := A % 256 + m + if P[CARRY_BP] != 0 then 1 else 0;
    }

    method OpAdc(m: byte)
      requires IsCpu()
      modifies `A, `lz, P
      ensures State() == Added(old(State()), m)
    {
      hide State, Added, GetBit, WithFlag, Flagged, Carry;
      var result := Total(m);
      var c := Masked(GetBit(result, 8), 0x100);
      var v := Masked(GetBit(A, 7) == GetBit(m, 7) && GetBit(A, 7) != GetBit(result, 7), 0x80);
      ghost var s := State();
      Conclude(result, result, c, v);
      assert State() == Flagged(WithFlag(WithFlag(s, CARRY_BP, c != 0), OVERFLOW_BP, v != 0).(a := result % 256),
                                result % 256);
    }

    method OpSbc(m: byte)
      requires IsCpu()
      modifies `A, `lz, P
      ensures State() == Subtracted(old(State()), m)
    {
      hide State, Subtracted, GetBit, WithFlag, Flagged, Carry, TWO32;
      StateIs();
      CarryIs(State());
      SubtractedByBits(State(), m, A);
      var result := Difference(A, m, if P[CARRY_BP] != 0 then 0 else 1);
      var v := Masked(GetBit(A, 7) != GetBit(m, 7) && GetBit(A, 7) != GetBit(result, 7), 0x80);
      ByteMod(result % 256);
      Conclude(result, result % 256, if GetBit(result, 8) then 0 else 1, v);
    }

    /** What adc and sbc end with: the flags, and A with all bits of the result. */
    method Conclude(result: u32, zn: u32, carry: int, overflow: int)
      requires IsCpu() && zn % 256 == result % 256
      modifies `A, `lz, P
      ensures State() ==
              Flagged(WithFlag(WithFlag(old(State()), CARRY_BP, carry != 0), OVERFLOW_BP, overflow != 0)
                      .(a := result % 256), result % 256)
    {
      hide State, WithFlag, Flagged;
      ModifyFlag(CARRY_BP, carry);
      ModifyFlag(OVERFLOW_BP, overflow);
      FlaggedWithA(State(), result % 256);
      UpdateZn(zn);
      SetA(result);
    }

    method OpLogic(op: LogicOp, m: byte)
      requires IsCpu()
      modifies `A, `lz
      ensures State() == Exec(old(State()), Logic(op), m)
    {
      hide State, Flagged, And, Or, Xor, AndByte, OrByte, XorByte;
      StateIs();
      LogicOnWords(A, m);
      match op {
        case AndOp => SetA(And(A, m));
        case Ora => SetA(Or(A, m));
        case Eor => SetA(Xor(A, m));
      }
      UpdateZn(A);
    }

    /** cpu_modify_flag(negative_bp, value); lz_set_n_uptodate(lz_zn_result) */
    method StoreN(value: int)
      requires IsCpu()
      modifies `lz, P
      ensures State() == old(State()).(n := value != 0)
    {
      hide GetBit, SetBit;
      LazyBits(lz);
      P[NEGATIVE_BP] := value;
      lz := SetBit(lz, LAZY_N, false);
    }

    method OpBit(m: byte)
      requires IsCpu()
      modifies `lz, P
      ensures State() == Tested(old(State()), m)
    {
      hide State, GetBit, And, AndByte, Flagged, WithFlag, Tested;
      StateIs();
      TestedLazily(State(), m);
      LogicOnWords(A, m);
      var v := Masked(GetBit(m, 6), 0x40);
      ModifyFlag(OVERFLOW_BP, v);
      UpdateZn(And(A, m));
      var n := Masked(GetBit(m, 7), 0x80);
      StoreN(n);
    }

    /** cpu_compare */
    method Compare(reg: u32, m: byte)
      requires IsCpu()
      modifies `lz, P
      ensures State() == Compared(old(State()), reg % 256, m)
    {
      hide State, GetBit, Flagged;
      CarryFlag(State(), reg % 256 >= m);
      var result := reg % 256 - m;
      ModifyFlag(CARRY_BP, if result >= 0 then 1 else 0);
      UpdateZn(result % 256);
    }

    /** asl, lsr, rol and ror, and the forms that work on A */
    method OpShift(op: ShiftOp, x: u32) returns (r: u32)
      requires IsCpu()
      modifies `lz, P
      ensures State() == Shifted(old(State()), op, x % 256) && r % 256 == ShiftOf(old(State()), op, x % 256)
    {
      hide State, GetBit, WithFlag, Flagged, Shifted;
      StateIs();
      ShiftOnWords(State(), op, x);
      var carry := if P[CARRY_BP] != 0 then 1 else 0;
      if op.Asl? {
        var c := Masked(GetBit(x, 7), 0x80);
        ModifyFlag(CARRY_BP, c);
        r := 2 * x % TWO32;
        UpdateZn(r);
      } else if op.Lsr? {
        r := x % 256 / 2;
        var c := Masked(GetBit(x, 0), 1);
        ModifyFlag(CARRY_BP, c);
        UpdateZn(r);
      } else if op.Rol? {
        r := 2 * (x % 256) + carry;
        var c := Masked(GetBit(r, 8), 0x100);
        ModifyFlag(CARRY_BP, c);
        UpdateZn(r);
      } else {
        var c := Masked(GetBit(x, 0), 1);
        ModifyFlag(CARRY_BP, c);
        r := x % 256 / 2 + 128 * carry;
        UpdateZn(r);
      }
    }

    method OpShiftA(op: ShiftOp)
      requires IsCpu()
      modifies `A, `lz, P
      ensures State() == ShiftedA(old(State()), op)
    {
      hide State, Shifted, ShiftOf;
      StateIs();
      var r := OpShift(op, A);
      SetA(r);
    }

    /** inc and dec; the stored byte is the low byte of the result */
    method OpCount(op: CountOp, m: byte) returns (r: u32)
      requires IsCpu()
      modifies `lz
      ensures r % 256 == CountOf(op, m) && State() == Flagged(old(State()), CountOf(op, m))
    {
      hide State, Flagged;
      r := if op.Inc? then m + 1 else (m - 1) % 256;
      UpdateZn(r);
    }

    method OpCountRegister(op: CountRegisterOp)
      requires IsCpu()
      modifies `X, `Y, `lz
      ensures State() == Counted(old(State()), op)
    {
      hide State, Flagged, CountOf;
      StateIs();
      CountsAre(X);
      CountsAre(Y);
      match op
      case Inx => SetX((X + 1) % 256); UpdateZn(X);
      case Iny => SetY((Y + 1) % 256); UpdateZn(Y);
      case Dex => SetX((X - 1) % 256); UpdateZn(X);
      case Dey => SetY((Y - 1) % 256); UpdateZn(Y);
    }

    method OpLoad(op: LoadOp, m: byte)
      requires IsCpu()
      modifies `A, `X, `Y, `lz
      ensures State() == Loaded(old(State()), op, m)
    {
      hide State, Flagged;
      match op {
        case Lda => SetA(m);
        case Ldx => SetX(m);
        case Ldy => SetY(m);
        case Lax => SetX(m); SetA(m);
      }
      UpdateZn(m);
    }

    method OpTransfer(op: TransferOp)
      requires IsCpu()
      modifies `A, `X, `Y, `SP, `lz
      ensures State() == Transferred(old(State()), op)
    {
      hide State, Flagged;
      StateIs();
      match op
      case Tax => SetX(A); UpdateZn(X);
      case Txa => SetA(X); UpdateZn(A);
      case Tay => SetY(A); UpdateZn(Y);
      case Tya => SetA(Y); UpdateZn(A);
      case Tsx => SetX(SP); UpdateZn(X);
      case Txs => SetSP(X % 256);
    }

    method OpChangeFlag(op: FlagOp)
      requires IsCpu()
      modifies P
      ensures State() == FlagChanged(old(State()), op)
    {
      hide State, WithFlag;
      match op
      case Clc => ModifyFlag(CARRY_BP, 0);
      case Cld => ModifyFlag(DECIMAL_BP, 0);
      case Cli => ModifyFlag(INTERRUPT_BP, 0);
      case Clv => ModifyFlag(OVERFLOW_BP, 0);
      case Sec => ModifyFlag(CARRY_BP, 1);
      case Sed => ModifyFlag(DECIMAL_BP, 1);
      case Sei => ModifyFlag(INTERRUPT_BP, 1);
    }

    method OpArithmetic(op: ArithmeticOp, m: byte)
      requires IsCpu()
      modifies `A, `lz, P
      ensures State() == Calculated(old(State()), op, m)
    {
      hide State, Added, Subtracted, Tested, Compared;
      StateIs();
      match op
      case Adc => OpAdc(m);
      case Sbc => OpSbc(m);
      case BitOp => OpBit(m);
      case Cmp => Compare(A, m);
      case Cpx => Compare(X, m);
      case Cpy => Compare(Y, m);
    }

    /** The macros of all operations; w is what an operation that writes to memory passes on, unmasked. */
    method Execute(op: Op, m: byte) returns (w: u32)
      requires IsCpu()
      modifies `A, `X, `Y, `SP, `lz, P
      ensures State() == Exec(old(State()), op, m)
      ensures IsWrite(op) ==> w % 256 == Written(old(State()), op, m)
    {
      hide State, Shifted, ShiftOf, ShiftedA, Calculated, Counted, CountOf, Loaded, Transferred, FlagChanged, Flagged;
      hide LogicOf;
      w := 0;
      match op
      case Nop =>
      case Logic(logic) => OpLogic(logic, m);
      case Arithmetic(arithmetic) => OpArithmetic(arithmetic, m);
      case Shift(shift) =>
        ByteMod(m);
        w := OpShift(shift, m);
      case ShiftA(shift) => OpShiftA(shift);
      case Count(count) => w := OpCount(count, m);
      case CountRegister(register) => OpCountRegister(register);
      case Load(load) => OpLoad(load, m);
      case Store(store) =>
        StateIs();
        w := match store case Sta => A case Stx => X case Sty => Y;
      case Transfer(transfer) => OpTransfer(transfer);
      case ChangeFlag(flag) => OpChangeFlag(flag);
    }

    // ---------- memory and stack ----------

    /** cpu_ram_write; the array holds bytes */
    method WriteRam(address: nat, m: u32)
      requires IsCpu() && address < 0x800
      modifies ram
      ensures State() == old(State()).(ram := old(State()).ram[address := m % 256])
    {
      hide GetBit;
      ram[address] := m % 256;
    }

    /** An index register that is used unmasked must not change the address, a pointer at the end of the zero page is
        read across it, and the mode (zp,X) is not supported.
     */
    predicate IsIndexed(mode: Mode, base: word)
      requires IsCpu()
      reads this, ram
    {
      match mode
      case AbsoluteX => X / 256 % 256 == 0
      case AbsoluteY => Y / 256 % 256 == 0
      case IndirectX => false
      case IndirectY => base % 256 == 255 ==> ram[256] == ram[0]
      case _ => true
    }

    /** cpu_ram_readw */
    method LoadRamWord(address: nat) returns (w: word)
      requires IsCpu() && address < 256
      ensures w == WordAt(State().ram[address], State().ram[address + 1])
    {
      hide GetBit;
      w := WordAt(ram[address], ram[address + 1]);
    }

    method IndirectAddress(base: word) returns (address: word)
      requires IsCpu()
      ensures address == Address(State(), IndirectY, base) <==> IsIndexed(IndirectY, base)
    {
      hide State;
      StateIs();
      var w := LoadRamWord(base % 256);
      address := (w + Y % 256) % 65536;
      EndOfZeroPage(State(), base);
    }

    /** The addressing modes, in which (zp,X) asserts false. */
    method EffectiveAddress(mode: Mode, base: word) returns (address: word)
      requires IsCpu() && !mode.IndirectX?
      ensures address == Address(State(), mode, base) <==> IsIndexed(mode, base)
    {
      hide State, ZeroPageWord;
      StateIs();
      match mode
      case ZeroPage => address := base % 256;
      case ZeroPageX => IndexedByte(base, X); address := (base + X) % TWO32 % 256;
      case ZeroPageY => IndexedByte(base, Y); address := (base + Y) % TWO32 % 256;
      case Absolute => address := base;
      case AbsoluteX => IndexedWord(base, X); address := (base + X) % TWO32 % 65536;
      case AbsoluteY => IndexedWord(base, Y); address := (base + Y) % TWO32 % 65536;
      case IndirectY => address := IndirectAddress(base);
    }

    /** memory_readb, as far as reading has no effect or its effect is told by the caller */
    method LoadByte(address: word, read: word -> byte) returns (m: byte)
      requires IsCpu()
      ensures m == ByteAt(State(), address, read)
    {
      hide GetBit;
      m := if address < 0x800 then ram[address] else read(address);
    }

    /** The operand of the indirect jump */
    method LoadPointer(pointer: word, read: word -> byte) returns (w: word)
      requires IsCpu()
      ensures w == Pointer(State(), pointer, read)
    {
      hide State, ByteAt;
      var low := LoadByte(pointer, read);
      var high := LoadByte(if pointer % 256 == 255 then pointer - 255 else pointer + 1, read);
      w := WordAt(low, high);
    }

    method ExecuteInside(op: Op, address: word)
      requires IsCpu() && address < 0x800
      modifies `A, `X, `Y, `SP, `lz, P, ram
      ensures State() == ExecInside(old(State()), op, address)
    {
      hide State, Exec, Written;
      StateIs();
      var w := Execute(op, ram[address]);
      if IsWrite(op) {
        WriteRam(address, w);
      }
    }

    /** The addressing mode, which loads the operand for all macros but the stores, the macro, and memory_writeb, whose
        devices take bytes
     */
    method ExecuteMemory(op: Op, mode: Mode, base: word, read: word -> byte) returns (out: seq<Access>)
      requires IsCpu() && IsIndexed(mode, base)
      modifies `A, `X, `Y, `SP, `lz, P, ram
      ensures State() == ExecMemory(old(State()), op, Address(old(State()), mode, base), read)
      ensures out == Accesses(old(State()), Memory(op, mode, base), read)
    {
      hide State, Exec, Written, ExecInside, Address;
      var address := EffectiveAddress(mode, base);
      out := if IsDevice(address) && !op.Store? then [Read(address)] else [];
      if address < 0x800 {
        ExecuteInside(op, address);
      } else {
        var w := Execute(op, read(address));
        if IsWrite(op) && IsDevice(address) {
          out := out + [Wrote(address, w % 256)];
        }
      }
    }

    /** cpu_stack_pushb */
    method PushByte(m: byte)
      requires IsCpu() && 1 <= State().sp < 256
      modifies ram, `SP
      ensures State() == Pushed(old(State()), m)
    {
      hide GetBit;
      ram[0x100 + SP] := m;
      SP := (SP - 1) % TWO32;
    }

    /** cpu_stack_pushw, which writes the low bytes of the word to an array of bytes */
    method PushWord(w: u32)
      requires IsCpu() && 2 <= State().sp < 256
      modifies ram, `SP
      ensures State() == PushedWord(old(State()), w % 65536)
    {
      hide GetBit;
      WordParts(w);
      ram[0xFF + SP] := w % 256;
      ram[0x100 + SP] := w / 256 % 256;
      SP := (SP - 2) % TWO32;
    }

    /** cpu_stack_popb */
    method PopByte() returns (m: byte)
      requires IsCpu() && 0 <= State().sp < 255
      modifies `SP
      ensures m == Top(old(State())) && State() == Popped(old(State()))
    {
      hide GetBit;
      SP := (SP + 1) % TWO32;
      m := ram[0x100 + SP];
    }

    /** cpu_stack_popw */
    method PopWord() returns (w: word)
      requires IsCpu() && 0 <= State().sp < 254
      modifies `SP
      ensures w == TopWord(old(State())) && State() == PoppedWord(old(State()))
    {
      hide GetBit;
      SP := (SP + 2) % TWO32;
      w := WordAt(ram[0xFF + SP], ram[0x100 + SP]);
    }

    // ---------- flags in bulk ----------

    /** All flags are stored in P, as after lz_compute_n and lz_compute_z. */
    predicate IsUpToDate()
      requires IsCpu()
      reads `lz, P
    {
      !GetBit(lz, LAZY_N) && (lz % 256 == 0 <==> P[ZERO_BP] != 0)
    }

    /** byte_pack */
    method PackFlags() returns (p: byte)
      requires IsCpu() && IsUpToDate()
      ensures p == Packed(State())
    {
      hide GetBit, Pack;
      p := Pack(P[0] != 0, P[1] != 0, P[2] != 0, P[3] != 0, P[4] != 0, P[5] != 0, P[6] != 0, P[7] != 0);
    }

    /** byte_unpack */
    method UnpackFlags(p: byte)
      requires IsCpu()
      modifies P
      ensures forall k | 0 <= k < 8 :: P[k] == if GetBit(p, k) then 1 else 0
    {
      hide GetBit;
      for k := 0 to 8
        invariant forall j | 0 <= j < k :: P[j] == if GetBit(p, j) then 1 else 0
      {
        P[k] := if GetBit(p, k) then 1 else 0;
      }
    }

    method StoreFlag(bp: nat, value: int)
      requires IsCpu() && bp < 8 && bp != ZERO_BP
      modifies P
      ensures P[bp] == value && forall k | 0 <= k < 8 && k != bp :: P[k] == old(P[k])
      ensures old(IsUpToDate()) ==> IsUpToDate()
    {
      hide GetBit;
      P[bp] := value;
    }

    /** cpu_update_zn_flags(!cpu.P[zero_bp]); lz_set_n_uptodate(lz_zn_result) */
    method AdoptFlags()
      requires IsCpu()
      modifies `lz
      ensures IsUpToDate()
    {
      hide GetBit, SetBit;
      var value: u32 := if P[ZERO_BP] == 0 then 1 else 0;
      LazyBits(value);
      LazyBits(SetBit(value, LAZY_N, true));
      lz := SetBit(SetBit(value, LAZY_N, true), LAZY_N, false);
    }

    method ComputeFlags()
      requires IsCpu()
      modifies `lz, P
      ensures State() == old(State()) && IsUpToDate()
    {
      hide GetBit;
      ComputeN();
      ComputeZ();
    }

    method OpPhp(ghost read: word -> byte)
      requires IsCpu() && IsSafe(State(), Php)
      modifies `lz, P, ram, `SP
      ensures State() == Mos6502.Step(old(State()), PC, Php, read)
    {
      hide State, GetBit, SetBit, WithFlag, Packed, Pushed, IsUpToDate;
      ComputeFlags();
      var p := PackFlags();
      PackedWithFlag(State(), BREAK_BP, true);
      PackedWithFlag(WithFlag(State(), BREAK_BP, true), UNUSED_BP, true);
      PushByte(SetBit(SetBit(p, BREAK_BP, true), UNUSED_BP, true));
    }

    lemma FlagsAre(s: View, p: byte, v4: bool, v5: bool)
      requires IsCpu() && IsUpToDate()
      requires State().a == s.a && State().x == s.x && State().y == s.y && State().sp == s.sp && State().ram == s.ram
      requires forall k | 0 <= k < 8 && k != BREAK_BP && k != UNUSED_BP :: P[k] == if GetBit(p, k) then 1 else 0
      requires (P[BREAK_BP] != 0) == v4 && (P[UNUSED_BP] != 0) == v5
      ensures State() == WithFlag(WithFlag(Unpacked(s, p), BREAK_BP, v4), UNUSED_BP, v5)
    {
      hide GetBit;
    }

    method OpPlp(ghost read: word -> byte)
      requires IsCpu() && IsSafe(State(), Plp)
      modifies `lz, P, `SP
      ensures State() == Mos6502.Step(old(State()), PC, Plp, read)
    {
      hide GetBit, IsUpToDate, Unpacked, WithFlag, Pack;
      var p := PopByte();
      ghost var s := State();
      UnpackFlags(p);
      StoreFlag(BREAK_BP, 0);
      StoreFlag(UNUSED_BP, 1);
      AdoptFlags();
      FlagsAre(s, p, false, true);
    }

    method OpBrk(ghost read: word -> byte)
      requires IsCpu() && IsSafe(State(), Brk)
      modifies `lz, P, ram, `SP
      ensures State() == Mos6502.Step(old(State()), PC, Brk, read)
    {
      hide State, GetBit, WithFlag, Packed, IsUpToDate;
      PackedPushed(State(), PC % 65536);
      PushWord(PC);
      ComputeFlags();
      var p := PackFlags();
      PushByte(p);
      ModifyFlag(UNUSED_BP, 1);
      ModifyFlag(BREAK_BP, 1);
    }

    method ComputeInterruptFlags()
      requires IsCpu()
      modifies `lz, P
      ensures State() == WithFlag(WithFlag(old(State()), INTERRUPT_BP, true), UNUSED_BP, false) && IsUpToDate()
    {
      hide State, GetBit, WithFlag;
      ComputeFlags();
      ModifyFlag(INTERRUPT_BP, 1);
      ModifyFlag(UNUSED_BP, 0);
    }

    /** cpu_interrupt */
    method Interrupt(ghost read: word -> byte)
      requires IsCpu() && IsSafe(State(), Nmi)
      modifies `lz, P, ram, `SP
      ensures State() == Mos6502.Step(old(State()), PC, Nmi, read)
    {
      hide State, GetBit, WithFlag, Packed, IsUpToDate;
      SpOfFlags(State());
      ComputeInterruptFlags();
      PackedPushed(State(), PC % 65536);
      PushWord(PC);
      var p := PackFlags();
      PushByte(p);
    }

    method PopFlags()
      requires IsCpu() && 0 <= State().sp < 255
      modifies `lz, P, `SP
      ensures State() == WithFlag(PoppedFlags(old(State())), UNUSED_BP, true)
    {
      hide GetBit, IsUpToDate, Unpacked, WithFlag, Pack, Packed;
      var p := PopByte();
      ghost var s := State();
      UnpackFlags(p);
      AdoptFlags();
      StoreFlag(UNUSED_BP, 1);
      FlagsAre(s, p, GetBit(p, BREAK_BP), true);
      BreakStays(s, p);
    }

    method OpRti(ghost read: word -> byte)
      requires IsCpu() && IsSafe(State(), Rti)
      modifies `lz, P, `SP, `PC
      ensures State() == Mos6502.Step(old(State()), old(PC), Rti, read) && PC == TopWord(Popped(old(State())))
    {
      hide State, GetBit;
      PopFlags();
      PC := PopWord();
    }

    method OpRts(ghost read: word -> byte)
      requires IsCpu() && IsSafe(State(), Rts)
      modifies `SP, `PC
      ensures State() == Mos6502.Step(old(State()), old(PC), Rts, read) && PC == TopWord(old(State())) + 1
    {
      hide State;
      PC := PopWord();
      PC := PC + 1;
    }

    /** lz_compute_n before a branch on N, and cpu_branch */
    method Test(condition: Condition) returns (taken: bool)
      requires IsCpu()
      modifies `lz, P
      ensures taken == IsTaken(old(State()), condition) && State() == old(State())
    {
      hide GetBit;
      if condition.Mi? || condition.Pl? {
        ComputeN();
      }
      match condition
      case Cs => taken := P[CARRY_BP] != 0;
      case Eq => taken := lz % 256 == 0;
      case Mi => taken := P[NEGATIVE_BP] != 0;
      case Vs => taken := P[OVERFLOW_BP] != 0;
      case Ne => taken := lz % 256 != 0;
      case Cc => taken := P[CARRY_BP] == 0;
      case Pl => taken := P[NEGATIVE_BP] == 0;
      case Vc => taken := P[OVERFLOW_BP] == 0;
    }

    /** The relative mode and cpu_branch, which fetches the offset only if it is needed */
    method OpBranch(condition: Condition, offset: byte)
      requires IsCpu()
      modifies `lz, `PC, P
      ensures State() == old(State())
      ensures PC == (old(PC) + 2 + BranchOffset(old(State()), condition, offset)) % TWO32
    {
      hide State, IsTaken;
      var taken := Test(condition);
      if taken {
        PC := (PC + 2 + Signed(offset)) % TWO32;
      } else {
        PC := (PC + 2) % TWO32;
      }
    }

    predicate IsIndexedBy(instr: Instr)
      requires IsCpu()
      reads this, ram
    {
      instr.Memory? ==> IsIndexed(instr.mode, instr.base)
    }

    /** The instructions that change nothing but registers, flags and the stack, apart from the counter */
    method StepRegisters(instr: Instr, ghost read: word -> byte)
      requires IsCpu() && IsSafe(State(), instr)
      requires instr.Implied? || instr.Immediate? || instr.Pha? || instr.Pla? || instr.Php? || instr.Plp?
      modifies `A, `X, `Y, `SP, `lz, P, ram
      ensures State() == Mos6502.Step(old(State()), PC, instr, read)
    {
      hide State, Exec, Packed, Unpacked, WithFlag, Flagged, Pushed, Popped, Top, PoppedFlags;
      match instr
      case Implied(op) =>
        var w := Execute(op, 0);
      case Immediate(op, m) =>
        var w := Execute(op, m);
      case Pha =>
        StateIs();
        PushByte(A % 256);
      case Php => OpPhp(read);
      case Pla =>
        var m := PopByte();
        ByteMod(m);
        SetA(m);
        UpdateZn(m);
      case Plp => OpPlp(read);
    }

    /** JSR pushes the address of its last byte. */
    method OpJsr(target: word, ghost read: word -> byte)
      requires IsCpu() && IsSafe(State(), Jsr(target))
      modifies `SP, `PC, ram
      ensures State() == Mos6502.Step(old(State()), old(PC), Jsr(target), read) && PC == target
    {
      hide State, PushedWord;
      WordOfSum(PC + 2);
      PushWord((PC + 2) % TWO32);
      PC := target;
    }

    /** The instructions that set the counter */
    method StepCounter(instr: Instr, read: word -> byte)
      requires IsCpu() && IsSafe(State(), instr) && IsJump(instr)
      modifies `SP, `lz, `PC, P, ram
      ensures State() == Mos6502.Step(old(State()), old(PC), instr, read)
      ensures PC == NextPc(old(State()), old(PC), instr, read) % TWO32
    {
      hide State, Packed, Unpacked, WithFlag, PushedWord, PoppedWord, TopWord, Popped, Interrupted, PoppedFlags;
      hide Pointer, BranchOffset, Vector;
      match instr
      case Branch(condition, offset) => OpBranch(condition, offset);
      case Jmp(target) => PC := target;
      case JmpIndirect(pointer) => PC := LoadPointer(pointer, read);
      case Jsr(target) => OpJsr(target, read);
      case Rts => OpRts(read);
      case Brk =>
        OpBrk(read);
        PC := Vector(NMI_VECTOR, read);
      case Rti => OpRti(read);
      case Nmi =>
        Interrupt(read);
        PC := Vector(NMI_VECTOR, read);
    }

    /** One turn of cpu_run, or an interrupt between two calls of it. The counter has 32 bits and is not masked. */
    method Step(instr: Instr, read: word -> byte) returns (out: seq<Access>)
      requires IsCpu() && IsSafe(State(), instr) && IsIndexedBy(instr)
      modifies this, P, ram
      ensures State() == Mos6502.Step(old(State()), old(PC), instr, read)
      ensures PC == NextPc(old(State()), old(PC), instr, read) % TWO32
      ensures instr.Implied? || instr.Pha? || instr.Pla? || instr.Php? || instr.Plp? ==> PC == (old(PC) + 1) % TWO32
      ensures instr.Immediate? ==> PC == (old(PC) + 2) % TWO32
      ensures instr.Memory? ==>
                var size := if instr.mode.Absolute? || instr.mode.AbsoluteX? || instr.mode.AbsoluteY? then 3 else 2;
                PC == (old(PC) + size) % TWO32
      ensures instr.Brk? || instr.Nmi? ==> PC == (read(0xFFFA) + 256 * read(0xFFFB)) % TWO32
      ensures out == Accesses(old(State()), instr, read)
    {
      hide State, Exec, ExecMemory, Address, Packed, Unpacked, WithFlag, Flagged, Pushed, PushedWord;
      hide Popped, PoppedWord, Top, TopWord, BranchOffset, PoppedFlags, Interrupted, Pointer, Vector, IsIndexed;
      CounterIs(State(), PC, instr, read);
      out := [];
      if IsJump(instr) {
        StepCounter(instr, read);
      } else if instr.Memory? {
        out := ExecuteMemory(instr.op, instr.mode, instr.base, read);
        PC := (PC + Length(instr)) % TWO32;
      } else {
        StepRegisters(instr, read);
        PC := (PC + Length(instr)) % TWO32;
      }
    }
  }

  /** (Areg & 0xff) - op_value - borrow, on 32-bit words */
  method Difference(wide: u32, m: byte, borrow: nat) returns (result: u32)
    ensures TWO32 > 0 && result == (wide % 256 - m - borrow) % TWO32
  {
    result := (wide % 256 - m - borrow) % TWO32;
  }

  /** A value masked with a single bit: only whether it is zero matters. */
  method Masked(bit: bool, mask: nat) returns (value: int)
    requires mask > 0
    ensures value != 0 <==> bit
  {
    value := if bit then mask else 0;
  }

  lemma SpOfFlags(s: View)
    ensures WithFlag(WithFlag(s, INTERRUPT_BP, true), UNUSED_BP, false).sp == s.sp
  {
  }

  lemma BreakStays(s: View, p: byte)
    ensures WithFlag(WithFlag(Unpacked(s, p), BREAK_BP, GetBit(p, BREAK_BP)), UNUSED_BP, true) ==
            WithFlag(Unpacked(s, p), UNUSED_BP, true)
  {
    hide GetBit;
  }

  lemma CountsAre(x: u32)
    ensures (x + 1) % 256 == CountOf(Inc, x % 256) && (x - 1) % 256 == CountOf(Dec, x % 256)
    ensures (x + 1) % 256 % 256 == (x + 1) % 256 && (x - 1) % 256 % 256 == (x - 1) % 256
  {
    var q, b := x / 256, x % 256;
    SameModulo(x + 1, b + 1, q, 256);
    SmallDifference(b - 1);
    if b > 0 {
      SameModulo(x - 1, b - 1, q, 256);
    } else if q > 0 {
      DivModUnique(x - 1, 256, q - 1, 255);
    }
    ByteMod((x + 1) % 256);
    ByteMod((x - 1) % 256);
  }

  /** Indexing in the zero page masks the sum, so that an unmasked register does no harm. */
  lemma IndexedByte(base: word, x: u32)
    ensures (base + x) % TWO32 % 256 == (base + x % 256) % 256
  {
    ByteOfWord(base + x);
    ByteOfSum(base, x);
  }

  lemma ByteOfSum(base: nat, x: nat)
    ensures (base + x) % 256 == (base + x % 256) % 256
  {
    var q, b := x / 256, x % 256;
    SameModulo(base + x, base + b, q, 256);
  }

  /** Absolute indexing agrees with the masked register exactly if the second byte of the register is zero. */
  lemma IndexedWord(base: word, x: u32)
    ensures (base + x) % TWO32 % 65536 == (base + x % 256) % 65536 <==> x / 256 % 256 == 0
  {
    WordOfSum(base + x);
    PartsOf(x);
    IndexedParts(base, x / 65536, x / 256 % 256, x % 256);
  }

  lemma PartsOf(x: u32)
    ensures x == 65536 * (x / 65536) + 256 * (x / 256 % 256) + x % 256
  {
    var q, b := x / 256, x % 256;
    var h, k := q / 256, q % 256;
    DivModUnique(x, 65536, h, 256 * k + b);
  }

  lemma IndexedParts(base: nat, h: nat, k: nat, b: nat)
    requires k < 256
    ensures (base + (65536 * h + 256 * k + b)) % 65536 == (base + b) % 65536 <==> k == 0
  {
    SameModulo(base + (65536 * h + 256 * k + b), base + b + 256 * k, h, 65536);
    WordDiffers(base + b, k);
  }

  lemma WordOfSum(x: nat)
    ensures x % TWO32 % 65536 == x % 65536
  {
    var q, w := x / TWO32, x % TWO32;
    SameModulo(x, w, 65536 * q, 65536);
  }

  lemma WordDiffers(y: nat, k: nat)
    requires k < 256
    ensures (y + 256 * k) % 65536 == y % 65536 <==> k == 0
  {
    var q, r := y / 65536, y % 65536;
    var t := if r + 256 * k < 65536 then 0 else 1;
    DivModUnique(y + 256 * k, 65536, q + t, r + 256 * k - t * 65536);
  }

  lemma WordParts(w: u32)
    ensures w % 65536 / 256 == w / 256 % 256 && w % 65536 % 256 == w % 256
  {
    var q, b := w / 256, w % 256;
    var h, k := q / 256, q % 256;
    DivModUnique(w, 65536, h, 256 * k + b);
    DivModUnique(256 * k + b, 256, k, b);
  }

  /** A pointer that is read across the end of the zero page agrees exactly if the bytes at 0 and 256 do. */
  lemma EndOfZeroPage(s: View, base: word)
    ensures (WordAt(s.ram[base % 256], s.ram[base % 256 + 1]) + s.y) % 65536 == Address(s, IndirectY, base) <==>
            (base % 256 == 255 ==> s.ram[256] == s.ram[0])
  {
    var b := base % 256;
    SameModulo(base + 1, b + 1, base / 256, 256);
    if b == 255 {
      HighByteMatters(s.ram[b] + s.y, s.ram[256], s.ram[0]);
    }
  }

  lemma HighByteMatters(y: nat, h: byte, k: byte)
    ensures (y + 256 * h) % 65536 == (y + 256 * k) % 65536 <==> h == k
  {
    if h >= k {
      WordDiffers(y + 256 * k, h - k);
    } else {
      WordDiffers(y + 256 * h, k - h);
    }
  }

  lemma FlaggedWithA(s: View, r: byte)
    ensures Flagged(s, r).(a := r) == Flagged(s.(a := r), r)
  {
  }

  /** Marking lz as lazy or not leaves its low byte alone. */
  lemma LazyBits(value: u32)
    ensures SetBit(value, LAZY_N, true) < TWO32 && SetBit(value, LAZY_N, false) < TWO32
    ensures SetBit(value, LAZY_N, true) % 256 == value % 256 && SetBit(value, LAZY_N, false) % 256 == value % 256
    ensures GetBit(SetBit(value, LAZY_N, true), LAZY_N) && !GetBit(SetBit(value, LAZY_N, false), LAZY_N)
    ensures GetBit(SetBit(value, LAZY_N, true), 7) <==> value % 256 >= 128
    ensures GetBit(value, 7) <==> value % 256 >= 128
  {
    hide GetBit, SetBit, Pow2;
    Pow2Constants();
    ByteIsBelow();
    BitsOf(value);
    forall b: bool
      ensures SetBit(value, LAZY_N, b) < TWO32 && SetBit(value, LAZY_N, b) % 256 == value % 256
    {
      SetBitBelow(value, LAZY_N, b, 32);
      SetBitAbove(value, LAZY_N, b, 8);
    }
    GetSet(value, LAZY_N, true, LAZY_N);
    GetSet(value, LAZY_N, false, LAZY_N);
    GetSet(value, LAZY_N, true, 7);
  }
}
