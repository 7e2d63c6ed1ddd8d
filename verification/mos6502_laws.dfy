/** What the operations of the 6502 do, by the arithmetic of their results rather than by the formulas of the
    specification: sums, differences and shifts with their carries, pairs that undo each other, and the stack.
 */
module Mos6502Laws {
  import opened Bits
  import opened Mos6502

  function Bit(b: bool): nat {
    if b then 1 else 0
  }

  lemma BitIsNumber()
    ensures Bit(true) == 1 && Bit(false) == 0
  {
  }

  // ---------- arithmetic ----------

  /** The carry and A together are the sum. */
  lemma SumWithCarry(s: View, m: byte)
    ensures var t := Exec(s, Arithmetic(Adc), m);
            && 256 * Bit(t.c) + t.a == s.a + m + Bit(s.c) && t.z == (t.a == 0) && t.n == (t.a >= 128)
            && t == s.(a := t.a, c := t.c, z := t.z, n := t.n, v := t.v)
  {
    SmallSum(s.a + m + Carry(s));
    hide Signed, Subtracted, Tested, Compared, Shifted, ShiftedA, Counted, FlagChanged, Loaded, Transferred, LogicOf;
  }

  /** The missing carry is a borrow. */
  lemma DifferenceWithBorrow(s: View, m: byte)
    ensures var t := Exec(s, Arithmetic(Sbc), m);
            && t.a - 256 * Bit(!t.c) == s.a - m - Bit(!s.c) && t.z == (t.a == 0) && t.n == (t.a >= 128)
            && t == s.(a := t.a, c := t.c, z := t.z, n := t.n, v := t.v)
  {
    BorrowIs(s.a, m, Bit(!s.c));
    hide Signed, Added, Tested, Compared, Shifted, ShiftedA, Counted, FlagChanged, Loaded, Transferred, LogicOf;
  }

  lemma BorrowIs(a: byte, m: byte, borrow: nat)
    requires borrow <= 1
    ensures (a - m - borrow) % 256 == if a - m - borrow >= 0 then a - m - borrow else a - m - borrow + 256
  {
    SmallDifference(a - m - borrow);
  }

  /** The signed value of a byte is its remainder in the range of signed bytes. */
  lemma SignedIs(x: int)
    requires -256 <= x < 256
    ensures Signed(x % 256) == x <==> -128 <= x < 128
  {
    SmallDifference(x);
  }

  /** The remainder of a sum is that of the sum of the signed values. */
  lemma SignedSums(a: byte, m: byte, carry: nat)
    requires carry <= 1
    ensures (Signed(a) + Signed(m) + carry) % 256 == (a + m + carry) % 256
    ensures (Signed(a) - Signed(m) - carry) % 256 == (a - m - carry) % 256
    ensures -256 <= Signed(a) + Signed(m) + carry < 256 && -256 <= Signed(a) - Signed(m) - carry < 256
  {
    SmallSum(a + m + carry);
    SmallDifference(Signed(a) + Signed(m) + carry);
    SmallDifference(a - m - carry);
    SmallDifference(Signed(a) - Signed(m) - carry);
  }

  /** Overflow: the signed result is not the signed sum or difference. */
  lemma SignedResults(s: View, m: byte)
    ensures var t := Exec(s, Arithmetic(Adc), m); t.v <==> Signed(t.a) != Signed(s.a) + Signed(m) + Bit(s.c)
    ensures var t := Exec(s, Arithmetic(Sbc), m); t.v <==> Signed(t.a) != Signed(s.a) - Signed(m) - Bit(!s.c)
  {
    hide Signed;
    SignedSums(s.a, m, Bit(s.c));
    SignedSums(s.a, m, Bit(!s.c));
    SignedIs(Signed(s.a) + Signed(m) + Bit(s.c));
    SignedIs(Signed(s.a) - Signed(m) - Bit(!s.c));
  }

  /** A comparison sets the flags of the difference and keeps the registers. */
  lemma ComparisonOf(s: View, op: ArithmeticOp, m: byte)
    requires op.Cmp? || op.Cpx? || op.Cpy?
    ensures var r := if op.Cmp? then s.a else if op.Cpx? then s.x else s.y;
            Exec(s, Arithmetic(op), m) ==
            s.(c := r >= m, z := r == m, n := (if r >= m then r - m else r - m + 256) >= 128)
  {
    var r := if op.Cmp? then s.a else if op.Cpx? then s.x else s.y;
    SmallDifference(r - m);
  }

  lemma {:induction false} BitsOfLogic(a: nat, b: nat, k: nat)
    ensures GetBit(And(a, b), k) == (GetBit(a, k) && GetBit(b, k))
    ensures GetBit(Or(a, b), k) == (GetBit(a, k) || GetBit(b, k))
    ensures GetBit(Xor(a, b), k) == (GetBit(a, k) != GetBit(b, k))
  {
    if k > 0 {
      AndHalves(a, b);
      OrHalves(a, b);
      XorHalves(a, b);
      BitsOfLogic(a / 2, b / 2, k - 1);
    }
  }

  lemma LogicIsByte(a: byte, m: byte)
    ensures And(a, m) < 256 && Or(a, m) < 256 && Xor(a, m) < 256
    ensures AndByte(a, m) == And(a, m) && OrByte(a, m) == Or(a, m) && XorByte(a, m) == Xor(a, m)
  {
    hide And, Or, Xor, Pow2;
    ByteIsBelow();
    OrXorBelow(a, m, 8);
    AndBelow(a, m);
    SmallMod(Or(a, m), 256);
    SmallMod(Xor(a, m), 256);
  }

  /** The logical operations work bit by bit. */
  lemma LogicBitByBit(s: View, op: LogicOp, m: byte, k: nat)
    ensures var t := Exec(s, Logic(op), m);
            && GetBit(t.a, k) == (match op
                                  case AndOp => GetBit(s.a, k) && GetBit(m, k)
                                  case Ora => GetBit(s.a, k) || GetBit(m, k)
                                  case Eor => GetBit(s.a, k) != GetBit(m, k))
            && t == s.(a := t.a, z := t.a == 0, n := t.a >= 128)
  {
    hide GetBit, And, Or, Xor, AndByte, OrByte, XorByte;
    LogicIsByte(s.a, m);
    BitsOfLogic(s.a, m, k);
  }

  // ---------- shifts and counts ----------

  /** What is shifted out of a byte at one end. */
  lemma ShiftSums(s: View, op: ShiftOp, m: byte)
    ensures var r, out := ShiftOf(s, op, m), if op.Asl? || op.Rol? then m >= 128 else m % 2 == 1;
            match op
            case Asl => 256 * Bit(out) + r == 2 * m
            case Rol => 256 * Bit(out) + r == 2 * m + Bit(s.c)
            case Lsr => 2 * r + Bit(out) == m
            case Ror => 2 * r + Bit(out) == m + 256 * Bit(s.c)
  {
    match op
    case Asl => SmallSum(2 * m);
    case Rol => SmallSum(2 * m + Carry(s));
    case Lsr =>
    case Ror =>
  }

  /** Shifts to the left double, and shifts to the right halve, with the carry at the other end. */
  lemma ShiftWithCarry(s: View, op: ShiftOp, m: byte)
    ensures var t, r := Exec(s, Shift(op), m), Written(s, Shift(op), m);
            && (match op
                case Asl => 256 * Bit(t.c) + r == 2 * m
                case Rol => 256 * Bit(t.c) + r == 2 * m + Bit(s.c)
                case Lsr => 2 * r + Bit(t.c) == m
                case Ror => 2 * r + Bit(t.c) == m + 256 * Bit(s.c))
            && t == s.(c := t.c, z := r == 0, n := r >= 128)
  {
    hide ShiftOf;
    ShiftSums(s, op, m);
  }

  /** The shifts of A do to A what the others do to memory. */
  lemma ShiftOfA(s: View, op: ShiftOp, m: byte)
    ensures Exec(s, ShiftA(op), m) == Exec(s, Shift(op), s.a).(a := Written(s, Shift(op), s.a))
  {
    hide ShiftOf, Shifted;
  }

  /** Rotating through the carry in both directions restores byte and carry. */
  lemma RotationsUndo(s: View, op: ShiftOp, m: byte)
    requires op.Rol? || op.Ror?
    ensures var t, r, back := Exec(s, Shift(op), m), Written(s, Shift(op), m), if op.Rol? then Ror else Rol;
            Written(t, Shift(back), r) == m && Exec(t, Shift(back), r).c == s.c
  {
    hide Exec, Written;
    ShiftWithCarry(s, op, m);
    var t, r := Exec(s, Shift(op), m), Written(s, Shift(op), m);
    ShiftWithCarry(t, if op.Rol? then Ror else Rol, r);
  }

  /** Counts go up or down by one, around the byte. */
  lemma CountByOne(s: View, op: CountOp, m: byte)
    ensures var r := Written(s, Count(op), m);
            && r == (if op.Inc? then (if m == 255 then 0 else m + 1) else if m == 0 then 255 else m - 1)
            && Exec(s, Count(op), m) == s.(z := r == 0, n := r >= 128)
  {
  }

  lemma RegisterByOne(s: View, op: CountRegisterOp, m: byte)
    ensures var before := if op.Inx? || op.Dex? then s.x else s.y;
            var r := if op.Inx? || op.Iny? then (if before == 255 then 0 else before + 1)
                     else if before == 0 then 255 else before - 1;
            Exec(s, CountRegister(op), m) ==
            if op.Inx? || op.Dex? then s.(x := r, z := r == 0, n := r >= 128)
            else s.(y := r, z := r == 0, n := r >= 128)
  {
    ByOne(s.x);
    ByOne(s.y);
    hide CountOf, Calculated, Shifted, ShiftedA, FlagChanged, Loaded, Transferred, LogicOf;
  }

  lemma ByOne(m: byte)
    ensures CountOf(Inc, m) == (if m == 255 then 0 else m + 1) && CountOf(Dec, m) == if m == 0 then 255 else m - 1
  {
  }

  // ---------- moves ----------

  /** Each load changes its own registers and two flags. */
  lemma LoadOf(s: View, m: byte)
    ensures Exec(s, Load(Lda), m) == s.(a := m, z := m == 0, n := m >= 128)
    ensures Exec(s, Load(Ldx), m) == s.(x := m, z := m == 0, n := m >= 128)
    ensures Exec(s, Load(Ldy), m) == s.(y := m, z := m == 0, n := m >= 128)
    ensures Exec(s, Load(Lax), m) == s.(a := m, x := m, z := m == 0, n := m >= 128)
  {
    hide Calculated, Shifted, ShiftedA, Counted, FlagChanged, Transferred, LogicOf, CountOf;
  }

  /** A byte that is loaded into a register is what its store writes, and what the other stores write is unchanged. */
  lemma LoadedIsStored(s: View, m: byte, m': byte)
    ensures Written(Exec(s, Load(Lda), m), Store(Sta), m') == m
    ensures Written(Exec(s, Load(Ldx), m), Store(Stx), m') == m
    ensures Written(Exec(s, Load(Ldy), m), Store(Sty), m') == m
    ensures Written(Exec(s, Load(Ldx), m), Store(Sta), m') == Written(s, Store(Sta), m')
    ensures Written(Exec(s, Load(Ldy), m), Store(Stx), m') == Written(s, Store(Stx), m')
  {
    hide Exec;
    LoadOf(s, m);
  }

  /** A transfer is a load of what the other register would store; the one to the stack pointer sets no flags. */
  lemma TransferLoads(s: View, m: byte)
    requires 0 <= s.sp < 256
    ensures Exec(s, Transfer(Tax), m) == Exec(s, Load(Ldx), Written(s, Store(Sta), m))
    ensures Exec(s, Transfer(Tay), m) == Exec(s, Load(Ldy), Written(s, Store(Sta), m))
    ensures Exec(s, Transfer(Txa), m) == Exec(s, Load(Lda), Written(s, Store(Stx), m))
    ensures Exec(s, Transfer(Tya), m) == Exec(s, Load(Lda), Written(s, Store(Sty), m))
    ensures Exec(s, Transfer(Tsx), m) == Exec(s, Load(Ldx), s.sp)
    ensures Exec(s, Transfer(Txs), m) == s.(sp := Written(s, Store(Stx), m))
  {
    SmallMod(s.sp, 256);
    hide Flagged, Calculated, Shifted, ShiftedA, Counted, FlagChanged, LogicOf, CountOf;
  }

  lemma FlagIs(s: View, b: bool)
    ensures WithFlag(s, 0, b) == s.(c := b) && WithFlag(s, 2, b) == s.(i := b)
    ensures WithFlag(s, 3, b) == s.(d := b) && WithFlag(s, 6, b) == s.(v := b)
  {
  }

  lemma FlagInstruction(s: View, m: byte)
    ensures Exec(s, ChangeFlag(Clc), m) == s.(c := false) && Exec(s, ChangeFlag(Sec), m) == s.(c := true)
    ensures Exec(s, ChangeFlag(Cli), m) == s.(i := false) && Exec(s, ChangeFlag(Sei), m) == s.(i := true)
    ensures Exec(s, ChangeFlag(Cld), m) == s.(d := false) && Exec(s, ChangeFlag(Sed), m) == s.(d := true)
    ensures Exec(s, ChangeFlag(Clv), m) == s.(v := false)
  {
    hide Calculated, Shifted, ShiftedA, Counted, Loaded, Transferred, LogicOf, CountOf, WithFlag, Flagged;
    FlagIs(s, false);
    FlagIs(s, true);
  }

  /** Branches come in pairs, of which one is taken. */
  lemma BranchesInPairs(s: View)
    ensures IsTaken(s, Cs) != IsTaken(s, Cc) && IsTaken(s, Eq) != IsTaken(s, Ne)
    ensures IsTaken(s, Mi) != IsTaken(s, Pl) && IsTaken(s, Vs) != IsTaken(s, Vc)
  {
  }

  /** What a comparison has found is what the branches behind it see. */
  lemma BranchAfterComparison(s: View, m: byte)
    ensures var t := Exec(s, Arithmetic(Cmp), m);
            (IsTaken(t, Cs) <==> s.a >= m) && (IsTaken(t, Eq) <==> s.a == m)
    ensures var t := Exec(s, Arithmetic(Sbc), m); IsTaken(t, Vs) != IsTaken(t, Mi) <==>
            Signed(s.a) - Signed(m) - Bit(!s.c) < 0
  {
    hide Exec, Signed;
    ComparisonOf(s, Cmp, m);
    DifferenceWithBorrow(s, m);
    SignedResults(s, m);
    SignOfByte(Exec(s, Arithmetic(Sbc), m).a);
    SignedRange(s, m);
  }

  lemma SignOfByte(m: byte)
    ensures Signed(m) < 0 <==> m >= 128
  {
  }

  /** A signed difference that overflows has the other sign. */
  lemma SignedRange(s: View, m: byte)
    ensures var t := Exec(s, Arithmetic(Sbc), m);
            t.v ==> (Signed(t.a) < 0 <==> Signed(s.a) - Signed(m) - Bit(!s.c) >= 0)
  {
    var d := Signed(s.a) - Signed(m) - Bit(!s.c);
    SignedSums(s.a, m, Bit(!s.c));
    SmallDifference(d);
  }

  /** BIT shows the two top bits of the byte, and whether it has a bit in common with A. */
  lemma BitsShown(s: View, m: byte)
    ensures Exec(s, Arithmetic(BitOp), m) == s.(n := GetBit(m, 7), v := GetBit(m, 6), z := And(s.a, m) == 0)
  {
    hide GetBit, And;
    BitsOf(m);
  }

  // ---------- the stack ----------

  /** What PHA pushes PLA pulls, into A and the flags. */
  lemma PushAndPull(s: View, pc: nat, read: word -> byte)
    requires 1 <= s.sp < 256
    ensures IsSafe(s, Pha) && IsSafe(Step(s, pc, Pha, read), Pla)
    ensures var t := Step(s, pc, Pha, read);
            && t.sp == s.sp - 1 && t.ram == s.ram[0x100 + s.sp := s.a]
            && Step(t.(a := 0), pc, Pla, read) == s.(ram := t.ram, z := s.a == 0, n := s.a >= 128)
  {
    hide Exec, Packed, WithFlag, Interrupted, PoppedFlags, PoppedWord, PushedWord;
  }

  /** PHP and PLP give all flags back but two. */
  lemma FlagsPushAndPull(s: View, pc: nat, read: word -> byte, p: byte)
    requires 1 <= s.sp < 256
    ensures IsSafe(s, Php) && IsSafe(Unpacked(Step(s, pc, Php, read), p), Plp)
    ensures var t := Step(s, pc, Php, read);
            Step(Unpacked(t, p), pc, Plp, read) == s.(ram := t.ram, b := false, u := true)
  {
    hide Packed, GetBit, Pack;
    var w := WithFlag(WithFlag(s, BREAK_BP, true), UNUSED_BP, true);
    UnpackedIsPacked(w);
  }

  /** A subroutine returns behind the call, with the stack as it was. */
  lemma CallAndReturn(s: View, pc: word, target: word, read: word -> byte)
    requires 2 <= s.sp < 256 && pc + 2 < 0x1_0000
    ensures IsSafe(s, Jsr(target)) && NextPc(s, pc, Jsr(target), read) == target
    ensures var t := Step(s, pc, Jsr(target), read);
            && IsSafe(t, Rts) && NextPc(t, target, Rts, read) == pc + 3
            && Step(t, target, Rts, read) == s.(ram := t.ram)
            && t.ram == s.ram[0x100 + s.sp := (pc + 2) / 256][0xFF + s.sp := (pc + 2) % 256]
  {
  }

  /** What an interrupt leaves on the stack. */
  lemma FrameIs(s: View, pc: word)
    requires 3 <= s.sp < 256
    ensures var t := Interrupted(s, pc);
            && t == s.(ram := t.ram, sp := s.sp - 3) && Top(t) == Packed(s) && TopWord(Popped(t)) == pc
  {
    hide Packed;
  }

  /** Unpacked flags do not depend on the flags before. */
  lemma UnpackedForgets(s: View, t: View, p: byte)
    requires t.a == s.a && t.x == s.x && t.y == s.y && t.sp == s.sp && t.ram == s.ram
    ensures Unpacked(t, p) == Unpacked(s, p)
  {
    hide GetBit;
  }

  /** RTI over a frame, whatever the flags are then. */
  lemma ReturnOverFrame(s: View, t: View, pc: word, read: word -> byte)
    requires 3 <= s.sp < 256
    requires var f := Interrupted(s, pc);
             t.a == f.a && t.x == f.x && t.y == f.y && t.sp == f.sp && t.ram == f.ram
    ensures IsSafe(t, Rti) && NextPc(t, 0, Rti, read) == pc && Step(t, 0, Rti, read) == s.(ram := t.ram, u := true)
  {
    hide Packed, Unpacked, Interrupted, GetBit;
    FrameIs(s, pc);
    var r := s.(ram := t.ram);
    UnpackedForgets(r.(sp := s.sp - 2), Popped(t), Packed(s));
    UnpackedMoves(r, s.sp - 2);
    PackedIgnores(s, r);
    UnpackedIsPacked(r);
  }

  lemma PackedIgnores(s: View, r: View)
    requires r == s.(ram := r.ram)
    ensures Packed(r) == Packed(s)
  {
  }

  lemma UnpackedMoves(s: View, sp: int)
    ensures forall p :: Unpacked(s.(sp := sp), p) == Unpacked(s, p).(sp := sp)
  {
    hide GetBit;
  }

  lemma FlagsAtInterrupt(s: View)
    ensures WithFlag(WithFlag(s, INTERRUPT_BP, true), UNUSED_BP, false) == s.(i := true, u := false)
  {
  }

  /** An interrupt returns to the instruction that it came before, with all flags but one. */
  lemma InterruptAndReturn(s: View, pc: word, read: word -> byte)
    requires 3 <= s.sp < 256
    ensures IsSafe(s, Nmi) && NextPc(s, pc, Nmi, read) == read(0xFFFA) + 256 * read(0xFFFB)
    ensures var t := Step(s, pc, Nmi, read);
            && t.sp == s.sp - 3 && t.i && !t.u && IsSafe(t, Rti) && NextPc(t, 0, Rti, read) == pc
            && Step(t, 0, Rti, read) == s.(ram := t.ram, i := true, u := true)
  {
    hide Interrupted, PoppedFlags, PoppedWord, PushedWord, Pushed, Packed, Exec, Flagged;
    SmallMod(pc, 65536);
    var w := s.(i := true, u := false);
    FlagsAtInterrupt(s);
    FrameIs(w, pc);
    hide WithFlag;
    ReturnOverFrame(w, Step(s, pc, Nmi, read), pc, read);
  }

  /** BRK pushes the flags as they are, and returns to itself. */
  lemma BreakAndReturn(s: View, pc: word, read: word -> byte)
    requires 3 <= s.sp < 256
    ensures IsSafe(s, Brk) && NextPc(s, pc, Brk, read) == read(0xFFFA) + 256 * read(0xFFFB)
    ensures var t := Step(s, pc, Brk, read);
            && t.sp == s.sp - 3 && t.b && t.u && IsSafe(t, Rti) && NextPc(t, 0, Rti, read) == pc
            && Step(t, 0, Rti, read) == s.(ram := t.ram, u := true)
  {
    hide Interrupted;
    SmallMod(pc, 65536);
    FrameIs(s, pc);
    ReturnOverFrame(s, Step(s, pc, Brk, read), pc, read);
  }
}
