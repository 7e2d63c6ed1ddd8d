/** The optimised CPU against the eager one, from the power-up on, fetching instructions by their own counters. They
    differ in Z and in the stack pointer until these have been set; they do the same on every program that uses neither
    before, as long as the stack does not wrap, no index leaves its byte and no counter leaves the memory. Of the
    accesses to the devices the optimised CPU omits those whose byte is not used.
 */
module LiteNesRuns {
  import opened Bits
  import opened Mos6502
  import LiteNes
  import LiteNesOpt
  import opened Opcodes

  // ---------- states that agree but for Z and SP ----------

  /** Whether the two CPUs are known to agree in SP and in Z. */
  datatype Known = Known(sp: bool, z: bool)

  predicate IsAlike(s: View, t: View, known: Known) {
    && s.a == t.a && s.x == t.x && s.y == t.y && s.ram == t.ram
    && s.c == t.c && s.i == t.i && s.d == t.d && s.b == t.b && s.u == t.u && s.v == t.v && s.n == t.n
    && (known.sp ==> t.sp == s.sp)
    && (known.z ==> t.z == s.z)
  }

  predicate IsStackInstr(instr: Instr) {
    match instr
    case Implied(_) => false
    case Immediate(_, _) => false
    case Memory(_, _, _) => false
    case Branch(_, _) => false
    case Jmp(_) => false
    case JmpIndirect(_) => false
    case _ => true
  }

  predicate ReadsSp(instr: Instr) {
    || IsStackInstr(instr)
    || ((instr.Implied? || instr.Immediate? || instr.Memory?) && instr.op == Transfer(Tsx))
  }

  predicate ReadsZ(instr: Instr) {
    || (instr.Branch? && (instr.condition == Eq || instr.condition == Ne))
    || instr.Php? || instr.Brk? || instr.Nmi?
  }

  predicate SetsZ(op: Op) {
    match op
    case Nop => false
    case Store(_) => false
    case ChangeFlag(_) => false
    case Transfer(transfer) => transfer != Txs
    case _ => true
  }

  /** The instruction reads only what is known to agree. */
  predicate IsKnownTo(known: Known, instr: Instr) {
    (ReadsSp(instr) ==> known.sp) && (ReadsZ(instr) ==> known.z)
  }

  function KnownAfterOp(known: Known, op: Op): Known {
    Known(known.sp || op == Transfer(Txs), known.z || SetsZ(op))
  }

  function KnownAfter(known: Known, instr: Instr): Known {
    match instr
    case Implied(op) => KnownAfterOp(known, op)
    case Immediate(op, _) => KnownAfterOp(known, op)
    case Memory(op, _, _) => KnownAfterOp(known, op)
    case Pla => known.(z := true)
    case Plp => known.(z := true)
    case Rti => known.(z := true)
    case _ => known
  }

  lemma FlaggedAlike(s: View, t: View, r: byte, known: Known)
    requires IsAlike(s, t, known)
    ensures IsAlike(Flagged(s, r), Flagged(t, r), known.(z := true))
  {
  }

  lemma AddedAlike(s: View, t: View, m: byte, known: Known)
    requires IsAlike(s, t, known)
    ensures IsAlike(Added(s, m), Added(t, m), known.(z := true))
  {
    hide Signed;
  }

  lemma SubtractedAlike(s: View, t: View, m: byte, known: Known)
    requires IsAlike(s, t, known)
    ensures IsAlike(Subtracted(s, m), Subtracted(t, m), known.(z := true))
  {
    hide Signed;
  }

  lemma CalculatedAlike(s: View, t: View, op: ArithmeticOp, m: byte, known: Known)
    requires IsAlike(s, t, known)
    ensures IsAlike(Calculated(s, op, m), Calculated(t, op, m), known.(z := true))
  {
    hide Added, Subtracted, AndByte;
    match op
    case Adc => AddedAlike(s, t, m, known);
    case Sbc => SubtractedAlike(s, t, m, known);
    case BitOp =>
    case Cmp =>
    case Cpx =>
    case Cpy =>
  }

  lemma ShiftedAlike(s: View, t: View, op: ShiftOp, m: byte, known: Known)
    requires IsAlike(s, t, known)
    ensures IsAlike(Shifted(s, op, m), Shifted(t, op, m), known.(z := true)) && ShiftOf(s, op, m) == ShiftOf(t, op, m)
  {
  }

  lemma ShiftedAAlike(s: View, t: View, op: ShiftOp, known: Known)
    requires IsAlike(s, t, known)
    ensures IsAlike(ShiftedA(s, op), ShiftedA(t, op), known.(z := true))
  {
    hide Shifted, ShiftOf;
    ShiftedAlike(s, t, op, s.a, known);
  }

  lemma CountedAlike(s: View, t: View, op: CountRegisterOp, known: Known)
    requires IsAlike(s, t, known)
    ensures IsAlike(Counted(s, op), Counted(t, op), known.(z := true))
  {
    hide IsAlike, Flagged, CountOf;
    match op
    case Inx =>
      RegistersAlike(s, t, CountOf(Inc, s.x), known);
      FlaggedAlike(s.(x := CountOf(Inc, s.x)), t.(x := CountOf(Inc, s.x)), CountOf(Inc, s.x), known);
    case Iny =>
      RegistersAlike(s, t, CountOf(Inc, s.y), known);
      FlaggedAlike(s.(y := CountOf(Inc, s.y)), t.(y := CountOf(Inc, s.y)), CountOf(Inc, s.y), known);
    case Dex =>
      RegistersAlike(s, t, CountOf(Dec, s.x), known);
      FlaggedAlike(s.(x := CountOf(Dec, s.x)), t.(x := CountOf(Dec, s.x)), CountOf(Dec, s.x), known);
    case Dey =>
      RegistersAlike(s, t, CountOf(Dec, s.y), known);
      FlaggedAlike(s.(y := CountOf(Dec, s.y)), t.(y := CountOf(Dec, s.y)), CountOf(Dec, s.y), known);
  }

  lemma LoadedAlike(s: View, t: View, op: LoadOp, m: byte, known: Known)
    requires IsAlike(s, t, known)
    ensures IsAlike(Loaded(s, op, m), Loaded(t, op, m), known.(z := true))
  {
    hide IsAlike, Flagged;
    RegistersAlike(s, t, m, known);
    match op
    case Lda => FlaggedAlike(s.(a := m), t.(a := m), m, known);
    case Ldx => FlaggedAlike(s.(x := m), t.(x := m), m, known);
    case Ldy => FlaggedAlike(s.(y := m), t.(y := m), m, known);
    case Lax => FlaggedAlike(s.(a := m, x := m), t.(a := m, x := m), m, known);
  }

  lemma RegistersAlike(s: View, t: View, m: byte, known: Known)
    requires IsAlike(s, t, known)
    ensures s.a == t.a && s.x == t.x && s.y == t.y && (known.sp ==> s.sp == t.sp)
    ensures IsAlike(s.(a := m), t.(a := m), known) && IsAlike(s.(x := m), t.(x := m), known)
    ensures IsAlike(s.(y := m), t.(y := m), known) && IsAlike(s.(a := m, x := m), t.(a := m, x := m), known)
  {
    XAlike(s, t, m, known);
    YAlike(s, t, m, known);
    AAlike(s, t, m, known);
    hide IsAlike;
    XAlike(s.(a := m), t.(a := m), m, known);
  }

  lemma AAlike(s: View, t: View, m: byte, known: Known)
    requires IsAlike(s, t, known)
    ensures IsAlike(s.(a := m), t.(a := m), known)
  {
  }

  lemma XAlike(s: View, t: View, m: byte, known: Known)
    requires IsAlike(s, t, known)
    ensures IsAlike(s.(x := m), t.(x := m), known)
  {
  }

  lemma YAlike(s: View, t: View, m: byte, known: Known)
    requires IsAlike(s, t, known)
    ensures IsAlike(s.(y := m), t.(y := m), known)
  {
  }

  lemma StackPointersAlike(s: View, t: View, known: Known)
    requires IsAlike(s, t, known)
    ensures s.x == t.x && IsAlike(s.(sp := s.x), t.(sp := t.x), known.(sp := true))
  {
  }

  lemma TransferredAlike(s: View, t: View, op: TransferOp, known: Known)
    requires IsAlike(s, t, known) && (op == Tsx ==> known.sp)
    ensures IsAlike(Transferred(s, op), Transferred(t, op), if op == Txs then known.(sp := true) else known.(z := true))
  {
    hide IsAlike, Flagged;
    match op
    case Tax =>
      RegistersAlike(s, t, s.a, known);
      FlaggedAlike(s.(x := s.a), t.(x := s.a), s.a, known);
    case Txa =>
      RegistersAlike(s, t, s.x, known);
      FlaggedAlike(s.(a := s.x), t.(a := s.x), s.x, known);
    case Tay =>
      RegistersAlike(s, t, s.a, known);
      FlaggedAlike(s.(y := s.a), t.(y := s.a), s.a, known);
    case Tya =>
      RegistersAlike(s, t, s.y, known);
      FlaggedAlike(s.(a := s.y), t.(a := s.y), s.y, known);
    case Tsx =>
      RegistersAlike(s, t, s.sp % 256, known);
      FlaggedAlike(s.(x := s.sp % 256), t.(x := s.sp % 256), s.sp % 256, known);
    case Txs => StackPointersAlike(s, t, known);
  }

  lemma FlagAlike(s: View, t: View, bp: nat, value: bool, known: Known)
    requires IsAlike(s, t, known)
    ensures IsAlike(WithFlag(s, bp, value), WithFlag(t, bp, value), known)
  {
  }

  lemma LogicAlike(s: View, t: View, op: LogicOp, m: byte, known: Known)
    requires IsAlike(s, t, known)
    ensures IsAlike(Exec(s, Logic(op), m), Exec(t, Logic(op), m), known.(z := true))
  {
    hide LogicOf;
  }

  lemma StoredAlike(s: View, t: View, op: StoreOp, known: Known)
    requires IsAlike(s, t, known)
    ensures Stored(s, op) == Stored(t, op)
  {
  }

  /** TXS makes the stack pointers agree, and every operation that updates the flags makes Z agree. */
  lemma ExecAlike(s: View, t: View, op: Op, m: byte, known: Known)
    requires IsAlike(s, t, known) && (op == Transfer(Tsx) ==> known.sp)
    ensures IsAlike(Exec(s, op, m), Exec(t, op, m), KnownAfterOp(known, op))
    ensures IsWrite(op) ==> Written(t, op, m) == Written(s, op, m)
  {
    hide IsAlike, Flagged, LogicOf, Calculated, Shifted, ShiftOf, ShiftedA, Counted, CountOf, Loaded, Transferred;
    hide WithFlag;
    match op
    case Nop =>
    case Logic(logic) => LogicAlike(s, t, logic, m, known);
    case Arithmetic(arithmetic) => CalculatedAlike(s, t, arithmetic, m, known);
    case Shift(shift) => ShiftedAlike(s, t, shift, m, known);
    case ShiftA(shift) => ShiftedAAlike(s, t, shift, known);
    case Count(count) => FlaggedAlike(s, t, CountOf(count, m), known);
    case CountRegister(register) => CountedAlike(s, t, register, known);
    case Load(load) => LoadedAlike(s, t, load, m, known);
    case Store(store) => StoredAlike(s, t, store, known);
    case Transfer(transfer) => TransferredAlike(s, t, transfer, known);
    case ChangeFlag(flag) => FlagAlike(s, t, FlagOf(flag), flag.Sec? || flag.Sei? || flag.Sed?, known);
  }

  lemma MemoryAlike(s: View, t: View, op: Op, address: word, read: word -> byte, known: Known)
    requires IsAlike(s, t, known) && (op == Transfer(Tsx) ==> known.sp)
    ensures IsAlike(ExecMemory(s, op, address, read), ExecMemory(t, op, address, read), KnownAfterOp(known, op))
    ensures AccessesOfMemory(t, op, address, read) == AccessesOfMemory(s, op, address, read)
  {
    hide Exec, Written, IsWrite, KnownAfterOp;
    if address < 0x800 {
      ExecAlike(s, t, op, s.ram[address], known);
    } else {
      ExecAlike(s, t, op, read(address), known);
    }
    RamAlike(s, t, op, address, known);
  }

  lemma RamAlike(s: View, t: View, op: Op, address: word, known: Known)
    requires IsAlike(s, t, known)
    ensures s.ram == t.ram && |s.ram| == 0x800
  {
  }

  lemma PushedAlike(s: View, t: View, m: byte, known: Known)
    requires 1 <= s.sp < 256 && known.sp && IsAlike(s, t, known)
    ensures IsAlike(Pushed(s, m), Pushed(t, m), known) && Pushed(s, m).sp == s.sp - 1
  {
  }

  lemma PoppedAlike(s: View, t: View, known: Known)
    requires 0 <= s.sp < 255 && known.sp && IsAlike(s, t, known)
    ensures IsAlike(Popped(s), Popped(t), known) && Top(s) == Top(t) && Popped(s).sp == s.sp + 1
  {
  }

  lemma PoppedFlagsAlike(s: View, t: View, known: Known)
    requires 0 <= s.sp < 255 && known.sp && IsAlike(s, t, known)
    ensures IsAlike(PoppedFlags(s), PoppedFlags(t), known.(z := true))
  {
    hide GetBit;
  }

  lemma AlikeIsEqual(s: View, t: View, known: Known)
    ensures known.sp && known.z ==> (IsAlike(s, t, known) <==> s == t)
  {
  }

  lemma SafeAlike(s: View, t: View, instr: Instr, known: Known)
    requires IsAlike(s, t, known) && IsKnownTo(known, instr) && IsSafe(s, instr)
    ensures IsSafe(t, instr)
  {
  }

  lemma PulledAlike(s: View, t: View, known: Known)
    requires 0 <= s.sp < 255 && known.sp && IsAlike(s, t, known)
    ensures IsAlike(Flagged(Popped(s).(a := Top(s)), Top(s)), Flagged(Popped(t).(a := Top(t)), Top(t)),
                    known.(z := true))
  {
  }

  lemma ReturnedAlike(s: View, t: View, known: Known)
    requires 0 <= s.sp < 254 && known.sp && IsAlike(s, t, known)
    ensures IsAlike(PoppedWord(s), PoppedWord(t), known) && TopWord(s) == TopWord(t)
  {
    hide Popped, Top;
    PoppedAlike(s, t, known);
    PoppedAlike(Popped(s), Popped(t), known);
  }

  lemma RestoredAlike(s: View, t: View, known: Known)
    requires 0 <= s.sp < 253 && known.sp && IsAlike(s, t, known)
    ensures t.sp == s.sp
    ensures TopWord(Popped(t)) == TopWord(Popped(s))
    ensures IsAlike(PoppedWord(WithFlag(PoppedFlags(s), UNUSED_BP, true)),
                    PoppedWord(WithFlag(PoppedFlags(t), UNUSED_BP, true)), known.(z := true))
  {
    hide WithFlag, PoppedFlags, PoppedWord, TopWord;
    PoppedFlagsAlike(s, t, known);
    FlagAlike(PoppedFlags(s), PoppedFlags(t), UNUSED_BP, true, known.(z := true));
    FlagKeepsSp(PoppedFlags(s), UNUSED_BP, true);
    FlagKeepsSp(PoppedFlags(t), UNUSED_BP, true);
    ReturnedAlike(WithFlag(PoppedFlags(s), UNUSED_BP, true), WithFlag(PoppedFlags(t), UNUSED_BP, true),
                  known.(z := true));
    PoppedAlike(s, t, known);
    ReturnedAlike(Popped(s), Popped(t), known);
  }

  lemma FlagKeepsSp(s: View, bp: nat, value: bool)
    ensures WithFlag(s, bp, value).sp == s.sp
  {
  }

  lemma PlpAlike(s: View, t: View, known: Known)
    requires 0 <= s.sp < 255 && known.sp && IsAlike(s, t, known)
    ensures t.sp == s.sp
    ensures IsAlike(WithFlag(WithFlag(PoppedFlags(s), BREAK_BP, false), UNUSED_BP, true),
                    WithFlag(WithFlag(PoppedFlags(t), BREAK_BP, false), UNUSED_BP, true), known.(z := true))
  {
    hide WithFlag, PoppedFlags;
    PoppedFlagsAlike(s, t, known);
    FlagAlike(PoppedFlags(s), PoppedFlags(t), BREAK_BP, false, known.(z := true));
    FlagAlike(WithFlag(PoppedFlags(s), BREAK_BP, false), WithFlag(PoppedFlags(t), BREAK_BP, false), UNUSED_BP, true,
              known.(z := true));
  }

  lemma JsrAlike(s: View, t: View, w: word, known: Known)
    requires 2 <= s.sp < 256 && known.sp && IsAlike(s, t, known)
    ensures t.sp == s.sp && IsAlike(PushedWord(s, w), PushedWord(t, w), known)
  {
    hide Pushed;
    PushedAlike(s, t, w / 256, known);
    PushedAlike(Pushed(s, w / 256), Pushed(t, w / 256), w % 256, known);
  }

  /** With the same stack pointer, the stack instructions keep the states alike. */
  lemma StackAlike(s: View, t: View, pc: nat, instr: Instr, read: word -> byte, known: Known)
    requires IsAlike(s, t, known) && IsKnownTo(known, instr) && IsStackInstr(instr)
    requires IsSafe(s, instr) && IsSafe(t, instr)
    ensures IsAlike(Step(s, pc, instr, read), Step(t, pc, instr, read), KnownAfter(known, instr))
    ensures NextPc(t, pc, instr, read) == NextPc(s, pc, instr, read)
  {
    hide IsAlike, Pushed, Popped, PushedWord, PoppedWord, Top, TopWord, PoppedFlags, Interrupted, WithFlag, Flagged;
    hide Packed;
    if ReadsZ(instr) {
      AlikeIsEqual(s, t, known);
      SameIsAlike(Step(s, pc, instr, read), KnownAfter(known, instr));
      return;
    }
    match instr
    case Pha =>
      ASame(s, t, known);
      PushedAlike(s, t, s.a, known);
    case Pla => PulledAlike(s, t, known);
    case Plp => PlpAlike(s, t, known);
    case Jsr(_) => JsrAlike(s, t, (pc + 2) % 65536, known);
    case Rts => ReturnedAlike(s, t, known);
    case Rti => RestoredAlike(s, t, known);
    case _ =>
  }

  lemma SameIsAlike(s: View, known: Known)
    ensures IsAlike(s, s, known)
  {
  }

  lemma ASame(s: View, t: View, known: Known)
    requires IsAlike(s, t, known)
    ensures s.a == t.a
  {
  }

  lemma BranchAlike(s: View, t: View, condition: Condition, offset: byte, known: Known)
    requires IsAlike(s, t, known) && (ReadsZ(Branch(condition, offset)) ==> known.z)
    ensures BranchOffset(s, condition, offset) == BranchOffset(t, condition, offset)
  {
  }

  lemma AddressAlike(s: View, t: View, mode: Mode, base: word, known: Known)
    requires IsAlike(s, t, known)
    ensures Address(t, mode, base) == Address(s, mode, base)
  {
  }

  lemma PointerAlike(s: View, t: View, pointer: word, read: word -> byte, known: Known)
    requires IsAlike(s, t, known)
    ensures Pointer(t, pointer, read) == Pointer(s, pointer, read)
  {
  }

  /** A step that reads only what is known to agree does the same in both states. */
  lemma StepAlike(s: View, t: View, pc: nat, instr: Instr, read: word -> byte, known: Known)
    requires IsAlike(s, t, known) && IsKnownTo(known, instr) && IsSafe(s, instr)
    ensures IsSafe(t, instr)
    ensures IsAlike(Step(s, pc, instr, read), Step(t, pc, instr, read), KnownAfter(known, instr))
    ensures NextPc(t, pc, instr, read) == NextPc(s, pc, instr, read)
    ensures Accesses(t, instr, read) == Accesses(s, instr, read)
  {
    hide IsAlike, Exec, ExecMemory, AccessesOfMemory, Flagged, WithFlag, Pushed, Popped, PushedWord, PoppedWord;
    hide PoppedFlags, Interrupted, Packed, Top, TopWord, Address, Pointer, BranchOffset;
    SafeAlike(s, t, instr, known);
    match instr
    case Implied(op) => ExecAlike(s, t, op, 0, known);
    case Immediate(op, m) => ExecAlike(s, t, op, m, known);
    case Memory(op, mode, base) =>
      AddressAlike(s, t, mode, base, known);
      MemoryAlike(s, t, op, Address(s, mode, base), read, known);
    case Branch(condition, offset) => BranchAlike(s, t, condition, offset, known);
    case Jmp(_) =>
    case JmpIndirect(pointer) => PointerAlike(s, t, pointer, read, known);
    case _ => StackAlike(s, t, pc, instr, read, known);
  }

  // ---------- runs ----------

  /** What happens next: an interrupt or the instruction at the counter; devices is what the devices answer. */
  datatype Event = Event(interrupts: bool, devices: word -> byte)

  /** What is found outside the RAM: the cartridge in the upper half, the devices below. */
  function Bus(rom: word -> byte, event: Event): word -> byte {
    (address: word) => if address >= 0x8000 then rom(address) else event.devices(address)
  }

  /** The state of the specification and its counter. */
  datatype Point = Point(view: View, pc: word)

  function Next(rom: word -> byte, pc: word, event: Event): Instr {
    if event.interrupts then Nmi else InstrAt(rom, pc)
  }

  /** The instruction is in the cartridge as a whole, which is where the optimised CPU fetches from. */
  predicate IsFetched(pc: word, instr: Instr) {
    instr.Nmi? || (0x8000 <= pc && pc + Length(instr) <= 0x1_0000)
  }

  predicate IsPcInside(s: View, pc: word, instr: Instr, read: word -> byte)
    requires IsSafe(s, instr)
  {
    0 <= NextPc(s, pc, instr, read) < 0x1_0000
  }

  /** A counter of 16 bits and one of 32 stay equal exactly if the next counter is inside the memory. */
  lemma CountersAgree(s: View, pc: word, instr: Instr, read: word -> byte)
    requires IsSafe(s, instr)
    ensures NextPc(s, pc, instr, read) % 65536 == NextPc(s, pc, instr, read) % TWO32 <==> IsPcInside(s, pc, instr, read)
    ensures IsPcInside(s, pc, instr, read) ==> NextPc(s, pc, instr, read) % 65536 == NextPc(s, pc, instr, read)
  {
    hide Pointer, TopWord, Popped, Vector, IsTaken;
    var x := NextPc(s, pc, instr, read);
    assert -128 <= x < 0x1_0000 + 200;
    hide NextPc;
    if x < 0 {
      NegativeMod(x, 65536);
      NegativeMod(x, TWO32);
    } else {
      DivModUnique(x, 65536, if x < 65536 then 0 else 1, if x < 65536 then x else x - 65536);
      DivModUnique(x, TWO32, 0, x);
    }
  }

  /** The points and accesses of a run of the specification: those of the eager CPU, and those that are needed. */
  ghost predicate IsTrace(rom: word -> byte, points: seq<Point>, events: seq<Event>, eagerOut: seq<seq<Access>>,
                          lazyOut: seq<seq<Access>>) {
    && |points| == |events| + 1 && |eagerOut| == |lazyOut| == |events|
    && forall i | 0 <= i < |events| :: IsStep(rom, points[i], events[i], points[i + 1], eagerOut[i], lazyOut[i])
  }

  ghost predicate IsStep(rom: word -> byte, p: Point, event: Event, q: Point, eagerOut: seq<Access>,
                         lazyOut: seq<Access>) {
    var instr := Next(rom, p.pc, event);
    && IsSafe(p.view, instr)
    && q.view == Step(p.view, p.pc, instr, Bus(rom, event))
    && q.pc == NextPc(p.view, p.pc, instr, Bus(rom, event))
    && eagerOut == EagerAccesses(p.view, instr, Bus(rom, event))
    && lazyOut == Accesses(p.view, instr, Bus(rom, event))
  }

  lemma TraceExtended(rom: word -> byte, points: seq<Point>, events: seq<Event>, n: nat, eagerOut: seq<seq<Access>>,
                      lazyOut: seq<seq<Access>>, q: Point, e: seq<Access>, l: seq<Access>)
    requires n < |events| && IsTrace(rom, points, events[..n], eagerOut, lazyOut)
    requires IsStep(rom, points[n], events[n], q, e, l)
    ensures IsTrace(rom, points + [q], events[..n + 1], eagerOut + [e], lazyOut + [l])
  {
    hide IsStep;
    forall i | 0 <= i < n + 1
      ensures IsStep(rom, (points + [q])[i], events[..n + 1][i], (points + [q])[i + 1], (eagerOut + [e])[i],
                     (lazyOut + [l])[i])
    {
      if i < n {
        assert events[..n][i] == events[..n + 1][i];
      }
    }
  }

  /** Nothing is stored to a device, and nothing jumps to one. */
  ghost predicate ReadsNothingInVain(rom: word -> byte, points: seq<Point>, events: seq<Event>)
    requires |points| == |events| + 1
  {
    forall i | 0 <= i < |events| :: !IsReadInVain(points[i].view, Next(rom, points[i].pc, events[i]))
  }

  /** Without a store to a device, and then only, the accesses of a run are the same. */
  lemma OutputsAgree(rom: word -> byte, points: seq<Point>, events: seq<Event>, eagerOut: seq<seq<Access>>,
                     lazyOut: seq<seq<Access>>)
    requires IsTrace(rom, points, events, eagerOut, lazyOut)
    ensures eagerOut == lazyOut <==> ReadsNothingInVain(rom, points, events)
  {
    hide Step, NextPc, IsSafe, EagerAccesses, Accesses, IsReadInVain;
    forall i | 0 <= i < |events|
      ensures eagerOut[i] == lazyOut[i] <==> !IsReadInVain(points[i].view, Next(rom, points[i].pc, events[i]))
    {
      assert IsStep(rom, points[i], events[i], points[i + 1], eagerOut[i], lazyOut[i]);
      AccessesAgree(points[i].view, Next(rom, points[i].pc, events[i]), Bus(rom, events[i]));
    }
  }

  /** What is known to agree after the events of a run. */
  ghost function KnownAfterAll(known: Known, rom: word -> byte, points: seq<Point>, events: seq<Event>): Known
    requires |events| <= |points|
  {
    if events == [] then known else
      var n := |events| - 1;
      KnownAfter(KnownAfterAll(known, rom, points, events[..n]), Next(rom, points[n].pc, events[n]))
  }

  lemma {:induction false} KnownInPrefix(known: Known, rom: word -> byte, points: seq<Point>, q: Point,
                                         events: seq<Event>)
    requires |events| <= |points|
    ensures KnownAfterAll(known, rom, points + [q], events) == KnownAfterAll(known, rom, points, events)
  {
    hide KnownAfter;
    if events != [] {
      KnownInPrefix(known, rom, points, q, events[..|events| - 1]);
    }
  }

  lemma KnownAfterMore(known: Known, rom: word -> byte, points: seq<Point>, q: Point, events: seq<Event>, n: nat)
    requires n < |events| && |points| == n + 1
    ensures KnownAfterAll(known, rom, points + [q], events[..n + 1]) ==
            KnownAfter(KnownAfterAll(known, rom, points, events[..n]), Next(rom, points[n].pc, events[n]))
  {
    hide KnownAfter;
    assert events[..n + 1][..n] == events[..n];
    KnownInPrefix(known, rom, points, q, events[..n]);
  }

  /** The next instruction, in the state s, is one for which the two CPUs must do the same. */
  predicate IsCommon(s: View, pc: word, known: Known, instr: Instr, read: word -> byte) {
    IsFetched(pc, instr) && IsSafe(s, instr) && IsKnownTo(known, instr) && IsPcInside(s, pc, instr, read)
  }

  /** One common instruction on both. */
  method StepBoth(eager: LiteNes.Cpu, lazy: LiteNesOpt.Cpu, instr: Instr, read: word -> byte, ghost known: Known)
    returns (e: seq<Access>, l: seq<Access>)
    requires eager.ram.Length == RAM_SIZE && lazy.IsCpu() && IsAlike(eager.State(), lazy.State(), known)
    requires lazy.PC == eager.PC && IsCommon(eager.State(), eager.PC, known, instr, read) && lazy.IsIndexedBy(instr)
    modifies eager, eager.ram, lazy, lazy.P, lazy.ram
    ensures eager.State() == Step(old(eager.State()), old(eager.PC), instr, read)
    ensures eager.PC == NextPc(old(eager.State()), old(eager.PC), instr, read) && lazy.PC == eager.PC
    ensures e == EagerAccesses(old(eager.State()), instr, read) && l == Accesses(old(eager.State()), instr, read)
    ensures IsAlike(eager.State(), lazy.State(), KnownAfter(known, instr))
  {
    hide Step, NextPc, EagerAccesses, Accesses, IsSafe, IsAlike, IsKnownTo, KnownAfter, LiteNes.Cpu.State;
    hide LiteNesOpt.Cpu.State, LiteNesOpt.Cpu.IsIndexedBy;
    StepAlike(eager.State(), lazy.State(), eager.PC, instr, read, known);
    CountersAgree(eager.State(), eager.PC, instr, read);
    e := eager.Step(instr, read);
    l := lazy.Step(instr, read);
  }

  /** Both CPUs run as long as the next instruction is common to them. They make the run of the specification, with
      equal counters, and stay alike; once Z and SP have been set, they are equal. Their accesses are those of the
      specification, and the same if and only if nothing is stored to a device.
   */
  method RunBoth(eager: LiteNes.Cpu, lazy: LiteNesOpt.Cpu, rom: word -> byte, events: seq<Event>, known0: Known)
    returns (n: nat, eagerOut: seq<seq<Access>>, lazyOut: seq<seq<Access>>, known: Known, ghost points: seq<Point>)
    requires eager.ram.Length == RAM_SIZE && lazy.IsCpu() && IsAlike(eager.State(), lazy.State(), known0)
    requires lazy.PC == eager.PC
    modifies eager, eager.ram, lazy, lazy.P, lazy.ram
    ensures n <= |events| && IsTrace(rom, points, events[..n], eagerOut, lazyOut)
    ensures points[0] == old(Point(eager.State(), eager.PC)) && points[n] == Point(eager.State(), eager.PC)
    ensures known == KnownAfterAll(known0, rom, points, events[..n])
    ensures IsAlike(eager.State(), lazy.State(), known) && lazy.PC == eager.PC
    ensures known == Known(true, true) ==> lazy.State() == eager.State()
    ensures eagerOut == lazyOut <==> ReadsNothingInVain(rom, points, events[..n])
    ensures n < |events| ==>
              var instr := Next(rom, eager.PC, events[n]);
              !IsCommon(eager.State(), eager.PC, known, instr, Bus(rom, events[n])) || !lazy.IsIndexedBy(instr)
  {
    hide Step, NextPc, EagerAccesses, Accesses, IsSafe, IsCommon, IsAlike, KnownAfter, KnownAfterAll, IsTrace, IsStep;
    hide LiteNes.Cpu.State, LiteNesOpt.Cpu.State, LiteNesOpt.Cpu.IsIndexedBy, ReadsNothingInVain, Next;
    n, eagerOut, lazyOut, known := 0, [], [], known0;
    points := [Point(eager.State(), eager.PC)];
    RunStarts(points[0], rom, events, known0);
    while n < |events|
      invariant n <= |events| && |points| == n + 1 && lazy.PC == eager.PC
      invariant IsTrace(rom, points, events[..n], eagerOut, lazyOut)
      invariant points[0] == old(Point(eager.State(), eager.PC)) && points[n] == Point(eager.State(), eager.PC)
      invariant known == KnownAfterAll(known0, rom, points, events[..n])
      invariant IsAlike(eager.State(), lazy.State(), known)
    {
      var instr := Next(rom, eager.PC, events[n]);
      if !IsCommon(eager.State(), eager.PC, known, instr, Bus(rom, events[n])) || !lazy.IsIndexedBy(instr) {
        break;
      }
      CommonIs(eager.State(), eager.PC, known, instr, Bus(rom, events[n]));
      var e, l := StepBoth(eager, lazy, instr, Bus(rom, events[n]), known);
      ghost var q := Point(eager.State(), eager.PC);
      StepIs(rom, points[n], events[n], q, e, l);
      TraceExtended(rom, points, events, n, eagerOut, lazyOut, q, e, l);
      KnownAfterMore(known0, rom, points, q, events, n);
      known := KnownAfter(known, instr);
      points, eagerOut, lazyOut, n := points + [q], eagerOut + [e], lazyOut + [l], n + 1;
    }
    AlikeIsEqual(eager.State(), lazy.State(), known);
    OutputsAgree(rom, points, events[..n], eagerOut, lazyOut);
  }

  lemma RunStarts(p: Point, rom: word -> byte, events: seq<Event>, known: Known)
    ensures IsTrace(rom, [p], events[..0], [], []) && KnownAfterAll(known, rom, [p], events[..0]) == known
  {
  }

  lemma CommonIs(s: View, pc: word, known: Known, instr: Instr, read: word -> byte)
    requires IsCommon(s, pc, known, instr, read)
    ensures IsSafe(s, instr) && 0 <= NextPc(s, pc, instr, read) < 0x1_0000
  {
  }

  lemma StepIs(rom: word -> byte, p: Point, event: Event, q: Point, e: seq<Access>, l: seq<Access>)
    requires var instr := Next(rom, p.pc, event);
             && IsSafe(p.view, instr) && q.view == Step(p.view, p.pc, instr, Bus(rom, event))
             && q.pc == NextPc(p.view, p.pc, instr, Bus(rom, event))
             && e == EagerAccesses(p.view, instr, Bus(rom, event)) && l == Accesses(p.view, instr, Bus(rom, event))
    ensures IsStep(rom, p, event, q, e, l)
  {
  }

  // ---------- power-up ----------

  /** After power-up and reset the two differ: in Z, and in a stack pointer that has wrapped at another width. */
  method PowerUp(rom: word -> byte) returns (eager: LiteNes.Cpu, lazy: LiteNesOpt.Cpu)
    ensures fresh(eager) && fresh(lazy) && eager.ram.Length == RAM_SIZE && lazy.IsCpu()
    ensures fresh(eager.ram) && fresh(lazy.P) && fresh(lazy.ram)
    ensures eager.State().sp == 0xFD && lazy.State().sp == 0xFFFF_FFFD
    ensures !eager.State().z && lazy.State().z
    ensures IsAlike(eager.State(), lazy.State(), Known(false, false))
    ensures eager.PC == lazy.PC == rom(0xFFFC) + 256 * rom(0xFFFD)
  {
    eager := new LiteNes.Cpu();
    lazy := new LiteNesOpt.Cpu();
    hide LiteNes.Cpu.State, LiteNesOpt.Cpu.State;
    eager.Reset(rom);
    lazy.Reset(rom);
  }

  /** From power-up on, any program has the same effects on both, until it reads Z or SP before it has set them, or an
      access, an index or a counter leaves its range.
   */
  method RunFromPowerUp(rom: word -> byte, events: seq<Event>)
    returns (n: nat, eagerOut: seq<seq<Access>>, lazyOut: seq<seq<Access>>, eager: LiteNes.Cpu, lazy: LiteNesOpt.Cpu,
             ghost points: seq<Point>)
    ensures n <= |events| && IsTrace(rom, points, events[..n], eagerOut, lazyOut)
    ensures points[0].pc == rom(0xFFFC) + 256 * rom(0xFFFD) && points[0].view.sp == 0xFD
    ensures eagerOut == lazyOut <==> ReadsNothingInVain(rom, points, events[..n])
    ensures eager.ram.Length == RAM_SIZE && lazy.IsCpu() && lazy.PC == eager.PC
    ensures var known := KnownAfterAll(Known(false, false), rom, points, events[..n]);
            && IsAlike(eager.State(), lazy.State(), known)
            && (n < |events| ==>
                  var instr := Next(rom, eager.PC, events[n]);
                  !IsCommon(eager.State(), eager.PC, known, instr, Bus(rom, events[n])) || !lazy.IsIndexedBy(instr))
  {
    hide IsAlike, IsCommon, LiteNes.Cpu.State, LiteNesOpt.Cpu.State, KnownAfterAll, IsStep, ReadsNothingInVain;
    hide LiteNesOpt.Cpu.IsIndexedBy;
    var known;
    eager, lazy := PowerUp(rom);
    n, eagerOut, lazyOut, known, points := RunBoth(eager, lazy, rom, events, Known(false, false));
  }

  // ---------- what is not common ----------

  /** LDA #$FF; PHA; PHA; RTS, at 0x8000 */
  lemma ReturnToZero(s: View, read: word -> byte)
    requires s.sp == 0xFF
    ensures var lda := Immediate(Load(Lda), 0xFF);
            && IsSafe(s, lda) && NextPc(s, 0x8000, lda, read) == 0x8002
            && var s1 := Step(s, 0x8000, lda, read);
            && IsSafe(s1, Pha) && NextPc(s1, 0x8002, Pha, read) == 0x8003
            && var s2 := Step(s1, 0x8002, Pha, read);
            && IsSafe(s2, Pha) && NextPc(s2, 0x8003, Pha, read) == 0x8004
            && var s3 := Step(s2, 0x8003, Pha, read);
            && IsSafe(s3, Rts) && NextPc(s3, 0x8004, Rts, read) == 0x1_0000
  {
  }

  method ReturnOfEager(eager: LiteNes.Cpu, read: word -> byte)
    requires eager.ram.Length == RAM_SIZE && eager.State().sp == 0xFF && eager.PC == 0x8000
    modifies eager, eager.ram
    ensures eager.PC == 0
  {
    hide Step, NextPc, IsSafe, LiteNes.Cpu.State;
    ReturnToZero(eager.State(), read);
    var out := eager.Step(Immediate(Load(Lda), 0xFF), read);
    out := eager.Step(Pha, read);
    out := eager.Step(Pha, read);
    out := eager.Step(Rts, read);
  }

  method ReturnOfLazy(lazy: LiteNesOpt.Cpu, read: word -> byte)
    requires lazy.IsCpu() && lazy.State().sp == 0xFF && lazy.PC == 0x8000
    modifies lazy, lazy.P, lazy.ram
    ensures lazy.PC == 0x1_0000
  {
    hide Step, NextPc, IsSafe, LiteNesOpt.Cpu.State;
    ReturnToZero(lazy.State(), read);
    var out := lazy.Step(Immediate(Load(Lda), 0xFF), read);
    out := lazy.Step(Pha, read);
    out := lazy.Step(Pha, read);
    out := lazy.Step(Rts, read);
  }

  /** A program on which the two differ: the eager CPU returns to 0, the optimised one past the end of the memory. */
  method ReturnsDiffer(eager: LiteNes.Cpu, lazy: LiteNesOpt.Cpu, read: word -> byte)
    requires eager.ram.Length == RAM_SIZE && lazy.IsCpu() && eager.State() == lazy.State() && eager.State().sp == 0xFF
    requires eager.PC == lazy.PC == 0x8000
    modifies eager, eager.ram, lazy, lazy.P, lazy.ram
    ensures eager.PC == 0 && lazy.PC == 0x1_0000
  {
    hide LiteNes.Cpu.State, LiteNesOpt.Cpu.State;
    ReturnOfEager(eager, read);
    ReturnOfLazy(lazy, read);
  }

  /** A push of the optimised CPU goes where the eager one pushes exactly as long as its stack pointer is a byte. */
  lemma PushAddressAgrees(sp: u32)
    ensures (0x100 + sp) % TWO32 == 0x100 + sp % 256 <==> sp < 256
  {
  }
}
