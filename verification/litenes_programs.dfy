/** Programs of the 6502 as bytes: how they lie in the cartridge, and what some of them do in the specification that
    both LiteNES CPUs meet.
 */
module LiteNesPrograms {
  import opened Bits
  import opened Mos6502
  import opened Opcodes
  import opened LiteNesRuns
  import opened Mos6502Laws

  // ---------- the layout of a program ----------

  /** The bytes are those of the instruction, no more and no less: it depends on nothing behind them, and it does depend
      on the last of them.
   */
  ghost predicate IsEncoding(bytes: seq<byte>, instr: Instr) {
    match |bytes|
    case 1 => forall b1: byte, b2: byte :: Decoded(bytes[0], b1, b2) == instr
    case 2 =>
      && (forall b2: byte :: Decoded(bytes[0], bytes[1], b2) == instr)
      && exists b1: byte, b2: byte :: Decoded(bytes[0], b1, b2) != instr
    case 3 =>
      && Decoded(bytes[0], bytes[1], bytes[2]) == instr
      && exists b2: byte :: Decoded(bytes[0], bytes[1], b2) != instr
    case _ => false
  }

  lemma AloneIsShort(opcode: byte)
    ensures FormatOf(opcode).Alone? ==>
              var instr := FormatOf(opcode).instr;
              Length(instr) == 1 && !instr.Nmi? && !instr.Invalid?
  {
  }

  /** The counter moves on by the bytes of an instruction. */
  lemma EncodingIsLong(bytes: seq<byte>, instr: Instr)
    requires IsEncoding(bytes, instr) && !instr.Invalid?
    ensures |bytes| == Length(instr) && !instr.Nmi?
  {
    hide FormatOf;
    AloneIsShort(bytes[0]);
    var b := if |bytes| > 1 then bytes[1] else 0;
    assert Decoded(bytes[0], b, if |bytes| > 2 then bytes[2] else 0) == instr;
    assert |bytes| == 1 ==> Decoded(bytes[0], 0, 0) == instr == Decoded(bytes[0], 1, 0) == Decoded(bytes[0], 0, 1);
    assert |bytes| == 2 ==> Decoded(bytes[0], b, 0) == instr == Decoded(bytes[0], b, 1);
  }

  function Together(chunks: seq<seq<byte>>): seq<byte> {
    if chunks == [] then [] else Together(chunks[..|chunks| - 1]) + chunks[|chunks| - 1]
  }

  /** The cartridge has these bytes from an address on. */
  ghost predicate Holds(rom: word -> byte, at: nat, bytes: seq<byte>) {
    at + |bytes| <= 0x1_0000 && forall i | 0 <= i < |bytes| :: rom(at + i) == bytes[i]
  }

  lemma HoldsPart(rom: word -> byte, at: nat, front: seq<byte>, back: seq<byte>)
    requires Holds(rom, at, front + back)
    ensures Holds(rom, at, front) && Holds(rom, at + |front|, back)
  {
    forall i | 0 <= i < |front|
      ensures rom(at + i) == front[i]
    {
      assert (front + back)[i] == front[i];
    }
    forall i | 0 <= i < |back|
      ensures rom(at + |front| + i) == back[i]
    {
      assert (front + back)[|front| + i] == back[i];
    }
  }

  /** Where the bytes of an instruction are, there is the instruction. */
  lemma Fetches(rom: word -> byte, pc: word, bytes: seq<byte>, instr: Instr)
    requires Holds(rom, pc, bytes) && IsEncoding(bytes, instr)
    ensures InstrAt(rom, pc) == instr
  {
    hide Decoded;
    assert rom(pc + 0) == bytes[0];
    if |bytes| > 1 {
      SmallMod(pc + 1, 65536);
      assert rom(pc + 1) == bytes[1];
    }
    if |bytes| > 2 {
      SmallMod(pc + 2, 65536);
      assert rom(pc + 2) == bytes[2];
    }
  }

  /** The instruction moves on to the bytes behind its own. */
  lemma MovesOn(s: View, pc: word, bytes: seq<byte>, instr: Instr, read: word -> byte)
    requires IsEncoding(bytes, instr) && !IsJump(instr) && IsSafe(s, instr)
    ensures NextPc(s, pc, instr, read) == pc + |bytes|
  {
    hide IsEncoding;
    EncodingIsLong(bytes, instr);
  }

  /** A program without jumps that lies in the cartridge byte after byte is run instruction by instruction, by both
      CPUs: the counter is always at the first byte of the next one.
   */
  lemma {:induction false} StraightLine(rom: word -> byte, points: seq<Point>, events: seq<Event>,
      eagerOut: seq<seq<Access>>, lazyOut: seq<seq<Access>>, chunks: seq<seq<byte>>, program: seq<Instr>, n: nat)
    requires IsTrace(rom, points, events, eagerOut, lazyOut) && n <= |chunks| == |program| == |events|
    requires Holds(rom, points[0].pc, Together(chunks)) && forall i | 0 <= i < |events| :: !events[i].interrupts
    requires forall i | 0 <= i < |program| :: IsEncoding(chunks[i], program[i]) && !IsJump(program[i])
    ensures points[n].pc == points[0].pc + |Together(chunks[..n])|
    ensures n < |program| ==> Next(rom, points[n].pc, events[n]) == program[n]
    ensures n < |program| ==> points[n + 1].view == Step(points[n].view, points[n].pc, program[n], Bus(rom, events[n]))
  {
    hide IsEncoding, Step, NextPc, IsSafe, EagerAccesses, Accesses;
    if n > 0 {
      StraightLine(rom, points, events, eagerOut, lazyOut, chunks, program, n - 1);
      assert IsStep(rom, points[n - 1], events[n - 1], points[n], eagerOut[n - 1], lazyOut[n - 1]);
      MovesOn(points[n - 1].view, points[n - 1].pc, chunks[n - 1], program[n - 1], Bus(rom, events[n - 1]));
      assert chunks[..n][..n - 1] == chunks[..n - 1];
    }
    if n < |program| {
      TogetherAt(chunks, n);
      HoldsPart(rom, points[0].pc, Together(chunks[..n]) + chunks[n],
                Together(chunks)[|Together(chunks[..n])| + |chunks[n]|..]);
      HoldsPart(rom, points[0].pc, Together(chunks[..n]), chunks[n]);
      Fetches(rom, points[n].pc, chunks[n], program[n]);
      assert IsStep(rom, points[n], events[n], points[n + 1], eagerOut[n], lazyOut[n]);
    }
  }

  lemma {:induction false} TogetherAt(chunks: seq<seq<byte>>, n: nat)
    requires n < |chunks|
    ensures Together(chunks[..n]) + chunks[n] <= Together(chunks)
  {
    var last := |chunks| - 1;
    if n == last {
      assert chunks[..n] == chunks[..last];
    } else {
      TogetherAt(chunks[..last], n);
      assert chunks[..last][..n] == chunks[..n];
    }
  }

  // ---------- programs in the specification ----------

  datatype Machine = Machine(view: View, pc: word) | Stuck

  /** One instruction from the cartridge. */
  function Advanced(rom: word -> byte, bus: word -> byte, m: Machine): Machine {
    if m.Stuck? || m.pc < 0x8000 || !IsSafe(m.view, InstrAt(rom, m.pc)) then Stuck
    else
      Machine(Step(m.view, m.pc, InstrAt(rom, m.pc), bus), NextPc(m.view, m.pc, InstrAt(rom, m.pc), bus) % 65536)
  }

  function RunOf(rom: word -> byte, bus: word -> byte, m: Machine, n: nat): Machine
    decreases n
  {
    if n == 0 then m else RunOf(rom, bus, Advanced(rom, bus, m), n - 1)
  }

  lemma {:induction false} RunInParts(rom: word -> byte, bus: word -> byte, m: Machine, n: nat, k: nat)
    ensures RunOf(rom, bus, m, n + k) == RunOf(rom, bus, RunOf(rom, bus, m, n), k)
    decreases n
  {
    hide Advanced;
    if n > 0 {
      RunInParts(rom, bus, Advanced(rom, bus, m), n - 1, k);
    }
  }

  /** An operation without operand. */
  lemma RunsImplied(rom: word -> byte, bus: word -> byte, s: View, pc: word, op: Op)
    requires 0x8000 <= pc < 0xFFFF && FormatOf(rom(pc)) == Alone(Implied(op)) && !IsWrite(op)
    ensures Advanced(rom, bus, Machine(s, pc)) == Machine(Exec(s, op, 0), pc + 1)
  {
    hide FormatOf, Exec;
    SmallMod(pc + 1, 65536);
  }

  lemma RunsImmediate(rom: word -> byte, bus: word -> byte, s: View, pc: word, op: Op)
    requires 0x8000 <= pc < 0xFFFE && FormatOf(rom(pc)) == WithByte(op) && !IsWrite(op)
    ensures Advanced(rom, bus, Machine(s, pc)) == Machine(Exec(s, op, rom(pc + 1)), pc + 2)
  {
    hide FormatOf, Exec;
    SmallMod(pc + 1, 65536);
    SmallMod(pc + 2, 65536);
  }

  /** An operation on the zero page. */
  lemma RunsZeroPage(rom: word -> byte, bus: word -> byte, s: View, pc: word, op: Op)
    requires 0x8000 <= pc < 0xFFFE && FormatOf(rom(pc)) == WithMemory(op, ZeroPage)
    ensures Advanced(rom, bus, Machine(s, pc)) == Machine(ExecInside(s, op, rom(pc + 1)), pc + 2)
  {
    hide FormatOf, Exec, ExecInside, Written;
    SmallMod(pc + 1, 65536);
    SmallMod(pc + 2, 65536);
    SmallMod(rom(pc + 1), 256);
  }

  /** An operation at an address indexed by X, inside the RAM. */
  lemma RunsIndexed(rom: word -> byte, bus: word -> byte, s: View, pc: word, op: Op, base: word)
    requires 0x8000 <= pc < 0xFFFD && FormatOf(rom(pc)) == WithMemory(op, AbsoluteX)
    requires rom(pc + 1) == base % 256 && rom(pc + 2) == base / 256 && base + s.x < 0x800
    ensures Advanced(rom, bus, Machine(s, pc)) == Machine(ExecInside(s, op, base + s.x), pc + 3)
  {
    hide FormatOf, Exec, ExecInside, Written;
    SmallMod(pc + 1, 65536);
    SmallMod(pc + 2, 65536);
    SmallMod(pc + 3, 65536);
    SmallMod(base + s.x, 65536);
  }

  lemma RunsBranch(rom: word -> byte, bus: word -> byte, s: View, pc: word, condition: Condition)
    requires 0x8000 <= pc < 0xFFFE && FormatOf(rom(pc)) == ByOffset(condition)
    ensures Advanced(rom, bus, Machine(s, pc)) ==
            Machine(s, (pc + 2 + if !IsTaken(s, condition) then 0
                                 else if rom(pc + 1) < 128 then rom(pc + 1) else rom(pc + 1) - 256) % 65536)
  {
    hide FormatOf, IsTaken;
    SmallMod(pc + 1, 65536);
  }

  /** What the first bytes of the program are. */
  lemma HeldBytes(rom: word -> byte, at: nat, bytes: seq<byte>)
    requires Holds(rom, at, bytes)
    ensures at + |bytes| <= 0x1_0000 && forall i | at <= i < at + |bytes| :: rom(i) == bytes[i - at]
  {
    forall i | at <= i < at + |bytes|
      ensures rom(i) == bytes[i - at]
    {
      assert rom(at + (i - at)) == bytes[i - at];
    }
  }

  lemma ThreeSteps(rom: word -> byte, bus: word -> byte, m: Machine)
    ensures RunOf(rom, bus, m, 3) == Advanced(rom, bus, Advanced(rom, bus, Advanced(rom, bus, m)))
  {
    hide Advanced;
    assert RunOf(rom, bus, m, 3) == RunOf(rom, bus, Advanced(rom, bus, m), 2);
  }

  lemma InsideIs(s: View, m: byte, address: byte)
    ensures ExecInside(s, Load(Lda), address) == Exec(s, Load(Lda), s.ram[address])
    ensures ExecInside(s, Arithmetic(Adc), address) == Exec(s, Arithmetic(Adc), s.ram[address])
    ensures ExecInside(s, Arithmetic(Sbc), address) == Exec(s, Arithmetic(Sbc), s.ram[address])
    ensures ExecInside(s, Store(Sta), address) == s.(ram := s.ram[address := s.a])
  {
    hide Calculated, Loaded;
  }

  /** LDA p; ADC q; STA r or LDA p; SBC q; STA r */
  lemma CombinesBytes(rom: word -> byte, bus: word -> byte, s: View, at: word, p: byte, q: byte, r: byte,
      op: ArithmeticOp)
    requires 0x8000 <= at && at + 6 < 0x1_0000 && (op.Adc? || op.Sbc?)
    requires rom(at) == 0xA5 && rom(at + 1) == p && rom(at + 2) == (if op.Adc? then 0x65 else 0xE5)
    requires rom(at + 3) == q && rom(at + 4) == 0x85 && rom(at + 5) == r
    ensures var m := RunOf(rom, bus, Machine(s, at), 3);
            && m.Machine? && m.pc == at + 6 && m.view.ram == s.ram[r := m.view.a]
            && (op.Adc? ==> 256 * Bit(m.view.c) + m.view.a == s.ram[p] as int + s.ram[q] + Bit(s.c))
            && (op.Sbc? ==> m.view.a - 256 * Bit(!m.view.c) == s.ram[p] as int - s.ram[q] - Bit(!s.c))
  {
    hide Advanced, Exec, ExecInside, RunOf, FormatOf;
    ZeroPageOpcodes();
    ThreeSteps(rom, bus, Machine(s, at));
    RunsZeroPage(rom, bus, s, at, Load(Lda));
    InsideIs(s, 0, p);
    LoadOf(s, s.ram[p]);
    var s1 := Exec(s, Load(Lda), s.ram[p]);
    RunsZeroPage(rom, bus, s1, at + 2, Arithmetic(op));
    InsideIs(s1, 0, q);
    SumWithCarry(s1, s.ram[q]);
    DifferenceWithBorrow(s1, s.ram[q]);
    var s2 := Exec(s1, Arithmetic(op), s.ram[q]);
    RunsZeroPage(rom, bus, s2, at + 4, Store(Sta));
    InsideIs(s2, 0, r);
  }

  lemma ZeroPageOpcodes()
    ensures FormatOf(0xA5) == WithMemory(Load(Lda), ZeroPage) && FormatOf(0x85) == WithMemory(Store(Sta), ZeroPage)
    ensures FormatOf(0x65) == WithMemory(Arithmetic(Adc), ZeroPage)
    ensures FormatOf(0xE5) == WithMemory(Arithmetic(Sbc), ZeroPage)
  {
  }

  /** The bytes of a program that combines two words of the zero page. */
  function CombineWords(p: byte, q: byte, r: byte, op: ArithmeticOp): seq<byte>
    requires p < 255 && q < 255 && r < 255
  {
    var flag, opcode := if op.Adc? then 0x18 else 0x38, if op.Adc? then 0x65 else 0xE5;
    [flag, 0xA5, p, opcode, q, 0x85, r, 0xA5, p + 1, opcode, q + 1, 0x85, r + 1]
  }

  lemma CombineBytes(rom: word -> byte, at: word, p: byte, q: byte, r: byte, op: ArithmeticOp)
    requires p < 255 && q < 255 && r < 255 && at + 13 < 0x1_0000 && Holds(rom, at, CombineWords(p, q, r, op))
    ensures rom(at) == (if op.Adc? then 0x18 else 0x38) && rom(at + 1) == 0xA5 && rom(at + 2) == p
    ensures rom(at + 3) == (if op.Adc? then 0x65 else 0xE5) && rom(at + 4) == q
    ensures rom(at + 5) == 0x85 && rom(at + 6) == r
    ensures rom(at + 7) == 0xA5 && rom(at + 8) == p + 1 && rom(at + 9) == (if op.Adc? then 0x65 else 0xE5)
    ensures rom(at + 10) == q + 1 && rom(at + 11) == 0x85 && rom(at + 12) == r + 1
  {
    hide Holds;
    HeldBytes(rom, at, CombineWords(p, q, r, op));
  }

  /** Seven instructions: the low bytes, and the high bytes with the carry. */
  lemma CombinesBoth(rom: word -> byte, bus: word -> byte, s: View, at: word, p: byte, q: byte, r: byte,
      op: ArithmeticOp)
    returns (low: byte, high: byte, c: bool, t: View)
    requires p < 255 && q < 255 && r < 255 && r != p + 1 && r != q + 1 && 0x8000 <= at && at + 13 < 0x1_0000
    requires (op.Adc? || op.Sbc?) && Holds(rom, at, CombineWords(p, q, r, op))
    ensures RunOf(rom, bus, Machine(s, at), 7) == Machine(t, at + 13)
    ensures t.ram == s.ram[r := low][r + 1 := high]
    ensures op.Adc? ==> && 256 * Bit(c) + low == s.ram[p] as int + s.ram[q]
                        && 256 * Bit(t.c) + high == s.ram[p + 1] as int + s.ram[q + 1] + Bit(c)
    ensures op.Sbc? ==> && low - 256 * Bit(!c) == s.ram[p] as int - s.ram[q]
                        && high - 256 * Bit(!t.c) == s.ram[p + 1] as int - s.ram[q + 1] - Bit(!c)
  {
    hide *;
    CombineBytes(rom, at, p, q, r, op);
    BitIsNumber();
    FlagOpcodes();
    SevenSteps(rom, bus, Machine(s, at));
    NoWrite(if op.Adc? then Clc else Sec);
    RunsImplied(rom, bus, s, at, ChangeFlag(if op.Adc? then Clc else Sec));
    FlagInstruction(s, 0);
    var s1 := s.(c := op.Sbc?);
    CombinesBytes(rom, bus, s1, at + 1, p, q, r, op);
    var s2 := RunOf(rom, bus, Machine(s1, at + 1), 3).view;
    CombinesBytes(rom, bus, s2, at + 7, p + 1, q + 1, r + 1, op);
    t := RunOf(rom, bus, Machine(s2, at + 7), 3).view;
    low, high, c := s2.a, t.a, s2.c;
  }

  /** CLC; LDA p; ADC q; STA r; LDA p + 1; ADC q + 1; STA r + 1 adds two words of the zero page. */
  lemma AddsWords(rom: word -> byte, bus: word -> byte, s: View, at: word, p: byte, q: byte, r: byte)
    requires p < 255 && q < 255 && r < 255 && r != p + 1 && r != q + 1 && 0x8000 <= at && at + 13 < 0x1_0000
    requires Holds(rom, at, [0x18, 0xA5, p, 0x65, q, 0x85, r, 0xA5, p + 1, 0x65, q + 1, 0x85, r + 1])
    ensures var m := RunOf(rom, bus, Machine(s, at), 7);
            && m.Machine? && m.pc == at + 13
            && (forall i | 0 <= i < 0x800 && i != r && i != r + 1 :: m.view.ram[i] == s.ram[i])
            && m.view.ram[r] as int + 256 * (m.view.ram[r + 1] as int) + 65536 * Bit(m.view.c) ==
               s.ram[p] as int + 256 * (s.ram[p + 1] as int) + s.ram[q] + 256 * (s.ram[q + 1] as int)
  {
    hide RunOf, Holds;
    var low, high, c, t := CombinesBoth(rom, bus, s, at, p, q, r, Adc);
  }

  /** SEC; LDA p; SBC q; STA r; LDA p + 1; SBC q + 1; STA r + 1 subtracts them. */
  lemma SubtractsWords(rom: word -> byte, bus: word -> byte, s: View, at: word, p: byte, q: byte, r: byte)
    requires p < 255 && q < 255 && r < 255 && r != p + 1 && r != q + 1 && 0x8000 <= at && at + 13 < 0x1_0000
    requires Holds(rom, at, [0x38, 0xA5, p, 0xE5, q, 0x85, r, 0xA5, p + 1, 0xE5, q + 1, 0x85, r + 1])
    ensures var m := RunOf(rom, bus, Machine(s, at), 7);
            && m.Machine? && m.pc == at + 13
            && (forall i | 0 <= i < 0x800 && i != r && i != r + 1 :: m.view.ram[i] == s.ram[i])
            && m.view.ram[r] as int + 256 * (m.view.ram[r + 1] as int) - 65536 * Bit(!m.view.c) ==
               s.ram[p] as int + 256 * (s.ram[p + 1] as int) - s.ram[q] - 256 * (s.ram[q + 1] as int)
  {
    hide RunOf, Holds;
    var low, high, c, t := CombinesBoth(rom, bus, s, at, p, q, r, Sbc);
  }

  lemma NoWrite(op: FlagOp)
    ensures !IsWrite(ChangeFlag(op))
  {
  }

  lemma SevenSteps(rom: word -> byte, bus: word -> byte, m: Machine)
    ensures RunOf(rom, bus, m, 7) == RunOf(rom, bus, RunOf(rom, bus, Advanced(rom, bus, m), 3), 3)
  {
    hide Advanced;
    RunInParts(rom, bus, Advanced(rom, bus, m), 3, 3);
  }

  lemma FlagOpcodes()
    ensures FormatOf(0x18) == Alone(Implied(ChangeFlag(Clc))) && FormatOf(0x38) == Alone(Implied(ChangeFlag(Sec)))
  {
  }

  // ---------- a loop ----------

  /** LDX #n; loop: LDA src,X; STA dst,X; DEX; BNE loop */
  function CopyLoop(n: byte, src: word, dst: word): seq<byte> {
    [0xA2, n, 0xBD, src % 256, src / 256, 0x9D, dst % 256, dst / 256, 0xCA, 0xD0, 0xF7]
  }

  lemma CopyBytes(rom: word -> byte, at: word, n: byte, src: word, dst: word)
    requires at + 11 < 0x1_0000 && Holds(rom, at, CopyLoop(n, src, dst))
    ensures rom(at) == 0xA2 && rom(at + 1) == n && rom(at + 2) == 0xBD && rom(at + 3) == src % 256
    ensures rom(at + 4) == src / 256 && rom(at + 5) == 0x9D && rom(at + 6) == dst % 256 && rom(at + 7) == dst / 256
    ensures rom(at + 8) == 0xCA && rom(at + 9) == 0xD0 && rom(at + 10) == 0xF7
  {
    hide Holds;
    HeldBytes(rom, at, CopyLoop(n, src, dst));
  }

  lemma LoopOpcodes()
    ensures FormatOf(0xA2) == WithByte(Load(Ldx)) && FormatOf(0xBD) == WithMemory(Load(Lda), AbsoluteX)
    ensures FormatOf(0x9D) == WithMemory(Store(Sta), AbsoluteX)
    ensures FormatOf(0xCA) == Alone(Implied(CountRegister(Dex))) && FormatOf(0xD0) == ByOffset(Ne)
    ensures !IsWrite(Load(Ldx)) && !IsWrite(CountRegister(Dex))
  {
  }

  lemma InsideRam(s: View, address: nat)
    requires address < 0x800
    ensures ExecInside(s, Load(Lda), address) == Exec(s, Load(Lda), s.ram[address])
    ensures ExecInside(s, Store(Sta), address) == s.(ram := s.ram[address := s.a])
    ensures IsTaken(s, Ne) == !s.z
  {
    hide Calculated, Loaded;
  }

  lemma FourSteps(rom: word -> byte, bus: word -> byte, m: Machine)
    ensures RunOf(rom, bus, m, 4) == Advanced(rom, bus, RunOf(rom, bus, m, 3))
    ensures RunOf(rom, bus, m, 1) == Advanced(rom, bus, m) && RunOf(rom, bus, m, 0) == m
  {
    hide Advanced;
    RunInParts(rom, bus, m, 3, 1);
    var t := RunOf(rom, bus, m, 3);
    assert RunOf(rom, bus, t, 1) == RunOf(rom, bus, Advanced(rom, bus, t), 0);
    assert RunOf(rom, bus, m, 1) == RunOf(rom, bus, Advanced(rom, bus, m), 0);
  }

  /** One turn of the loop copies the byte at X, counts X down, and goes back unless X has become 0. */
  lemma OneTurn(rom: word -> byte, bus: word -> byte, s: View, at: word, n: byte, src: word, dst: word)
    returns (t: View)
    requires 0x8000 <= at && at + 11 < 0x1_0000 && Holds(rom, at, CopyLoop(n, src, dst)) && s.x > 0
    requires src + s.x < 0x800 && dst + s.x < 0x800
    ensures RunOf(rom, bus, Machine(s, at + 2), 4) == Machine(t, if s.x == 1 then at + 11 else at + 2)
    ensures t.x == s.x - 1 && t.ram == s.ram[dst + s.x := s.ram[src + s.x]]
  {
    hide *;
    CopyBytes(rom, at, n, src, dst);
    LoopOpcodes();
    FourSteps(rom, bus, Machine(s, at + 2));
    ThreeSteps(rom, bus, Machine(s, at + 2));
    RunsIndexed(rom, bus, s, at + 2, Load(Lda), src);
    InsideRam(s, src + s.x);
    LoadOf(s, s.ram[src + s.x]);
    var s1 := s.(a := s.ram[src + s.x], z := s.ram[src + s.x] == 0, n := s.ram[src + s.x] >= 128);
    RunsIndexed(rom, bus, s1, at + 5, Store(Sta), dst);
    InsideRam(s1, dst + s.x);
    var s2 := s1.(ram := s1.ram[dst + s.x := s1.a]);
    RunsImplied(rom, bus, s2, at + 8, CountRegister(Dex));
    RegisterByOne(s2, Dex, 0);
    t := s2.(x := s.x - 1, z := s.x - 1 == 0, n := s.x - 1 >= 128);
    InsideRam(t, 0);
    RunsBranch(rom, bus, t, at + 9, Ne);
    SmallMod(at + 11, 65536);
    SmallMod(at + 2, 65536);
  }

  /** Where the loop has been: the bytes 1 to k are copied. */
  ghost predicate IsCopied(before: Ram, after: Ram, src: nat, dst: nat, k: nat)
    requires src + k < 0x800 && dst + k < 0x800
  {
    forall i | 0 <= i < 0x800 ::
      && (dst < i <= dst + k ==> after[i] == before[src + i - dst])
      && (!(dst < i <= dst + k) ==> after[i] == before[i])
  }

  lemma CopiedMore(before: Ram, middle: Ram, after: Ram, src: nat, dst: nat, k: nat)
    requires 0 < k && src + k < 0x800 && dst + k < 0x800 && (src + k <= dst || dst + k <= src)
    requires middle == before[dst + k := before[src + k]] && IsCopied(middle, after, src, dst, k - 1)
    ensures IsCopied(before, after, src, dst, k)
  {
    forall i | 0 <= i < 0x800
      ensures dst < i <= dst + k ==> after[i] == before[src + i - dst]
      ensures !(dst < i <= dst + k) ==> after[i] == before[i]
    {
      if dst < i < dst + k {
        assert after[i] == middle[src + i - dst];
      } else {
        assert after[i] == middle[i];
      }
    }
  }

  lemma CopiedOne(before: Ram, after: Ram, src: nat, dst: nat)
    requires src + 1 < 0x800 && dst + 1 < 0x800 && after == before[dst + 1 := before[src + 1]]
    ensures IsCopied(before, after, src, dst, 1)
  {
  }

  lemma {:induction false} AllTurns(rom: word -> byte, bus: word -> byte, s: View, at: word, n: byte, src: word,
      dst: word)
    returns (t: View)
    requires 0x8000 <= at && at + 11 < 0x1_0000 && Holds(rom, at, CopyLoop(n, src, dst)) && s.x > 0
    requires src + s.x < 0x800 && dst + s.x < 0x800 && (src + s.x <= dst || dst + s.x <= src)
    ensures RunOf(rom, bus, Machine(s, at + 2), 4 * s.x) == Machine(t, at + 11)
    ensures t.x == 0 && IsCopied(s.ram, t.ram, src, dst, s.x)
    decreases s.x
  {
    hide RunOf, Holds, IsCopied;
    t := OneTurn(rom, bus, s, at, n, src, dst);
    if s.x == 1 {
      CopiedOne(s.ram, t.ram, src, dst);
    } else {
      var s1 := t;
      t := AllTurns(rom, bus, s1, at, n, src, dst);
      RunInParts(rom, bus, Machine(s, at + 2), 4, 4 * s1.x);
      assert 4 + 4 * s1.x == 4 * s.x;
      CopiedMore(s.ram, s1.ram, t.ram, src, dst, s.x);
    }
  }

  /** The loop copies n bytes within the RAM, for every n but 0, if the blocks do not overlap. */
  lemma CopiesBlock(rom: word -> byte, bus: word -> byte, s: View, at: word, n: byte, src: word, dst: word)
    requires 0x8000 <= at && at + 11 < 0x1_0000 && n > 0
    requires Holds(rom, at, [0xA2, n, 0xBD, src % 256, src / 256, 0x9D, dst % 256, dst / 256, 0xCA, 0xD0, 0xF7])
    requires src + n < 0x800 && dst + n < 0x800 && (src + n <= dst || dst + n <= src)
    ensures var m := RunOf(rom, bus, Machine(s, at), 1 + 4 * n);
            && m.Machine? && m.pc == at + 11 && m.view.x == 0
            && forall i | 0 <= i < 0x800 ::
                 && (dst < i <= dst + n ==> m.view.ram[i] == s.ram[src + i - dst])
                 && (!(dst < i <= dst + n) ==> m.view.ram[i] == s.ram[i])
  {
    hide RunOf, Holds, Exec, Advanced, FormatOf;
    CopyBytes(rom, at, n, src, dst);
    LoopOpcodes();
    RunsImmediate(rom, bus, s, at, Load(Ldx));
    LoadOf(s, n);
    FourSteps(rom, bus, Machine(s, at));
    var s1 := s.(x := n, z := n == 0, n := n >= 128);
    var t := AllTurns(rom, bus, s1, at, n, src, dst);
    RunInParts(rom, bus, Machine(s, at), 1, 4 * n);
    assert IsCopied(s.ram, t.ram, src, dst, n);
  }
}
