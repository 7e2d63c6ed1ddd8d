/** The register ports of the two LiteNES picture units (apps/litenes/src/ppu.c, apps/litenes_opt/src/ppu.c), as far as
    they set and use the address of the video memory. The eager unit advances it when $2007 is read, and relies on the
    CPU to read a port before it stores to it; the optimised unit advances it at stores as well.
 */
module LiteNesPpuIo {
  import opened Bits

  type byte = x: int | 0 <= x < 256

  const PPU_RAM_SIZE: nat := 0x4000

  type VideoRam = s: seq<byte> | |s| == 0x4000 witness seq(0x4000, _ => 0)

  /** What the ports change: the address, whether $2007 has been read since it was set, the two halves of a write to
      $2006, and the step.
   */
  datatype Io = Io(address: nat, first: bool, latch: byte, receivedHigh: bool, increment: nat, ram: VideoRam)

  /** ppu_get_real_ram_address, below 0x4000: the palette repeats, and shares the backgrounds of its halves. */
  function RealAddress(address: nat): nat
    requires address < 0x4000
    ensures RealAddress(address) < 0x4000
  {
    if address < 0x3F00 then address
    else
      var entry := address % 32;
      if entry >= 16 && entry % 4 == 0 then 0x3F00 + entry - 16 else 0x3F00 + entry
  }

  /** The address in the other name table; mirroring is 0 or 1. */
  function Mirrored(address: nat, mirroring: nat): (r: nat)
    requires address < 0x4000 && mirroring <= 1
    ensures r < 0x4000
  {
    Pow2Of4();
    Pow2Add(12, 2);
    OrXorBelow(address, 0x400 * (mirroring + 1), 14);
    Xor(address, 0x400 * (mirroring + 1))
  }

  function Stored(ram: VideoRam, address: nat, m: byte): VideoRam
    requires address < 0x4000
  {
    ram[RealAddress(address) := m]
  }

  function Loaded(ram: VideoRam, address: nat): byte
    requires address < 0x4000
  {
    ram[RealAddress(address)]
  }

  function Increment(control: byte): nat {
    if control % 8 >= 4 then 32 else 1
  }

  // ---------- the eager unit ----------

  function EagerRead(s: Io, port: nat): Io {
    var t := s.(address := s.address % 0x4000);
    match port
    case 2 => t.(receivedHigh := false, latch := 0, first := true)
    case 7 => if t.first then t.(first := false) else t.(address := t.address + t.increment)
    case _ => t
  }

  function EagerWrite(s: Io, port: nat, m: byte, ready: bool, mirroring: nat): Io
    requires mirroring <= 1
  {
    var t := s.(address := s.address % 0x4000);
    match port
    case 0 => if ready then t.(increment := Increment(m)) else t
    case 6 =>
      if !ready then t
      else if t.receivedHigh then t.(address := 256 * t.latch + m, receivedHigh := false, first := true)
      else t.(latch := m, receivedHigh := true, first := true)
    case 7 => t.(ram := Stored(Stored(t.ram, Mirrored(t.address, mirroring), m), t.address, m))
    case _ => t
  }

  class EagerPpu {
    var PPUADDR: nat
    var firstRead: bool
    var addrLatch: byte
    var receivedHigh: bool
    var increment: nat
    var ready: bool
    const mirroring: nat
    const ram: array<byte>

    constructor (mirroring: nat)
      requires mirroring <= 1
      ensures IsPpu() && this.mirroring == mirroring && fresh(ram) && !ready
      ensures State() == Io(0, true, 0, false, 1, seq(PPU_RAM_SIZE, _ => 0))
    {
      PPUADDR, firstRead, addrLatch, receivedHigh, increment, ready := 0, true, 0, false, 1, false;
      this.mirroring := mirroring;
      ram := new byte[PPU_RAM_SIZE](_ => 0);
    }

    predicate IsPpu() {
      ram.Length == 0x4000 && mirroring <= 1
    }

    function State(): Io
      requires IsPpu()
      reads this, ram
    {
      Io(PPUADDR, firstRead, addrLatch, receivedHigh, increment, ram[..])
    }

    /** ppu_io_read; shown is what a port shows that has nothing to do with the address. */
    method IoRead(port: nat, shown: byte) returns (data: byte)
      requires IsPpu()
      modifies `PPUADDR, `firstRead, `addrLatch, `receivedHigh
      ensures State() == EagerRead(old(State()), port)
      ensures data == if port == 7 then Loaded(old(State()).ram, old(State()).address % 0x4000) else shown
    {
      PPUADDR := PPUADDR % 0x4000;
      data := shown;
      if port == 2 {
        receivedHigh, addrLatch, firstRead := false, 0, true;
      } else if port == 7 {
        data := ram[RealAddress(PPUADDR)];
        if firstRead {
          firstRead := false;
        } else {
          PPUADDR := PPUADDR + increment;
        }
      }
    }

    /** ppu_io_write, whose test for the name tables is always true */
    method IoWrite(port: nat, m: byte)
      requires IsPpu()
      modifies `PPUADDR, `firstRead, `addrLatch, `receivedHigh, `increment, ram
      ensures State() == EagerWrite(old(State()), port, m, ready, mirroring)
    {
      PPUADDR := PPUADDR % 0x4000;
      if port == 0 && ready {
        increment := Increment(m);
      } else if port == 6 && ready {
        if receivedHigh {
          PPUADDR := 256 * addrLatch + m;
        } else {
          addrLatch := m;
        }
        receivedHigh, firstRead := !receivedHigh, true;
      } else if port == 7 {
        ram[RealAddress(Mirrored(PPUADDR, mirroring))] := m;
        ram[RealAddress(PPUADDR)] := m;
      }
    }
  }

  // ---------- the optimised unit ----------

  function LazyRead(s: Io, port: nat): Io {
    match port
    case 2 => s.(receivedHigh := false, first := true)
    case 7 => if s.first then s.(first := false) else s.(address := (s.address + s.increment) % 0x4000)
    case _ => s
  }

  function LazyWrite(s: Io, port: nat, m: byte, ready: bool, mirroring: nat): Io
    requires mirroring <= 1 && s.address < 0x4000
  {
    match port
    case 0 => if ready then s.(increment := Increment(m)) else s
    case 6 =>
      if !ready then s
      else if s.receivedHigh then s.(address := (256 * s.latch + m) % 0x4000, receivedHigh := false, first := true)
      else s.(latch := m, receivedHigh := true, first := true)
    case 7 =>
      var mirror := if s.address > 0x1FFF then Stored(s.ram, Mirrored(s.address, mirroring), m) else s.ram;
      s.(ram := Stored(mirror, s.address, m), address := (s.address + s.increment) % 0x4000)
    case _ => s
  }

  class LazyPpu {
    var PPUADDR: nat
    var firstRead: bool
    var addrLatch: byte
    var receivedHigh: bool
    var increment: nat
    var ready: bool
    const mirroring: nat
    const ram: array<byte>

    constructor (mirroring: nat)
      requires mirroring <= 1
      ensures IsPpu() && this.mirroring == mirroring && fresh(ram) && !ready
      ensures State() == Io(0, true, 0, false, 1, seq(PPU_RAM_SIZE, _ => 0))
    {
      PPUADDR, firstRead, addrLatch, receivedHigh, increment, ready := 0, true, 0, false, 1, false;
      this.mirroring := mirroring;
      ram := new byte[PPU_RAM_SIZE](_ => 0);
    }

    predicate IsPpu()
      reads `PPUADDR
    {
      ram.Length == 0x4000 && mirroring <= 1 && PPUADDR < 0x4000
    }

    function State(): Io
      requires IsPpu()
      reads this, ram
    {
      Io(PPUADDR, firstRead, addrLatch, receivedHigh, increment, ram[..])
    }

    /** ppu_io_read */
    method IoRead(port: nat, shown: byte) returns (data: byte)
      requires IsPpu()
      modifies `PPUADDR, `firstRead, `receivedHigh
      ensures IsPpu() && State() == LazyRead(old(State()), port)
      ensures data == if port == 7 then Loaded(old(State()).ram, old(State()).address) else shown
    {
      data := shown;
      if port == 2 {
        receivedHigh, firstRead := false, true;
      } else if port == 7 {
        data := ram[if PPUADDR < 0x3F00 then PPUADDR else RealAddress(PPUADDR)];
        if firstRead {
          firstRead := false;
        } else {
          PPUADDR := (PPUADDR + increment) % 0x4000;
        }
      }
    }

    /** ppu_io_write */
    method IoWrite(port: nat, m: byte)
      requires IsPpu()
      modifies `PPUADDR, `firstRead, `addrLatch, `receivedHigh, `increment, ram
      ensures IsPpu() && State() == LazyWrite(old(State()), port, m, ready, mirroring)
    {
      if port == 0 && ready {
        increment := Increment(m);
      } else if port == 6 && ready {
        if receivedHigh {
          PPUADDR := (256 * addrLatch + m) % 0x4000;
        } else {
          addrLatch := m;
        }
        receivedHigh, firstRead := !receivedHigh, true;
      } else if port == 7 {
        if PPUADDR > 0x1FFF {
          ram[RealAddress(Mirrored(PPUADDR, mirroring))] := m;
        }
        ram[RealAddress(PPUADDR)] := m;
        PPUADDR := (PPUADDR + increment) % 0x4000;
      }
    }
  }

  // ---------- programs of both ----------

  /** What the CPU does to a port. */
  datatype Action = Store(port: nat, m: byte) | Load(port: nat)

  /** A store of the eager CPU is a read and a write. */
  function EagerDo(s: Io, action: Action, ready: bool, mirroring: nat): Io
    requires mirroring <= 1
  {
    match action
    case Store(port, m) => EagerWrite(EagerRead(s, port), port, m, ready, mirroring)
    case Load(port) => EagerRead(s, port)
  }

  function LazyDo(s: Io, action: Action, ready: bool, mirroring: nat): Io
    requires mirroring <= 1 && s.address < 0x4000
  {
    match action
    case Store(port, m) => LazyWrite(s, port, m, ready, mirroring)
    case Load(port) => LazyRead(s, port)
  }

  // ---------- what the ports do ----------

  /** The palette at 0x3F00 repeats every 32 bytes, and its upper half has the backgrounds of its lower half. */
  lemma PaletteMirrors(address: nat, copy: nat, entry: nat)
    requires address < 0x3F00 && copy < 8 && entry < 16
    ensures RealAddress(address) == address
    ensures RealAddress(0x3F00 + 32 * copy + entry) == 0x3F00 + entry
    ensures RealAddress(0x3F10 + 32 * copy + entry) == 0x3F00 + if entry in {0, 4, 8, 12} then entry else 16 + entry
  {
    DivModUnique(0x3F00 + 32 * copy + entry, 32, 0x1F8 + copy, entry);
    DivModUnique(0x3F10 + 32 * copy + entry, 32, 0x1F8 + copy, 16 + entry);
  }

  /** The mirror of a name table is 0x400 or 0x800 further, or back. */
  lemma MirrorIsNextTable(address: nat, mirroring: nat)
    requires address < 0x4000 && mirroring <= 1
    ensures var d := if mirroring == 0 then 0x400 else 0x800;
            Mirrored(address, mirroring) == if address / d % 2 == 1 then address - d else address + d
  {
    hide Xor;
    Pow2Of4();
    Pow2Add(8, 2);
    Pow2Add(8, 3);
    XorBit(address, 10 + mirroring);
  }

  /** Bit 2 of $2000 decides between the next byte and the next line. */
  lemma StepIsSet(e: Io, l: Io, m: byte, mirroring: nat)
    requires mirroring <= 1 && l.address < 0x4000
    ensures EagerDo(e, Store(0, m), true, mirroring).increment == LazyDo(l, Store(0, m), true, mirroring).increment
    ensures LazyDo(l, Store(0, m), true, mirroring).increment == if m / 4 % 2 == 1 then 32 else 1
  {
  }

  /** After a read of $2002 two stores to $2006 set the address, the high byte first. */
  lemma AddressIsSet(e: Io, l: Io, high: byte, low: byte, mirroring: nat)
    requires mirroring <= 1 && l.address < 0x4000
    ensures var actions := [Load(2), Store(6, high), Store(6, low)];
            var e' := EagerDo(EagerDo(EagerDo(e, actions[0], true, mirroring), actions[1], true, mirroring),
                              actions[2], true, mirroring);
            var l' := LazyDo(LazyDo(LazyDo(l, actions[0], true, mirroring), actions[1], true, mirroring),
                             actions[2], true, mirroring);
            && e'.address % 0x4000 == l'.address == (256 * high + low) % 0x4000
            && e'.first && l'.first && !e'.receivedHigh && !l'.receivedHigh && e'.ram == e.ram && l'.ram == l.ram
  {
  }

  /** The first load of $2007 stays where it is, and each later one is a step further. */
  lemma LoadsMoveOn(l: Io, mirroring: nat)
    requires mirroring <= 1 && l.address < 0x4000
    ensures var l' := LazyDo(l, Load(7), true, mirroring);
            && l'.ram == l.ram && !l'.first
            && l'.address == if l.first then l.address else (l.address + l.increment) % 0x4000
    ensures var e' := EagerDo(l, Load(7), true, mirroring);
            && e'.ram == l.ram && !e'.first && e'.address == if l.first then l.address else l.address + l.increment
  {
  }

  /** A byte stored through $2007 is found at its address and at its mirror, and nowhere else is anything new; the
      optimised unit then goes a step further.
   */
  lemma StoreIsFound(l: Io, m: byte, mirroring: nat, address: nat)
    requires mirroring <= 1 && 0x2000 <= l.address < 0x4000 && address < 0x4000
    ensures var l', mirror := LazyDo(l, Store(7, m), true, mirroring), Mirrored(l.address, mirroring);
            && l'.address == (l.address + l.increment) % 0x4000
            && Loaded(l'.ram, l.address) == Loaded(l'.ram, mirror) == m
            && (RealAddress(address) != RealAddress(l.address) && RealAddress(address) != RealAddress(mirror) ==>
                  Loaded(l'.ram, address) == Loaded(l.ram, address))
  {
    hide RealAddress, Mirrored;
  }

  /** How the addresses are related: they are the same; the eager one lags by the step of the last store; or they have
      to be set before they are used.
   */
  datatype Phase = Same | Behind(gap: nat) | Unset

  predicate IsRelated(e: Io, l: Io, phase: Phase) {
    && l.address < 0x4000 && e.ram == l.ram && e.increment == l.increment && (l.increment == 1 || l.increment == 32)
    && e.receivedHigh == l.receivedHigh && (e.receivedHigh ==> e.latch == l.latch)
    && match phase
       case Same => e.address % 0x4000 == l.address && e.first == l.first
       case Behind(gap) =>
         (e.address + gap) % 0x4000 == l.address && !e.first && l.first && (gap == 1 || gap == 32)
       case Unset => e.first && l.first
  }

  /** $2007 is used only where both units use the same address, stores do not go to the pattern tables, and $2002 is not
      stored to.
   */
  predicate IsAllowed(l: Io, phase: Phase, action: Action) {
    match action
    case Store(port, _) =>
      && port != 2
      && (port == 7 ==> l.address >= 0x2000 && ((phase.Same? && l.first) || phase == Behind(l.increment)))
    case Load(port) => port == 7 ==> phase.Same?
  }

  function PhaseAfter(l: Io, phase: Phase, action: Action, ready: bool): Phase {
    match action
    case Store(6, _) => if !ready then phase else if l.receivedHigh || phase.Same? then Same else Unset
    case Store(7, _) => Behind(l.increment)
    case Load(2) => if phase.Same? then Same else Unset
    case _ => phase
  }

  lemma Wraps(a: nat, i: nat)
    ensures a % 0x4000 % 0x4000 == a % 0x4000 && (a % 0x4000 + i) % 0x4000 == (a + i) % 0x4000
  {
    SmallMod(a % 0x4000, 0x4000);
    DivModOf(a, 0x4000);
    SameModulo(a + i, a % 0x4000 + i, a / 0x4000, 0x4000);
  }

  lemma DataStored(e: Io, l: Io, phase: Phase, m: byte, ready: bool, mirroring: nat)
    requires IsRelated(e, l, phase) && IsAllowed(l, phase, Store(7, m)) && mirroring <= 1
    ensures IsRelated(EagerDo(e, Store(7, m), ready, mirroring), LazyDo(l, Store(7, m), ready, mirroring),
                      Behind(l.increment))
  {
    hide Stored, Mirrored, Increment;
    Wraps(e.address, 0);
    Wraps(e.address, e.increment);
    Wraps(e.address % 0x4000 + e.increment, e.increment);
  }

  lemma DataLoaded(e: Io, l: Io, ready: bool, mirroring: nat)
    requires IsRelated(e, l, Same) && mirroring <= 1
    ensures IsRelated(EagerDo(e, Load(7), ready, mirroring), LazyDo(l, Load(7), ready, mirroring), Same)
    ensures Loaded(e.ram, e.address % 0x4000) == Loaded(l.ram, l.address)
  {
    hide Stored, Mirrored, Increment, Loaded;
    Wraps(e.address, 0);
    Wraps(e.address, e.increment);
  }

  /** The ports that do not access the memory. */
  lemma PortAgrees(e: Io, l: Io, phase: Phase, action: Action, ready: bool, mirroring: nat)
    requires IsRelated(e, l, phase) && IsAllowed(l, phase, action) && action.port != 7 && mirroring <= 1
    ensures IsRelated(EagerDo(e, action, ready, mirroring), LazyDo(l, action, ready, mirroring),
                      PhaseAfter(l, phase, action, ready))
  {
    hide Stored, Mirrored;
    Wraps(e.address, 0);
    Wraps(e.address % 0x4000, 0);
    match phase
    case Behind(gap) =>
      Wraps(e.address, gap);
      Wraps(e.address % 0x4000, gap);
    case _ =>
  }

  /** One allowed access: the same video memory, the same byte loaded. */
  lemma StepAgrees(e: Io, l: Io, phase: Phase, action: Action, ready: bool, mirroring: nat)
    requires IsRelated(e, l, phase) && IsAllowed(l, phase, action) && mirroring <= 1
    ensures IsRelated(EagerDo(e, action, ready, mirroring), LazyDo(l, action, ready, mirroring),
                      PhaseAfter(l, phase, action, ready))
    ensures action == Load(7) ==> Loaded(e.ram, e.address % 0x4000) == Loaded(l.ram, l.address)
  {
    hide IsRelated, EagerDo, LazyDo, Loaded;
    if action.port != 7 {
      PortAgrees(e, l, phase, action, ready, mirroring);
    } else if action.Store? {
      DataStored(e, l, phase, action.m, ready, mirroring);
    } else {
      DataLoaded(e, l, ready, mirroring);
    }
  }

  /** The address at which an access to $2007 finds or puts its byte. */
  function EagerTarget(e: Io, action: Action): nat {
    if action.Store? then EagerRead(e, 7).address % 0x4000 else e.address % 0x4000
  }

  /** As long as the addresses are set, the two units use the same one exactly at the accesses that are allowed. */
  lemma TargetsAgree(e: Io, l: Io, phase: Phase, action: Action)
    requires IsRelated(e, l, phase) && !phase.Unset? && action.port == 7
    ensures EagerTarget(e, action) == l.address <==>
            if action.Load? then phase.Same? else (phase.Same? && l.first) || phase == Behind(l.increment)
  {
    Wraps(e.address, 0);
    Wraps(e.address, e.increment);
    match phase
    case Same =>
      StepMoves(e.address, 0, e.increment);
    case Behind(gap) =>
      StepMoves(e.address, gap, e.increment);
      StepMoves(e.address, gap, 0);
  }

  lemma StepMoves(a: nat, i: nat, j: nat)
    requires i <= 32 && j <= 32
    ensures (a + i) % 0x4000 == (a + j) % 0x4000 <==> i == j
  {
    var q, r := a / 0x4000, a % 0x4000;
    DivModUnique(a + i, 0x4000, if r + i < 0x4000 then q else q + 1, if r + i < 0x4000 then r + i else r + i - 0x4000);
    DivModUnique(a + j, 0x4000, if r + j < 0x4000 then q else q + 1, if r + j < 0x4000 then r + j else r + j - 0x4000);
  }

  lemma {:induction false} XorMoves(a: nat, b: nat)
    requires b > 0
    ensures Xor(a, b) != a
    decreases b
  {
    if b % 2 == 0 {
      XorMoves(a / 2, b / 2);
    }
  }

  lemma MirrorInPatterns(address: nat, mirroring: nat)
    requires address < 0x2000 && mirroring <= 1
    ensures Mirrored(address, mirroring) < 0x2000 && Mirrored(address, mirroring) != address
  {
    hide Xor;
    Pow2Of4();
    Pow2Add(12, 1);
    OrXorBelow(address, 0x400 * (mirroring + 1), 13);
    XorMoves(address, 0x400 * (mirroring + 1));
  }

  /** Stores to the pattern tables: the eager unit writes the mirror too, which shows unless it has the byte already. */
  lemma PatternStoresDiffer(e: Io, l: Io, m: byte, ready: bool, mirroring: nat)
    requires IsRelated(e, l, Same) && l.first && l.address < 0x2000 && mirroring <= 1
    ensures EagerDo(e, Store(7, m), ready, mirroring).ram == LazyDo(l, Store(7, m), ready, mirroring).ram <==>
            l.ram[Mirrored(l.address, mirroring)] == m
  {
    hide Mirrored;
    Wraps(e.address, 0);
    MirrorInPatterns(l.address, mirroring);
    var mirror := Mirrored(l.address, mirroring);
    var eager: seq<byte>, lazy: seq<byte> := l.ram[mirror := m][l.address := m], l.ram[l.address := m];
    assert eager[mirror] == m && lazy[mirror] == l.ram[mirror];
  }

  /** Both units run a program as long as it is allowed: the video memory stays the same, and every load of $2007 gets
      the same byte, although the eager CPU reads each port before it stores to it.
   */
  method RunPorts(eager: EagerPpu, lazy: LazyPpu, actions: seq<Action>, shown: seq<byte>)
    returns (n: nat, eagerLoads: seq<byte>, lazyLoads: seq<byte>, phase: Phase)
    requires eager.IsPpu() && lazy.IsPpu() && IsRelated(eager.State(), lazy.State(), Same)
    requires eager.ram != lazy.ram && |shown| == |actions|
    requires eager.ready == lazy.ready && eager.mirroring == lazy.mirroring
    modifies eager, eager.ram, lazy, lazy.ram
    ensures n <= |actions| && eagerLoads == lazyLoads
    ensures eager.IsPpu() && lazy.IsPpu() && IsRelated(eager.State(), lazy.State(), phase)
    ensures eager.ram[..] == lazy.ram[..]
    ensures n < |actions| ==> !IsAllowed(lazy.State(), phase, actions[n])
  {
    hide IsRelated, IsAllowed, EagerRead, EagerWrite, LazyRead, LazyWrite, PhaseAfter, Loaded;
    n, eagerLoads, lazyLoads, phase := 0, [], [], Same;
    while n < |actions| && IsAllowed(lazy.State(), phase, actions[n])
      invariant n <= |actions| && eagerLoads == lazyLoads
      invariant eager.IsPpu() && lazy.IsPpu() && IsRelated(eager.State(), lazy.State(), phase)
      invariant eager.ready == lazy.ready
    {
      var action := actions[n];
      StepAgrees(eager.State(), lazy.State(), phase, action, lazy.ready, lazy.mirroring);
      phase := PhaseAfter(lazy.State(), phase, action, lazy.ready);
      var e := eager.IoRead(action.port, shown[n]);
      if action.Store? {
        eager.IoWrite(action.port, action.m);
        lazy.IoWrite(action.port, action.m);
      } else {
        var l := lazy.IoRead(action.port, shown[n]);
        eagerLoads, lazyLoads := eagerLoads + [e], lazyLoads + [l];
      }
      n := n + 1;
    }
    RamsAgree(eager.State(), lazy.State(), phase);
  }

  lemma RamsAgree(e: Io, l: Io, phase: Phase)
    requires IsRelated(e, l, phase)
    ensures e.ram == l.ram
  {
  }

  /** Before anything is set, the two units agree. */
  method PowerUp(mirroring: nat) returns (eager: EagerPpu, lazy: LazyPpu)
    requires mirroring <= 1
    ensures fresh(eager) && fresh(lazy) && fresh(eager.ram) && fresh(lazy.ram) && eager.ram != lazy.ram
    ensures eager.IsPpu() && lazy.IsPpu() && IsRelated(eager.State(), lazy.State(), Same)
    ensures eager.ready == lazy.ready && eager.mirroring == lazy.mirroring == mirroring
  {
    eager := new EagerPpu(mirroring);
    lazy := new LazyPpu(mirroring);
  }
}
