/** The sound buffer of the native platform while the sound device and the program use it at the same time
    (am/src/native/devices/audio.c): the callback and the writer as two threads whose steps interleave, down to the
    single byte that is copied and to the load and the store of an update of count.
 */
module AudioThreads {
  import opened AudioBuffer

  /** What audio_write is at: it copies data, of which done bytes are in the ring; it has moved head by n bytes; it has
      loaded count to update it.
   */
  datatype Writer =
    | Outside
    | CopyingIn(data: seq<byte>, done: nat)
    | HeadMoved(n: nat)
    | LoadedByWriter(n: nat, seen: int)

  /** What audio_play is at: it has found count to be below len or not; it copies m bytes, of which stream has those
      that it has copied; it has moved tail by m bytes; it has loaded count to update it.
   */
  datatype Player =
    | Silent
    | Tested(len: nat, short: bool)
    | CopyingOut(len: nat, m: nat, stream: seq<byte>)
    | TailMoved(m: nat)
    | LoadedByPlayer(m: nat, seen: int)

  /** The shared variables, both threads, and the bytes that have passed head and tail. */
  datatype State = State(size: nat, buf: seq<byte>, head: nat, tail: nat, count: int, writer: Writer, player: Player,
                         accepted: seq<byte>, played: seq<byte>)

  datatype Action =
    | Write(data: seq<byte>) | CopyIn | MoveHead | LoadForWriter | StoreByWriter
    | Play(len: nat) | Take | CopyOut | MoveTail | LoadForPlayer | StoreByPlayer

  function Initial(size: nat): State {
    State(size, seq(SBUF_SIZE_MAX, _ => 0), 0, 0, 0, Outside, Silent, [], [])
  }

  /** The bytes that are behind head already and will enter count. */
  function Entering(writer: Writer): nat {
    match writer
    case HeadMoved(n) => n
    case LoadedByWriter(n, _) => n
    case _ => 0
  }

  /** The bytes that tail has passed already and that will leave count. */
  function Leaving(player: Player): nat {
    match player
    case TailMoved(m) => m
    case LoadedByPlayer(m, _) => m
    case _ => 0
  }

  /** The bytes that the writer has room for, counted or not. */
  function Claimed(writer: Writer): nat {
    if writer.CopyingIn? then |writer.data| else Entering(writer)
  }

  /** The bytes that the player has found to be there, counted or not. */
  function Taken(player: Player): nat {
    match player
    case Tested(len, short) => if short then 0 else len
    case CopyingOut(_, m, _) => m
    case _ => Leaving(player)
  }

  /** The bytes between tail and head. */
  function Waiting(s: State): int {
    s.count + Entering(s.writer) - Leaving(s.player)
  }

  /** count is what waits, but for updates under way; nobody claims more than there is. */
  predicate IsCounted(s: State) {
    && s.size <= |s.buf| && Taken(s.player) <= s.count && s.count + Claimed(s.writer) <= s.size
    && IsRing(s.size, s.head, s.tail, Waiting(s))
  }

  /** The callback takes no more than it has been asked for. */
  predicate IsAsked(s: State) {
    s.player.CopyingOut? ==> s.player.m <= s.player.len
  }

  /** Every byte that was accepted has been played or is waiting, in order. */
  predicate IsQueue(s: State)
    requires IsCounted(s)
  {
    s.accepted == s.played + Ring(s.buf, s.size, s.tail, Waiting(s))
  }

  /** What the threads have copied so far is right. */
  predicate AreCopies(s: State)
    requires IsCounted(s)
  {
    && (s.writer.CopyingIn? ==>
          && s.writer.done <= |s.writer.data|
          && s.writer.data[..s.writer.done] == Ring(s.buf, s.size, s.head, s.writer.done))
    && (s.player.CopyingOut? ==>
          && |s.player.stream| <= s.player.m
          && s.player.stream == Ring(s.buf, s.size, s.tail, |s.player.stream|))
  }

  predicate Valid(s: State) {
    IsCounted(s) && IsAsked(s) && IsQueue(s) && AreCopies(s)
  }

  predicate IsEnabled(s: State, action: Action) {
    match action
    case Write(_) => s.writer.Outside?
    case CopyIn => s.writer.CopyingIn? && s.writer.done < |s.writer.data|
    case MoveHead => s.writer.CopyingIn? && s.writer.done == |s.writer.data|
    case LoadForWriter => s.writer.HeadMoved?
    case StoreByWriter => s.writer.LoadedByWriter?
    case Play(_) => s.player.Silent?
    case Take => s.player.Tested?
    case CopyOut => s.player.CopyingOut? && |s.player.stream| < s.player.m
    case MoveTail => s.player.CopyingOut? && |s.player.stream| == s.player.m
    case LoadForPlayer => s.player.TailMoved?
    case StoreByPlayer => s.player.LoadedByPlayer?
  }

  function Do(s: State, action: Action): State
    requires Valid(s) && IsEnabled(s, action)
  {
    match action
    case Write(data) =>
      var free := s.size - s.count;
      s.(writer := CopyingIn(if free < |data| then data[..free] else data, 0))
    case CopyIn =>
      var k := s.writer.done;
      s.(buf := s.buf[Slot(s.head, k, s.size) := s.writer.data[k]], writer := CopyingIn(s.writer.data, k + 1))
    case MoveHead =>
      s.(head := Slot(s.head, |s.writer.data|, s.size), accepted := s.accepted + s.writer.data,
         writer := HeadMoved(|s.writer.data|))
    case LoadForWriter => s.(writer := LoadedByWriter(s.writer.n, s.count))
    case StoreByWriter => s.(count := s.writer.seen + s.writer.n, writer := Outside)
    case Play(len) => s.(player := Tested(len, s.count < len))
    case Take =>
      var len := s.player.len;
      s.(player := CopyingOut(len, if s.player.short then s.count else len, []))
    case CopyOut =>
      var next := s.buf[Slot(s.tail, |s.player.stream|, s.size)];
      s.(player := CopyingOut(s.player.len, s.player.m, s.player.stream + [next]))
    case MoveTail =>
      s.(tail := Slot(s.tail, s.player.m, s.size), played := s.played + s.player.stream,
         player := TailMoved(s.player.m))
    case LoadForPlayer => s.(player := LoadedByPlayer(s.player.m, s.count))
    case StoreByPlayer => s.(count := s.player.seen - s.player.m, player := Silent)
  }

  /** A thread relies on a value of count that is no longer true: it stores a value computed from it, or it found count
      to be below len and takes as many bytes as there are now.
   */
  predicate IsStale(s: State, action: Action)
    requires IsEnabled(s, action)
  {
    match action
    case StoreByWriter => s.writer.seen != s.count
    case StoreByPlayer => s.player.seen != s.count
    case Take => s.player.short && s.player.len < s.count
    case _ => false
  }

  // ---------- each step ----------

  lemma WriteKeeps(s: State, data: seq<byte>)
    requires Valid(s) && IsEnabled(s, Write(data))
    ensures Valid(Do(s, Write(data)))
  {
  }

  /** A byte behind what waits leaves alone what is read from tail on. */
  lemma RingUntouched(buf: seq<byte>, size: nat, head: nat, tail: nat, live: nat, k: nat, m: byte, n: nat)
    requires size <= |buf| && IsRing(size, head, tail, live) && live + k < size && n <= live
    ensures k < size && IsIndex(head, size) && Slot(head, k, size) < size
    ensures Ring(buf[Slot(head, k, size) := m], size, tail, n) == Ring(buf, size, tail, n)
  {
    forall j | 0 <= j < n
      ensures Slot(tail, j, size) != Slot(head, k, size)
    {
    }
  }

  lemma RingContinued(buf: seq<byte>, size: nat, head: nat, k: nat, m: byte)
    requires k < size <= |buf| && IsIndex(head, size)
    ensures Slot(head, k, size) < size
    ensures Ring(buf[Slot(head, k, size) := m], size, head, k + 1) == Ring(buf, size, head, k) + [m]
  {
    forall j | 0 <= j < k
      ensures Slot(head, j, size) != Slot(head, k, size)
    {
    }
  }

  lemma CopyInKeeps(s: State)
    requires Valid(s) && IsEnabled(s, CopyIn)
    ensures Valid(Do(s, CopyIn))
  {
    hide Ring, IsRing, Slot;
    var data, k := s.writer.data, s.writer.done;
    RingUntouched(s.buf, s.size, s.head, s.tail, Waiting(s), k, data[k], Waiting(s));
    RingContinued(s.buf, s.size, s.head, k, data[k]);
    if s.player.CopyingOut? {
      RingUntouched(s.buf, s.size, s.head, s.tail, Waiting(s), k, data[k], |s.player.stream|);
    }
    assert data[..k + 1] == data[..k] + [data[k]];
  }

  lemma MoveHeadKeeps(s: State)
    requires Valid(s) && IsEnabled(s, MoveHead)
    ensures Valid(Do(s, MoveHead))
  {
    hide Ring, Slot;
    var data, live := s.writer.data, Waiting(s);
    RingBounds(s.size, s.head, s.tail, live);
    HeadMovesOn(s.size, s.head, s.tail, live, |data|);
    hide IsRing;
    RingSplits(s.buf, s.size, Slot(s.head, |data|, s.size), s.tail, live + |data|, live);
    assert data[..|data|] == data;
    Requeued(s.played, Ring(s.buf, s.size, s.tail, live), data);
  }

  lemma HeadMovesOn(size: nat, head: nat, tail: nat, live: nat, n: nat)
    requires IsRing(size, head, tail, live) && live + n <= size
    ensures IsRing(size, Slot(head, n, size), tail, live + n) && head == Slot(tail, live, size)
  {
  }

  lemma CopyOutKeeps(s: State)
    requires Valid(s) && IsEnabled(s, CopyOut)
    ensures Valid(Do(s, CopyOut))
  {
  }

  lemma MoveTailKeeps(s: State)
    requires Valid(s) && IsEnabled(s, MoveTail)
    ensures Valid(Do(s, MoveTail))
  {
    hide Ring, Slot, IsRing;
    var m, live := s.player.m, Waiting(s);
    RingBounds(s.size, s.head, s.tail, live);
    RingSplits(s.buf, s.size, s.head, s.tail, live, m);
    Requeued(s.played, Ring(s.buf, s.size, s.tail, m), Ring(s.buf, s.size, Slot(s.tail, m, s.size), live - m));
  }

  lemma TakeKeeps(s: State)
    requires Valid(s) && IsEnabled(s, Take)
    ensures Valid(Do(s, Take)) <==> !IsStale(s, Take)
  {
  }

  lemma StoreByWriterKeeps(s: State)
    requires Valid(s) && IsEnabled(s, StoreByWriter)
    ensures Valid(Do(s, StoreByWriter)) <==> !IsStale(s, StoreByWriter)
  {
  }

  lemma StoreByPlayerKeeps(s: State)
    requires Valid(s) && IsEnabled(s, StoreByPlayer)
    ensures Valid(Do(s, StoreByPlayer)) <==> !IsStale(s, StoreByPlayer)
  {
  }

  /** A step keeps the queue, and the callback within what it was asked for, if and only if it does not rely on a value
      of count that is no longer true.
   */
  lemma StepKeeps(s: State, action: Action)
    requires Valid(s) && IsEnabled(s, action)
    ensures Valid(Do(s, action)) <==> !IsStale(s, action)
  {
    match action
    case Write(data) => WriteKeeps(s, data);
    case CopyIn => CopyInKeeps(s);
    case MoveHead => MoveHeadKeeps(s);
    case LoadForWriter =>
    case StoreByWriter => StoreByWriterKeeps(s);
    case Play(_) =>
    case Take => TakeKeeps(s);
    case CopyOut => CopyOutKeeps(s);
    case MoveTail => MoveTailKeeps(s);
    case LoadForPlayer =>
    case StoreByPlayer => StoreByPlayerKeeps(s);
  }

  // ---------- interleavings ----------

  /** Each action can happen where it stands, as far as the queue is intact. */
  predicate IsRun(s: State, actions: seq<Action>)
    requires Valid(s)
    decreases |actions|
  {
    actions == [] ||
    (IsEnabled(s, actions[0]) &&
     (Valid(Do(s, actions[0])) ==> IsRun(Do(s, actions[0]), actions[1..])))
  }

  /** The queue is intact after every action. */
  predicate StaysValid(s: State, actions: seq<Action>)
    requires Valid(s)
    decreases |actions|
  {
    actions == [] ||
    (IsEnabled(s, actions[0]) && Valid(Do(s, actions[0])) && StaysValid(Do(s, actions[0]), actions[1..]))
  }

  /** No action relies on an old value of count. */
  predicate IsNeverStale(s: State, actions: seq<Action>)
    requires Valid(s)
    decreases |actions|
  {
    actions == [] ||
    (IsEnabled(s, actions[0]) && !IsStale(s, actions[0]) &&
     (StepKeeps(s, actions[0]);
      IsNeverStale(Do(s, actions[0]), actions[1..])))
  }

  /** Over any interleaving the buffer is a queue exactly as long as no thread relies on an old value of count. */
  lemma {:induction false} QueueIffNeverStale(s: State, actions: seq<Action>)
    requires Valid(s) && IsRun(s, actions)
    ensures StaysValid(s, actions) <==> IsNeverStale(s, actions)
    decreases |actions|
  {
    hide Valid, Do, IsStale, IsEnabled;
    if actions != [] {
      StepKeeps(s, actions[0]);
      if Valid(Do(s, actions[0])) {
        QueueIffNeverStale(Do(s, actions[0]), actions[1..]);
      }
    }
  }

  predicate IsFirstHalf(action: Action) {
    action.LoadForWriter? || action.LoadForPlayer? || action.Play?
  }

  predicate IsSecondHalf(first: Action, action: Action) {
    match first
    case LoadForWriter => action.StoreByWriter?
    case LoadForPlayer => action.StoreByPlayer?
    case Play(_) => action.Take?
    case _ => true
  }

  /** An update of count, and the test of the callback with what follows from it, are not interrupted. */
  predicate AreAtomic(actions: seq<Action>) {
    forall i | 0 <= i < |actions| :: IsAtomicAt(actions, i)
  }

  predicate IsAtomicAt(actions: seq<Action>, i: nat)
    requires i < |actions|
  {
    IsFirstHalf(actions[i]) ==> i + 1 < |actions| && IsSecondHalf(actions[i], actions[i + 1])
  }

  lemma AtomicRest(actions: seq<Action>)
    requires actions != [] && AreAtomic(actions)
    ensures AreAtomic(actions[1..])
    ensures IsFirstHalf(actions[0]) ==> |actions| >= 2 && IsSecondHalf(actions[0], actions[1])
  {
    assert IsAtomicAt(actions, 0);
    forall i | 0 <= i < |actions[1..]|
      ensures IsAtomicAt(actions[1..], i)
    {
      assert IsAtomicAt(actions, i + 1);
    }
  }

  predicate IsBetween(s: State) {
    !s.writer.LoadedByWriter? && !s.player.LoadedByPlayer? && !s.player.Tested?
  }

  lemma FirstHalf(s: State, first: Action, second: Action)
    requires Valid(s) && IsBetween(s) && IsEnabled(s, first) && IsFirstHalf(first) && IsSecondHalf(first, second)
    ensures !IsStale(s, first) && Valid(Do(s, first))
    ensures IsEnabled(Do(s, first), second) && !IsStale(Do(s, first), second)
    ensures Valid(Do(Do(s, first), second)) && IsBetween(Do(Do(s, first), second))
  {
    hide Valid;
    StepKeeps(s, first);
    StepKeeps(Do(s, first), second);
  }

  lemma WholeStep(s: State, action: Action)
    requires Valid(s) && IsBetween(s) && IsEnabled(s, action) && !IsFirstHalf(action)
    ensures !IsStale(s, action) && Valid(Do(s, action)) && IsBetween(Do(s, action))
  {
    hide Valid;
    StepKeeps(s, action);
  }

  /** If the updates of count are atomic, every interleaving of everything else keeps the queue. */
  lemma {:induction false} AtomicUpdatesSuffice(s: State, actions: seq<Action>)
    requires Valid(s) && IsBetween(s) && IsRun(s, actions) && AreAtomic(actions)
    ensures IsNeverStale(s, actions) && StaysValid(s, actions)
    decreases |actions|
  {
    hide Valid, Do, IsStale, IsEnabled, IsBetween, AreAtomic, IsFirstHalf, IsSecondHalf;
    if actions != [] {
      var first, rest := actions[0], actions[1..];
      AtomicRest(actions);
      if IsFirstHalf(first) {
        FirstHalf(s, first, rest[0]);
        AtomicRest(rest);
        AtomicUpdatesSuffice(Do(Do(s, first), rest[0]), rest[1..]);
      } else {
        WholeStep(s, first);
        AtomicUpdatesSuffice(Do(s, first), rest);
      }
    }
  }

  // ---------- what the invariant says ----------

  /** What has been played is the front of what has been accepted, and count is in its range. */
  lemma ValidMeansQueue(s: State)
    requires Valid(s)
    ensures s.played <= s.accepted && 0 <= s.count <= s.size && |s.accepted| - |s.played| == Waiting(s)
  {
  }

  /** Between the calls the state is that of the buffer as a whole: the waiting bytes are the count bytes from tail. */
  lemma OutsideIsRing(s: State)
    requires Valid(s) && s.writer.Outside? && s.player.Silent?
    ensures s.count >= 0 && IsRing(s.size, s.head, s.tail, s.count)
    ensures s.accepted == s.played + Ring(s.buf, s.size, s.tail, s.count)
  {
  }

  // ---------- a call that nothing interrupts ----------

  function After(s: State, actions: seq<Action>): (t: State)
    requires Valid(s) && StaysValid(s, actions)
    ensures Valid(t)
    decreases |actions|
  {
    if actions == [] then s else After(Do(s, actions[0]), actions[1..])
  }

  function Times(action: Action, n: nat): seq<Action> {
    if n == 0 then [] else [action] + Times(action, n - 1)
  }

  lemma FirstOf(s: State, action: Action, rest: seq<Action>)
    requires Valid(s) && IsEnabled(s, action) && !IsStale(s, action)
    ensures Valid(Do(s, action)) && (StaysValid(Do(s, action), rest) ==>
              StaysValid(s, [action] + rest) && After(s, [action] + rest) == After(Do(s, action), rest))
  {
    hide Valid, Do, IsStale, IsEnabled;
    StepKeeps(s, action);
    assert ([action] + rest)[1..] == rest;
  }

  lemma {:induction false} Joined(s: State, first: seq<Action>, rest: seq<Action>)
    requires Valid(s) && StaysValid(s, first) && StaysValid(After(s, first), rest)
    ensures StaysValid(s, first + rest) && After(s, first + rest) == After(After(s, first), rest)
    decreases |first|
  {
    hide Valid, Do, IsEnabled;
    if first == [] {
      assert first + rest == rest;
    } else {
      Joined(Do(s, first[0]), first[1..], rest);
      assert (first + rest)[1..] == first[1..] + rest;
    }
  }

  /** The loop of memcpy out of the ring. */
  lemma {:induction false} CopiesOut(s: State, n: nat)
    requires Valid(s) && s.player.CopyingOut? && |s.player.stream| + n == s.player.m
    ensures StaysValid(s, Times(CopyOut, n))
    ensures s.player.m <= s.size <= |s.buf| && IsIndex(s.tail, s.size)
    ensures After(s, Times(CopyOut, n)) ==
            s.(player := CopyingOut(s.player.len, s.player.m, Ring(s.buf, s.size, s.tail, s.player.m)))
    decreases n
  {
    if n > 0 {
      CopyOutKeeps(s);
      CopiesOut(Do(s, CopyOut), n - 1);
      FirstOf(s, CopyOut, Times(CopyOut, n - 1));
    }
  }

  /** The loop of memcpy into the ring. */
  lemma {:induction false} CopiesIn(s: State, n: nat)
    requires Valid(s) && s.writer.CopyingIn? && s.writer.done + n == |s.writer.data|
    ensures StaysValid(s, Times(CopyIn, n))
    ensures var t := After(s, Times(CopyIn, n));
            t == s.(buf := t.buf, writer := CopyingIn(s.writer.data, |s.writer.data|))
    decreases n
  {
    if n > 0 {
      CopyInKeeps(s);
      FirstOf(s, CopyIn, Times(CopyIn, n - 1));
      hide Valid;
      CopiesIn(Do(s, CopyIn), n - 1);
    }
  }

  /** All that audio_play does, when it copies n bytes. */
  function PlayCall(len: nat, n: nat): seq<Action> {
    [Play(len)] + ([Take] + (Times(CopyOut, n) + ([MoveTail] + ([LoadForPlayer] + ([StoreByPlayer] + [])))))
  }

  /** All that audio_write does, when it copies n bytes. */
  function WriteCall(data: seq<byte>, n: nat): seq<Action> {
    [Write(data)] + (Times(CopyIn, n) + ([MoveHead] + ([LoadForWriter] + ([StoreByWriter] + []))))
  }

  /** Wherever the writer is, a callback that is not interrupted plays the oldest bytes: as many as it is asked for, or
      all that count counts.
   */
  lemma PlaysAtOnce(s: State, len: nat)
    requires Valid(s) && s.player.Silent?
    ensures 0 <= s.count <= s.size <= |s.buf| && IsIndex(s.tail, s.size)
    ensures var n: nat := if s.count < len then s.count else len;
            && StaysValid(s, PlayCall(len, n))
            && After(s, PlayCall(len, n)) ==
               s.(tail := Slot(s.tail, n, s.size), count := s.count - n,
                  played := s.played + Ring(s.buf, s.size, s.tail, n))
  {
    PlayStarts(s, len);
    var n: nat := if s.count < len then s.count else len;
    var s1, s2 := s.(player := Tested(len, s.count < len)), s.(player := CopyingOut(len, n, []));
    hide *;
    CopiesOut(s2, n);
    PlayEnds(After(s2, Times(CopyOut, n)));
    PlayCallIs(len, n);
    Joined(s2, Times(CopyOut, n), [MoveTail] + ([LoadForPlayer] + ([StoreByPlayer] + [])));
    FirstOf(s1, Take, Times(CopyOut, n) + ([MoveTail] + ([LoadForPlayer] + ([StoreByPlayer] + []))));
    FirstOf(s, Play(len), [Take] + (Times(CopyOut, n) + ([MoveTail] + ([LoadForPlayer] + ([StoreByPlayer] + [])))));
  }

  lemma PlayStarts(s: State, len: nat)
    requires Valid(s) && s.player.Silent?
    ensures 0 <= s.count <= s.size <= |s.buf| && IsIndex(s.tail, s.size)
    ensures IsEnabled(s, Play(len)) && !IsStale(s, Play(len))
    ensures var n: nat := if s.count < len then s.count else len;
            var s1, s2 := s.(player := Tested(len, s.count < len)), s.(player := CopyingOut(len, n, []));
            && Do(s, Play(len)) == s1 && Valid(s1) && IsEnabled(s1, Take) && !IsStale(s1, Take)
            && Do(s1, Take) == s2 && Valid(s2)
  {
  }

  lemma PlayCallIs(len: nat, n: nat)
    ensures PlayCall(len, n) ==
            [Play(len)] + ([Take] + (Times(CopyOut, n) + ([MoveTail] + ([LoadForPlayer] + ([StoreByPlayer] + [])))))
  {
  }

  lemma PlayEnds(s: State)
    requires Valid(s) && s.player.CopyingOut? && |s.player.stream| == s.player.m
    ensures s.player.m <= s.size && s.tail <= s.size
    ensures var rest := [MoveTail] + ([LoadForPlayer] + ([StoreByPlayer] + []));
            && StaysValid(s, rest)
            && After(s, rest) == s.(tail := Slot(s.tail, s.player.m, s.size), count := s.count - s.player.m,
                                    played := s.played + s.player.stream, player := Silent)
  {
    MoveTailKeeps(s);
    var s1 := Do(s, MoveTail);
    StepKeeps(s1, LoadForPlayer);
    var s2 := Do(s1, LoadForPlayer);
    hide Valid;
    FirstOf(s2, StoreByPlayer, []);
    FirstOf(s1, LoadForPlayer, [StoreByPlayer] + []);
    FirstOf(s, MoveTail, [LoadForPlayer] + ([StoreByPlayer] + []));
  }

  lemma WriteEnds(s: State)
    requires Valid(s) && s.writer.CopyingIn? && s.writer.done == |s.writer.data|
    ensures |s.writer.data| <= s.size && s.head <= s.size
    ensures var rest, n := [MoveHead] + ([LoadForWriter] + ([StoreByWriter] + [])), |s.writer.data|;
            && StaysValid(s, rest)
            && After(s, rest) == s.(head := Slot(s.head, n, s.size), count := s.count + n,
                                    accepted := s.accepted + s.writer.data, writer := Outside)
  {
    MoveHeadKeeps(s);
    var s1 := Do(s, MoveHead);
    StepKeeps(s1, LoadForWriter);
    var s2 := Do(s1, LoadForWriter);
    FirstOf(s2, StoreByWriter, []);
    FirstOf(s1, LoadForWriter, [StoreByWriter] + []);
    FirstOf(s, MoveHead, [LoadForWriter] + ([StoreByWriter] + []));
  }

  lemma WriteStarts(s: State, data: seq<byte>)
    requires Valid(s) && s.writer.Outside?
    ensures 0 <= s.count <= s.size && s.head <= s.size && IsEnabled(s, Write(data)) && !IsStale(s, Write(data))
    ensures var n: nat := if s.size - s.count < |data| then s.size - s.count else |data|;
            var s1 := s.(writer := CopyingIn(data[..n], 0)); Do(s, Write(data)) == s1 && Valid(s1)
  {
    WriteKeeps(s, data);
    assert data[..|data|] == data;
  }

  lemma WriteCallIs(data: seq<byte>, n: nat)
    ensures WriteCall(data, n) ==
            [Write(data)] + (Times(CopyIn, n) + ([MoveHead] + ([LoadForWriter] + ([StoreByWriter] + []))))
  {
  }

  /** Wherever the callback is, a request that is not interrupted accepts its first bytes: all, or as many as count
      leaves room for.
   */
  lemma WritesAtOnce(s: State, data: seq<byte>)
    requires Valid(s) && s.writer.Outside?
    ensures 0 <= s.count <= s.size && s.head <= s.size
    ensures var n: nat := if s.size - s.count < |data| then s.size - s.count else |data|;
            && StaysValid(s, WriteCall(data, n))
            && var t := After(s, WriteCall(data, n));
               t == s.(buf := t.buf, head := Slot(s.head, n, s.size), count := s.count + n,
                       accepted := s.accepted + data[..n])
  {
    WriteStarts(s, data);
    var n: nat := if s.size - s.count < |data| then s.size - s.count else |data|;
    var s1 := s.(writer := CopyingIn(data[..n], 0));
    hide *;
    CopiesIn(s1, n);
    WriteEnds(After(s1, Times(CopyIn, n)));
    WriteCallIs(data, n);
    Joined(s1, Times(CopyIn, n), [MoveHead] + ([LoadForWriter] + ([StoreByWriter] + [])));
    FirstOf(s, Write(data), Times(CopyIn, n) + ([MoveHead] + ([LoadForWriter] + ([StoreByWriter] + []))));
  }

  // ---------- an interleaving that breaks it ----------

  lemma Unrolled(s: State, action: Action, rest: seq<Action>)
    requires Valid(s) && IsEnabled(s, action)
    ensures Valid(Do(s, action)) <==> !IsStale(s, action)
    ensures Valid(Do(s, action)) ==>
              && IsRun(s, [action] + rest) == IsRun(Do(s, action), rest)
              && StaysValid(s, [action] + rest) == StaysValid(Do(s, action), rest)
    ensures !Valid(Do(s, action)) ==> IsRun(s, [action] + rest) && !StaysValid(s, [action] + rest)
  {
    hide Valid, Do, IsStale, IsEnabled;
    StepKeeps(s, action);
    assert ([action] + rest)[1..] == rest;
  }

  /** The callback finds nothing to play, and before it stores its count ... */
  function EmptyPlay(rest: seq<Action>): seq<Action> {
    [Play(1)] + ([Take] + ([MoveTail] + ([LoadForPlayer] + rest)))
  }

  /** ... a byte is written. */
  function WriteByte(m: byte, rest: seq<Action>): seq<Action> {
    [Write([m])] + ([CopyIn] + ([MoveHead] + ([LoadForWriter] + ([StoreByWriter] + rest))))
  }

  lemma AfterEmptyPlay(size: nat, rest: seq<Action>)
    requires 0 < size <= SBUF_SIZE_MAX
    ensures var s := Initial(size).(player := LoadedByPlayer(0, 0));
            && Valid(Initial(size)) && Valid(s)
            && IsRun(Initial(size), EmptyPlay(rest)) == IsRun(s, rest)
            && StaysValid(Initial(size), EmptyPlay(rest)) == StaysValid(s, rest)
  {
    hide IsRun, StaysValid;
    var s0 := Initial(size);
    Unrolled(s0, Play(1), [Take] + ([MoveTail] + ([LoadForPlayer] + rest)));
    var s1 := Do(s0, Play(1));
    Unrolled(s1, Take, [MoveTail] + ([LoadForPlayer] + rest));
    var s2 := Do(s1, Take);
    Unrolled(s2, MoveTail, [LoadForPlayer] + rest);
    Unrolled(Do(s2, MoveTail), LoadForPlayer, rest);
  }

  lemma AfterWriteByte(s: State, m: byte, rest: seq<Action>) returns (t: State)
    requires Valid(s) && s.writer.Outside? && s.count == 0 < s.size && s.player.LoadedByPlayer? && s.player.m == 0
    ensures Valid(t) && t.count == 1 && t.player == s.player && t.accepted == s.accepted + [m]
    ensures IsRun(s, WriteByte(m, rest)) == IsRun(t, rest) && StaysValid(s, WriteByte(m, rest)) == StaysValid(t, rest)
  {
    hide IsRun, StaysValid, Valid;
    Unrolled(s, Write([m]), [CopyIn] + ([MoveHead] + ([LoadForWriter] + ([StoreByWriter] + rest))));
    var s1 := Do(s, Write([m]));
    Unrolled(s1, CopyIn, [MoveHead] + ([LoadForWriter] + ([StoreByWriter] + rest)));
    var s2 := Do(s1, CopyIn);
    Unrolled(s2, MoveHead, [LoadForWriter] + ([StoreByWriter] + rest));
    var s3 := Do(s2, MoveHead);
    Unrolled(s3, LoadForWriter, [StoreByWriter] + rest);
    t := Do(s3, LoadForWriter);
    Unrolled(t, StoreByWriter, rest);
    t := Do(t, StoreByWriter);
  }

  /** The update of the writer is lost, and with it the byte: count is 0 although a byte waits. */
  lemma UpdatesGetLost(size: nat, m: byte)
    requires 0 < size <= SBUF_SIZE_MAX
    ensures var actions := EmptyPlay(WriteByte(m, [StoreByPlayer] + []));
            Valid(Initial(size)) && IsRun(Initial(size), actions) && !StaysValid(Initial(size), actions)
  {
    hide IsRun, StaysValid, Valid;
    AfterEmptyPlay(size, WriteByte(m, [StoreByPlayer] + []));
    var t := AfterWriteByte(Initial(size).(player := LoadedByPlayer(0, 0)), m, [StoreByPlayer] + []);
    Unrolled(t, StoreByPlayer, []);
  }
}
