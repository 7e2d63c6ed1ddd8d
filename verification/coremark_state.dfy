/** The token machine of CoreMark (apps/coremark/src/core_state.c) and the benchmark around it. */
module CoreMarkState {
  import opened Bits
  import CoreMarkCrc

  type byte = x: int | 0 <= x < 256

  const COMMA: byte := 44
  const PLUS: byte := 43
  const MINUS: byte := 45
  const DOT: byte := 46
  const UPPER_E: byte := 69
  const LOWER_E: byte := 101

  /** The states, in the order in which they are counted. */
  datatype State = Start | Invalid | S1 | S2 | Int | Float | Exponent | Scientific

  const NUM_CORE_STATES: nat := 8

  function Index(state: State): (i: nat)
    ensures i < 8
  {
    match state
    case Start => 0
    case Invalid => 1
    case S1 => 2
    case S2 => 3
    case Int => 4
    case Float => 5
    case Exponent => 6
    case Scientific => 7
  }

  /** The order of the enumeration. */
  lemma StateOrder(state: State)
    ensures [Start, Invalid, S1, S2, Int, Float, Exponent, Scientific][Index(state)] == state
  {
  }

  predicate IsDigit(c: byte) {
    48 <= c <= 57
  }

  predicate IsSign(c: byte) {
    c == PLUS || c == MINUS
  }

  predicate IsE(c: byte) {
    c == UPPER_E || c == LOWER_E
  }

  // ---------- the machine on a text ----------

  /** The state after one more symbol that does not end the token. */
  function Next(state: State, c: byte): State {
    match state
    case Start => if IsDigit(c) then Int else if IsSign(c) then S1 else if c == DOT then Float else Invalid
    case S1 => if IsDigit(c) then Int else if c == DOT then Float else Invalid
    case Int => if c == DOT then Float else if IsDigit(c) then Int else Invalid
    case Float => if IsE(c) then S2 else if IsDigit(c) then Float else Invalid
    case S2 => if IsSign(c) then Exponent else Invalid
    case Exponent => if IsDigit(c) then Scientific else Invalid
    case Scientific => if IsDigit(c) then Scientific else Invalid
    case Invalid => Invalid
  }

  function Run(w: seq<byte>): State {
    if w == [] then Start else Next(Run(w[..|w| - 1]), w[|w| - 1])
  }

  // ---------- the languages ----------

  predicate AreDigits(w: seq<byte>) {
    forall i | 0 <= i < |w| :: IsDigit(w[i])
  }

  /** [+-]?d* */
  predicate IsSignedDigits(w: seq<byte>) {
    AreDigits(w) || (w != [] && IsSign(w[0]) && AreDigits(w[1..]))
  }

  /** [+-]?d+ */
  predicate IsInt(w: seq<byte>) {
    IsSignedDigits(w) && w != [] && IsDigit(w[|w| - 1])
  }

  /** [+-]?d*.d* with the dot at k */
  predicate IsFloatAt(w: seq<byte>, k: nat) {
    k < |w| && w[k] == DOT && IsSignedDigits(w[..k]) && AreDigits(w[k + 1..])
  }

  ghost predicate IsFloat(w: seq<byte>) {
    exists k: nat :: IsFloatAt(w, k)
  }

  /** [+-]?d*.d*[eE][+-]d+ with the E at k */
  ghost predicate IsScientificAt(w: seq<byte>, k: nat) {
    k + 2 < |w| && IsFloat(w[..k]) && IsE(w[k]) && IsSign(w[k + 1]) && AreDigits(w[k + 2..])
  }

  ghost predicate IsScientific(w: seq<byte>) {
    exists k: nat :: IsScientificAt(w, k)
  }

  lemma AreDigitsExtended(w: seq<byte>, c: byte)
    ensures AreDigits(w + [c]) <==> AreDigits(w) && IsDigit(c)
  {
    if AreDigits(w + [c]) {
      assert (w + [c])[|w|] == c;
      assert forall i | 0 <= i < |w| :: w[i] == (w + [c])[i];
    }
  }

  /** A prefix of signed digits ends in Start, S1 or Int. */
  lemma {:induction false} RunIsSignedDigits(w: seq<byte>)
    ensures IsSignedDigits(w) <==> Run(w) in {Start, S1, Int}
    ensures Run(w) == Start <==> w == []
    ensures Run(w) == S1 <==> |w| == 1 && IsSign(w[0])
    ensures Run(w) == Int <==> IsInt(w)
  {
    if w != [] {
      var u, c := w[..|w| - 1], w[|w| - 1];
      RunIsSignedDigits(u);
      assert w == u + [c];
      AreDigitsExtended(u, c);
      if |w| > 1 {
        assert w[1..] == u[1..] + [c];
        AreDigitsExtended(u[1..], c);
      }
    }
  }

  lemma FloatExtended(u: seq<byte>, c: byte)
    ensures IsFloat(u + [c]) <==> (c == DOT && IsSignedDigits(u)) || (IsDigit(c) && IsFloat(u))
  {
    var w := u + [c];
    if k: nat :| IsFloatAt(w, k) {
      if k == |u| {
        assert w[..k] == u;
      } else {
        assert w[..k] == u[..k] && w[k + 1..] == u[k + 1..] + [c];
        AreDigitsExtended(u[k + 1..], c);
        assert IsFloatAt(u, k);
      }
    }
    if c == DOT && IsSignedDigits(u) {
      assert w[..|u|] == u;
      assert IsFloatAt(w, |u|);
    }
    if IsDigit(c) && IsFloat(u) {
      var k: nat :| IsFloatAt(u, k);
      assert w[..k] == u[..k] && w[k + 1..] == u[k + 1..] + [c];
      AreDigitsExtended(u[k + 1..], c);
      assert IsFloatAt(w, k);
    }
  }

  lemma RunOfLast(w: seq<byte>)
    requires w != []
    ensures Run(w) == Next(Run(w[..|w| - 1]), w[|w| - 1])
  {
    hide Next;
  }

  lemma NextIsFloat(state: State, c: byte)
    ensures Next(state, c) == Float <==> (c == DOT && state in {Start, S1, Int}) || (IsDigit(c) && state == Float)
  {
  }

  lemma {:induction false} RunIsFloat(w: seq<byte>)
    ensures Run(w) == Float <==> IsFloat(w)
  {
    if w == [] {
      assert forall k: nat :: !IsFloatAt(w, k);
    } else {
      hide IsFloat, IsSignedDigits, IsInt, Run, Next;
      var u, c := w[..|w| - 1], w[|w| - 1];
      assert w == u + [c];
      RunOfLast(w);
      NextIsFloat(Run(u), c);
      RunIsFloat(u);
      RunIsSignedDigits(u);
      FloatExtended(u, c);
    }
  }

  /** After the E there is a sign, and then digits. */
  lemma {:induction false} RunIsScientific(w: seq<byte>)
    ensures Run(w) == S2 <==> w != [] && IsFloat(w[..|w| - 1]) && IsE(w[|w| - 1])
    ensures Run(w) == Exponent <==> |w| > 1 && IsFloat(w[..|w| - 2]) && IsE(w[|w| - 2]) && IsSign(w[|w| - 1])
    ensures Run(w) == Scientific <==> IsScientific(w)
  {
    if w == [] {
      assert forall k: nat :: !IsScientificAt(w, k);
    } else {
      var u, c := w[..|w| - 1], w[|w| - 1];
      assert w == u + [c];
      RunIsFloat(u);
      RunIsScientific(u);
      if |u| > 0 {
        assert u[..|u| - 1] == w[..|w| - 2];
      }
      ScientificExtended(u, c);
    }
  }

  lemma ScientificExtended(u: seq<byte>, c: byte)
    ensures IsScientific(u + [c]) <==>
            && IsDigit(c)
            && (IsScientific(u) || (|u| > 1 && IsFloat(u[..|u| - 2]) && IsE(u[|u| - 2]) && IsSign(u[|u| - 1])))
  {
    hide IsFloat;
    var w := u + [c];
    if k: nat :| IsScientificAt(w, k) {
      assert w[..k] == u[..k] && w[k + 2..] == u[k + 2..] + [c];
      AreDigitsExtended(u[k + 2..], c);
      if k + 2 < |u| {
        assert IsScientificAt(u, k);
      }
    }
    if IsDigit(c) && IsScientific(u) {
      var k: nat :| IsScientificAt(u, k);
      assert w[..k] == u[..k] && w[k + 2..] == u[k + 2..] + [c];
      AreDigitsExtended(u[k + 2..], c);
      assert IsScientificAt(w, k);
    }
    if IsDigit(c) && |u| > 1 && IsFloat(u[..|u| - 2]) && IsE(u[|u| - 2]) && IsSign(u[|u| - 1]) {
      var k := |u| - 2;
      assert w[..k] == u[..k] && w[k + 2..] == [c];
      assert IsScientificAt(w, k);
    }
  }

  // ---------- core_state_transition ----------

  /** A symbol counts for the state that it makes the machine leave; an invalid one counts for Invalid too at the start,
      and only there in an exponent.
   */
  function Counted(counts: seq<nat>, state: State, c: byte): (r: seq<nat>)
    requires |counts| == NUM_CORE_STATES
    ensures |r| == NUM_CORE_STATES
  {
    var left := if state != Scientific && Next(state, c) != state then counts[Index(state) := counts[Index(state)] + 1]
                else counts;
    if (state == Start || state == Scientific) && Next(state, c) == Invalid then left[1 := left[1] + 1] else left
  }

  function CountedAll(counts: seq<nat>, w: seq<byte>): (r: seq<nat>)
    requires |counts| == NUM_CORE_STATES
    ensures |r| == NUM_CORE_STATES
  {
    if w == [] then counts
    else Counted(CountedAll(counts, w[..|w| - 1]), Run(w[..|w| - 1]), w[|w| - 1])
  }

  /** The machine never comes back to a state that it has left. */
  function Rank(state: State): nat {
    match state
    case Start => 0
    case S1 => 1
    case Int => 2
    case Float => 3
    case S2 => 4
    case Exponent => 5
    case Scientific => 6
    case Invalid => 7
  }

  lemma NextRises(state: State, c: byte)
    ensures Next(state, c) == state || Rank(Next(state, c)) > Rank(state)
  {
  }

  /** Over the symbol at i the machine goes from the one state to one of the others. */
  predicate GoesAt(w: seq<byte>, from: State, to: set<State>, i: nat) {
    i < |w| && Run(w[..i]) == from && Run(w[..i + 1]) in to
  }

  ghost predicate Goes(w: seq<byte>, from: State, to: set<State>) {
    exists i: nat :: GoesAt(w, from, to, i)
  }

  lemma GoesEarlier(w: seq<byte>, from: State, to: set<State>, i: nat)
    requires i < |w|
    ensures var u := w[..|w| - 1];
            GoesAt(w, from, to, i) <==> if i < |u| then GoesAt(u, from, to, i) else Run(u) == from && Run(w) in to
  {
    hide Run;
    var u := w[..|w| - 1];
    assert w[..|w|] == w && u[..i] == w[..i];
    if i < |u| {
      assert u[..i + 1] == w[..i + 1];
    }
  }

  lemma GoesExtended(w: seq<byte>, from: State, to: set<State>)
    requires w != []
    ensures var u := w[..|w| - 1]; Goes(w, from, to) <==> Goes(u, from, to) || (Run(u) == from && Run(w) in to)
  {
    hide Run, GoesAt;
    var u := w[..|w| - 1];
    if i: nat :| GoesAt(w, from, to, i) {
      GoesInside(w, from, to, i);
      GoesEarlier(w, from, to, i);
    }
    if i: nat :| GoesAt(u, from, to, i) {
      GoesInside(u, from, to, i);
      GoesEarlier(w, from, to, i);
    }
    GoesEarlier(w, from, to, |u|);
  }

  lemma GoesInside(w: seq<byte>, from: State, to: set<State>, i: nat)
    requires GoesAt(w, from, to, i)
    ensures i < |w|
  {
  }

  lemma {:induction false} GoesOnce(w: seq<byte>, from: State, to: set<State>)
    requires from !in to
    ensures Goes(w, from, to) ==> w != [] && Rank(Run(w)) > Rank(from)
    decreases |w|
  {
    if w != [] {
      hide Next, Rank, Goes;
      NextRises(Run(w[..|w| - 1]), w[|w| - 1]);
      GoesExtended(w, from, to);
      GoesOnce(w[..|w| - 1], from, to);
    }
  }

  lemma {:induction false} InvalidStays(w: seq<byte>, from: State)
    ensures Goes(w, from, {Invalid}) ==> w != [] && Run(w) == Invalid
    decreases |w|
  {
    if w != [] {
      hide Goes;
      GoesExtended(w, from, {Invalid});
      InvalidStays(w[..|w| - 1], from);
    }
  }

  lemma OthersAre(state: State, next: State)
    ensures next in Others(state) <==> next != state
  {
  }

  /** The states that can follow on a state, other than itself. */
  function Others(state: State): set<State> {
    {Start, Invalid, S1, S2, Int, Float, Exponent, Scientific} - {state}
  }

  /** What the transition counts of a text are: a state counts once if the machine has left it, but the last state of a
      number does not, and the invalid state counts if it has been entered from the first state or the last.
   */
  ghost predicate CountsFor(w: seq<byte>, state: State) {
    match state
    case Scientific => false
    case Invalid => Goes(w, Start, {Invalid}) || Goes(w, Scientific, {Invalid})
    case _ => Goes(w, state, Others(state))
  }

  lemma {:induction false} CountsAre(counts: seq<nat>, w: seq<byte>, state: State)
    requires |counts| == NUM_CORE_STATES
    ensures CountedAll(counts, w)[Index(state)] == counts[Index(state)] + if CountsFor(w, state) then 1 else 0
    decreases |w|
  {
    OthersAre(state, state);
    GoesOnce(w, state, Others(state));
    InvalidStays(w, Start);
    InvalidStays(w, Scientific);
    if w != [] {
      var u, c := w[..|w| - 1], w[|w| - 1];
      CountsAre(counts, u, state);
      GoesOnce(u, state, Others(state));
      InvalidStays(u, Start);
      InvalidStays(u, Scientific);
      OthersAre(state, Run(w));
      hide Goes, Others, Counted;
      GoesExtended(w, state, Others(state));
      GoesExtended(w, Start, {Invalid});
      GoesExtended(w, Scientific, {Invalid});
      CountedOnce(CountedAll(counts, u), Run(u), c, state);
    }
  }

  /** One count of one symbol. */
  lemma CountedOnce(counts: seq<nat>, from: State, c: byte, state: State)
    requires |counts| == NUM_CORE_STATES
    ensures var to := Next(from, c);
            Counted(counts, from, c)[Index(state)] == counts[Index(state)] +
              match state
              case Scientific => 0
              case Invalid => if from in {Start, Scientific} && to == Invalid then 1 else 0
              case _ => if from == state && to != state then 1 else 0
  {
  }

  method Increment(counts: array<nat>, state: State)
    requires counts.Length == NUM_CORE_STATES
    modifies counts
    ensures counts[..] == old(counts[..])[Index(state) := old(counts[..])[Index(state)] + 1]
  {
    counts[Index(state)] := counts[Index(state)] + 1;
  }

  /** The switch of core_state_transition. */
  method Symbol(state: State, c: byte, counts: array<nat>) returns (state': State)
    requires counts.Length == NUM_CORE_STATES && state != Invalid
    modifies counts
    ensures state' == Next(state, c) && counts[..] == Counted(old(counts[..]), state, c)
  {
    state' := state;
    match state
    case Start =>
      if IsDigit(c) {
        state' := Int;
      } else if c == PLUS || c == MINUS {
        state' := S1;
      } else if c == DOT {
        state' := Float;
      } else {
        state' := Invalid;
        Increment(counts, Invalid);
      }
      Increment(counts, Start);
    case S1 =>
      if IsDigit(c) {
        state' := Int;
        Increment(counts, S1);
      } else if c == DOT {
        state' := Float;
        Increment(counts, S1);
      } else {
        state' := Invalid;
        Increment(counts, S1);
      }
    case Int =>
      if c == DOT {
        state' := Float;
        Increment(counts, Int);
      } else if !IsDigit(c) {
        state' := Invalid;
        Increment(counts, Int);
      }
    case Float =>
      if c == UPPER_E || c == LOWER_E {
        state' := S2;
        Increment(counts, Float);
      } else if !IsDigit(c) {
        state' := Invalid;
        Increment(counts, Float);
      }
    case S2 =>
      if c == PLUS || c == MINUS {
        state' := Exponent;
        Increment(counts, S2);
      } else {
        state' := Invalid;
        Increment(counts, S2);
      }
    case Exponent =>
      if IsDigit(c) {
        state' := Scientific;
        Increment(counts, Exponent);
      } else {
        state' := Invalid;
        Increment(counts, Exponent);
      }
    case Scientific =>
      if !IsDigit(c) {
        state' := Invalid;
        Increment(counts, Invalid);
      }
  }

  lemma RunContinues(m: seq<byte>, p: nat, k: nat, counts: seq<nat>)
    requires p <= k < |m| && |counts| == NUM_CORE_STATES
    ensures Run(m[p..k + 1]) == Next(Run(m[p..k]), m[k])
    ensures CountedAll(counts, m[p..k + 1]) == Counted(CountedAll(counts, m[p..k]), Run(m[p..k]), m[k])
  {
    hide *;
    var w := m[p..k + 1];
    assert w[..|w| - 1] == m[p..k];
    assert w != [] && w[|w| - 1] == m[k];
    RunOfLast(w);
    CountedAllOfLast(counts, w);
  }

  lemma CountedAllOfLast(counts: seq<nat>, w: seq<byte>)
    requires |counts| == NUM_CORE_STATES && w != []
    ensures CountedAll(counts, w) == Counted(CountedAll(counts, w[..|w| - 1]), Run(w[..|w| - 1]), w[|w| - 1])
  {
    hide Run, Counted;
  }

  /** A token takes up the bytes from..end of the memory; the machine runs over from..text of them. */
  datatype Token = Token(from: nat, text: nat, end: nat)

  function Text(m: seq<byte>, t: Token): seq<byte>
    requires t.from <= t.text <= |m|
  {
    m[t.from..t.text]
  }

  /** The text ends where the machine has become invalid, at a comma, which is skipped, or at the final zero. */
  predicate IsToken(m: seq<byte>, t: Token) {
    && t.from <= t.text <= t.end <= |m| && t.text < |m|
    && (forall i | t.from <= i < t.text :: m[i] != COMMA && m[i] != 0 && Run(m[t.from..i]) != Invalid)
    && if Run(Text(m, t)) == Invalid then t.end == t.text
       else if m[t.text] == COMMA then t.end == t.text + 1
       else m[t.text] == 0 && t.end == t.text
  }

  lemma TextIsNotLonger(m: seq<byte>, t: Token, u: Token)
    requires IsToken(m, t) && IsToken(m, u) && t.from == u.from
    ensures u.text <= t.text
  {
    hide Run;
  }

  /** There is one way only to cut off the first token. */
  lemma TokenIsUnique(m: seq<byte>, t: Token, u: Token)
    requires IsToken(m, t) && IsToken(m, u) && t.from == u.from
    ensures t == u
  {
    hide Run;
    TextIsNotLonger(m, t, u);
    TextIsNotLonger(m, u, t);
  }

  /** core_state_transition: one token from p on. */
  method Transition(mem: array<byte>, p: nat, counts: array<nat>, ghost z: nat)
    returns (str: nat, state: State, ghost k: nat)
    requires p <= z < mem.Length && mem[z] == 0 && counts.Length == NUM_CORE_STATES
    modifies counts
    ensures p <= k <= str <= z && IsToken(mem[..], Token(p, k, str)) && state == Run(mem[p..k])
    ensures mem[p] != 0 ==> p < str
    ensures counts[..] == CountedAll(old(counts[..]), mem[p..k])
  {
    hide Run, Counted, CountedAll, Next;
    RunStarts(mem[..], p, counts[..]);
    str, state, k := p, Start, p;
    while mem[str] != 0 && state != Invalid
      invariant p <= str == k <= z && state == Run(mem[p..k])
      invariant forall i | p <= i < k :: mem[i] != COMMA && mem[i] != 0 && Run(mem[p..i]) != Invalid
      invariant counts[..] == CountedAll(old(counts[..]), mem[p..k])
      decreases z - str
    {
      var nextSymbol := mem[str];
      if nextSymbol == COMMA {
        str := str + 1;
        break;
      }
      RunContinues(mem[..], p, k, old(counts[..]));
      SliceOfArray(mem, p, k);
      state := Symbol(state, nextSymbol, counts);
      str := str + 1;
      k := k + 1;
    }
    TextOfArray(mem, p, k, str);
  }

  lemma TextOfArray(mem: array<byte>, p: nat, k: nat, str: nat)
    requires p <= k <= str <= mem.Length
    ensures Text(mem[..], Token(p, k, str)) == mem[p..k]
    ensures forall i | p <= i <= k :: mem[..][p..i] == mem[p..i]
  {
  }

  lemma SliceOfArray(mem: array<byte>, p: nat, k: nat)
    requires p <= k < mem.Length
    ensures mem[..][p..k] == mem[p..k] && mem[..][p..k + 1] == mem[p..k + 1]
  {
  }

  lemma RunStarts(m: seq<byte>, p: nat, counts: seq<nat>)
    requires p <= |m| && |counts| == NUM_CORE_STATES
    ensures Run(m[p..p]) == Start && CountedAll(counts, m[p..p]) == counts && m[p..p] == []
    ensures Run([]) == Start && CountedAll(counts, []) == counts
  {
  }

  // ---------- core_bench_state ----------

  function Sum(counts: seq<nat>): nat {
    if counts == [] then 0 else Sum(counts[..|counts| - 1]) + counts[|counts| - 1]
  }

  lemma {:induction false} SumIncremented(counts: seq<nat>, i: nat)
    requires i < |counts|
    ensures Sum(counts[i := counts[i] + 1]) == Sum(counts) + 1
  {
    var last := |counts| - 1;
    var counts' := counts[i := counts[i] + 1];
    if i == last {
      assert counts'[..last] == counts[..last];
    } else {
      SumIncremented(counts[..last], i);
      assert counts'[..last] == counts[..last][i := counts[i] + 1];
    }
  }

  /** The tokens ts make up the memory from the one position to the other. */
  predicate AreTokens(m: seq<byte>, ts: seq<Token>, from: nat, to: nat) {
    && (forall i | 0 <= i < |ts| :: IsToken(m, ts[i]) && ts[i].from < ts[i].end)
    && (forall i {:trigger EndOf(ts, from, i)} | 0 <= i < |ts| :: ts[i].from == EndOf(ts, from, i))
    && to == EndOf(ts, from, |ts|)
  }

  /** Where the first i tokens end. */
  function EndOf(ts: seq<Token>, from: nat, i: nat): nat
    requires i <= |ts|
  {
    if i == 0 then from else ts[i - 1].end
  }

  lemma TokensExtended(m: seq<byte>, ts: seq<Token>, from: nat, to: nat, t: Token)
    requires AreTokens(m, ts, from, to) && IsToken(m, t) && t.from == to && t.from < t.end
    ensures AreTokens(m, ts + [t], from, t.end)
  {
    hide IsToken;
    forall i | 0 <= i < |ts| + 1 ensures (ts + [t])[i].from == EndOf(ts + [t], from, i) {
      assert EndOf(ts + [t], from, i) == EndOf(ts, from, i);
    }
  }

  /** There is one way only to take a text apart into tokens. */
  lemma {:induction false} TokensAreUnique(m: seq<byte>, ts: seq<Token>, us: seq<Token>, from: nat, to: nat)
    requires AreTokens(m, ts, from, to) && AreTokens(m, us, from, to)
    ensures ts == us
    decreases |ts|
  {
    hide IsToken;
    if ts != [] && us != [] {
      FirstToken(m, ts, from, to);
      FirstToken(m, us, from, to);
      TokenIsUnique(m, ts[0], us[0]);
      TokensAfterFirst(m, ts, from, to);
      TokensAfterFirst(m, us, from, to);
      TokensAreUnique(m, ts[1..], us[1..], ts[0].end, to);
    } else {
      TokensAdvance(m, ts, from, to);
      TokensAdvance(m, us, from, to);
    }
  }

  lemma FirstToken(m: seq<byte>, ts: seq<Token>, from: nat, to: nat)
    requires AreTokens(m, ts, from, to) && ts != []
    ensures IsToken(m, ts[0]) && from == ts[0].from < ts[0].end
    ensures |ts| == 1 ==> to == ts[0].end
  {
    hide IsToken;
    assert EndOf(ts, from, 0) == from;
  }

  lemma EndOfRest(ts: seq<Token>, from: nat, i: nat)
    requires i < |ts|
    ensures EndOf(ts[1..], ts[0].end, i) == EndOf(ts, from, i + 1)
  {
  }

  lemma TokensAfterFirst(m: seq<byte>, ts: seq<Token>, from: nat, to: nat)
    requires AreTokens(m, ts, from, to) && ts != []
    ensures AreTokens(m, ts[1..], ts[0].end, to)
  {
    hide IsToken, EndOf;
    var rest := ts[1..];
    forall i | 0 <= i < |rest|
      ensures IsToken(m, rest[i]) && rest[i].from < rest[i].end && rest[i].from == EndOf(rest, ts[0].end, i)
    {
      EndOfRest(ts, from, i);
      assert rest[i] == ts[i + 1];
    }
    EndOfRest(ts, from, |rest|);
  }

  lemma {:induction false} TokensAdvance(m: seq<byte>, ts: seq<Token>, from: nat, to: nat)
    requires AreTokens(m, ts, from, to)
    ensures ts != [] ==> from < to
    decreases |ts|
  {
    hide IsToken, AreTokens;
    if ts != [] {
      FirstToken(m, ts, from, to);
    }
    if |ts| > 1 {
      TokensAfterFirst(m, ts, from, to);
      TokensAdvance(m, ts[1..], ts[0].end, to);
    }
  }

  function Counting(counts: seq<nat>, state: State): (r: seq<nat>)
    requires |counts| == NUM_CORE_STATES
    ensures |r| == NUM_CORE_STATES
  {
    counts[Index(state) := counts[Index(state)] + 1]
  }

  /** A token counts for the state in which its text ends. */
  function Tally(finals: seq<nat>, m: seq<byte>, ts: seq<Token>): (r: seq<nat>)
    requires |finals| == NUM_CORE_STATES
    requires forall i | 0 <= i < |ts| :: ts[i].from <= ts[i].text <= |m|
    ensures |r| == NUM_CORE_STATES
  {
    if ts == [] then finals
    else Counting(Tally(finals, m, ts[..|ts| - 1]), Run(Text(m, ts[|ts| - 1])))
  }

  /** The symbols of all the texts, counted. */
  function Tracked(counts: seq<nat>, m: seq<byte>, ts: seq<Token>): (r: seq<nat>)
    requires |counts| == NUM_CORE_STATES
    requires forall i | 0 <= i < |ts| :: ts[i].from <= ts[i].text <= |m|
    ensures |r| == NUM_CORE_STATES
  {
    if ts == [] then counts
    else CountedAll(Tracked(counts, m, ts[..|ts| - 1]), Text(m, ts[|ts| - 1]))
  }

  /** The tokens whose text ends in a state. */
  ghost function Ending(m: seq<byte>, ts: seq<Token>, state: State): set<nat>
    requires forall i | 0 <= i < |ts| :: ts[i].from <= ts[i].text <= |m|
  {
    set i: nat | i < |ts| && Run(Text(m, ts[i])) == state
  }

  /** The tokens whose text counts for a state. */
  ghost function Passing(m: seq<byte>, ts: seq<Token>, state: State): set<nat>
    requires forall i | 0 <= i < |ts| :: ts[i].from <= ts[i].text <= |m|
  {
    set i: nat | i < |ts| && CountsFor(Text(m, ts[i]), state)
  }

  lemma EndingOfLast(m: seq<byte>, ts: seq<Token>, state: State)
    requires ts != [] && forall i | 0 <= i < |ts| :: ts[i].from <= ts[i].text <= |m|
    ensures var last := |ts| - 1;
            |Ending(m, ts, state)| == |Ending(m, ts[..last], state)| + if Run(Text(m, ts[last])) == state then 1 else 0
  {
    hide Run, Text;
    var last := |ts| - 1;
    var before, all := Ending(m, ts[..last], state), Ending(m, ts, state);
    assert forall i | 0 <= i < last :: ts[..last][i] == ts[i];
    if Run(Text(m, ts[last])) == state {
      assert all == before + {last};
    } else {
      assert all == before;
    }
  }

  lemma PassingOfLast(m: seq<byte>, ts: seq<Token>, state: State)
    requires ts != [] && forall i | 0 <= i < |ts| :: ts[i].from <= ts[i].text <= |m|
    ensures var last := |ts| - 1;
            |Passing(m, ts, state)| ==
            |Passing(m, ts[..last], state)| + if CountsFor(Text(m, ts[last]), state) then 1 else 0
  {
    hide CountsFor, Text;
    var last := |ts| - 1;
    var before, all := Passing(m, ts[..last], state), Passing(m, ts, state);
    assert forall i | 0 <= i < last :: ts[..last][i] == ts[i];
    if CountsFor(Text(m, ts[last]), state) {
      assert all == before + {last};
    } else {
      assert all == before;
    }
  }

  /** Each count is the number of the texts that count for its state. */
  lemma {:induction false} TalliesAre(finals: seq<nat>, counts: seq<nat>, m: seq<byte>, ts: seq<Token>, state: State)
    requires |finals| == NUM_CORE_STATES == |counts|
    requires forall i | 0 <= i < |ts| :: ts[i].from <= ts[i].text <= |m|
    ensures Tally(finals, m, ts)[Index(state)] == finals[Index(state)] + |Ending(m, ts, state)|
    ensures Tracked(counts, m, ts)[Index(state)] == counts[Index(state)] + |Passing(m, ts, state)|
  {
    if ts != [] {
      var last := |ts| - 1;
      hide *;
      var before := ts[..last];
      TalliesAre(finals, counts, m, before, state);
      CountsAre(Tracked(counts, m, before), Text(m, ts[last]), state);
      TallyOfLast(finals, m, ts);
      TrackedOfLast(counts, m, ts);
      CountingIs(Tally(finals, m, before), Run(Text(m, ts[last])), state);
      EndingOfLast(m, ts, state);
      PassingOfLast(m, ts, state);
    }
  }

  lemma CountingIs(counts: seq<nat>, counted: State, state: State)
    requires |counts| == NUM_CORE_STATES
    ensures Counting(counts, counted)[Index(state)] == counts[Index(state)] + if state == counted then 1 else 0
  {
  }

  /** The counts add up to the number of tokens. */
  lemma {:induction false} TallyAddsUp(finals: seq<nat>, m: seq<byte>, ts: seq<Token>)
    requires |finals| == NUM_CORE_STATES
    requires forall i | 0 <= i < |ts| :: ts[i].from <= ts[i].text <= |m|
    ensures Sum(Tally(finals, m, ts)) == Sum(finals) + |ts|
  {
    hide Sum, Run, Text, Index;
    if ts != [] {
      var before := ts[..|ts| - 1];
      TallyAddsUp(finals, m, before);
      SumIncremented(Tally(finals, m, before), Index(Run(Text(m, ts[|ts| - 1]))));
    }
  }

  lemma TallyOfLast(finals: seq<nat>, m: seq<byte>, ts: seq<Token>)
    requires |finals| == NUM_CORE_STATES && ts != []
    requires forall i | 0 <= i < |ts| :: ts[i].from <= ts[i].text <= |m|
    ensures Tally(finals, m, ts) == Counting(Tally(finals, m, ts[..|ts| - 1]), Run(Text(m, ts[|ts| - 1])))
  {
    hide Run;
  }

  lemma TrackedOfLast(counts: seq<nat>, m: seq<byte>, ts: seq<Token>)
    requires |counts| == NUM_CORE_STATES && ts != []
    requires forall i | 0 <= i < |ts| :: ts[i].from <= ts[i].text <= |m|
    ensures Tracked(counts, m, ts) == CountedAll(Tracked(counts, m, ts[..|ts| - 1]), Text(m, ts[|ts| - 1]))
  {
    hide Run, CountedAll;
  }

  /** The counts after one more token. */
  lemma CountsExtended(finals: seq<nat>, counts: seq<nat>, m: seq<byte>, ts: seq<Token>, t: Token)
    requires |finals| == NUM_CORE_STATES == |counts| && t.from <= t.text <= |m|
    requires forall i | 0 <= i < |ts| :: ts[i].from <= ts[i].text <= |m|
    ensures Tally(finals, m, ts + [t]) == Counting(Tally(finals, m, ts), Run(Text(m, t)))
    ensures Tracked(counts, m, ts + [t]) == CountedAll(Tracked(counts, m, ts), Text(m, t))
  {
    hide Run, CountedAll, Tally, Tracked, Text;
    TallyOfLast(finals, m, ts + [t]);
    TrackedOfLast(counts, m, ts + [t]);
    assert (ts + [t])[..|ts|] == ts;
  }

  lemma NoTokens(m: seq<byte>, finals: seq<nat>, counts: seq<nat>)
    requires |finals| == NUM_CORE_STATES == |counts|
    ensures AreTokens(m, [], 0, 0) && Tally(finals, m, []) == finals && Tracked(counts, m, []) == counts
  {
  }

  /** The state machine over the whole text up to its end at z: it takes the text apart into tokens, and counts them. */
  method Scan(mem: array<byte>, finals: array<nat>, counts: array<nat>, ghost z: nat) returns (ghost ts: seq<Token>)
    requires z < mem.Length && mem[z] == 0 && forall i | 0 <= i < z :: mem[i] != 0
    requires finals.Length == NUM_CORE_STATES == counts.Length && finals != counts
    modifies finals, counts
    ensures AreTokens(mem[..], ts, 0, z)
    ensures forall i | 0 <= i < |ts| :: ts[i].from <= ts[i].text <= mem.Length
    ensures finals[..] == Tally(old(finals[..]), mem[..], ts)
    ensures counts[..] == Tracked(old(counts[..]), mem[..], ts)
  {
    hide CountedAll, Run, AreTokens, IsToken, Tally, Tracked;
    ts := [];
    var p := 0;
    ghost var m := mem[..];
    NoTokens(m, finals[..], counts[..]);
    while mem[p] != 0
      invariant 0 <= p <= z && mem[..] == m && AreTokens(m, ts, 0, p)
      invariant forall i | 0 <= i < |ts| :: ts[i].from <= ts[i].text <= |m|
      invariant finals[..] == Tally(old(finals[..]), m, ts)
      invariant counts[..] == Tracked(old(counts[..]), m, ts)
      decreases z - p
    {
      var str, fstate;
      ghost var k;
      str, fstate, k := Transition(mem, p, counts, z);
      TextOfArray(mem, p, k, str);
      CountsExtended(old(finals[..]), old(counts[..]), m, ts, Token(p, k, str));
      Increment(finals, fstate);
      TokensExtended(m, ts, 0, p, Token(p, k, str));
      ts := ts + [Token(p, k, str)];
      p := str;
    }
  }

  /** One byte corrupted; a comma is left as it is. */
  function Flip(c: byte, seed: byte): byte {
    XorIsByte(c, seed);
    if c == COMMA then c else Xor(c, seed)
  }

  lemma XorIsByte(a: byte, b: byte)
    ensures Xor(a, b) < 256
  {
    hide Xor, Pow2;
    ByteIsBelow();
    OrXorBelow(a, b, 8);
  }

  lemma ByteIsBelow()
    ensures Pow2(8) == 256
  {
    Pow2Of4();
  }

  /** Corrupting twice restores a byte exactly if the seeds are equal and the first time did not make a comma of it. */
  lemma FlipTwice(c: byte, seed1: byte, seed2: byte)
    ensures Flip(Flip(c, seed1), seed2) == c <==> c == COMMA || (Xor(c, seed1) != COMMA && seed1 == seed2)
  {
    hide Xor;
    XorIsByte(c, seed1);
    XorTwice(c, seed1, seed2);
  }

  lemma {:induction false} XorTwice(a: nat, b: nat, c: nat)
    ensures Xor(Xor(a, b), c) == a <==> b == c
    decreases a + b + c
  {
    if a == 0 && b == 0 && c == 0 {
    } else {
      XorTwice(a / 2, b / 2, c / 2);
      XorHalves(a, b);
      XorHalves(Xor(a, b), c);
      assert b == c <==> b / 2 == c / 2 && b % 2 == c % 2;
    }
  }

  predicate IsVisited(i: nat, blksize: nat, step: nat)
    requires step > 0
  {
    i < blksize && i % step == 0
  }

  function Corrupted(m: seq<byte>, blksize: nat, seed: byte, step: nat): (r: seq<byte>)
    requires step > 0
    ensures |r| == |m|
    ensures forall i | 0 <= i < |m| :: r[i] == if IsVisited(i, blksize, step) then Flip(m[i], seed) else m[i]
  {
    seq(|m|, i requires 0 <= i < |m| => if IsVisited(i, blksize, step) then Flip(m[i], seed) else m[i])
  }

  lemma MultiplesAreApart(p: nat, i: nat, step: nat)
    requires step > 0 && p % step == 0
    ensures (p + step) % step == 0
    ensures p < i < p + step ==> i % step != 0
  {
    var q := p / step;
    assert p == q * step;
    assert p + step == (q + 1) * step + 0;
    DivModUnique(p + step, step, q + 1, 0);
    if p < i < p + step {
      DivModUnique(i, step, q, i - p);
    }
  }

  /** The two loops that insert the corruption and undo it. */
  method Corrupt(mem: array<byte>, blksize: nat, seed: byte, step: nat)
    requires blksize <= mem.Length && step > 0
    modifies mem
    ensures mem[..] == Corrupted(old(mem[..]), blksize, seed, step)
    ensures forall i | 0 <= i < mem.Length ::
              mem[i] == if i < blksize && i % step == 0 && old(mem[i]) != 44 then Xor(old(mem[i]), seed)
                        else old(mem[i])
  {
    hide Flip, Xor;
    ghost var m := mem[..];
    var p := 0;
    while p < blksize
      invariant p % step == 0
      invariant forall i | 0 <= i < mem.Length ::
                  mem[i] == if i < p && IsVisited(i, blksize, step) then Flip(m[i], seed) else m[i]
    {
      FlipIs(mem[p], seed);
      if mem[p] != COMMA {
        mem[p] := Xor(mem[p], seed);
      }
      forall i | 0 <= i < mem.Length
        ensures (p + step) % step == 0 && (p < i < p + step ==> i % step != 0)
      {
        MultiplesAreApart(p, i, step);
      }
      p := p + step;
    }
    forall i | 0 <= i < mem.Length
      ensures Flip(m[i], seed) == if m[i] == 44 then m[i] else Xor(m[i], seed)
    {
      FlipIs(m[i], seed);
    }
  }

  lemma FlipIs(c: byte, seed: byte)
    ensures Flip(c, seed) == if c == COMMA then c else Xor(c, seed)
  {
  }

  /** The memory is restored by corrupting it twice exactly under this condition on the bytes that are visited. */
  predicate IsRestorable(m: seq<byte>, blksize: nat, seed1: byte, seed2: byte, step: nat)
    requires step > 0
  {
    forall i | 0 <= i < |m| && IsVisited(i, blksize, step) ::
      m[i] == COMMA || (Xor(m[i], seed1) != COMMA && seed1 == seed2)
  }

  lemma CorruptedTwice(m: seq<byte>, blksize: nat, seed1: byte, seed2: byte, step: nat)
    requires step > 0
    ensures Corrupted(Corrupted(m, blksize, seed1, step), blksize, seed2, step) == m <==>
            IsRestorable(m, blksize, seed1, seed2, step)
  {
    hide Flip, Xor, IsVisited;
    var r := Corrupted(Corrupted(m, blksize, seed1, step), blksize, seed2, step);
    forall i | 0 <= i < |m|
      ensures r[i] == m[i] <==>
              (IsVisited(i, blksize, step) ==> m[i] == COMMA || (Xor(m[i], seed1) != COMMA && seed1 == seed2))
    {
      FlipTwice(m[i], seed1, seed2);
    }
    if IsRestorable(m, blksize, seed1, seed2, step) {
      assert r == m;
    }
  }

  /** The text "-" with its final zero, of which the first byte is corrupted: it becomes a comma and stays one. Both
      texts end at position 1, and the seeds are equal.
   */
  lemma NotAlwaysRestored()
    ensures Corrupted([MINUS, 0], 1, 1, 1) == [COMMA, 0]
    ensures Corrupted(Corrupted([MINUS, 0], 1, 1, 1), 1, 1, 1) == [COMMA, 0] != [MINUS, 0]
    ensures !IsRestorable([MINUS, 0], 1, 1, 1, 1)
  {
    hide Xor, Flip;
    FlipIs(MINUS, 1);
    FlipIs(COMMA, 1);
    MinusXorOne();
    CorruptedTwice([MINUS, 0], 1, 1, 1, 1);
  }

  lemma MinusXorOne()
    ensures Xor(45, 1) == 44
  {
  }

  /** A count as crcu32 sees it. */
  function WordBytes(count: nat): seq<CoreMarkCrc.u8> {
    var word := count % 0x1_0000_0000;
    [word % 0x1_0000 % 256, word % 0x1_0000 / 256, word / 0x1_0000 % 256, word / 0x1_0000 / 256]
  }

  /** The first n pairs of counts, in the order in which they enter the checksum. */
  function CountBytes(finals: seq<nat>, tracks: seq<nat>, n: nat): seq<CoreMarkCrc.u8>
    requires n <= |finals| && n <= |tracks|
  {
    if n == 0 then []
    else CountBytes(finals, tracks, n - 1) + WordBytes(finals[n - 1]) + WordBytes(tracks[n - 1])
  }

  /** The four bytes of a count from position k on, from the lowest. */
  predicate AreBytesAt(m: seq<CoreMarkCrc.u8>, k: nat, count: nat) {
    && k + 4 <= |m| && m[k] == count % 256 && m[k + 1] == count / 0x100 % 256
    && m[k + 2] == count / 0x1_0000 % 256 && m[k + 3] == count / 0x100_0000 % 256
  }

  /** The two counts of each state follow one after the other. */
  lemma {:induction false} CountBytesAre(finals: seq<nat>, tracks: seq<nat>, n: nat, k: nat)
    requires n <= |finals| && n <= |tracks| && k < n
    ensures |CountBytes(finals, tracks, n)| == 8 * n
    ensures AreBytesAt(CountBytes(finals, tracks, n), 8 * k, finals[k])
    ensures AreBytesAt(CountBytes(finals, tracks, n), 8 * k + 4, tracks[k])
  {
    hide WordBytes;
    WordBytesAre(finals[n - 1]);
    WordBytesAre(tracks[n - 1]);
    if k < n - 1 {
      CountBytesAre(finals, tracks, n - 1, k);
    } else if n > 1 {
      CountBytesAre(finals, tracks, n - 1, 0);
    }
  }

  lemma WordBytesAre(count: nat)
    ensures |WordBytes(count)| == 4 && AreBytesAt(WordBytes(count), 0, count)
  {
    var b: seq<nat> := WordBytes(count);
    var q := count / 0x1_0000_0000;
    var high := 0x1_0000 * q + 256 * b[3] + b[2];
    assert count == 0x1_0000 * high + 256 * b[1] + b[0];
    DivModUnique(count, 0x1_0000, high, 256 * b[1] + b[0]);
    DivModUnique(count, 0x100, 256 * high + b[1], b[0]);
    DivModUnique(256 * high + b[1], 256, high, b[1]);
    DivModUnique(high, 256, 256 * q + b[3], b[2]);
    DivModUnique(count, 0x100_0000, 256 * q + b[3], 0x1_0000 * b[2] + 256 * b[1] + b[0]);
    DivModUnique(256 * q + b[3], 256, q, b[3]);
  }

  method ChecksumOfCounts(finals: array<nat>, tracks: array<nat>, crc0: CoreMarkCrc.u16) returns (crc: CoreMarkCrc.u16)
    requires finals.Length == NUM_CORE_STATES == tracks.Length
    ensures crc == CoreMarkCrc.Crc(CountBytes(finals[..], tracks[..], NUM_CORE_STATES), crc0)
  {
    hide CoreMarkCrc.Crc, WordBytes;
    crc := crc0;
    NoBytes(crc0);
    for i := 0 to NUM_CORE_STATES
      invariant crc == CoreMarkCrc.Crc(CountBytes(finals[..], tracks[..], i), crc0)
    {
      crc := CountAdded(finals[i], crc, CountBytes(finals[..], tracks[..], i), crc0);
      crc := CountAdded(tracks[i], crc, CountBytes(finals[..], tracks[..], i) + WordBytes(finals[i]), crc0);
    }
  }

  lemma NoBytes(crc: CoreMarkCrc.u16)
    ensures CoreMarkCrc.Crc([], crc) == crc
  {
  }

  method CountAdded(count: nat, crc0: CoreMarkCrc.u16, ghost message: seq<CoreMarkCrc.u8>, ghost seed: CoreMarkCrc.u16)
    returns (crc: CoreMarkCrc.u16)
    requires crc0 == CoreMarkCrc.Crc(message, seed)
    ensures crc == CoreMarkCrc.Crc(message + WordBytes(count), seed)
  {
    hide CoreMarkCrc.Crc;
    crc := CoreMarkCrc.Crcu32(count % 0x1_0000_0000, crc0);
    CoreMarkCrc.CrcOfConcatenation(message, WordBytes(count), seed);
  }

  const ZEROES: seq<nat> := [0, 0, 0, 0, 0, 0, 0, 0]

  /** What the benchmark computes from the tokens of the text and of the corrupted text. */
  function Outcome(m1: seq<byte>, ts1: seq<Token>, m2: seq<byte>, ts2: seq<Token>, crc: CoreMarkCrc.u16)
    : CoreMarkCrc.u16
    requires forall i | 0 <= i < |ts1| :: ts1[i].from <= ts1[i].text <= |m1|
    requires forall i | 0 <= i < |ts2| :: ts2[i].from <= ts2[i].text <= |m2|
  {
    CoreMarkCrc.Crc(CountBytes(Tally(Tally(ZEROES, m1, ts1), m2, ts2), Tracked(Tracked(ZEROES, m1, ts1), m2, ts2),
                               NUM_CORE_STATES), crc)
  }

  /** Both scans together count all the tokens. */
  lemma BothTalliesAddUp(m1: seq<byte>, ts1: seq<Token>, m2: seq<byte>, ts2: seq<Token>)
    requires forall i | 0 <= i < |ts1| :: ts1[i].from <= ts1[i].text <= |m1|
    requires forall i | 0 <= i < |ts2| :: ts2[i].from <= ts2[i].text <= |m2|
    ensures Sum(Tally(Tally(ZEROES, m1, ts1), m2, ts2)) == |ts1| + |ts2|
  {
    hide Sum, Tally;
    ZeroSum(ZEROES);
    TallyAddsUp(ZEROES, m1, ts1);
    TallyAddsUp(Tally(ZEROES, m1, ts1), m2, ts2);
  }

  /** The benchmark, for a text that ends before and after the corruption. The comment in the source, that the
      corruption is undone if the seeds are equal, holds exactly if no visited byte but a comma becomes a comma.
   */
  method BenchState(mem: array<byte>, blksize: nat, seed1: byte, seed2: byte, step: nat, crc0: CoreMarkCrc.u16,
                    ghost z1: nat, ghost z2: nat)
    returns (crc: CoreMarkCrc.u16, ghost ts1: seq<Token>, ghost ts2: seq<Token>)
    requires blksize <= mem.Length && step > 0
    requires z1 < mem.Length && mem[z1] == 0 && forall i | 0 <= i < z1 :: mem[i] != 0
    requires z2 < mem.Length && Corrupted(mem[..], blksize, seed1, step)[z2] == 0
    requires forall i | 0 <= i < z2 :: Corrupted(mem[..], blksize, seed1, step)[i] != 0
    modifies mem
    ensures mem[..] == Corrupted(Corrupted(old(mem[..]), blksize, seed1, step), blksize, seed2, step)
    ensures mem[..] == old(mem[..]) <==> IsRestorable(old(mem[..]), blksize, seed1, seed2, step)
    ensures AreTokens(old(mem[..]), ts1, 0, z1) && AreTokens(Corrupted(old(mem[..]), blksize, seed1, step), ts2, 0, z2)
    ensures forall i | 0 <= i < |ts1| :: ts1[i].from <= ts1[i].text <= mem.Length
    ensures forall i | 0 <= i < |ts2| :: ts2[i].from <= ts2[i].text <= mem.Length
    ensures crc == Outcome(old(mem[..]), ts1, Corrupted(old(mem[..]), blksize, seed1, step), ts2, crc0)
  {
    hide Corrupted, IsRestorable, AreTokens, Flip, Xor, Tally, Tracked, CountBytes, CoreMarkCrc.Crc;
    CorruptedTwice(mem[..], blksize, seed1, seed2, step);
    var finals, tracks := new nat[NUM_CORE_STATES](_ => 0), new nat[NUM_CORE_STATES](_ => 0);
    assert finals[..] == ZEROES && tracks[..] == ZEROES;
    ts1 := Scan(mem, finals, tracks, z1);
    Corrupt(mem, blksize, seed1, step);
    AreSame(mem);
    ts2 := Scan(mem, finals, tracks, z2);
    Corrupt(mem, blksize, seed2, step);
    crc := ChecksumOfCounts(finals, tracks, crc0);
  }

  lemma AreSame(mem: array<byte>)
    ensures forall i | 0 <= i < mem.Length :: mem[i] == mem[..][i]
  {
  }

  lemma {:induction false} ZeroSum(counts: seq<nat>)
    requires forall i | 0 <= i < |counts| :: counts[i] == 0
    ensures Sum(counts) == 0
  {
    if counts != [] {
      ZeroSum(counts[..|counts| - 1]);
    }
  }
}
