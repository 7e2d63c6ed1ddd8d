/** What the player of the typing game sees (apps/typing/game.c), as values: the letters on the screen, newest first,
    and the two counters. A frame strikes letters, may create one, and moves all of them.
 */
module TypingScreen {
  datatype Letter = Letter(x: int, y: int, v: int, text: int)

  /** What one frame gets from outside: the keys that are down, and three values of rand. */
  datatype Input = Input(keys: seq<bool>, r1: nat, r2: nat, r3: nat)

  datatype Screen = Screen(letters: seq<Letter>, pressed: seq<bool>, hit: nat, miss: nat)

  predicate HaveTexts(letters: seq<Letter>) {
    forall i | 0 <= i < |letters| :: 0 <= letters[i].text < 26
  }

  predicate HaveKeys(inputs: seq<Input>) {
    forall i | 0 <= i < |inputs| :: |inputs[i].keys| == 26
  }

  /** Of the falling letters with its text, this one is the first of the lowest. */
  predicate IsAim(letters: seq<Letter>, i: nat)
    requires i < |letters|
  {
    && letters[i].v > 0
    && forall j | 0 <= j < |letters| && letters[j].v > 0 && letters[j].text == letters[i].text ::
         letters[j].y < letters[i].y || (letters[j].y == letters[i].y && i <= j)
  }

  predicate IsStruck(letters: seq<Letter>, keys: seq<bool>, i: nat)
    requires HaveTexts(letters) && |keys| == 26 && i < |letters|
  {
    keys[letters[i].text] && IsAim(letters, i)
  }

  function Struck(letters: seq<Letter>, keys: seq<bool>): (r: seq<Letter>)
    requires HaveTexts(letters) && |keys| == 26
    ensures HaveTexts(r) && |r| == |letters|
  {
    seq(|letters|, i requires 0 <= i < |letters| =>
      if IsStruck(letters, keys, i) then letters[i].(v := -3) else letters[i])
  }

  predicate HasFalling(letters: seq<Letter>, text: int) {
    exists i | 0 <= i < |letters| :: letters[i].v > 0 && letters[i].text == text
  }

  /** A key that has struck a letter counts as released. */
  function KeysLeft(letters: seq<Letter>, keys: seq<bool>): (r: seq<bool>)
    requires |keys| == 26
    ensures |r| == 26
  {
    seq(26, c requires 0 <= c < 26 => keys[c] && !HasFalling(letters, c))
  }

  function Born(input: Input): (letter: Letter)
    ensures 0 <= letter.text < 26
  {
    Letter(8 + 8 * (input.r1 % 38), 0, 1, input.r3 % 26)
  }

  function WithBorn(letters: seq<Letter>, n: nat, input: Input): (r: seq<Letter>)
    ensures HaveTexts(letters) ==> HaveTexts(r)
  {
    if n % 10 == 0 then [Born(input)] + letters else letters
  }

  function Moved(letters: seq<Letter>): (r: seq<Letter>)
    ensures |r| == |letters| && (HaveTexts(letters) ==> HaveTexts(r))
    ensures forall i | 0 <= i < |letters| :: r[i] == letters[i].(y := letters[i].y + letters[i].v)
  {
    seq(|letters|, i requires 0 <= i < |letters| => letters[i].(y := letters[i].y + letters[i].v))
  }

  lemma WithBornIs(letters: seq<Letter>, n: nat, input: Input)
    ensures WithBorn(letters, n, input) == if n % 10 == 0 then [Born(input)] + letters else letters
  {
  }

  lemma MovedInFront(first: Letter, letters: seq<Letter>)
    ensures Moved([first] + letters) == [first.(y := first.y + first.v)] + Moved(letters)
  {
  }

  function OnScreen(letters: seq<Letter>): (r: seq<Letter>)
    ensures HaveTexts(letters) ==> HaveTexts(r)
  {
    if letters == [] then []
    else
      var last := letters[|letters| - 1];
      OnScreen(letters[..|letters| - 1]) + if 0 <= last.y <= 192 then [last] else []
  }

  function AtTop(letters: seq<Letter>): set<nat> {
    set i: nat | i < |letters| && letters[i].y < 0
  }

  function AtBottom(letters: seq<Letter>): set<nat> {
    set i: nat | i < |letters| && letters[i].y > 192
  }

  /** The screen after frame n; every tenth frame brings a letter, whose key counts as released. */
  function NextScreen(screen: Screen, n: nat, input: Input): (r: Screen)
    requires HaveTexts(screen.letters) && |input.keys| == 26
    ensures HaveTexts(r.letters)
  {
    hide HaveTexts, Struck, KeysLeft, Born, WithBorn, Moved, OnScreen;
    var keys := KeysLeft(screen.letters, input.keys);
    var all := Moved(WithBorn(Struck(screen.letters, input.keys), n, input));
    Screen(OnScreen(all), if n % 10 == 0 then keys[Born(input).text := false] else keys,
           screen.hit + |AtTop(all)|, screen.miss + |AtBottom(all)|)
  }

  function ScreenAfter(inputs: seq<Input>): (r: Screen)
    requires HaveKeys(inputs)
    ensures HaveTexts(r.letters)
  {
    if inputs == [] then Screen([], seq(26, _ => false), 0, 0)
    else
      var last := |inputs| - 1;
      NextScreen(ScreenAfter(inputs[..last]), |inputs|, inputs[last])
  }

  /** The number of letters that have been struck in all frames. */
  function Strikes(inputs: seq<Input>): nat
    requires HaveKeys(inputs)
  {
    if inputs == [] then 0
    else
      var last := |inputs| - 1;
      Strikes(inputs[..last]) + |StruckIn(ScreenAfter(inputs[..last]).letters, inputs[last].keys)|
  }

  function StruckIn(letters: seq<Letter>, keys: seq<bool>): set<nat>
    requires HaveTexts(letters) && |keys| == 26
  {
    set i: nat | i < |letters| && IsStruck(letters, keys, i)
  }

  /** A letter in front of the others that stays changes neither number. */
  lemma {:induction false} CountsInFront(first: Letter, letters: seq<Letter>)
    requires 0 <= first.y <= 192
    ensures |AtTop([first] + letters)| == |AtTop(letters)| && |AtBottom([first] + letters)| == |AtBottom(letters)|
  {
    if letters == [] {
      NoneLeaves([first]);
      NoneLeaves([]);
    } else {
      var last := |letters| - 1;
      CountsInFront(first, letters[..last]);
      CountsAppended(letters[..last], letters[last]);
      CountsAppended([first] + letters[..last], letters[last]);
      assert ([first] + letters[..last]) + [letters[last]] == [first] + letters;
      assert letters[..last] + [letters[last]] == letters;
    }
  }

  lemma TopAppended(letters: seq<Letter>, last: Letter)
    ensures AtTop(letters + [last]) == if last.y < 0 then AtTop(letters) + {|letters|} else AtTop(letters)
    ensures |letters| !in AtTop(letters)
  {
    var all := letters + [last];
    assert forall i | 0 <= i < |letters| :: all[i] == letters[i];
  }

  lemma BottomAppended(letters: seq<Letter>, last: Letter)
    ensures AtBottom(letters + [last]) == if last.y > 192 then AtBottom(letters) + {|letters|} else AtBottom(letters)
    ensures |letters| !in AtBottom(letters)
  {
    var all := letters + [last];
    assert forall i | 0 <= i < |letters| :: all[i] == letters[i];
  }

  lemma CountsAppended(letters: seq<Letter>, last: Letter)
    ensures |AtTop(letters + [last])| == |AtTop(letters)| + if last.y < 0 then 1 else 0
    ensures |AtBottom(letters + [last])| == |AtBottom(letters)| + if last.y > 192 then 1 else 0
  {
    hide AtTop, AtBottom;
    TopAppended(letters, last);
    BottomAppended(letters, last);
  }

  // ---------- one update at a time ----------

  /** Some letters have been struck: those whose key is no longer down. */
  ghost predicate IsPartlyStruck(before: seq<Letter>, keys: seq<bool>, now: seq<Letter>, left: seq<bool>)
    requires HaveTexts(before) && |keys| == |left| == 26
  {
    && |now| == |before|
    && (forall c | 0 <= c < 26 :: if left[c] then keys[c] else keys[c] ==> HasFalling(before, c))
    && forall i | 0 <= i < |before| ::
         now[i] == if IsStruck(before, keys, i) && !left[before[i].text] then before[i].(v := -3) else before[i]
  }

  predicate CanBeStruck(letters: seq<Letter>, keys: seq<bool>, i: nat)
    requires HaveTexts(letters) && |keys| == 26 && i < |letters|
  {
    letters[i].v > 0 && keys[letters[i].text]
  }

  /** The first of the lowest letters that can be struck. */
  ghost predicate IsNextAim(letters: seq<Letter>, keys: seq<bool>, k: nat)
    requires HaveTexts(letters) && |keys| == 26 && k < |letters|
  {
    && CanBeStruck(letters, keys, k)
    && forall i | 0 <= i < |letters| && CanBeStruck(letters, keys, i) ::
         letters[i].y < letters[k].y || (letters[i].y == letters[k].y && k <= i)
  }

  lemma StrikingStarts(before: seq<Letter>, keys: seq<bool>)
    requires HaveTexts(before) && |keys| == 26
    ensures IsPartlyStruck(before, keys, before, keys)
  {
  }

  /** The lowest letter of all that can be struck is the one that its own key is to strike. */
  lemma NextAimIsStruck(before: seq<Letter>, keys: seq<bool>, now: seq<Letter>, left: seq<bool>, k: nat)
    requires HaveTexts(before) && HaveTexts(now) && |keys| == |left| == 26
    requires IsPartlyStruck(before, keys, now, left) && k < |now| && IsNextAim(now, left, k)
    ensures IsStruck(before, keys, k) && now[k] == before[k]
  {
    forall j | 0 <= j < |before| && before[j].v > 0 && before[j].text == before[k].text
      ensures before[j].y < before[k].y || (before[j].y == before[k].y && k <= j)
    {
      assert CanBeStruck(now, left, j);
    }
  }

  lemma StrikingContinues(before: seq<Letter>, keys: seq<bool>, now: seq<Letter>, left: seq<bool>, k: nat)
    requires HaveTexts(before) && HaveTexts(now) && |keys| == |left| == 26
    requires IsPartlyStruck(before, keys, now, left) && k < |now| && IsNextAim(now, left, k)
    ensures IsPartlyStruck(before, keys, now[k := now[k].(v := -3)], left[now[k].text := false])
    ensures |Changed(before, now[k := now[k].(v := -3)])| == |Changed(before, now)| + 1
  {
    NextAimIsStruck(before, keys, now, left, k);
    var now', left' := now[k := now[k].(v := -3)], left[now[k].text := false];
    forall i | 0 <= i < |before|
      ensures now'[i] == if IsStruck(before, keys, i) && !left'[before[i].text] then before[i].(v := -3) else before[i]
    {
      if i != k && before[i].text == before[k].text {
        assert !IsStruck(before, keys, i);
      }
    }
    assert Changed(before, now') == Changed(before, now) + {k};
  }

  lemma NoneChanged(letters: seq<Letter>)
    ensures Changed(letters, letters) == {}
  {
  }

  function Changed(before: seq<Letter>, now: seq<Letter>): set<nat>
    requires |before| == |now|
  {
    set i: nat | i < |before| && before[i] != now[i]
  }

  lemma StrikingEnds(before: seq<Letter>, keys: seq<bool>, now: seq<Letter>, left: seq<bool>)
    requires HaveTexts(before) && HaveTexts(now) && |keys| == |left| == 26
    requires IsPartlyStruck(before, keys, now, left)
    requires forall i | 0 <= i < |now| :: !CanBeStruck(now, left, i)
    ensures now == Struck(before, keys) && left == KeysLeft(before, keys)
    ensures Changed(before, now) == StruckIn(before, keys)
  {
    forall i | 0 <= i < |before|
      ensures now[i] == Struck(before, keys)[i]
    {
      if IsStruck(before, keys, i) && left[before[i].text] {
        assert CanBeStruck(now, left, i);
      }
    }
    forall c | 0 <= c < 26
      ensures left[c] == KeysLeft(before, keys)[c]
    {
      if left[c] && HasFalling(before, c) {
        var i :| 0 <= i < |before| && before[i].v > 0 && before[i].text == c;
        assert now[i] == before[i] && CanBeStruck(now, left, i);
      }
    }
  }

  // ---------- what the player sees ----------

  /** One frame for the letters ls: the first of the lowest falling letters of every key that is down rises from now
      on, and every letter moves by its speed.
   */
  ghost predicate AreFlying(ls: seq<Letter>, keys: seq<bool>, now: seq<Letter>)
    requires HaveTexts(ls) && |keys| == 26
  {
    && |now| == |ls|
    && forall i | 0 <= i < |ls| ::
         && now[i].y == ls[i].y + now[i].v && now[i].x == ls[i].x && now[i].text == ls[i].text
         && now[i].v == if ls[i].v > 0 && keys[ls[i].text] &&
                           (forall j | 0 <= j < |ls| && ls[j].v > 0 && ls[j].text == ls[i].text ::
                              ls[j].y < ls[i].y || (ls[j].y == ls[i].y && i <= j)) then -3 else ls[i].v
  }

  lemma EachLetterFlies(ls: seq<Letter>, keys: seq<bool>)
    requires HaveTexts(ls) && |keys| == 26
    ensures AreFlying(ls, keys, Moved(Struck(ls, keys)))
  {
    var now := Moved(Struck(ls, keys));
    forall i | 0 <= i < |ls|
      ensures now[i].v == if IsStruck(ls, keys, i) then -3 else ls[i].v
    {
    }
  }

  /** Of two letters with one text the lower one is struck; letters with other texts are struck by other keys. */
  lemma OneOfTwo(a: Letter, b: Letter, keys: seq<bool>)
    requires HaveTexts([a, b]) && |keys| == 26 && a.v == b.v == 1 && a.y < b.y
    ensures (Struck([a, b], keys)[1].v == -3) == keys[b.text]
    ensures (Struck([a, b], keys)[0].v == -3) == (keys[a.text] && a.text != b.text)
  {
    var ls := [a, b];
    assert IsAim(ls, 1) && (ls[0].text == ls[1].text ==> !IsAim(ls, 0));
  }

  lemma {:induction false} AllOnScreen(letters: seq<Letter>)
    requires forall i | 0 <= i < |letters| :: 0 <= letters[i].y <= 192
    ensures OnScreen(letters) == letters
  {
    if letters != [] {
      AllOnScreen(letters[..|letters| - 1]);
    }
  }

  lemma NoKeyNoStrike(letters: seq<Letter>, keys: seq<bool>)
    requires HaveTexts(letters) && |keys| == 26
    requires forall i | 0 <= i < |letters| :: !keys[letters[i].text]
    ensures Struck(letters, keys) == letters
  {
  }

  /** The letter of frame n, d updates after its first. */
  function Falling(input: Input, d: nat): Letter {
    Letter(8 + 8 * (input.r1 % 38), 1 + d, 1, input.r3 % 26)
  }

  /** The letters of an idle screen, one for every tenth frame; r frames have passed since the last of q came. */
  ghost predicate AreFalling(letters: seq<Letter>, inputs: seq<Input>, q: nat, r: nat)
    requires |inputs| == 10 * q + r
  {
    && |letters| <= q
    && forall i | 0 <= i < |letters| :: letters[i] == Falling(inputs[10 * (q - i) - 1], r + 10 * i)
  }

  /** Nobody plays: a letter is on the screen for 192 frames and lost after that. */
  ghost predicate IsIdle(screen: Screen, inputs: seq<Input>) {
    var q, r, k := |inputs| / 10, |inputs| % 10, |screen.letters|;
    && k == (if q <= 19 then q else if r <= 1 then 20 else 19)
    && screen.hit == 0 && screen.miss == q - k && AreFalling(screen.letters, inputs, q, r)
  }

  lemma {:induction false} NobodyPlays(inputs: seq<Input>)
    requires HaveKeys(inputs) && forall i, c | 0 <= i < |inputs| && 0 <= c < 26 :: !inputs[i].keys[c]
    ensures IsIdle(ScreenAfter(inputs), inputs)
  {
    if inputs != [] {
      var last := |inputs| - 1;
      NobodyPlays(inputs[..last]);
      IdleContinues(ScreenAfter(inputs[..last]), inputs);
    }
  }

  lemma FramesBefore(n: nat)
    requires n > 0
    ensures if n % 10 == 0 then (n - 1) / 10 == n / 10 - 1 && (n - 1) % 10 == 9
            else (n - 1) / 10 == n / 10 && (n - 1) % 10 == n % 10 - 1
  {
  }

  lemma FallsOn(input: Input, d: nat)
    ensures var letter := Falling(input, d); letter.(y := letter.y + letter.v) == Falling(input, d + 1)
    ensures var letter := Born(input); letter.(y := letter.y + letter.v) == Falling(input, 0)
  {
  }

  lemma FallingWithBorn(letters: seq<Letter>, inputs: seq<Input>, q: nat)
    requires |inputs| == 10 * q && q > 0 && AreFalling(letters, inputs[..|inputs| - 1], q - 1, 9)
    ensures AreFalling(Moved([Born(inputs[|inputs| - 1])] + letters), inputs, q, 0)
  {
    hide Falling, Born;
    var all := Moved([Born(inputs[|inputs| - 1])] + letters);
    forall i | 0 <= i < |all|
      ensures all[i] == Falling(inputs[10 * (q - i) - 1], 10 * i)
    {
      if i > 0 {
        assert letters[i - 1] == Falling(inputs[10 * (q - i) - 1], 10 * i - 1);
        FallsOn(inputs[10 * (q - i) - 1], 10 * i - 1);
      } else {
        FallsOn(inputs[|inputs| - 1], 0);
      }
    }
  }

  lemma FallingWithoutBorn(letters: seq<Letter>, inputs: seq<Input>, q: nat, r: nat)
    requires |inputs| == 10 * q + r && 0 < r < 10 && AreFalling(letters, inputs[..|inputs| - 1], q, r - 1)
    ensures AreFalling(Moved(letters), inputs, q, r)
  {
    hide Falling;
    var all := Moved(letters);
    forall i | 0 <= i < |all|
      ensures all[i] == Falling(inputs[10 * (q - i) - 1], r + 10 * i)
    {
      FallsOn(inputs[10 * (q - i) - 1], r - 1 + 10 * i);
    }
  }

  /** Of the falling letters at most the twentieth, in frame 2 of 10, is lost. */
  lemma NoneLeaves(letters: seq<Letter>)
    requires forall i | 0 <= i < |letters| :: 0 <= letters[i].y <= 192
    ensures OnScreen(letters) == letters && AtTop(letters) == {} && AtBottom(letters) == {}
  {
    hide OnScreen;
    AllOnScreen(letters);
  }

  lemma LastLeaves(letters: seq<Letter>, last: nat)
    requires |letters| == last + 1 && letters[last].y > 192
    requires forall i | 0 <= i < last :: 0 <= letters[i].y <= 192
    ensures OnScreen(letters) == letters[..last] && AtTop(letters) == {} && AtBottom(letters) == {last}
  {
    hide OnScreen;
    OnScreenWithout(letters);
    AllOnScreen(letters[..last]);
  }

  lemma OnScreenWithout(letters: seq<Letter>)
    requires letters != [] && letters[|letters| - 1].y > 192
    ensures OnScreen(letters) == OnScreen(letters[..|letters| - 1])
  {
  }

  lemma FallingOnScreen(letters: seq<Letter>, r: nat)
    requires |letters| <= 20 && r < 10 && forall i | 0 <= i < |letters| :: letters[i].y == 1 + r + 10 * i
    ensures AtTop(letters) == {}
    ensures if r >= 2 && |letters| == 20 then OnScreen(letters) == letters[..19] && AtBottom(letters) == {19}
            else OnScreen(letters) == letters && AtBottom(letters) == {}
  {
    hide OnScreen, AtTop, AtBottom;
    if r >= 2 && |letters| == 20 {
      LastLeaves(letters, 19);
    } else {
      NoneLeaves(letters);
    }
  }

  lemma FallingAre(letters: seq<Letter>, inputs: seq<Input>, q: nat, r: nat)
    requires |inputs| == 10 * q + r && AreFalling(letters, inputs, q, r)
    ensures forall i | 0 <= i < |letters| :: letters[i].y == 1 + r + 10 * i
  {
  }

  /** A frame of an idle screen, before letters leave. */
  lemma FallingContinues(letters: seq<Letter>, inputs: seq<Input>)
    requires inputs != []
    requires AreFalling(letters, inputs[..|inputs| - 1], (|inputs| - 1) / 10, (|inputs| - 1) % 10)
    ensures var all := Moved(WithBorn(letters, |inputs|, inputs[|inputs| - 1]));
            && AreFalling(all, inputs, |inputs| / 10, |inputs| % 10)
            && |all| == |letters| + if |inputs| % 10 == 0 then 1 else 0
  {
    hide AreFalling, Falling, Born, Moved;
    var n := |inputs|;
    FramesBefore(n);
    MovedLength(letters, n, inputs[n - 1]);
    if n % 10 == 0 {
      FallingWithBorn(letters, inputs, n / 10);
    } else {
      FallingWithoutBorn(letters, inputs, n / 10, n % 10);
    }
  }

  /** What such a frame leaves on the screen. */
  lemma IdleLeaves(letters: seq<Letter>, inputs: seq<Input>)
    requires AreFalling(letters, inputs, |inputs| / 10, |inputs| % 10) && |letters| <= 20
    ensures |AtTop(letters)| == 0
    ensures if |inputs| % 10 >= 2 && |letters| == 20 then |OnScreen(letters)| == 19 && |AtBottom(letters)| == 1
            else |OnScreen(letters)| == |letters| && |AtBottom(letters)| == 0
    ensures AreFalling(OnScreen(letters), inputs, |inputs| / 10, |inputs| % 10)
  {
    hide OnScreen, AtTop, AtBottom;
    FallingAre(letters, inputs, |inputs| / 10, |inputs| % 10);
    FallingOnScreen(letters, |inputs| % 10);
  }

  lemma IdleContinues(screen: Screen, inputs: seq<Input>)
    requires HaveKeys(inputs) && inputs != [] && HaveTexts(screen.letters)
    requires IsIdle(screen, inputs[..|inputs| - 1])
    requires forall i, c | 0 <= i < |inputs| && 0 <= c < 26 :: !inputs[i].keys[c]
    ensures IsIdle(NextScreen(screen, |inputs|, inputs[|inputs| - 1]), inputs)
  {
    hide AreFalling, Moved, WithBorn, Struck, KeysLeft, OnScreen, AtTop, AtBottom;
    var n, input := |inputs|, inputs[|inputs| - 1];
    NoKeyNoStrike(screen.letters, input.keys);
    FallingContinues(screen.letters, inputs);
    FramesBefore(n);
    IdleLeaves(Moved(WithBorn(screen.letters, n, input)), inputs);
  }

  lemma MovedLength(letters: seq<Letter>, n: nat, input: Input)
    ensures |Moved(WithBorn(letters, n, input))| == |letters| + if n % 10 == 0 then 1 else 0
  {
  }

  lemma MovedOnScreen(letters: seq<Letter>)
    requires forall i | 0 <= i < |letters| :: 0 <= letters[i].y + letters[i].v <= 192
    ensures OnScreen(Moved(letters)) == Moved(letters) && |AtTop(Moved(letters))| == |AtBottom(Moved(letters))| == 0
  {
    var all := Moved(letters);
    hide Moved;
    assert forall i | 0 <= i < |all| :: 0 <= all[i].y <= 192;
    hide OnScreen, AtTop, AtBottom;
    NoneLeaves(all);
  }

  lemma EmptyFrame(screen: Screen, n: nat, input: Input)
    requires screen.letters == [] && |input.keys| == 26
    ensures var next := NextScreen(screen, n, input);
            && next.letters == (if n % 10 == 0 then [Falling(input, 0)] else [])
            && next.hit == screen.hit && next.miss == screen.miss
  {
    hide KeysLeft, Moved, OnScreen, AtTop, AtBottom;
    NoKeyNoStrike([], input.keys);
    MovedOnScreen(WithBorn([], n, input));
    MovedOne(Born(input));
  }

  lemma {:induction false} EmptyAtFirst(inputs: seq<Input>)
    requires HaveKeys(inputs) && |inputs| <= 10
    ensures ScreenAfter(inputs).letters == if |inputs| < 10 then [] else [Falling(inputs[9], 0)]
    ensures ScreenAfter(inputs).hit == ScreenAfter(inputs).miss == 0
  {
    hide NextScreen, Falling;
    if inputs != [] {
      EmptyAtFirst(inputs[..|inputs| - 1]);
      EmptyFrame(ScreenAfter(inputs[..|inputs| - 1]), |inputs|, inputs[|inputs| - 1]);
    }
  }

  lemma HitIsGone(letter: Letter)
    requires letter.y + letter.v < 0
    ensures OnScreen(Moved([letter])) == [] && |AtTop(Moved([letter]))| == 1 && |AtBottom(Moved([letter]))| == 0
  {
    var all := Moved([letter]);
    assert AtTop(all) == {0} && AtBottom(all) == {} && all[..0] == [];
  }

  /** The first letter comes in frame 10; if its key is down in the next frame, and only then, it leaves as a hit. */
  lemma FirstHit(inputs: seq<Input>)
    requires HaveKeys(inputs) && |inputs| == 11
    ensures var screen := ScreenAfter(inputs);
            if inputs[10].keys[inputs[9].r3 % 26] then screen.letters == [] && screen.hit == 1 && screen.miss == 0
            else screen.letters == [Falling(inputs[9], 1)] && screen.hit == screen.miss == 0
  {
    hide KeysLeft, Moved, OnScreen, AtTop, AtBottom;
    EmptyAtFirst(inputs[..10]);
    var letter, keys := Falling(inputs[9], 0), inputs[10].keys;
    if keys[letter.text] {
      assert IsStruck([letter], keys, 0);
      assert Struck([letter], keys) == [letter.(v := -3)];
      HitIsGone(letter.(v := -3));
    } else {
      NoKeyNoStrike([letter], keys);
      MovedOnScreen([letter]);
      MovedOne(letter);
    }
  }

  lemma MovedOne(letter: Letter)
    ensures Moved([letter]) == [letter.(y := letter.y + letter.v)]
  {
  }
}
