/**
 * What the typewriter does over whole words: typing a word up, holding it,
 * deleting it, and moving on to the next word in the list.
 */
module TypewriterCycle {
  import opened TypewriterMachine

  /** k events of the same kind. */
  function Repeat(e: Event, k: nat): (evs: seq<Event>)
    ensures |evs| == k
    ensures forall j :: 0 <= j < k ==> evs[j] == e
  {
    if k == 0 then [] else [e] + Repeat(e, k - 1)
  }

  /**
   * The events the host delivers for one word while the page around the
   * component does not re-render, in the order it delivers them:
   * one tick per character typed, one more tick that finds the word complete
   * and arms the dwell timer, the dwell expiry, one tick per character
   * deleted, and one more tick that finds the text empty.
   */
  function CycleEvents(word: string): (evs: seq<Event>)
    ensures |evs| == 2 * |word| + 3
    ensures evs[|word| + 1] == DwellTimeout
    ensures forall j :: 0 <= j < |evs| && j != |word| + 1 ==> evs[j] == TimerTick
  {
    Repeat(TimerTick, |word| + 1) + [DwellTimeout] + Repeat(TimerTick, |word| + 1)
  }

  /** The events of m consecutive cycles, the first one on word i. */
  function Rounds(words: seq<string>, i: int, m: nat): seq<Event>
    requires 0 <= i < |words|
    decreases m
  {
    if m == 0 then []
    else CycleEvents(words[i]) + Rounds(words, (i + 1) % |words|, m - 1)
  }

  /** Delivering a + b is delivering a, then b. */
  lemma {:induction false} RunAppend(words: seq<string>, s: State, a: seq<Event>, b: seq<Event>)
    requires 0 <= s.index < |words|
    ensures Run(words, s, a + b) == Run(words, Run(words, s, a), b)
    decreases |a|
  {
    if a != [] {
      assert (a + b)[0] == a[0];
      assert (a + b)[1..] == a[1..] + b;
      RunAppend(words, Step(words, s, a[0]), a[1..], b);
    } else {
      assert a + b == b;
    }
  }

  /** The time to deliver a + b is the time for a plus the time for b after it. */
  lemma {:induction false} DurationAppend(words: seq<string>, s: State, a: seq<Event>, b: seq<Event>)
    requires 0 <= s.index < |words|
    ensures Duration(words, s, a + b) == Duration(words, s, a) + Duration(words, Run(words, s, a), b)
    decreases |a|
  {
    if a != [] {
      assert (a + b)[0] == a[0];
      assert (a + b)[1..] == a[1..] + b;
      DurationAppend(words, Step(words, s, a[0]), a[1..], b);
    } else {
      assert a + b == b;
    }
  }

  /** Each typing tick shows one more character of the active word, until it is complete. */
  lemma {:induction false} TypeUp(words: seq<string>, i: int, j: nat, k: nat)
    requires 0 <= i < |words| && j + k <= |words[i]|
    ensures Run(words, State(i, words[i][..j], false), Repeat(TimerTick, k))
         == State(i, words[i][..j + k], false)
    ensures Duration(words, State(i, words[i][..j], false), Repeat(TimerTick, k)) == k * TypingDelay
    decreases k
  {
    if k > 0 {
      var s := State(i, words[i][..j], false);
      assert Step(words, s, TimerTick) == State(i, words[i][..j + 1], false);
      assert Repeat(TimerTick, k)[1..] == Repeat(TimerTick, k - 1);
      TypeUp(words, i, j + 1, k - 1);
    }
  }

  /**
   * Once the word is complete and not deleting, ticks change nothing:
   * only the dwell timer can move the machine on.
   */
  lemma {:induction false} HoldsUntilDwell(words: seq<string>, i: int, k: nat)
    requires 0 <= i < |words|
    ensures Run(words, State(i, words[i], false), Repeat(TimerTick, k)) == State(i, words[i], false)
    ensures Duration(words, State(i, words[i], false), Repeat(TimerTick, k)) == k * TypingDelay
    decreases k
  {
    if k > 0 {
      assert Repeat(TimerTick, k)[1..] == Repeat(TimerTick, k - 1);
      HoldsUntilDwell(words, i, k - 1);
    }
  }

  /** Each deleting tick removes the last character, down to the empty text. */
  lemma {:induction false} DeleteDown(words: seq<string>, i: int, j: nat, k: nat)
    requires 0 <= i < |words| && k <= j <= |words[i]|
    ensures Run(words, State(i, words[i][..j], true), Repeat(TimerTick, k))
         == State(i, words[i][..j - k], true)
    ensures Duration(words, State(i, words[i][..j], true), Repeat(TimerTick, k)) == k * DeletingDelay
    decreases k
  {
    if k > 0 {
      var s := State(i, words[i][..j], true);
      assert words[i][..j][..j - 1] == words[i][..j - 1];
      assert Step(words, s, TimerTick) == State(i, words[i][..j - 1], true);
      assert Repeat(TimerTick, k)[1..] == Repeat(TimerTick, k - 1);
      DeleteDown(words, i, j - 1, k - 1);
    }
  }

  /** Typing phase: |w| ticks type the word and one more finds it complete. */
  lemma TypingPhase(words: seq<string>, i: int)
    requires 0 <= i < |words|
    ensures Run(words, State(i, "", false), Repeat(TimerTick, |words[i]| + 1))
         == State(i, words[i], false)
    ensures Duration(words, State(i, "", false), Repeat(TimerTick, |words[i]| + 1))
         == (|words[i]| + 1) * TypingDelay
  {
    var w := words[i];
    var n := |w|;
    var s0 := State(i, "", false);
    assert w[..0] == "" && w[..n] == w;
    assert Repeat(TimerTick, n + 1) == Repeat(TimerTick, n) + Repeat(TimerTick, 1);
    RunAppend(words, s0, Repeat(TimerTick, n), Repeat(TimerTick, 1));
    DurationAppend(words, s0, Repeat(TimerTick, n), Repeat(TimerTick, 1));
    TypeUp(words, i, 0, n);
    HoldsUntilDwell(words, i, 1);
  }

  /** Deleting phase: |w| ticks delete the word and one more moves on to the next word. */
  lemma DeletingPhase(words: seq<string>, i: int)
    requires 0 <= i < |words|
    ensures Run(words, State(i, words[i], true), Repeat(TimerTick, |words[i]| + 1))
         == State((i + 1) % |words|, "", false)
    ensures Duration(words, State(i, words[i], true), Repeat(TimerTick, |words[i]| + 1))
         == (|words[i]| + 1) * DeletingDelay
  {
    var w := words[i];
    var n := |w|;
    var s2 := State(i, w, true);
    assert w[..n] == w && w[..0] == "";
    assert Repeat(TimerTick, n + 1) == Repeat(TimerTick, n) + Repeat(TimerTick, 1);
    RunAppend(words, s2, Repeat(TimerTick, n), Repeat(TimerTick, 1));
    DurationAppend(words, s2, Repeat(TimerTick, n), Repeat(TimerTick, 1));
    DeleteDown(words, i, n, n);
    var s3 := State(i, "", true);
    assert Repeat(TimerTick, 1)[1..] == [];
    assert Run(words, s3, Repeat(TimerTick, 1)) == State((i + 1) % |words|, "", false);
    assert Duration(words, s3, Repeat(TimerTick, 1)) == DeletingDelay;
  }

  /**
   * One cycle on word i ends with empty text, not deleting, on the next word,
   * and takes one typing and one deleting delay per character (plus one each
   * for the ticks that find the word complete and the text empty) and the dwell.
   */
  lemma OneCycle(words: seq<string>, i: int)
    requires 0 <= i < |words|
    ensures Run(words, State(i, "", false), CycleEvents(words[i]))
         == State((i + 1) % |words|, "", false)
    ensures Duration(words, State(i, "", false), CycleEvents(words[i]))
         == (|words[i]| + 1) * (TypingDelay + DeletingDelay) + DwellDelay
  {
    var w := words[i];
    var s0 := State(i, "", false);
    var s1 := State(i, w, false);
    var typing := Repeat(TimerTick, |w| + 1);
    TypingPhase(words, i);
    DeletingPhase(words, i);
    assert Run(words, s1, [DwellTimeout]) == State(i, w, true);
    assert Duration(words, s1, [DwellTimeout]) == DwellDelay;
    RunAppend(words, s0, typing, [DwellTimeout]);
    DurationAppend(words, s0, typing, [DwellTimeout]);
    RunAppend(words, s0, typing + [DwellTimeout], typing);
    DurationAppend(words, s0, typing + [DwellTimeout], typing);
  }

  /**
   * A dwell timer left over from an earlier word (the timer is never cleared,
   * and a re-run effect can arm it more than once) that fires while word i is
   * only partly typed starts deletion there: j + 1 ticks later the machine is
   * on the next word, so word i was never shown in full.
   */
  lemma StrayDwell(words: seq<string>, i: int, j: nat)
    requires 0 <= i < |words| && j <= |words[i]|
    ensures Run(words, State(i, words[i][..j], false), [DwellTimeout] + Repeat(TimerTick, j + 1))
         == State((i + 1) % |words|, "", false)
  {
    var w := words[i];
    var s0 := State(i, w[..j], false);
    var s1 := State(i, w[..j], true);
    assert Run(words, s0, [DwellTimeout]) == s1;
    RunAppend(words, s0, [DwellTimeout], Repeat(TimerTick, j + 1));
    assert Repeat(TimerTick, j + 1) == Repeat(TimerTick, j) + Repeat(TimerTick, 1);
    RunAppend(words, s1, Repeat(TimerTick, j), Repeat(TimerTick, 1));
    DeleteDown(words, i, j, j);
    assert w[..0] == "";
    assert Repeat(TimerTick, 1)[1..] == [];
    assert Run(words, State(i, "", true), Repeat(TimerTick, 1)) == State((i + 1) % |words|, "", false);
  }

  /** Adding the modulus does not change a remainder. */
  lemma ModShift(x: int, n: int)
    requires 0 <= x && 0 < n
    ensures (x + n) % n == x % n
  {
    var q, r := x / n, x % n;
    assert x + n == (q + 1) * n + r;
    ModUnique(x + n, n, q + 1, r);
  }

  /** A quotient and remainder in range are the ones `/` and `%` give. */
  lemma ModUnique(x: int, n: int, q: int, r: int)
    requires 0 < n && 0 <= r < n && x == q * n + r
    ensures x % n == r
  {
    var q', r' := x / n, x % n;
    assert x == q' * n + r';
    assert q * n - q' * n == r' - r;
    assert (q - q') * n == q * n - q' * n;
    if q > q' {
      MulGrows(q - q', n);
    } else if q < q' {
      MulGrows(q' - q, n);
    }
  }

  /** A positive multiple of n is at least n. */
  lemma MulGrows(d: int, n: int)
    requires d >= 1 && n > 0
    ensures d * n >= n
  {
  }

  /** Stepping to the next index and then m further is stepping m + 1 from the start. */
  lemma ModSuccessor(i: int, n: int, m: nat)
    requires 0 <= i < n
    ensures ((i + 1) % n + m) % n == (i + 1 + m) % n
  {
    if i + 1 == n {
      ModUnique(i + 1, n, 1, 0);
      ModShift(m, n);
    } else {
      ModUnique(i + 1, n, 0, i + 1);
    }
  }

  /** m cycles starting on word i end on word (i + m) mod |words|, empty and not deleting. */
  lemma {:induction false} ManyCycles(words: seq<string>, i: int, m: nat)
    requires 0 <= i < |words|
    ensures Run(words, State(i, "", false), Rounds(words, i, m))
         == State((i + m) % |words|, "", false)
    decreases m
  {
    if m == 0 {
      ModUnique(i, |words|, 0, i);
    } else {
      var next := (i + 1) % |words|;
      RunAppend(words, State(i, "", false), CycleEvents(words[i]), Rounds(words, next, m - 1));
      OneCycle(words, i);
      ManyCycles(words, next, m - 1);
      ModSuccessor(i, |words|, m - 1);
    }
  }

  /** After one cycle per word the machine is back where it started. */
  lemma FullRound(words: seq<string>, i: int)
    requires 0 <= i < |words|
    ensures Run(words, State(i, "", false), Rounds(words, i, |words|)) == State(i, "", false)
  {
    var n := |words|;
    assert (i + n) % n == i by {
      ModShift(i, n);
      ModUnique(i, n, 0, i);
    }
    ManyCycles(words, i, n);
  }

  /** With a single word, the index never leaves 0, whatever events arrive. */
  lemma SingleWordStays(words: seq<string>, s: State, evs: seq<Event>)
    requires |words| == 1 && s.index == 0
    ensures Run(words, s, evs).index == 0
  {
  }

  /**
   * The two-word example ["Engineer.", "Builder."]: nine ticks type the first
   * word, the tenth finds it complete, the dwell starts deletion, nine ticks
   * empty the text while the index is still 0, and the next tick moves to word 1.
   */
  lemma EngineerBuilder(words: seq<string>)
    requires words == ["Engineer.", "Builder."]
    ensures Run(words, Initial(), Repeat(TimerTick, 9)) == State(0, "Engineer.", false)
    ensures Run(words, Initial(), Repeat(TimerTick, 10) + [DwellTimeout]) == State(0, "Engineer.", true)
    ensures Run(words, Initial(), Repeat(TimerTick, 10) + [DwellTimeout] + Repeat(TimerTick, 9))
         == State(0, "", true)
    ensures Run(words, Initial(), Repeat(TimerTick, 10) + [DwellTimeout] + Repeat(TimerTick, 10))
         == State(1, "", false)
  {
    var w := words[0];
    assert w[..0] == "" && w[..9] == w;
    TypeUp(words, 0, 0, 9);
    assert Repeat(TimerTick, 10) == Repeat(TimerTick, 9) + Repeat(TimerTick, 1);
    RunAppend(words, Initial(), Repeat(TimerTick, 9), Repeat(TimerTick, 1));
    HoldsUntilDwell(words, 0, 1);
    var typed := Repeat(TimerTick, 10) + [DwellTimeout];
    RunAppend(words, Initial(), Repeat(TimerTick, 10), [DwellTimeout]);
    assert Run(words, State(0, w, false), [DwellTimeout]) == State(0, w, true);
    RunAppend(words, Initial(), typed, Repeat(TimerTick, 9));
    DeleteDown(words, 0, 9, 9);
    OneCycle(words, 0);
  }
}
