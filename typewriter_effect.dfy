/**
 * The typewriter component as an object: its three state fields, updated in
 * place by the per-character timer and by the dwell timer, over a word list
 * fixed when the component mounts.
 */
module TypewriterComponent {
  import opened TypewriterMachine

  class TypewriterEffect {
    const words: seq<string>
    var currentWordIndex: int
    var currentText: string
    var isDeleting: bool

    /** The fields as a value of the state machine. */
    function Snapshot(): State
      reads this
    {
      State(currentWordIndex, currentText, isDeleting)
    }

    /** The word list is non-empty, the index names a word and the text is a prefix of it. */
    ghost predicate Valid()
      reads this
    {
      Inv(words, Snapshot())
    }

    /** Mounting: first word, nothing shown, typing. */
    constructor (words: seq<string>)
      requires |words| > 0
      ensures Valid()
      ensures this.words == words
      ensures currentWordIndex == 0 && currentText == "" && !isDeleting
      ensures Snapshot() == Initial()
    {
      this.words := words;
      currentWordIndex := 0;
      currentText := "";
      isDeleting := false;
    }

    /** The per-character timer firing. */
    method Tick()
      requires Valid()
      modifies this
      ensures Valid()
      ensures Snapshot() == Step(words, old(Snapshot()), TimerTick)
      // typing a character: the text grows by the next character of the word
      ensures !old(isDeleting) && |old(currentText)| < |words[old(currentWordIndex)]| ==>
                currentText == words[currentWordIndex][..|old(currentText)| + 1]
                && |currentText| == |old(currentText)| + 1
                && currentWordIndex == old(currentWordIndex) && !isDeleting
      // the word is complete: nothing changes until the dwell timer expires
      ensures !old(isDeleting) && |old(currentText)| == |words[old(currentWordIndex)]| ==>
                currentText == old(currentText) == words[currentWordIndex]
                && currentWordIndex == old(currentWordIndex) && !isDeleting
      // deleting a character: exactly the last one goes
      ensures old(isDeleting) && old(currentText) != "" ==>
                old(currentText) == currentText + [old(currentText)[|old(currentText)| - 1]]
                && currentWordIndex == old(currentWordIndex) && isDeleting
      // deleted down to nothing: typing starts on the next word, wrapping round
      ensures old(isDeleting) && old(currentText) == "" ==>
                currentText == "" && !isDeleting
                && currentWordIndex == (old(currentWordIndex) + 1) % |words|
    {
      var currentWord := words[currentWordIndex];
      if !isDeleting {
        if |currentText| < |currentWord| {
          currentText := currentWord[..|currentText| + 1];
        }
        // else: the dwell timer is armed; see DwellElapsed
      } else {
        if |currentText| > 0 {
          currentText := currentText[..|currentText| - 1];
        } else {
          isDeleting := false;
          currentWordIndex := (currentWordIndex + 1) % |words|;
        }
      }
    }

    /** The dwell timer expiring: deletion starts and the shown text stays. */
    method DwellElapsed()
      requires Valid()
      modifies this
      ensures Valid()
      ensures Snapshot() == Step(words, old(Snapshot()), DwellTimeout)
      ensures isDeleting
      ensures currentText == old(currentText) && currentWordIndex == old(currentWordIndex)
    {
      isDeleting := true;
    }

    /** What the component paints: always a prefix of one of the words. */
    method Render() returns (shown: string)
      requires Valid()
      ensures shown == currentText
      ensures exists k :: 0 <= k < |words| && shown <= words[k]
    {
      shown := currentText;
    }
  }

  /**
   * A host that delivers events one at a time to a mounted component sees,
   * at every step, a text that is a prefix of the active word, and ends in
   * the state the machine predicts.
   */
  method Drive(words: seq<string>, evs: seq<Event>) returns (t: TypewriterEffect)
    requires |words| > 0
    ensures fresh(t) && t.Valid() && t.words == words
    ensures t.Snapshot() == Run(words, Initial(), evs)
  {
    t := new TypewriterEffect(words);
    var k := 0;
    while k < |evs|
      invariant 0 <= k <= |evs|
      invariant fresh(t)
      invariant t.Valid() && t.words == words
      invariant Run(words, t.Snapshot(), evs[k..]) == Run(words, Initial(), evs)
      decreases |evs| - k
    {
      ghost var before := t.Snapshot();
      match evs[k] {
        case TimerTick => t.Tick();
        case DwellTimeout => t.DwellElapsed();
      }
      assert evs[k..][1..] == evs[k + 1..];
      assert Run(words, before, evs[k..]) == Run(words, t.Snapshot(), evs[k + 1..]);
      k := k + 1;
    }
  }
}
