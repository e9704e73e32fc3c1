/**
 * The text-cycling state machine behind the typewriter effect, as values.
 *
 * The component keeps a word index, the text shown so far and a deleting
 * flag. A timer tick types the next character of the active word, or drops
 * the last character, or (on an empty text while deleting) moves on to the
 * next word. When a word is fully typed, the tick instead arms a separate
 * dwell timer whose expiry switches the machine to deleting.
 */
module TypewriterMachine {

  /** Milliseconds between two ticks while a word is being typed. */
  const TypingDelay: nat := 100
  /** Milliseconds between two ticks while a word is being deleted. */
  const DeletingDelay: nat := 50
  /** Milliseconds a fully typed word stays on screen before deletion starts. */
  const DwellDelay: nat := 2000

  /** The component's three pieces of state. */
  datatype State = State(index: int, text: string, deleting: bool)

  /** What the host event loop delivers: the per-character timer, or the dwell timer. */
  datatype Event = TimerTick | DwellTimeout

  /** The state the component mounts with. */
  function Initial(): State
  {
    State(0, "", false)
  }

  /** The index names a word and the text is a prefix of that word. */
  predicate Inv(words: seq<string>, s: State)
  {
    0 <= s.index < |words| && s.text <= words[s.index]
  }

  /** One firing of the per-character timer. */
  function TickStep(words: seq<string>, s: State): (t: State)
    requires 0 <= s.index < |words|
    ensures 0 <= t.index < |words|
    ensures s.text <= words[s.index] ==> t.text <= words[t.index]
  {
    var word := words[s.index];
    if !s.deleting then
      if |s.text| < |word| then s.(text := word[..|s.text| + 1])
      else s  // the word is complete: only the dwell timer is armed
    else if |s.text| > 0 then s.(text := s.text[..|s.text| - 1])
    else s.(index := (s.index + 1) % |words|, deleting := false)
  }

  /** The effect of one event of either kind; the dwell timer only starts deletion. */
  function Step(words: seq<string>, s: State, e: Event): (t: State)
    requires 0 <= s.index < |words|
    ensures 0 <= t.index < |words|
    ensures Inv(words, s) ==> Inv(words, t)
  {
    match e
    case TimerTick => TickStep(words, s)
    case DwellTimeout => s.(deleting := true)
  }

  /** The state after delivering a sequence of events, in order. */
  function Run(words: seq<string>, s: State, evs: seq<Event>): (r: State)
    requires 0 <= s.index < |words|
    ensures 0 <= r.index < |words|
    ensures Inv(words, s) ==> Inv(words, r)
    decreases |evs|
  {
    if evs == [] then s else Run(words, Step(words, s, evs[0]), evs[1..])
  }

  /**
   * How long the pending per-character timer waits in state s: deletion
   * runs at twice the typing rate, and either is far shorter than the dwell.
   */
  function Delay(s: State): (ms: nat)
    ensures 0 < ms < DwellDelay
    ensures s.deleting <==> ms < TypingDelay
    ensures s.deleting ==> 2 * ms == TypingDelay
    ensures !s.deleting ==> ms == TypingDelay
  {
    if s.deleting then DeletingDelay else TypingDelay
  }

  /** How long the event e waits after the state s was entered. */
  function Wait(s: State, e: Event): (ms: nat)
    ensures DeletingDelay <= ms <= DwellDelay
  {
    match e
    case TimerTick => Delay(s)
    case DwellTimeout => DwellDelay
  }

  /** Milliseconds that pass while the events evs are delivered from state s. */
  function Duration(words: seq<string>, s: State, evs: seq<Event>): (ms: nat)
    requires 0 <= s.index < |words|
    ensures |evs| * DeletingDelay <= ms <= |evs| * DwellDelay
    decreases |evs|
  {
    if evs == [] then 0
    else Wait(s, evs[0]) + Duration(words, Step(words, s, evs[0]), evs[1..])
  }
}
