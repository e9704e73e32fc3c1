# Typewriter effect: a verified model

The portfolio site's `TypewriterEffect` component shows a list of words one
at a time. It types each word character by character, holds it, deletes it
character by character, and moves on to the next word. After the last word
it wraps round to the first. Its state is three fields:

- the index of the active word;
- the text shown so far;
- a flag saying whether it is deleting.

A timer tick (100 ms while typing, 50 ms while deleting) does one of four things:

- appends the next character of the active word;
- finds the word complete and arms a 2000 ms dwell timer;
- drops the last character;
- on an empty text while deleting, clears the flag and moves the index on modulo the list length.

When the dwell timer expires, the component starts deleting.

The project has three files:

- `typewriter_machine.dfy` (module `TypewriterMachine`): the state machine as values. It defines the state, the two events (the tick timer and the dwell timer), the one-event step `Step`, the run `Run` over a sequence of events, and the invariant `Inv`: the index names a word, and the text is a prefix of that word. It also holds the delays and the elapsed time of a run.
- `typewriter_cycle.dfy` (module `TypewriterCycle`): what happens over whole words. It covers typing up, holding, deleting down, one full cycle with its duration, m cycles, a full round over the list, the two-word example, and a leftover dwell timer firing mid-word.
- `typewriter_effect.dfy` (module `TypewriterComponent`): the component as a class. Its three fields are updated in place by `Tick` and `DwellElapsed`. `Valid()` is the invariant. Each method's postcondition states the new fields case by case and ties them to `Step`. `Drive` delivers a sequence of events to a freshly mounted component one at a time, and ends in the state that `Run` predicts.

Timers are not modelled as real scheduling. In the component, each state change re-runs the effect and schedules the next tick. In the model, the tick and the dwell expiry are events, and `Run` accepts them in any order. `CycleEvents` lists them in the order the host delivers them for one word when nothing else re-runs the effect (see "## Left out" for when something does).

Some details of the code that the model keeps as written:

- **Empty word list.** The code has no check for an empty list: it reads `words[0]` and takes `% words.length`. An empty list makes the first tick fail, so a non-empty list is a precondition of the constructor rather than a reported error.
- **When the index moves on.** After a word of n characters is fully deleted (n deleting ticks), the index is still unchanged. One more tick, finding the text empty, moves it on. `EngineerBuilder` states this for `["Engineer.", "Builder."]`: nine deleting ticks leave index 0, and the tenth gives index 1.
- **How long a word is held.** The tick that finds the word complete comes 100 ms after the last character, and only then is the 2000 ms dwell armed. `OneCycle` states the whole cycle as (n + 1) × (100 + 50) + 2000 ms, in the undisturbed order.
- **Prefix of one word.** The shown text is a prefix of the active word. If two words share a prefix, it is a prefix of both, so "exactly one word" holds only for the active one.

## Model

| member | source | states |
|---|---|---|
| TypewriterMachine.TickStep | components/typewriter-effect.tsx:17-33 | a tick keeps the index within the word list (it wraps with `% words.length`) and keeps the text a prefix of the active word |
| TypewriterMachine.Step | components/typewriter-effect.tsx:19-33 | either event (tick or dwell expiry) preserves the index bound and the invariant "text is a prefix of words[index]" |
| TypewriterMachine.Run | components/typewriter-effect.tsx:16-39 | after any sequence of ticks and dwell expiries, the index is in range and the shown text is still a prefix of the active word |
| TypewriterMachine.Delay | components/typewriter-effect.tsx:35 | the tick delay is positive and below the 2000 ms dwell; it is exactly 100 ms while typing; it is below that exactly when deleting, and then it is half of it (50 ms) |
| TypewriterMachine.Wait | components/typewriter-effect.tsx:24-35 | every event waits between the 50 ms deleting delay and the 2000 ms dwell |
| TypewriterMachine.Duration | components/typewriter-effect.tsx:18-36 | a run of k events takes between 50·k and 2000·k milliseconds |
| TypewriterCycle.CycleEvents | components/typewriter-effect.tsx:18-35 | the undisturbed event order for one word (page not re-rendering): 2L+3 events, L+1 ticks, then the single dwell expiry at position L+1, then L+1 ticks; `Rounds` is m of these cycles back to back, each on the word the previous one moved to |
| TypewriterCycle.RunAppend | components/typewriter-effect.tsx:16-39 | delivering a + b is delivering a, then b from the state a ends in |
| TypewriterCycle.DurationAppend | components/typewriter-effect.tsx:18-36 | the time of a + b is the time of a plus the time of b from where a ends |
| TypewriterCycle.TypeUp | components/typewriter-effect.tsx:20-22 | from a prefix of length j, k typing ticks (j + k ≤ word length) show the prefix of length j + k; the index and the flag are unchanged; they take 100·k ms |
| TypewriterCycle.HoldsUntilDwell | components/typewriter-effect.tsx:23-24 | once the word is complete and not deleting, any number of ticks changes nothing; only the dwell expiry moves the machine on |
| TypewriterCycle.DeleteDown | components/typewriter-effect.tsx:26-28 | from a prefix of length j, k ≤ j deleting ticks show the prefix of length j − k; each drops exactly the last character; the index and the flag are unchanged; they take 50·k ms |
| TypewriterCycle.TypingPhase | components/typewriter-effect.tsx:20-24 | from (i, "", typing), L+1 ticks (L the word's length) give the whole word on screen, still typing and on word i, in 100·(L+1) ms; the last tick is the one that finds the word complete |
| TypewriterCycle.DeletingPhase | components/typewriter-effect.tsx:26-31 | from (i, whole word, deleting), L+1 ticks give ((i+1) mod n, "", typing) in 50·(L+1) ms; the last tick is the one that finds the text empty and moves the index on |
| TypewriterCycle.OneCycle | components/typewriter-effect.tsx:20-35 | for word i of length L, from (i, "", typing): L+1 ticks, the dwell and L+1 ticks give ((i+1) mod n, "", typing), in (L+1)·150 + 2000 ms |
| TypewriterCycle.StrayDwell | components/typewriter-effect.tsx:24 | a leftover dwell timer firing while word i is typed only up to j characters starts deletion there; j + 1 further ticks land on ((i+1) mod n, "", typing), so word i is never shown in full |
| TypewriterCycle.ManyCycles | components/typewriter-effect.tsx:29-31 | m consecutive cycles starting on word i end on word (i + m) mod n, with empty text and not deleting |
| TypewriterCycle.FullRound | components/typewriter-effect.tsx:31 | after n cycles (one per word) the machine is back at its starting index, empty and typing |
| TypewriterCycle.SingleWordStays | components/typewriter-effect.tsx:31 | with a single word the index stays 0 under any sequence of events |
| TypewriterCycle.EngineerBuilder | components/typewriter-effect.tsx:17-31 | for ["Engineer.", "Builder."]: 9 ticks show "Engineer."; the 10th tick and the dwell start deletion; 9 deleting ticks give "" still on index 0; the next tick moves to index 1 |
| TypewriterComponent.TypewriterEffect.constructor | components/typewriter-effect.tsx:11-14 | mounting on a non-empty list gives index 0, empty text, not deleting, and establishes the invariant |
| TypewriterComponent.TypewriterEffect.Tick | components/typewriter-effect.tsx:16-33 | case by case: typing grows the text by the next character of the word; a complete word changes nothing; deleting removes exactly the last character; an empty text while deleting clears the flag and sets index := (index + 1) mod n; in every case the invariant is kept and the result equals `Step` |
| TypewriterComponent.TypewriterEffect.DwellElapsed | components/typewriter-effect.tsx:24 | the dwell expiry sets the deleting flag and leaves the index and the text as they were; the invariant is kept |
| TypewriterComponent.TypewriterEffect.Render | components/typewriter-effect.tsx:41-43 | the painted text is the current text, a prefix of one of the words |
| TypewriterComponent.Drive | components/typewriter-effect.tsx:16-39 | a component mounted on a non-empty list and fed events one at a time stays valid and ends in the state `Run` computes from the initial state |

## Left out

- Real timers, their scheduling and their cancellation on unmount (`setTimeout`/`clearTimeout`). These are host event-loop plumbing, so ticks and the dwell expiry are explicit events and the delays are numbers. The model does not capture that the dwell timeout is never cleared, so it can fire after unmount.
- The model does not constrain the order of events. It accepts any interleaving of ticks and dwell expiries. The invariant results (`Step`, `Run`, `Drive`, `Render`, `SingleWordStays`) hold for every order.
- Re-renders of the page disturb that order. The page passes `words` as an inline array literal (app/page.tsx:209-210), so every render makes a new array. The page re-renders on every mouse move (app/page.tsx:24-31). Because `words` is in the effect's dependency list (components/typewriter-effect.tsx:39), each mouse move re-runs the effect: the pending tick is cancelled and rescheduled, so typing stalls while the mouse moves. While a complete word is held, each re-run brings one more tick that arms one more dwell timer, and none of these is ever cleared. A late one can set the deleting flag while the next word is only partly typed; `StrayDwell` shows the word is then skipped. `CycleEvents`, `Rounds`, `TypingPhase`, `DeletingPhase`, `OneCycle`, `ManyCycles`, `FullRound`, `EngineerBuilder` and the durations they state describe only the undisturbed order, with no re-render between ticks. Timing under re-renders is not modelled.
- Changing the `words` prop while the component runs. The code does not re-clamp the index, so the word list is a constant of the object.
- JavaScript strings are sequences of UTF-16 code units, and `slice` cuts between code units. The model works on sequences of characters and so does not capture a surrogate pair being split in half.
- The blinking caret (an 800 ms framer-motion opacity animation) and the `className` pass-through. Both are purely cosmetic.
- The rest of the site: page layout, static data tables, the project cards, the contact form's simulated submission, the experience timeline, the skills marquee, and the three.js backgrounds. None of it has state-machine behaviour.
