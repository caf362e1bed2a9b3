/**
 * The reveal effect of TypewriterText: when it (re)starts, the shown text is
 * emptied and a counter set to 0; every timer tick then appends the next
 * character of the text, and the tick after the last character stops the
 * timer and calls `onComplete`.
 */
module Typewriter {

  class Reveal {
    /** The text being revealed. */
    var text: string
    /** `displayedText`, what the component currently shows. */
    var displayed: string
    /** The effect's counter `i`. */
    var i: nat
    /** The interval timer is still set. */
    var running: bool
    /** How often `onComplete` has been called since the effect last started. */
    var completions: nat

    /**
     * What is shown is always the first `i` characters of the text; a stopped
     * timer means everything was shown and `onComplete` was called once.
     */
    ghost predicate Valid()
      reads this
    {
      && i <= |text|
      && displayed == text[..i]
      && (running ==> completions == 0)
      && (!running ==> i == |text| && completions == 1)
    }

    /** The component mounts: its effect runs for the first time. */
    constructor (t: string)
      ensures Valid()
      ensures text == t && displayed == [] && i == 0 && running && completions == 0
    {
      text, displayed, i, running, completions := t, [], 0, true, 0;
    }

    /**
     * A dependency of the effect changed (a new text, speed or `onComplete`):
     * the old timer is cleared and the reveal starts over from nothing.
     */
    method Restart(t: string)
      modifies this
      ensures Valid()
      ensures text == t && displayed == [] && i == 0 && running && completions == 0
    {
      text, displayed, i, running, completions := t, [], 0, true, 0;
    }

    /** One callback of the interval timer. */
    method Tick()
      requires Valid()
      modifies this
      ensures Valid()
      ensures text == old(text)
      ensures old(running) && old(i) < |text| ==>
        && displayed == old(displayed) + [text[old(i)]]
        && i == old(i) + 1 && running && completions == 0
      ensures old(running) && old(i) == |text| ==>
        && displayed == old(displayed) && i == old(i)
        && !running && completions == 1
      ensures !old(running) ==> unchanged(this)
    {
      if running {
        if i < |text| {
          displayed := displayed + [text[i]];
          i := i + 1;
        } else {
          running := false;
          completions := completions + 1;
        }
      }
    }

    /**
     * Lets the timer fire until it stops. A reveal that is running takes one
     * tick per remaining character and one more to stop; at the end the whole
     * text is shown and `onComplete` has been called exactly once.
     */
    method RunToEnd() returns (ticks: nat)
      requires Valid()
      modifies this
      ensures Valid()
      ensures text == old(text)
      ensures displayed == text && !running && completions == 1
      ensures ticks == if old(running) then |text| - old(i) + 1 else 0
    {
      ticks := 0;
      while running
        invariant Valid()
        invariant text == old(text)
        invariant running ==> old(running) && ticks == i - old(i)
        invariant !running && old(running) ==> ticks == |text| - old(i) + 1
        invariant !old(running) ==> ticks == 0
        decreases if running then |text| - i + 1 else 0
      {
        Tick();
        ticks := ticks + 1;
      }
      assert displayed == text[..|text|];
    }
  }
}
