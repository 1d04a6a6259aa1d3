/** The press classification of the encoder buttons in algorithm_UI (src/algorithm.cc), at 600 ticks a second. */
module Buttons {

  /** SLOW_RATE */
  const HOLD := 600

  /** lastEncSw and holdCounter of one button; the switch reads true when it is released. */
  datatype Button = Button(released: bool, hold: nat)

  datatype Press = NoPress | ShortPress | LongPress

  const RELEASED := Button(true, 0)

  /** One tick. */
  function Step(b: Button, sw: bool): (Button, Press) {
    var hold := if sw then b.hold else if b.released then 1 else b.hold + 1;
    (Button(sw, hold),
     if sw && !b.released && b.hold < HOLD then ShortPress
     else if !sw && hold == HOLD then LongPress
     else NoPress)
  }

  function After(b: Button, trace: seq<bool>): Button {
    if trace == [] then b else Step(After(b, trace[..|trace| - 1]), trace[|trace| - 1]).0
  }

  /** What tick t of the trace triggers. */
  function PressAt(trace: seq<bool>, t: nat): Press
    requires t < |trace|
  {
    Step(After(RELEASED, trace[..t]), trace[t]).1
  }

  /** Ticks s to e - 1 are one press, with the switch released before and after, or still held when the trace ends. */
  predicate MaximalPress(trace: seq<bool>, s: nat, e: nat) {
    && s < e <= |trace| && (e < |trace| ==> trace[e]) && (s == 0 || trace[s - 1])
    && forall k :: s <= k < e ==> !trace[k]
  }

  /** Within a press the counter counts its ticks. */
  lemma {:induction false} CountsPress(trace: seq<bool>, s: nat, t: nat)
    requires s <= t <= |trace| && (s == 0 || trace[s - 1])
    requires forall k :: s <= k < t ==> !trace[k]
    ensures var b := After(RELEASED, trace[..t]);
            if t == s then b.released else b == Button(false, t - s)
    decreases t
  {
    if t > 0 {
      assert trace[..t][..t - 1] == trace[..t - 1];
      if t > s {
        CountsPress(trace, s, t - 1);
      }
    }
  }

  /** A press triggers exactly one action: a short one when it is released before 600 ticks, and otherwise a
    long one on its tick number 600, held on or not, with nothing on release. */
  lemma OneActionPerPress(trace: seq<bool>, s: nat, e: nat, t: nat)
    requires MaximalPress(trace, s, e) && s <= t <= e && t < |trace|
    ensures PressAt(trace, t) ==
            if e - s < 600 then (if t == e then ShortPress else NoPress)
            else (if t == s + 599 then LongPress else NoPress)
  {
    CountsPress(trace, s, t);
  }

  /** Nothing is triggered between presses. */
  lemma NoActionBetweenPresses(trace: seq<bool>, t: nat)
    requires t < |trace| && trace[t] && (t == 0 || trace[t - 1])
    ensures PressAt(trace, t) == NoPress
  {
  }
}
