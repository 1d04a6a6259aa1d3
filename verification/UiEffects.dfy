/** What a tick of algorithm_UI in src/algorithm.cc does, button by button and knob by knob, apart from how the model
  computes it. */
module UiEffects {
  import B = Buttons
  import opened UiModel

  /** The table of processor functions, for the first and for the second channel. */
  lemma FunctionRows(f: nat)
    requires f < 8
    ensures FunctionTable(f, 0) ==
            [Envelope, Lfo, TapLfo, BassDrum, MiniSequencer, PulseShaper, PulseRandomizer, FmDrum][f]
    ensures FunctionTable(f, 1) ==
            [Envelope, Lfo, TapLfo, SnareDrum, MiniSequencer, PulseShaper, PulseRandomizer, FmDrum][f]
  {
  }

  /** A parameter is kept in range by the nearest value in it. */
  lemma NearestInRange(v: int, x: int)
    requires 0 <= x <= 65535
    ensures 0 <= ApplyRange(v) <= 65535 && Distance(ApplyRange(v), v) <= Distance(x, v)
  {
  }

  // ---------- Buttons ----------

  /** The button is as this tick leaves it; and the press, if any, has changed the settings so and marked them. */
  predicate LeftOnly(u: Ui, r: Ui) {
    r == u.(left := r.left, settings := u.settings.(editMode := r.settings.editMode), writeToFlash := r.writeToFlash)
  }

  /** The left button: a short press goes between TWIN and SPLIT, and between the two expert modes; a long one to the
    first mode of the other pair; and both mark the settings for saving. */
  lemma LeftReaches(u: Ui, sw: bool)
    requires WellFormed(u)
    ensures var (r, press) := (LeftButton(u, sw), B.Step(u.left, sw).1);
            && LeftOnly(u, r) && r.left == B.Step(u.left, sw).0
            && r.settings.editMode == (match press
                                       case NoPress => u.settings.editMode
                                       case ShortPress => [1, 0, 3, 2][u.settings.editMode]
                                       case LongPress => [2, 2, 0, 0][u.settings.editMode])
            && r.writeToFlash == (u.writeToFlash || press != B.NoPress)
  {
  }

  /** What a press of the right button makes of a function: the next of its bank, or the same place of the other. */
  function Pressed(press: B.Press, f: nat): nat
    requires f < 8
  {
    match press
    case NoPress => f
    case ShortPress => [1, 2, 3, 0, 5, 6, 7, 4][f]
    case LongPress => [4, 5, 6, 7, 0, 1, 2, 3][f]
  }

  lemma PressedFunctions(f: nat)
    requires f < 8
    ensures NextFunction(f) == Pressed(B.ShortPress, f) && OtherBank(f) == Pressed(B.LongPress, f)
  {
    NextInBank(f);
  }

  /** The functions of both channels behind a press: an expert mode changes its own channel's, and the modes that share
    a function give both channels what becomes of the first one's. */
  function FunctionsBehind(mode: nat, press: B.Press, functions: seq<nat>): seq<nat>
    requires |functions| == 2 && functions[0] < 8 && functions[1] < 8
  {
    if press == B.NoPress then functions
    else if mode == 2 then [Pressed(press, functions[0]), functions[1]]
    else if mode == 3 then [functions[0], Pressed(press, functions[1])]
    else [Pressed(press, functions[0]), Pressed(press, functions[0])]
  }

  /** The processor of a channel that the press reaches is given the channel's function. */
  function SelectedBehind(u: Ui, press: B.Press, p: nat): ProcessorFunction
    requires WellFormed(u) && p < 2
  {
    if press == B.NoPress || u.settings.editMode == 3 - p then u.processors[p].selected
    else FunctionTable(FunctionsBehind(u.settings.editMode, press, u.settings.functions)[p], p)
  }

  predicate RightOnly(u: Ui, r: Ui)
    requires WellFormed(u) && WellFormed(r)
  {
    && r == u.(right := r.right, settings := u.settings.(functions := r.settings.functions),
               processors := r.processors, writeToFlash := r.writeToFlash)
    && forall p :: 0 <= p < 2 ==> r.processors[p].params == u.processors[p].params
  }

  predicate RightDone(u: Ui, r: Ui, press: B.Press)
    requires WellFormed(u) && WellFormed(r)
  {
    && RightOnly(u, r)
    && r.settings.functions == FunctionsBehind(u.settings.editMode, press, u.settings.functions)
    && r.writeToFlash == (u.writeToFlash || press != B.NoPress)
    && forall p :: 0 <= p < 2 ==> r.processors[p].selected == SelectedBehind(u, press, p)
  }

  lemma SetFunctionReaches(u: Ui, press: B.Press)
    requires WellFormed(u) && press != B.NoPress
    ensures var edited := if u.settings.editMode == 3 then u.settings.functions[1] else u.settings.functions[0];
            var f := Pressed(press, edited);
            f < 8 && RightDone(u, SetFunction(u, u.settings.editMode - 2, f).(writeToFlash := true), press)
  {
  }

  /** The right button: a press changes the function of the channel being edited, or of both, and marks the settings. */
  lemma RightReaches(u: Ui, sw: bool)
    requires WellFormed(u)
    ensures var (r, press) := (RightButton(u, sw), B.Step(u.right, sw).1);
            r.right == B.Step(u.right, sw).0 && RightDone(u, r, press)
  {
    var v, press := u.(right := B.Step(u.right, sw).0), B.Step(u.right, sw).1;
    if press != B.NoPress {
      PressedFunctions(if u.settings.editMode == 3 then u.settings.functions[1] else u.settings.functions[0]);
      SetFunctionReaches(v, press);
    }
  }

  // ---------- A whole tick ----------

  datatype Change = Unchanged | Set(value: int)

  /** What the knobs do to parameter k of processor p in a tick, in the mode the buttons have left: the encoder that
    controls it if it is turned, or the pot that does if it is far enough from its stored value. */
  function ChangeOf(u: Ui, mode: nat, i: Input, p: nat, k: nat): Change
    requires WellFormed(u) && LegalInput(i) && p < 2 && k < 4
  {
    if Controls(mode, EncoderKnob(0), p, k) then TurnOf(u, mode, 0, i.enc[0], p, k)
    else if Controls(mode, EncoderKnob(1), p, k) then TurnOf(u, mode, 1, i.enc[1], p, k)
    else if Controls(mode, PotKnob(0), p, k) then MoveOf(u, 0, i.pot[0])
    else if Controls(mode, PotKnob(1), p, k) then MoveOf(u, 1, i.pot[1])
    else Unchanged
  }

  function TurnOf(u: Ui, mode: nat, e: nat, enc: int, p: nat, k: nat): Change
    requires WellFormed(u) && e < 2 && p < 2 && k < 4
  {
    if enc == 0 then Unchanged
    else Set(ApplyRange(1000 * enc + if mode <= SPLIT then u.encoders[e] else u.mirror[p][k]))
  }

  function MoveOf(u: Ui, x: nat, pot: int): Change
    requires WellFormed(u) && x < 2
  {
    if -1024 < pot - u.pots[x] < 1024 then Unchanged else Set(pot)
  }

  predicate Changed(u: Ui, r: Ui, p: nat, k: nat, change: Change)
    requires WellFormed(u) && WellFormed(r) && p < 2 && k < 4
  {
    match change
    case Unchanged => r.processors[p].params[k] == u.processors[p].params[k] && r.mirror[p][k] == u.mirror[p][k]
    case Set(value) => r.processors[p].params[k] == Last(value) && r.mirror[p][k] == value
  }

  /** No parameter is controlled by two knobs. */
  lemma OneKnob(mode: nat, p: nat, k: nat, a: Knob, b: Knob)
    requires mode <= SECOND && a.i < 2 && b.i < 2 && Controls(mode, a, p, k) && Controls(mode, b, p, k)
    ensures a == b
  {
  }

  predicate EncoderChanged(u: Ui, r: Ui, e: nat, enc: int, p: nat, k: nat)
    requires WellFormed(u) && WellFormed(r) && e < 2 && p < 2 && k < 4
  {
    && r == u.(encoders := r.encoders, processors := r.processors, mirror := r.mirror)
    && r.encoders == (if enc == 0 then u.encoders else u.encoders[e := ApplyRange(u.encoders[e] + 1000 * enc)])
    && r.processors[p].selected == u.processors[p].selected
    && Changed(u, r, p, k, if Controls(u.settings.editMode, EncoderKnob(e), p, k)
                           then TurnOf(u, u.settings.editMode, e, enc, p, k) else Unchanged)
  }

  /** One encoder, turned or not. */
  lemma EncoderChanges(u: Ui, e: nat, enc: int, p: nat, k: nat)
    requires WellFormed(u) && e < 2 && p < 2 && k < 4
    ensures EncoderChanged(u, Encoder(u, e, enc), e, enc, p, k)
  {
    if enc != 0 {
      EncoderReaches(u, e, enc);
    }
  }

  predicate PotChanged(u: Ui, r: Ui, x: nat, pot: int, p: nat, k: nat)
    requires WellFormed(u) && WellFormed(r) && x < 2 && p < 2 && k < 4
  {
    && r == u.(pots := r.pots, processors := r.processors, mirror := r.mirror)
    && r.pots == (if -1024 < pot - u.pots[x] < 1024 then u.pots else u.pots[x := pot])
    && r.processors[p].selected == u.processors[p].selected
    && Changed(u, r, p, k, if Controls(u.settings.editMode, PotKnob(x), p, k) then MoveOf(u, x, pot) else Unchanged)
  }

  /** One pot, moved far enough or not. */
  lemma PotChanges(u: Ui, x: nat, pot: int, p: nat, k: nat)
    requires WellFormed(u) && x < 2 && p < 2 && k < 4
    ensures PotChanged(u, Pot(u, x, pot), x, pot, p, k)
  {
    PotReaches(u, x, pot);
  }

  /** The values of the encoders and pots behind a tick. */
  predicate KnobValues(u: Ui, r: Ui, i: Input)
    requires WellFormed(u) && WellFormed(r) && LegalInput(i)
  {
    forall x :: 0 <= x < 2 ==>
      && r.encoders[x] == (if i.enc[x] == 0 then u.encoders[x] else ApplyRange(u.encoders[x] + 1000 * i.enc[x]))
      && r.pots[x] == if -1024 < i.pot[x] - u.pots[x] < 1024 then u.pots[x] else i.pot[x]
  }

  predicate KnobsOnly(u: Ui, r: Ui) {
    r == u.(encoders := r.encoders, pots := r.pots, processors := r.processors, mirror := r.mirror)
  }

  /** The knobs one after the other do what each does. */
  lemma InTurn(u: Ui, a: Ui, b: Ui, c: Ui, r: Ui, i: Input, p: nat, k: nat)
    requires WellFormed(u) && WellFormed(a) && WellFormed(b) && WellFormed(c) && WellFormed(r)
    requires LegalInput(i) && p < 2 && k < 4
    requires EncoderChanged(u, a, 0, i.enc[0], p, k) && EncoderChanged(a, b, 1, i.enc[1], p, k)
    requires PotChanged(b, c, 0, i.pot[0], p, k) && PotChanged(c, r, 1, i.pot[1], p, k)
    ensures KnobsOnly(u, r) && KnobValues(u, r, i) && r.processors[p].selected == u.processors[p].selected
    ensures Changed(u, r, p, k, ChangeOf(u, u.settings.editMode, i, p, k))
  {
  }

  /** A tick: first the left button, then the right one, and then the knobs, each for the parameters it controls in the
    mode that the left button has just chosen. */
  lemma TickReaches(u: Ui, i: Input, p: nat, k: nat)
    requires WellFormed(u) && LegalInput(i) && p < 2 && k < 4
    ensures var v := RightButton(LeftButton(u, i.leftSw), i.rightSw);
            var r := Tick(u, i);
            && KnobsOnly(v, r) && KnobValues(u, r, i) && r.processors[p].selected == v.processors[p].selected
            && Changed(u, r, p, k, ChangeOf(u, v.settings.editMode, i, p, k))
  {
    var l := LeftButton(u, i.leftSw);
    var v := RightButton(l, i.rightSw);
    LeftReaches(u, i.leftSw);
    RightReaches(l, i.rightSw);
    KnobsReach(v, i, p, k);
    SameKnobs(u, v, Tick(u, i), i, p, k);
  }

  lemma KnobsReach(v: Ui, i: Input, p: nat, k: nat)
    requires WellFormed(v) && LegalInput(i) && p < 2 && k < 4
    ensures var r := Pots(Encoders(v, i), i);
            && KnobsOnly(v, r) && KnobValues(v, r, i) && r.processors[p].selected == v.processors[p].selected
            && Changed(v, r, p, k, ChangeOf(v, v.settings.editMode, i, p, k))
  {
    var a := Encoder(v, 0, i.enc[0]);
    var b := Encoder(a, 1, i.enc[1]);
    var c := Pot(b, 0, i.pot[0]);
    EncoderChanges(v, 0, i.enc[0], p, k);
    EncoderChanges(a, 1, i.enc[1], p, k);
    PotChanges(b, 0, i.pot[0], p, k);
    PotChanges(c, 1, i.pot[1], p, k);
    InTurn(v, a, b, c, Pot(c, 1, i.pot[1]), i, p, k);
  }

  /** The buttons leave the knobs and the parameters alone. */
  lemma SameKnobs(u: Ui, v: Ui, r: Ui, i: Input, p: nat, k: nat)
    requires WellFormed(u) && WellFormed(v) && WellFormed(r) && LegalInput(i) && p < 2 && k < 4
    requires v.encoders == u.encoders && v.pots == u.pots && v.mirror == u.mirror
    requires v.processors[p].params == u.processors[p].params
    requires KnobValues(v, r, i) && Changed(v, r, p, k, ChangeOf(v, v.settings.editMode, i, p, k))
    ensures KnobValues(u, r, i) && Changed(u, r, p, k, ChangeOf(u, v.settings.editMode, i, p, k))
  {
  }
}
