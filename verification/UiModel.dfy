/** The user interface state of src/algorithm.cc and what a tick of algorithm_UI does to it. The Peaks
  processors are modelled by their selected function and the parameters they have been given. */
module UiModel {
  import B = Buttons

  // peaks::EditMode
  const TWIN := 0
  const SPLIT := 1
  const FIRST := 2
  const SECOND := 3

  // peaks::Function
  const FUNCTION_ENVELOPE := 0
  const FUNCTION_LAST := 8

  const ENCODER_SCALE := 1000
  const POT_THRESHOLD := 1024

  datatype ProcessorFunction =
    | Envelope | Lfo | TapLfo | BassDrum | SnareDrum | MiniSequencer | PulseShaper | PulseRandomizer | FmDrum

  /** function_table_ */
  function FunctionTable(f: nat, p: nat): ProcessorFunction {
    if f == 0 then Envelope
    else if f == 1 then Lfo
    else if f == 2 then TapLfo
    else if f == 3 then (if p == 0 then BassDrum else SnareDrum)
    else if f == 4 then MiniSequencer
    else if f == 5 then PulseShaper
    else if f == 6 then PulseRandomizer
    else FmDrum
  }

  datatype Given = Never | Last(value: int)

  /** A processor: its function, and the last value given to set_parameter for each parameter. */
  datatype Processor = Processor(selected: ProcessorFunction, params: seq<Given>)

  const NEW_PROCESSOR := Processor(Envelope, [Never, Never, Never, Never])

  datatype Settings = Settings(editMode: nat, functions: seq<nat>)

  datatype Ui = Ui(
    settings: Settings, left: B.Button, right: B.Button,
    encoders: seq<int>, pots: seq<int>, mirror: seq<seq<int>>,
    processors: seq<Processor>, writeToFlash: bool)

  /** What algorithm_UI reads: the switches, the decoded encoders and the doubled pot values. */
  datatype Input = Input(leftSw: bool, rightSw: bool, enc: seq<int>, pot: seq<int>)

  predicate LegalInput(i: Input) {
    |i.enc| == 2 && |i.pot| == 2 && forall k :: 0 <= k < 2 ==> -1 <= i.enc[k] <= 1 && 0 <= i.pot[k] <= 65520
  }

  predicate WellFormed(u: Ui) {
    && u.settings.editMode <= SECOND && |u.settings.functions| == 2
    && (forall p :: 0 <= p < 2 ==> u.settings.functions[p] < FUNCTION_LAST)
    && |u.encoders| == 2 && |u.pots| == 2 && |u.mirror| == 2 && |u.processors| == 2
    && (forall p :: 0 <= p < 2 ==> |u.mirror[p]| == 4 && |u.processors[p].params| == 4)
  }

  predicate ParameterRange(v: int) {
    0 <= v <= 65535
  }

  function ApplyRange(v: int): (r: int)
    ensures ParameterRange(r)
  {
    if v < 0 then 0 else if v > 65535 then 65535 else v
  }

  // ---------- The parts of a tick ----------

  function Select(u: Ui, p: nat, f: nat): Ui
    requires WellFormed(u) && p < 2
  {
    u.(processors := u.processors[p := u.processors[p].(selected := FunctionTable(f, p))])
  }

  function SetFunction(u: Ui, index: int, f: nat): (r: Ui)
    requires WellFormed(u) && f < FUNCTION_LAST && (u.settings.editMode >= FIRST ==> 0 <= index < 2)
    ensures WellFormed(r)
  {
    if u.settings.editMode == SPLIT || u.settings.editMode == TWIN then
      Select(Select(u.(settings := u.settings.(functions := [f, f])), 0, f), 1, f)
    else
      Select(u.(settings := u.settings.(functions := u.settings.functions[index := f])), index, f)
  }

  /** edit_mode ^ 1 and the long press of the left button */
  function Toggled(mode: nat): nat {
    if mode % 2 == 0 then mode + 1 else mode - 1
  }

  function Switched(mode: nat): nat {
    if mode / 2 % 2 == 1 then TWIN else FIRST
  }

  function LeftButton(u: Ui, sw: bool): (r: Ui)
    requires WellFormed(u)
    ensures WellFormed(r)
  {
    var (b, press) := B.Step(u.left, sw);
    var v := u.(left := b);
    match press
    case NoPress => v
    case ShortPress => v.(settings := v.settings.(editMode := Toggled(v.settings.editMode)), writeToFlash := true)
    case LongPress => v.(settings := v.settings.(editMode := Switched(v.settings.editMode)), writeToFlash := true)
  }

  /** The function the right button changes. */
  function Edited(u: Ui): (f: nat)
    requires WellFormed(u)
    ensures f < FUNCTION_LAST
  {
    if u.settings.editMode == SECOND then u.settings.functions[1] else u.settings.functions[0]
  }

  /** (f & 4) | (((f & 3) + 1) & 3) and f ^ 4 */
  function NextFunction(f: nat): nat {
    f / 4 % 2 * 4 + (f % 4 + 1) % 4
  }

  function OtherBank(f: nat): nat {
    if f / 4 % 2 == 0 then f + 4 else f - 4
  }

  function RightButton(u: Ui, sw: bool): (r: Ui)
    requires WellFormed(u)
    ensures WellFormed(r)
  {
    var (b, press) := B.Step(u.right, sw);
    var v := u.(right := b);
    match press
    case NoPress => v
    case ShortPress => SetFunction(v, v.settings.editMode - FIRST, NextFunction(Edited(v))).(writeToFlash := true)
    case LongPress => SetFunction(v, v.settings.editMode - FIRST, OtherBank(Edited(v))).(writeToFlash := true)
  }

  /** set_parameter on a processor */
  function SetParameter(u: Ui, p: nat, k: nat, v: int): (r: Ui)
    requires WellFormed(u) && p < 2 && k < 4
    ensures WellFormed(r)
  {
    u.(processors := u.processors[p := u.processors[p].(params := u.processors[p].params[k := Last(v)])])
  }

  /** The assignment to processorParams */
  function CopyParameter(u: Ui, p: nat, k: nat, v: int): (r: Ui)
    requires WellFormed(u) && p < 2 && k < 4
    ensures WellFormed(r)
  {
    u.(mirror := u.mirror[p := u.mirror[p][k := v]])
  }

  /** What a knob does to one processor, and to both. */
  function GiveOne(u: Ui, p: nat, k: nat, v: int): (r: Ui)
    requires WellFormed(u) && p < 2 && k < 4
    ensures WellFormed(r)
  {
    CopyParameter(SetParameter(u, p, k, v), p, k, v)
  }

  function GiveBoth(u: Ui, k: nat, v: int): (r: Ui)
    requires WellFormed(u) && k < 4
    ensures WellFormed(r)
  {
    CopyParameter(CopyParameter(SetParameter(SetParameter(u, 0, k, v), 1, k, v), 0, k, v), 1, k, v)
  }

  function Encoder(u: Ui, i: nat, enc: int): (r: Ui)
    requires WellFormed(u) && i < 2
    ensures WellFormed(r)
  {
    if enc == 0 then u
    else
      var value := ApplyRange(u.encoders[i] + ENCODER_SCALE * enc);
      var v := u.(encoders := u.encoders[i := value]);
      if u.settings.editMode == TWIN then GiveBoth(v, i, value)
      else if u.settings.editMode == SPLIT then GiveOne(v, 0, i, value)
      else
        var which := u.settings.editMode - FIRST;
        GiveOne(v, which, i, ApplyRange(v.mirror[which][i] + ENCODER_SCALE * enc))
  }

  function Distance(a: int, b: int): nat {
    if a < b then b - a else a - b
  }

  function Pot(u: Ui, i: nat, pot: int): (r: Ui)
    requires WellFormed(u) && i < 2
    ensures WellFormed(r)
  {
    if Distance(pot, u.pots[i]) < POT_THRESHOLD then u
    else
      var v := u.(pots := u.pots[i := pot]);
      if u.settings.editMode == TWIN then GiveBoth(v, 2 + i, pot)
      else if u.settings.editMode == SPLIT then GiveOne(v, 1, i, pot)
      else GiveOne(v, u.settings.editMode - FIRST, 2 + i, pot)
  }

  function Switches(u: Ui, i: Input): (r: Ui)
    requires WellFormed(u)
    ensures WellFormed(r)
  {
    RightButton(LeftButton(u, i.leftSw), i.rightSw)
  }

  function Encoders(u: Ui, i: Input): (r: Ui)
    requires WellFormed(u) && LegalInput(i)
    ensures WellFormed(r)
  {
    Encoder(Encoder(u, 0, i.enc[0]), 1, i.enc[1])
  }

  function Pots(u: Ui, i: Input): (r: Ui)
    requires WellFormed(u) && LegalInput(i)
    ensures WellFormed(r)
  {
    Pot(Pot(u, 0, i.pot[0]), 1, i.pot[1])
  }

  /** algorithm_UI */
  function Tick(u: Ui, i: Input): (r: Ui)
    requires WellFormed(u) && LegalInput(i)
    ensures WellFormed(r)
  {
    Pots(Encoders(Switches(u, i), i), i)
  }

  // ---------- What every tick keeps ----------

  /** A parameter that was ever set is mirrored; one that never was shows zero. */
  predicate Mirrored(given: Given, copy: int) {
    match given
    case Never => copy == 0
    case Last(v) => copy == v && ParameterRange(v)
  }

  predicate Consistent(u: Ui) {
    && WellFormed(u)
    && (forall p :: 0 <= p < 2 ==> u.processors[p].selected == FunctionTable(u.settings.functions[p], p))
    && (forall p, k :: 0 <= p < 2 && 0 <= k < 4 ==> Mirrored(u.processors[p].params[k], u.mirror[p][k]))
    && (forall i :: 0 <= i < 2 ==> ParameterRange(u.encoders[i]) && ParameterRange(u.pots[i]))
  }

  lemma SetFunctionKeeps(u: Ui, index: int, f: nat)
    requires Consistent(u) && f < FUNCTION_LAST && (u.settings.editMode >= FIRST ==> 0 <= index < 2)
    ensures Consistent(SetFunction(u, index, f))
  {
  }

  predicate OnlyParameters(u: Ui, r: Ui) {
    r == u.(processors := r.processors, mirror := r.mirror)
  }

  /** Between the call and the assignment the copy may differ; behind both it does not. */
  lemma GiveOneKeeps(u: Ui, p: nat, k: nat, v: int)
    requires Consistent(u) && p < 2 && k < 4 && ParameterRange(v)
    ensures Consistent(GiveOne(u, p, k, v)) && OnlyParameters(u, GiveOne(u, p, k, v))
    ensures Consistent(SetParameter(u, p, k, v)) <==> u.mirror[p][k] == v
  {
  }

  lemma GiveBothKeeps(u: Ui, k: nat, v: int)
    requires Consistent(u) && k < 4 && ParameterRange(v)
    ensures Consistent(GiveBoth(u, k, v)) && OnlyParameters(u, GiveBoth(u, k, v))
  {
  }

  /** A change of the settings marks them for saving, and nothing clears the mark. */
  predicate Marks(u: Ui, r: Ui) {
    (r.settings != u.settings ==> r.writeToFlash) && (u.writeToFlash ==> r.writeToFlash)
  }

  lemma LeftButtonKeeps(u: Ui, sw: bool)
    requires Consistent(u)
    ensures Consistent(LeftButton(u, sw)) && Marks(u, LeftButton(u, sw))
  {
  }

  lemma RightButtonKeeps(u: Ui, sw: bool)
    requires Consistent(u)
    ensures Consistent(RightButton(u, sw)) && Marks(u, RightButton(u, sw))
  {
    var v, press := u.(right := B.Step(u.right, sw).0), B.Step(u.right, sw).1;
    var index := v.settings.editMode - FIRST;
    if press == B.NoPress {
      assert RightButton(u, sw) == v;
    } else {
      var f := if press == B.ShortPress then NextFunction(Edited(v)) else OtherBank(Edited(v));
      assert Consistent(v);
      SetFunctionKeeps(v, index, f);
      assert RightButton(u, sw) == SetFunction(v, index, f).(writeToFlash := true);
    }
  }

  lemma EncoderKeeps(u: Ui, i: nat, enc: int)
    requires Consistent(u) && i < 2
    ensures var r := Encoder(u, i, enc);
            Consistent(r) && r.settings == u.settings && r.writeToFlash == u.writeToFlash && r.pots == u.pots
  {
    if enc != 0 {
      var value := ApplyRange(u.encoders[i] + ENCODER_SCALE * enc);
      var v := u.(encoders := u.encoders[i := value]);
      if u.settings.editMode == TWIN {
        GiveBothKeeps(v, i, value);
      } else if u.settings.editMode == SPLIT {
        GiveOneKeeps(v, 0, i, value);
      } else {
        var which := u.settings.editMode - FIRST;
        GiveOneKeeps(v, which, i, ApplyRange(v.mirror[which][i] + ENCODER_SCALE * enc));
      }
    }
  }

  lemma PotKeeps(u: Ui, i: nat, pot: int)
    requires Consistent(u) && i < 2 && ParameterRange(pot)
    ensures var r := Pot(u, i, pot);
            && Consistent(r) && r.settings == u.settings && r.writeToFlash == u.writeToFlash
            && Distance(pot, r.pots[i]) < POT_THRESHOLD && r.pots[1 - i] == u.pots[1 - i]
  {
    if Distance(pot, u.pots[i]) >= POT_THRESHOLD {
      var v := u.(pots := u.pots[i := pot]);
      if u.settings.editMode == TWIN {
        GiveBothKeeps(v, 2 + i, pot);
      } else if u.settings.editMode == SPLIT {
        GiveOneKeeps(v, 1, i, pot);
      } else {
        GiveOneKeeps(v, u.settings.editMode - FIRST, 2 + i, pot);
      }
    }
  }

  lemma EncodersKeep(u: Ui, i: Input)
    requires Consistent(u) && LegalInput(i)
    ensures Consistent(Encoders(u, i))
    ensures Encoders(u, i).settings == u.settings && Encoders(u, i).writeToFlash == u.writeToFlash
  {
    EncoderKeeps(u, 0, i.enc[0]);
    EncoderKeeps(Encoder(u, 0, i.enc[0]), 1, i.enc[1]);
  }

  lemma SecondPotKeeps(v: Ui, i: Input)
    requires Consistent(v) && LegalInput(i) && Distance(i.pot[0], v.pots[0]) < POT_THRESHOLD
    ensures var r := Pot(v, 1, i.pot[1]);
            && Consistent(r) && r.settings == v.settings && r.writeToFlash == v.writeToFlash
            && forall k :: 0 <= k < 2 ==> Distance(i.pot[k], r.pots[k]) < POT_THRESHOLD
  {
    PotKeeps(v, 1, i.pot[1]);
  }

  lemma PotsKeep(u: Ui, i: Input)
    requires Consistent(u) && LegalInput(i)
    ensures var r := Pots(u, i);
            && Consistent(r) && r.settings == u.settings && r.writeToFlash == u.writeToFlash
            && forall k :: 0 <= k < 2 ==> Distance(i.pot[k], r.pots[k]) < POT_THRESHOLD
  {
    PotKeeps(u, 0, i.pot[0]);
    SecondPotKeeps(Pot(u, 0, i.pot[0]), i);
  }

  /** Every tick keeps the modes and functions in range, each processor on the function the settings name, and
    every parameter ever set equal to its copy; a change of the settings marks them for saving, and nothing
    clears that mark; and the stored pot values follow the pots. */
  lemma TickKeeps(u: Ui, i: Input)
    requires Consistent(u) && LegalInput(i)
    ensures Consistent(Tick(u, i)) && Marks(u, Tick(u, i))
    ensures forall k :: 0 <= k < 2 ==> Distance(i.pot[k], Tick(u, i).pots[k]) < POT_THRESHOLD
  {
    LeftButtonKeeps(u, i.leftSw);
    RightButtonKeeps(LeftButton(u, i.leftSw), i.rightSw);
    EncodersKeep(Switches(u, i), i);
    PotsKeep(Encoders(Switches(u, i), i), i);
  }

  // ---------- What the controls reach ----------

  datatype Knob = EncoderKnob(i: nat) | PotKnob(i: nat)

  /** Which parameter k of which processor p a knob is for: in TWIN mode the four knobs set the four parameters of
    both processors, in SPLIT mode the encoders set two of the first and the pots two of the second, and in
    the expert modes they set those of the processor being edited. */
  predicate Controls(mode: nat, knob: Knob, p: nat, k: nat) {
    var own := if knob.EncoderKnob? then knob.i else 2 + knob.i;
    if mode == TWIN then k == own
    else if mode == SPLIT then p == (if knob.EncoderKnob? then 0 else 1) && k == knob.i
    else p == mode - FIRST && k == own
  }

  /** A knob has given the parameters it controls the values, and left the others alone. */
  predicate Reaches(u: Ui, r: Ui, knob: Knob, value: (nat, nat) -> int)
    requires WellFormed(u) && WellFormed(r)
  {
    && r.settings == u.settings && r.writeToFlash == u.writeToFlash && r.left == u.left && r.right == u.right
    && (forall p :: 0 <= p < 2 ==> r.processors[p].selected == u.processors[p].selected)
    && forall p: nat, k: nat :: p < 2 && k < 4 ==>
         if Controls(u.settings.editMode, knob, p, k) then
           r.processors[p].params[k] == Last(value(p, k)) && r.mirror[p][k] == value(p, k)
         else
           r.processors[p].params[k] == u.processors[p].params[k] && r.mirror[p][k] == u.mirror[p][k]
  }

  /** The value a turn of an encoder gives. */
  function Turned(u: Ui, i: nat, enc: int, p: nat, k: nat): int
    requires WellFormed(u) && i < 2
  {
    if u.settings.editMode <= SPLIT || p >= 2 || k >= 4 then ApplyRange(u.encoders[i] + 1000 * enc)
    else ApplyRange(u.mirror[p][k] + 1000 * enc)
  }

  lemma SharedReaches(u: Ui, i: nat, enc: int)
    requires WellFormed(u) && i < 2 && enc != 0 && u.settings.editMode <= SPLIT
    ensures Reaches(u, Encoder(u, i, enc), EncoderKnob(i), (p: nat, k: nat) => Turned(u, i, enc, p, k))
  {
  }

  lemma ExpertReaches(u: Ui, i: nat, enc: int)
    requires WellFormed(u) && i < 2 && enc != 0 && u.settings.editMode > SPLIT
    ensures Reaches(u, Encoder(u, i, enc), EncoderKnob(i), (p: nat, k: nat) => Turned(u, i, enc, p, k))
  {
  }

  /** A turn of an encoder moves its own value, or in the expert modes that of the parameter, by a thousand a step
    within the range, and reaches what it controls. */
  lemma EncoderReaches(u: Ui, i: nat, enc: int)
    requires WellFormed(u) && i < 2 && enc != 0
    ensures var r := Encoder(u, i, enc);
            && r.encoders == u.encoders[i := ApplyRange(u.encoders[i] + 1000 * enc)] && r.pots == u.pots
            && Reaches(u, r, EncoderKnob(i), (p: nat, k: nat) => Turned(u, i, enc, p, k))
  {
    if u.settings.editMode <= SPLIT {
      SharedReaches(u, i, enc);
    } else {
      ExpertReaches(u, i, enc);
    }
  }

  lemma SharedPotReaches(u: Ui, i: nat, pot: int)
    requires WellFormed(u) && i < 2 && Distance(pot, u.pots[i]) >= POT_THRESHOLD && u.settings.editMode <= SPLIT
    ensures Reaches(u, Pot(u, i, pot), PotKnob(i), (p: nat, k: nat) => pot)
  {
  }

  lemma ExpertPotReaches(u: Ui, i: nat, pot: int)
    requires WellFormed(u) && i < 2 && Distance(pot, u.pots[i]) >= POT_THRESHOLD && u.settings.editMode > SPLIT
    ensures Reaches(u, Pot(u, i, pot), PotKnob(i), (p: nat, k: nat) => pot)
  {
  }

  /** A pot that has moved far enough reaches what it controls, and otherwise nothing happens. */
  lemma PotReaches(u: Ui, i: nat, pot: int)
    requires WellFormed(u) && i < 2
    ensures var r := Pot(u, i, pot);
            if -1024 < pot - u.pots[i] < 1024 then r == u
            else r.pots == u.pots[i := pot] && r.encoders == u.encoders &&
                 Reaches(u, r, PotKnob(i), (p: nat, k: nat) => pot)
  {
    if Distance(pot, u.pots[i]) >= POT_THRESHOLD {
      if u.settings.editMode <= SPLIT {
        SharedPotReaches(u, i, pot);
      } else {
        ExpertPotReaches(u, i, pot);
      }
    }
  }

  /** Short presses of the right button go round the four functions of a bank. */
  lemma FunctionCycles(f: nat)
    requires f < FUNCTION_LAST
    ensures NextFunction(f) / 4 == f / 4 && NextFunction(f) != f && NextFunction(NextFunction(f)) != f
    ensures NextFunction(NextFunction(NextFunction(NextFunction(f)))) == f
  {
    assert f / 4 == if f < 4 then 0 else 1;
    NextInBank(f);
    var g := NextFunction(f);
    assert g / 4 == if g < 4 then 0 else 1;
    NextInBank(g);
    var h := NextFunction(g);
    NextInBank(h);
    NextInBank(NextFunction(h));
  }

  /** A long press changes the bank, and another one changes it back. */
  lemma BankCycles(f: nat)
    requires f < FUNCTION_LAST
    ensures OtherBank(OtherBank(f)) == f && OtherBank(f) % 4 == f % 4 && OtherBank(f) / 4 != f / 4
  {
  }

  lemma NextInBank(f: nat)
    requires f < FUNCTION_LAST
    ensures NextFunction(f) == if f == 3 then 0 else if f == 7 then 4 else f + 1
  {
    assert f / 4 == if f < 4 then 0 else 1;
  }

  /** Short presses of the left button pair the modes, and a long one goes between the pairs. */
  lemma ModeCycles(mode: nat)
    requires mode <= SECOND
    ensures Toggled(Toggled(mode)) == mode && Toggled(mode) != mode && Toggled(mode) / 2 == mode / 2
    ensures Switched(mode) / 2 != mode / 2 && Switched(mode) % 2 == 0
  {
  }
}
