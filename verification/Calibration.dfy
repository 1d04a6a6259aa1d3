/** src/calibrate.c as the source has it: the settings are copied from flash, wiped or repaired in place, and
  the coefficients of both halves of the module computed from them. */
module Calibration {
  import opened CalibrationModel

  const INPUTS := 6
  const OUTPUTS := 4

  // The index tables, and where an input or output of half d is in the settings.

  /** inputMap[d][i] */
  function InputMap(d: nat, i: nat): nat {
    if d == 0 then (if i == 0 then 0 else if i == 1 then 1 else 4)
    else (if i == 0 then 2 else if i == 1 then 3 else 5)
  }

  /** half[w] */
  function Half(w: nat): nat {
    if w == 2 || w == 3 || w == 5 then 1 else 0
  }

  /** in[w] */
  function In(w: nat): nat {
    if w == 0 || w == 2 then 0 else if w == 1 || w == 3 then 1 else 2
  }

  /** The entry of the settings that belongs to jack w. */
  function Jack(w: nat): (k: nat)
    requires w < INPUTS
    ensures k < INPUTS
  {
    3 * Half(w) + In(w)
  }

  /** The tables are each other's inverse. */
  lemma TablesInverse(d: nat, i: nat, w: nat)
    requires d < 2 && i < 3 && w < INPUTS
    ensures InputMap(d, i) < INPUTS && Half(InputMap(d, i)) == d && In(InputMap(d, i)) == i
    ensures Half(w) < 2 && In(w) < 3 && InputMap(Half(w), In(w)) == w
  {
  }

  /** The jack of input k of the settings. */
  function JackOf(k: nat): (w: nat)
    requires k < INPUTS
    ensures w < INPUTS
  {
    if k < 3 then InputMap(0, k) else InputMap(1, k - 3)
  }

  /** The input of the settings that calibrates output k. */
  function InputBeside(k: nat): (i: nat)
    requires k < OUTPUTS
    ensures i < INPUTS
  {
    if k < 2 then k else k + 1
  }

  /** The entry of the settings for each jack, and the jack of each; output k goes with jack k. */
  lemma TablesAsWired(w: nat, k: nat)
    requires w < 6 && k < 4
    ensures Jack(w) == [0, 1, 3, 4, 2, 5][w] && JackOf([0, 1, 3, 4, 2, 5][w]) == w
    ensures InputBeside(k) == [0, 1, 3, 4][k] && JackOf(InputBeside(k)) == k
  {
  }

  /** The fields of halfState that belong to one input, one output, and one entry of inputCalibrations. */
  datatype InputHalf = InputHalf(A: int, brf: real, br: Int32)
  datatype OutputHalf = OutputHalf(d: Int32, er: Int32, dd: int, ddf: real, erf: real)
  datatype InputCalibration = InputCalibration(brf: real, mABrf: real)

  datatype Settings = Settings(inData: seq<InputData>, outData: seq<OutputData>)

  predicate Complete(s: Settings) {
    |s.inData| == INPUTS && |s.outData| == OUTPUTS
  }

  predicate AllValid(s: Settings) {
    (forall d :: d in s.inData ==> ValidIn(d)) && (forall o :: o in s.outData ==> ValidOut(o))
  }

  /** What an erased or blanked page is replaced with. 0xffffffff is -1 as an int. */
  function Unwiped(s: Settings): (r: Settings)
    requires Complete(s)
    ensures Complete(r)
  {
    if s.inData[0].threeVolt == 0 || s.inData[0].threeVolt == -1 then
      Settings(seq(INPUTS, _ => InputData(0, 0x266666)), seq(OUTPUTS, _ => OutputData(0, 0x400000)))
    else s
  }

  /** A page is wiped if it begins with a three-volt code of all zeros or all ones, and is then replaced as a whole. */
  lemma UnwipedTo(s: Settings, i: nat)
    requires Complete(s) && i < 6
    ensures var wiped := s.inData[0].threeVolt == 0 || s.inData[0].threeVolt == -1;
            && Unwiped(s).inData[i] == (if wiped then InputData(0, 0x26_6666) else s.inData[i])
            && (i < 4 ==> Unwiped(s).outData[i] == if wiped then OutputData(0, 0x40_0000) else s.outData[i])
  {
  }

  function Repaired(s: Settings): (r: Settings)
    requires Complete(s)
    ensures Complete(r) && AllValid(r)
    ensures AllValid(s) <==> r == s
  {
    var r := Settings(seq(INPUTS, i requires 0 <= i < INPUTS => RepairIn(s.inData[i])),
                      seq(OUTPUTS, i requires 0 <= i < OUTPUTS => RepairOut(s.outData[i])));
    assert r == s ==> forall i :: 0 <= i < INPUTS ==> s.inData[i] == r.inData[i];
    assert r == s ==> forall i :: 0 <= i < OUTPUTS ==> s.outData[i] == r.outData[i];
    r
  }

  /** The settings in use after start-up, whatever the flash holds. */
  function Loaded(flash: Settings): Settings
    requires Complete(flash)
  {
    Repaired(Unwiped(flash))
  }

  // The steps of the inner loop of ReadCalibrationFromSettings that compute.

  method InputScales(d: InputData) returns (bf: real, b: int, bri: int)
    ensures bf == Bf(d) && b == CodesPerVolt(d) && bri == Bri(d)
  {
    var span := (d.threeVolt - d.zeroIn) as real;
    if span == 0.0 {
      span := 25165824.0 / 10.0;
    }
    bf := span / 3.0;
    b := CDiv(d.threeVolt - d.zeroIn, 3);
    if b == 0 {
      b := DEFAULT_B;
    }
    bri := CDiv(TWO_TO_THE_43, b);
  }

  method OutputCoefficients(d: InputData, o: OutputData, bf: real, b: int, bri: int) returns (h: OutputHalf)
    requires bf == Bf(d) && b == CodesPerVolt(d) && bri == Bri(d)
    ensures h == OutputsOf(d, o)
  {
    var n := o.halfOut - o.zeroOut;
    if n == 0 {
      n := 0x399999;
    }
    var df := (o.zeroOut - d.zeroIn) as real / bf;
    var ef := n as real / (bf * 4194304.0);
    var dd := df / ef;
    h := OutputHalf(ToInt32(ToInt64((o.zeroOut - d.zeroIn) * bri) / 0x100_0000),
                    ToInt32(CDiv(b * TWO_TO_THE_27, n)), Trunc(dd), dd, 1.0 / ef);
  }

  class CalibrationState {
    var inData: array<InputData>
    var outData: array<OutputData>
    var inputs: array<InputHalf>
    var outputs: array<OutputHalf>
    var inputCalibrations: array<InputCalibration>

    ghost predicate Valid()
      reads this
    {
      && inData.Length == INPUTS && outData.Length == OUTPUTS
      && inputs.Length == INPUTS && outputs.Length == OUTPUTS && inputCalibrations.Length == INPUTS
    }

    ghost function Stored(): (s: Settings)
      reads this, inData, outData
      requires Valid()
      ensures Complete(s)
    {
      Settings(inData[..], outData[..])
    }

    constructor ()
      ensures Valid() && fresh(inData) && fresh(outData) && fresh(inputs) && fresh(outputs) && fresh(inputCalibrations)
    {
      inData := new InputData[INPUTS](_ => InputData(0, 0));
      outData := new OutputData[OUTPUTS](_ => OutputData(0, 0));
      inputs := new InputHalf[INPUTS](_ => InputHalf(0, 0.0, 0));
      outputs := new OutputHalf[OUTPUTS](_ => OutputHalf(0, 0, 0, 0.0, 0.0));
      inputCalibrations := new InputCalibration[INPUTS](_ => InputCalibration(0.0, 0.0));
    }

    method CheckValidInputs(fix: bool) returns (ok: bool)
      requires Valid()
      modifies inData
      ensures ok == forall d :: d in old(inData[..]) ==> ValidIn(d)
      ensures forall i :: 0 <= i < INPUTS ==> inData[i] == if fix then RepairIn(old(inData[i])) else old(inData[i])
    {
      ok := true;
      for i := 0 to INPUTS
        invariant ok == forall k :: 0 <= k < i ==> ValidIn(old(inData[k]))
        invariant forall k :: i <= k < INPUTS ==> inData[k] == old(inData[k])
        invariant forall k :: 0 <= k < i ==> inData[k] == if fix then RepairIn(old(inData[k])) else old(inData[k])
      {
        if !InRange(inData[i].zeroIn, -0x100000, 0x100000) {
          ok := false;
          if fix {
            inData[i] := inData[i].(zeroIn := 0);
          }
        }
        if !InRange(inData[i].threeVolt, 0x100000, 0x380000) {
          ok := false;
          if fix {
            inData[i] := inData[i].(threeVolt := 0x266666);
          }
        }
      }
      assert forall k :: 0 <= k < INPUTS ==> old(inData[..])[k] == old(inData[k]);
    }

    method CheckValidOutputs(fix: bool) returns (ok: bool)
      requires Valid()
      modifies outData
      ensures ok == forall o :: o in old(outData[..]) ==> ValidOut(o)
      ensures forall i :: 0 <= i < OUTPUTS ==> outData[i] == if fix then RepairOut(old(outData[i])) else old(outData[i])
    {
      ok := true;
      for i := 0 to OUTPUTS
        invariant ok == forall k :: 0 <= k < i ==> ValidOut(old(outData[k]))
        invariant forall k :: i <= k < OUTPUTS ==> outData[k] == old(outData[k])
        invariant forall k :: 0 <= k < i ==> outData[k] == if fix then RepairOut(old(outData[k])) else old(outData[k])
      {
        if !InRange(outData[i].zeroOut, -0x100000, 0x100000) {
          ok := false;
          if fix {
            outData[i] := outData[i].(zeroOut := 0);
          }
        }
        if !InRange(outData[i].halfOut, 0x200000, 0x600000) {
          ok := false;
          if fix {
            outData[i] := outData[i].(halfOut := 0x400000);
          }
        }
      }
      assert forall k :: 0 <= k < OUTPUTS ==> old(outData[..])[k] == old(outData[k]);
    }

    method CheckValidCalibration(fix: bool) returns (ok: bool)
      requires Valid()
      modifies inData, outData
      ensures ok == AllValid(old(Stored()))
      ensures Stored() == if fix then Repaired(old(Stored())) else old(Stored())
    {
      var okIn := CheckValidInputs(fix);
      var okOut := CheckValidOutputs(fix);
      ok := okIn && okOut;
      assert inData[..] == if fix then Repaired(old(Stored())).inData else old(inData[..]);
      assert outData[..] == if fix then Repaired(old(Stored())).outData else old(outData[..]);
    }

    /** The copy from flash and the defaults for a page that has been wiped. */
    method CopySettings(flash: Settings)
      requires Valid() && Complete(flash)
      modifies inData, outData
      ensures Stored() == Unwiped(flash)
    {
      forall i | 0 <= i < INPUTS {
        inData[i] := flash.inData[i];
      }
      forall i | 0 <= i < OUTPUTS {
        outData[i] := flash.outData[i];
      }
      if inData[0].threeVolt == 0 || inData[0].threeVolt == -1 {
        for i := 0 to INPUTS
          invariant forall k :: 0 <= k < i ==> inData[k] == InputData(0, 0x266666)
        {
          inData[i] := InputData(0, 0x266666);
        }
        for i := 0 to OUTPUTS
          invariant forall k :: 0 <= k < i ==> outData[k] == OutputData(0, 0x400000)
          invariant forall k :: 0 <= k < INPUTS ==> inData[k] == InputData(0, 0x266666)
        {
          outData[i] := OutputData(0, 0x400000);
        }
      }
      assert inData[..] == Unwiped(flash).inData && outData[..] == Unwiped(flash).outData;
    }

    /** The body of the inner loop: one input, and the output beside it if there is one. */
    method ReadInput(d: nat, i: nat, A: array<int>)
      requires Valid() && d < 2 && i < 3 && A.Length == INPUTS
      modifies inputs, outputs, A
      ensures A[..] == old(A[..])[InputMap(d, i) := inData[3 * d + i].zeroIn]
      ensures inputs[..] == old(inputs[..])[3 * d + i := InputsOf(inData[3 * d + i])]
      ensures outputs[..] ==
              if i < 2 then old(outputs[..])[2 * d + i := OutputsOf(inData[3 * d + i], outData[2 * d + i])]
              else old(outputs[..])
    {
      var zeroIn: int := inData[3 * d + i].zeroIn;
      A[InputMap(d, i)] := zeroIn;
      var bf, b, bri := InputScales(inData[3 * d + i]);
      inputs[3 * d + i] := InputHalf(zeroIn, 1.0 / bf, ToInt32(bri));
      if i < 2 {
        outputs[2 * d + i] := OutputCoefficients(inData[3 * d + i], outData[2 * d + i], bf, b, bri);
      }
    }

    /** One half of the module: three inputs, the first two of them beside an output. */
    method ReadHalf(d: nat, A: array<int>)
      requires Valid() && d < 2 && A.Length == INPUTS
      requires inputs[..][..3 * d] == InputsUpTo(Stored(), 3 * d)
      requires outputs[..][..2 * d] == OutputsUpTo(Stored(), 2 * d)
      requires ZeroCodes(A[..], Stored(), 3 * d)
      modifies inputs, outputs, A
      ensures inputs[..][..3 * d + 3] == InputsUpTo(Stored(), 3 * d + 3)
      ensures outputs[..][..2 * d + 2] == OutputsUpTo(Stored(), 2 * d + 2)
      ensures ZeroCodes(A[..], Stored(), 3 * d + 3)
    {
      for i := 0 to 3
        invariant inputs[..][..3 * d + i] == InputsUpTo(Stored(), 3 * d + i)
        invariant var m := 2 * d + if i < 2 then i else 2; outputs[..][..m] == OutputsUpTo(Stored(), m)
        invariant ZeroCodes(A[..], Stored(), 3 * d + i)
      {
        ghost var s, a, h, o := Stored(), A[..], inputs[..], outputs[..];
        ReadInput(d, i, A);
        NextInput(s, h, 3 * d + i);
        NextZeroCode(s, a, d, i);
        if i < 2 {
          NextOutput(s, o, d, i);
        }
      }
    }

    method ReadJack(w: nat, A: array<int>, ghost d: InputData)
      requires Valid() && w < INPUTS && A.Length == INPUTS
      requires A[w] == d.zeroIn && inputs[Jack(w)].brf == Brf(d)
      modifies inputCalibrations
      ensures inputCalibrations[..] == old(inputCalibrations[..])[w := JackCalibration(d)]
    {
      var k := Jack(w);
      var brf, zeroIn := inputs[k].brf, A[w];
      JackFormula(d, zeroIn, brf);
      inputCalibrations[w] := InputCalibration(brf, -(zeroIn as real) * brf);
    }

    /** The last loop: the coefficients by jack. */
    method ReadJacks(A: array<int>)
      requires Valid() && A.Length == INPUTS && ZeroCodes(A[..], Stored(), INPUTS)
      requires inputs[..] == InputsUpTo(Stored(), INPUTS)
      modifies inputCalibrations
      ensures inputCalibrations[..] == JacksUpTo(Stored(), INPUTS)
    {
      ghost var s := Stored();
      for w := 0 to INPUTS
        invariant inputCalibrations[..][..w] == JacksUpTo(s, w)
      {
        InputsUpToAt(s, INPUTS, Jack(w));
        ZeroCodeAt(A[..], s, w);
        assert A[..][w] == A[w] && inputs[..][Jack(w)] == inputs[Jack(w)];
        NextJack(s, inputCalibrations[..], w);
        ReadJack(w, A, s.inData[Jack(w)]);
      }
      assert inputCalibrations[..][..INPUTS] == inputCalibrations[..];
    }

    method ReadCalibrationFromSettings(flash: Settings)
      requires Valid() && Complete(flash)
      modifies inData, outData, inputs, outputs, inputCalibrations
      ensures Stored() == Loaded(flash)
      ensures inputs[..] == InputsUpTo(Loaded(flash), INPUTS)
      ensures outputs[..] == OutputsUpTo(Loaded(flash), OUTPUTS)
      ensures inputCalibrations[..] == JacksUpTo(Loaded(flash), INPUTS)
    {
      CopySettings(flash);
      var _ := CheckValidCalibration(true);
      var A := new int[INPUTS];
      ReadHalf(0, A);
      ReadHalf(1, A);
      ReadJacks(A);
    }
  }

  /** A[JackOf(k)] is the zero code of input k. */
  predicate ZeroCodes(A: seq<int>, s: Settings, n: nat)
    requires |A| == INPUTS && Complete(s) && n <= INPUTS
  {
    forall k :: 0 <= k < n ==> A[JackOf(k)] == s.inData[k].zeroIn
  }

  /** The body of the inner loop of ReadCalibrationFromSettings, for an input and for an output. */
  function InputsOf(d: InputData): InputHalf {
    InputHalf(d.zeroIn, Brf(d), Br(d))
  }

  function OutputsOf(d: InputData, o: OutputData): OutputHalf {
    OutputHalf(D(d, o), Er(d, o), Dd(d, o), Df(d, o) / Ef(d, o), Erf(d, o))
  }

  function JackCalibration(d: InputData): InputCalibration {
    InputCalibration(Brf(d), MABrf(d))
  }

  /** The coefficients of the first n inputs, outputs and jacks, each from its own entry of the settings. */
  function InputsUpTo(s: Settings, n: nat): (r: seq<InputHalf>)
    requires Complete(s) && n <= INPUTS
    ensures |r| == n
  {
    if n == 0 then [] else InputsUpTo(s, n - 1) + [InputsOf(s.inData[n - 1])]
  }

  function OutputsUpTo(s: Settings, n: nat): (r: seq<OutputHalf>)
    requires Complete(s) && n <= OUTPUTS
    ensures |r| == n
  {
    if n == 0 then [] else OutputsUpTo(s, n - 1) + [OutputsOf(s.inData[InputBeside(n - 1)], s.outData[n - 1])]
  }

  function JacksUpTo(s: Settings, n: nat): (r: seq<InputCalibration>)
    requires Complete(s) && n <= INPUTS
    ensures |r| == n
  {
    if n == 0 then [] else JacksUpTo(s, n - 1) + [JackCalibration(s.inData[Jack(n - 1)])]
  }

  lemma {:induction false} InputsUpToAt(s: Settings, n: nat, k: nat)
    requires Complete(s) && k < n <= INPUTS
    ensures InputsUpTo(s, n)[k] == InputsOf(s.inData[k])
    decreases n
  {
    if k < n - 1 {
      InputsUpToAt(s, n - 1, k);
    }
  }

  lemma {:induction false} JacksUpToAt(s: Settings, n: nat, w: nat)
    requires Complete(s) && w < n <= INPUTS
    ensures JacksUpTo(s, n)[w] == JackCalibration(s.inData[Jack(w)])
    decreases n
  {
    if w < n - 1 {
      JacksUpToAt(s, n - 1, w);
    }
  }

  lemma {:induction false} OutputsUpToAt(s: Settings, n: nat, k: nat)
    requires Complete(s) && k < n <= OUTPUTS
    ensures OutputsUpTo(s, n)[k] == OutputsOf(s.inData[InputBeside(k)], s.outData[k])
    decreases n
  {
    if k < n - 1 {
      OutputsUpToAt(s, n - 1, k);
    }
  }

  lemma NextInput(s: Settings, h: seq<InputHalf>, k: nat)
    requires Complete(s) && |h| == INPUTS && k < INPUTS && h[..k] == InputsUpTo(s, k)
    ensures h[k := InputsOf(s.inData[k])][..k + 1] == InputsUpTo(s, k + 1)
  {
    assert h[k := InputsOf(s.inData[k])][..k + 1] == h[..k] + [InputsOf(s.inData[k])];
  }

  lemma NextOutput(s: Settings, o: seq<OutputHalf>, d: nat, i: nat)
    requires Complete(s) && |o| == OUTPUTS && d < 2 && i < 2 && o[..2 * d + i] == OutputsUpTo(s, 2 * d + i)
    ensures o[2 * d + i := OutputsOf(s.inData[3 * d + i], s.outData[2 * d + i])][..2 * d + i + 1]
            == OutputsUpTo(s, 2 * d + i + 1)
  {
    var k := 2 * d + i;
    var next := OutputsOf(s.inData[3 * d + i], s.outData[k]);
    assert InputBeside(k) == 3 * d + i;
    assert o[k := next][..k + 1] == o[..k] + [next];
  }

  lemma NextZeroCode(s: Settings, A: seq<int>, d: nat, i: nat)
    requires Complete(s) && |A| == INPUTS && d < 2 && i < 3 && ZeroCodes(A, s, 3 * d + i)
    ensures ZeroCodes(A[InputMap(d, i) := s.inData[3 * d + i].zeroIn], s, 3 * d + i + 1)
  {
  }

  lemma JackFormula(d: InputData, zeroIn: int, brf: real)
    requires zeroIn == d.zeroIn && brf == Brf(d)
    ensures InputCalibration(brf, -(zeroIn as real) * brf) == JackCalibration(d)
  {
  }

  lemma ZeroCodeAt(A: seq<int>, s: Settings, w: nat)
    requires Complete(s) && |A| == INPUTS && w < INPUTS && ZeroCodes(A, s, INPUTS)
    ensures A[w] == s.inData[Jack(w)].zeroIn
  {
  }

  lemma NextJack(s: Settings, c: seq<InputCalibration>, w: nat)
    requires Complete(s) && |c| == INPUTS && w < INPUTS && c[..w] == JacksUpTo(s, w)
    ensures c[w := JackCalibration(s.inData[Jack(w)])][..w + 1] == JacksUpTo(s, w + 1)
  {
  }

  /** Whatever the flash holds, on every jack the code it was calibrated at for 0 V reads as 0 V, and the one
    for 3 V as 3 V unless they are the same. */
  lemma JacksReadTrue(flash: Settings, w: nat)
    requires Complete(flash) && w < INPUTS
    ensures var d := Loaded(flash).inData[[0, 1, 3, 4, 2, 5][w]];
            var c := JacksUpTo(Loaded(flash), INPUTS)[w];
            && ReadVolts(c.brf, c.mABrf, d.zeroIn as real) == 0.0
            && (ReadVolts(c.brf, c.mABrf, d.threeVolt as real) == 3.0 <==> d.threeVolt != d.zeroIn)
  {
    TablesAsWired(w, 0);
    JacksUpToAt(Loaded(flash), INPUTS, w);
    CalibrationPoints(Loaded(flash).inData[Jack(w)]);
  }

  /** The fields of the half that an input belongs to hold the same line. */
  predicate HalfTrue(d: InputData, h: InputHalf) {
    && h.A == d.zeroIn && h.br == ToInt32(Bri(d))
    && (d.threeVolt != d.zeroIn ==> (d.threeVolt - h.A) as real * h.brf == 3.0)
  }

  lemma InputHalfTrue(d: InputData)
    ensures HalfTrue(d, InputsOf(d))
  {
    if d.threeVolt != d.zeroIn {
      ThreeVolts(d);
    }
  }

  lemma HalvesReadTrue(s: Settings, n: nat, k: nat)
    requires Complete(s) && k < n <= INPUTS
    ensures HalfTrue(s.inData[k], InputsUpTo(s, n)[k])
  {
    InputsUpToAt(s, n, k);
    InputHalfTrue(s.inData[k]);
  }

  /** The offset of an output in codes is stored as computed and truncated, beside the fixed-point coefficients. */
  predicate OffsetTrue(d: InputData, o: OutputData, h: OutputHalf) {
    Ef(d, o) * h.ddf == Df(d, o) && h.dd == Trunc(h.ddf) && h.d == D(d, o) && h.er == Er(d, o)
  }

  lemma OutputHalfTrue(d: InputData, o: OutputData)
    ensures OffsetTrue(d, o, OutputsOf(d, o))
  {
    var e, v, h := Ef(d, o), Df(d, o), OutputsOf(d, o);
    TimesQuotient(e, v);
    assert h.ddf == v / e;
  }

  lemma OffsetsStored(s: Settings, n: nat, k: nat)
    requires Complete(s) && k < n <= OUTPUTS
    ensures OffsetTrue(s.inData[[0, 1, 3, 4][k]], s.outData[k], OutputsUpTo(s, n)[k])
  {
    TablesAsWired(0, k);
    OutputsUpToAt(s, n, k);
    OutputHalfTrue(s.inData[InputBeside(k)], s.outData[k]);
  }

  /** A voltage is sent and not clamped, and the input shows the code for it up to the error of its converter. */
  predicate Sent(h: Hardware, out: OutputHalf, volts: real, code: real, converter: real) {
    var sent := OutputCode(out.erf, out.dd, volts);
    Clamp(sent) == sent && -converter <= code - Shown(h, PutOut(h, sent)) <= converter
  }

  lemma LoopbackBetween(h: Hardware, d: InputData, o: OutputData, out: OutputHalf, c: InputCalibration,
                        volts: real, code: real, converter: real)
    requires ValidIn(d) && ValidOut(o) && out == OutputsOf(d, o) && c == JackCalibration(d)
    requires Measured(h, d, o) && Sent(h, out, volts, code, converter)
    ensures h.b > 0.0 && h.q > 0.0 && PutOutTrue(h, OutputCode(out.erf, out.dd, volts), volts)
    ensures ReadTrue(h, ReadVolts(c.brf, c.mABrf, code), volts, converter)
  {
    Loopback(h, d, o, volts, code, converter);
  }

  lemma InUse(flash: Settings, k: nat)
    requires Complete(flash) && k < OUTPUTS
    ensures var s, i := Loaded(flash), [0, 1, 3, 4][k];
            && ValidIn(s.inData[i]) && ValidOut(s.outData[k])
            && OutputsUpTo(s, OUTPUTS)[k] == OutputsOf(s.inData[i], s.outData[k])
            && JacksUpTo(s, INPUTS)[k] == JackCalibration(s.inData[i])
  {
    var s, i := Loaded(flash), InputBeside(k);
    TablesAsWired(k, k);
    OutputsUpToAt(s, OUTPUTS, k);
    JacksUpToAt(s, INPUTS, k);
    assert s.inData[i] in s.inData && s.outData[k] in s.outData;
  }

  /** Loopback with the coefficients in use after start-up: on hardware that the settings in use have been measured on,
    a voltage sent to output k is put out true, and read true on jack k. */
  lemma StartupLoopback(flash: Settings, h: Hardware, k: nat, volts: real, code: real, converter: real)
    requires Complete(flash) && k < OUTPUTS
    requires Measured(h, Loaded(flash).inData[[0, 1, 3, 4][k]], Loaded(flash).outData[k])
    requires Sent(h, OutputsUpTo(Loaded(flash), OUTPUTS)[k], volts, code, converter)
    ensures var out, c := OutputsUpTo(Loaded(flash), OUTPUTS)[k], JacksUpTo(Loaded(flash), INPUTS)[k];
            && h.b > 0.0 && h.q > 0.0 && PutOutTrue(h, OutputCode(out.erf, out.dd, volts), volts)
            && ReadTrue(h, ReadVolts(c.brf, c.mABrf, code), volts, converter)
  {
    var s := Loaded(flash);
    InUse(flash, k);
    LoopbackBetween(h, s.inData[[0, 1, 3, 4][k]], s.outData[k], OutputsUpTo(s, OUTPUTS)[k], JacksUpTo(s, INPUTS)[k],
                    volts, code, converter);
  }
}
