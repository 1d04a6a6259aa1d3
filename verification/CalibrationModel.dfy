/** The calibration arithmetic of src/calibrate.c and its use in src/algorithm.cc: validation and repair of the stored
  data, the 64-bit fixed-point coefficients, and the conversions between codes and volts over the reals. */
module CalibrationModel {
  import opened Arithmetic

  type Int32 = x: int | -0x8000_0000 <= x < 0x8000_0000

  datatype InputData = InputData(zeroIn: Int32, threeVolt: Int32)
  datatype OutputData = OutputData(zeroOut: Int32, halfOut: Int32)

  predicate InRange(v: int, min: int, max: int) {
    min <= v <= max
  }

  predicate ValidIn(d: InputData) {
    InRange(d.zeroIn, -0x100000, 0x100000) && InRange(d.threeVolt, 0x100000, 0x380000)
  }

  predicate ValidOut(d: OutputData) {
    InRange(d.zeroOut, -0x100000, 0x100000) && InRange(d.halfOut, 0x200000, 0x600000)
  }

  /** Each field out of range gets its default, and only those. */
  function RepairIn(d: InputData): (r: InputData)
    ensures ValidIn(r)
    ensures ValidIn(d) <==> r == d
    ensures InRange(d.zeroIn, -0x100000, 0x100000) ==> r.zeroIn == d.zeroIn
    ensures InRange(d.threeVolt, 0x100000, 0x380000) ==> r.threeVolt == d.threeVolt
  {
    InputData(if InRange(d.zeroIn, -0x100000, 0x100000) then d.zeroIn else 0,
              if InRange(d.threeVolt, 0x100000, 0x380000) then d.threeVolt else 0x266666)
  }

  function RepairOut(d: OutputData): (r: OutputData)
    ensures ValidOut(r)
    ensures ValidOut(d) <==> r == d
    ensures InRange(d.zeroOut, -0x100000, 0x100000) ==> r.zeroOut == d.zeroOut
    ensures InRange(d.halfOut, 0x200000, 0x600000) ==> r.halfOut == d.halfOut
  {
    OutputData(if InRange(d.zeroOut, -0x100000, 0x100000) then d.zeroOut else 0,
               if InRange(d.halfOut, 0x200000, 0x600000) then d.halfOut else 0x400000)
  }

  /** The limits and the defaults: an output's zero and an input's at 0, 3 V at 0x266666, the half at 0x400000. */
  lemma RepairsTo(d: InputData, o: OutputData)
    ensures RepairIn(d).zeroIn == if -0x10_0000 <= d.zeroIn <= 0x10_0000 then d.zeroIn else 0
    ensures RepairIn(d).threeVolt == if 0x10_0000 <= d.threeVolt <= 0x38_0000 then d.threeVolt else 0x26_6666
    ensures RepairOut(o).zeroOut == if -0x10_0000 <= o.zeroOut <= 0x10_0000 then o.zeroOut else 0
    ensures RepairOut(o).halfOut == if 0x20_0000 <= o.halfOut <= 0x60_0000 then o.halfOut else 0x40_0000
  {
  }

  // ---------- C arithmetic ----------

  /** Integer division as in C, towards zero. */
  function CDiv(a: int, b: int): int
    requires b != 0
  {
    if a >= 0 then (if b > 0 then a / b else -(a / -b))
    else if b > 0 then -(-a / b) else -a / -b
  }

  function ToInt32(x: int): Int32 {
    (x + 0x8000_0000) % 0x1_0000_0000 - 0x8000_0000
  }

  /** It leaves a remainder smaller than the divisor, with the sign of the dividend. */
  lemma CDivTruncates(a: int, b: int)
    requires b != 0
    ensures var rest := a - b * CDiv(a, b);
            (if a >= 0 then 0 <= rest else rest <= 0) && -(if b > 0 then b else -b) < rest < if b > 0 then b else -b
  {
    var m, n := if a >= 0 then a else -a, if b > 0 then b else -b;
    DivisionBounds(m, n);
    assert CDiv(a, b) == if (a >= 0) == (b > 0) then m / n else -(m / n);
    assert b * CDiv(a, b) == if a >= 0 then n * (m / n) else -(n * (m / n));
  }

  /** Storage in 32 and 64 bits keeps the value modulo 2^32 and 2^64. */
  lemma StorageWraps(x: int, turns: int)
    ensures ToInt32(x + turns * 0x1_0000_0000) == ToInt32(x)
    ensures -0x8000_0000_0000_0000 <= ToInt64(x) < 0x8000_0000_0000_0000
    ensures ToInt64(x + turns * 0x1_0000_0000_0000_0000) == ToInt64(x)
  {
    MoreTurns(x + 0x8000_0000, turns, 0x1_0000_0000);
    MoreTurns(x + 0x8000_0000_0000_0000, turns, 0x1_0000_0000_0000_0000);
  }

  lemma MoreTurns(x: int, turns: int, n: int)
    requires n > 0
    ensures (x + turns * n) % n == x % n
  {
    Remainder(x + turns * n, n, x / n + turns, x % n);
  }

  const TWO_TO_THE_63 := 0x8000_0000_0000_0000
  const TWO_TO_THE_64 := 0x1_0000_0000_0000_0000

  function ToInt64(x: int): int {
    (x + TWO_TO_THE_63) % TWO_TO_THE_64 - TWO_TO_THE_63
  }

  /** Conversion of a floating-point value to int. */
  function Trunc(x: real): int {
    if x >= 0.0 then x.Floor else -((-x).Floor)
  }

  /** Truncation is towards zero, by less than one. */
  lemma TruncTowardsZero(x: real)
    ensures x >= 0.0 ==> 0.0 <= Trunc(x) as real <= x < Trunc(x) as real + 1.0
    ensures x <= 0.0 ==> Trunc(x) as real - 1.0 < x <= Trunc(x) as real <= 0.0
  {
  }

  // ---------- Fixed-point coefficients ----------

  const DEFAULT_B := 0xCCCCC
  const TWO_TO_THE_43 := 0x800_0000_0000
  const TWO_TO_THE_27 := 0x800_0000

  /** Input codes per volt. */
  function CodesPerVolt(d: InputData): (b: int)
    ensures b != 0
  {
    var b := CDiv(d.threeVolt - d.zeroIn, 3);
    if b == 0 then DEFAULT_B else b
  }

  /** Volts per input code, scaled by 2^43. */
  function Bri(d: InputData): int {
    CDiv(TWO_TO_THE_43, CodesPerVolt(d))
  }

  /** Output span, guarded against zero. */
  function Span(o: OutputData): (n: int)
    ensures n != 0
  {
    if o.halfOut - o.zeroOut == 0 then 0x399999 else o.halfOut - o.zeroOut
  }

  function Br(d: InputData): Int32 {
    ToInt32(Bri(d))
  }

  function D(d: InputData, o: OutputData): Int32 {
    ToInt32(ToInt64((o.zeroOut - d.zeroIn) * Bri(d)) / 0x100_0000)
  }

  function Er(d: InputData, o: OutputData): Int32 {
    ToInt32(CDiv(CodesPerVolt(d) * TWO_TO_THE_27, Span(o)))
  }

  /** Whether the calibrated span of an input is wide enough for Br to be stored in 32 bits; below three codes
    the default takes its place. */
  predicate WideEnough(d: InputData) {
    d.threeVolt - d.zeroIn < 3 || d.threeVolt - d.zeroIn >= 12291
  }

  lemma ProductBound(x: int, y: int, xMax: int, yMax: int)
    requires -xMax <= x <= xMax && 0 <= y <= yMax && 0 <= xMax
    ensures -(xMax * yMax) <= x * y <= xMax * yMax
  {
    assert x * y <= xMax * y <= xMax * yMax;
    assert -x * y <= xMax * y;
  }

  lemma ValidCodesPerVolt(d: InputData)
    requires ValidIn(d)
    ensures var diff := d.threeVolt - d.zeroIn;
            0 <= diff <= 0x480000 && CodesPerVolt(d) == (if diff < 3 then DEFAULT_B else diff / 3)
    ensures 1 <= CodesPerVolt(d) <= 0x180000
  {
  }

  /** Br is exact in 32 bits if and only if the span is wide enough. */
  lemma BrFits(d: InputData)
    requires ValidIn(d)
    ensures Br(d) == Bri(d) <==> d.threeVolt - d.zeroIn < 3 || d.threeVolt - d.zeroIn >= 12291
    ensures WideEnough(d) ==> 0 <= Bri(d) < 0x8000_0000
  {
    ValidCodesPerVolt(d);
    var b := CodesPerVolt(d);
    QuotientBelow(TWO_TO_THE_43, b, 0x8000_0000);
    QuotientBelow(TWO_TO_THE_43, b, 0);
    QuotientBelow(TWO_TO_THE_43, b, TWO_TO_THE_43 + 1);
    StoredExactly(Bri(d));
  }

  /** On a span of three codes Br is stored as 0, and so is D for an output whose zero is at 0. */
  lemma NarrowSpan(halfOut: Int32)
    ensures var d, o := InputData(0x100000, 0x100003), OutputData(0, halfOut);
            && ValidIn(d) && !WideEnough(d) && Bri(d) == TWO_TO_THE_43 && Br(d) == 0
            && (o.zeroOut - d.zeroIn) * Bri(d) / 0x100_0000 == -0x80_0000_0000 && D(d, o) == 0
  {
  }

  lemma StoredExactly64(x: int)
    requires -TWO_TO_THE_63 <= x < TWO_TO_THE_63
    ensures ToInt64(x) == x
  {
  }

  lemma StoredExactly(x: int)
    ensures ToInt32(x) == x <==> -0x8000_0000 <= x < 0x8000_0000
  {
  }

  /** D is exact if and only if the product lies within 2^55, so that the quotient fits 32 bits. With a span wide
    enough it does, and nothing overflows on the way. */
  lemma DExact(d: InputData, o: OutputData)
    requires ValidIn(d) && ValidOut(o)
    ensures var x := (o.zeroOut - d.zeroIn) * Bri(d);
            && (D(d, o) == x / 0x100_0000 <==> -0x80_0000_0000_0000 <= x < 0x80_0000_0000_0000)
            && (WideEnough(d) ==>
                  -0x80_0000_0000_0000 <= x < 0x80_0000_0000_0000 && -0x1000_0000 <= D(d, o) <= 0x1000_0000)
  {
    var x := (o.zeroOut - d.zeroIn) * Bri(d);
    QuotientBelow(x, 0x100_0000, 0x8000_0000);
    QuotientBelow(x, 0x100_0000, -0x8000_0000);
    StoredExactly(x / 0x100_0000);
    if -0x80_0000_0000_0000 <= x < 0x80_0000_0000_0000 {
      StoredExactly64(x);
    }
    if WideEnough(d) {
      BrFits(d);
      ProductBound(o.zeroOut - d.zeroIn, Bri(d), 0x200000, 0x8000_0000);
      QuotientBelow(x, 0x100_0000, 0x1000_0001);
      QuotientBelow(x, 0x100_0000, -0x1000_0000);
    }
  }

  /** The codes per volt are a third of the span, or the default for a span of less than three codes; and what is stored
    as Br is the quotient of 2^43 by them, rounded down. */
  lemma BriExact(d: InputData)
    requires ValidIn(d)
    ensures var b := if d.threeVolt - d.zeroIn < 3 then 0xCCCCC else (d.threeVolt - d.zeroIn) / 3;
            b == CodesPerVolt(d) && b * Bri(d) <= 0x800_0000_0000 < b * Bri(d) + b
  {
    ValidCodesPerVolt(d);
    DivisionBounds(0x800_0000_0000, CodesPerVolt(d));
  }

  /** Er is the quotient of the codes per volt, scaled by 2^27, by the output span, rounded down, for any valid data;
    and its divisor is never near zero. */
  lemma ErExact(d: InputData, o: OutputData)
    requires ValidIn(d) && ValidOut(o)
    ensures 0x100000 <= Span(o) == o.halfOut - o.zeroOut <= 0x700000
    ensures 0 <= Er(d, o) <= 0xC00_0000
    ensures var b := if d.threeVolt - d.zeroIn < 3 then 0xCCCCC else (d.threeVolt - d.zeroIn) / 3;
            b == CodesPerVolt(d) && Er(d, o) * Span(o) <= b * 0x800_0000 < (Er(d, o) + 1) * Span(o)
  {
    ValidCodesPerVolt(d);
    var x, n := CodesPerVolt(d) * TWO_TO_THE_27, Span(o);
    DivisionBounds(x, n);
    QuotientBelow(x, n, 0xC00_0001);
    QuotientBelow(x, n, 0);
    StoredExactly(x / n);
  }

  // ---------- Over the reals ----------

  /** What stands in for a divisor of zero, in both arithmetics. */
  lemma Guards(d: InputData, o: OutputData)
    ensures -3 < d.threeVolt - d.zeroIn < 3 ==> CodesPerVolt(d) == 0xCCCCC
    ensures o.halfOut == o.zeroOut ==> Span(o) == 0x39_9999
    ensures d.threeVolt == d.zeroIn ==> Bf(d) * 30.0 == 25165824.0
  {
  }

  function Bf(d: InputData): (b: real)
    ensures b != 0.0
  {
    (if d.threeVolt == d.zeroIn then 25165824.0 / 10.0 else (d.threeVolt - d.zeroIn) as real) / 3.0
  }

  function Brf(d: InputData): real {
    1.0 / Bf(d)
  }

  /** Volts per output code. */
  function Ef(d: InputData, o: OutputData): (e: real)
    ensures e != 0.0
  {
    Span(o) as real / (Bf(d) * 4194304.0)
  }

  /** The voltage of output code 0. */
  function Df(d: InputData, o: OutputData): real {
    (o.zeroOut - d.zeroIn) as real / Bf(d)
  }

  function Erf(d: InputData, o: OutputData): real {
    1.0 / Ef(d, o)
  }

  function Dd(d: InputData, o: OutputData): int {
    Trunc(Df(d, o) / Ef(d, o))
  }

  /** The offset of the input formula. */
  function MABrf(d: InputData): real {
    -(d.zeroIn as real) * Brf(d)
  }

  /** The input formula of algorithm_step. */
  function ReadVolts(brf: real, mABrf: real, code: real): real {
    code * brf + mABrf
  }

  /** The output formula of algorithm_step before the clamp. */
  function OutputCode(erf: real, dd: int, volts: real): int {
    Trunc(volts * erf) - dd
  }

  function Clamp(x: int): (r: int)
    ensures -0x80_0000 <= r <= 0x7F_FFFF
    ensures r == x <==> -0x80_0000 <= x <= 0x7F_FFFF
    ensures x < r ==> r == -0x80_0000
    ensures r < x ==> r == 0x7F_FFFF
  {
    if x < -0x80_0000 then -0x80_0000 else if x > 0x7F_FFFF then 0x7F_FFFF else x
  }

  /** The equations in the comment of src/calibrate.c: what a code puts on the output, and what code the input
    converter shows for a voltage. */
  function OutputVolts(df: real, ef: real, code: int): real {
    df + ef * code as real
  }

  function InputCode(zeroIn: int, bf: real, volts: real): real {
    zeroIn as real + bf * volts
  }

  // Facts of arithmetic, one product or quotient at a time.

  lemma TruncNear(x: real)
    ensures -1.0 < x - Trunc(x) as real < 1.0
  {
  }

  lemma TruncWithin(x: real, k: int)
    requires -(k as real) <= x <= k as real
    ensures -k <= Trunc(x) <= k
  {
  }

  lemma TimesQuotient(e: real, v: real)
    requires e != 0.0
    ensures e * (v / e) == v && e * (v * (1.0 / e)) == v
  {
    assert v * (1.0 / e) == v / e;
  }

  lemma SignOfProduct(n: real, x: real)
    requires n > 0.0
    ensures n * x >= 0.0 <==> x >= 0.0
    ensures n * x > 0.0 <==> x > 0.0
  {
  }

  lemma Quotient(x: real, y: real)
    requires x > 0.0 && y > 0.0
    ensures x / y > 0.0
  {
    assert y * (x / y) == x;
    SignOfProduct(y, x / y);
  }

  lemma Scaled(e: real, x: real, bound: real)
    requires e > 0.0 && -bound < x < bound
    ensures -(bound * e) < e * x < bound * e
  {
    SignOfProduct(e, bound - x);
    SignOfProduct(e, bound + x);
    assert e * (bound - x) == bound * e - e * x && e * (bound + x) == bound * e + e * x;
  }

  lemma PositiveScales(d: InputData, o: OutputData)
    requires ValidIn(d) && ValidOut(o)
    ensures Bf(d) > 0.0 && Ef(d, o) > 0.0
  {
    assert d.threeVolt >= d.zeroIn && Span(o) >= 0x100000;
    Quotient(Span(o) as real, Bf(d) * 4194304.0);
  }

  lemma TwoTruncations(e: real, volts: real, offset: real, x: real, y: real, tx: real, ty: real)
    requires e > 0.0 && e * x == volts && e * y == offset
    requires -1.0 < x - tx < 1.0 && -1.0 < y - ty < 1.0
    ensures -2.0 * e < offset + e * (tx - ty) - volts < 2.0 * e
  {
    var delta := (tx - x) - (ty - y);
    Scaled(e, delta, 2.0);
    assert e * (tx - ty) == e * x - e * y + e * delta;
  }

  /** The two truncations of the output formula cost less than one output code each. */
  lemma OutputError(ef: real, df: real, erf: real, dd: int, volts: real)
    requires ef > 0.0 && erf == 1.0 / ef && dd == Trunc(df / ef)
    ensures -2.0 * ef < OutputVolts(df, ef, OutputCode(erf, dd, volts)) - volts < 2.0 * ef
  {
    var x, y := volts * erf, df / ef;
    TruncNear(x);
    TruncNear(y);
    TimesQuotient(ef, volts);
    TimesQuotient(ef, df);
    TwoTruncations(ef, volts, df, x, y, Trunc(x) as real, Trunc(y) as real);
  }

  /** The input formula inverts the calibration line, up to the error of the converter. */
  lemma InputError(zeroIn: int, bf: real, brf: real, mABrf: real, volts: real, code: real, converter: real)
    requires bf > 0.0 && brf == 1.0 / bf && mABrf == -(zeroIn as real) * brf
    requires -converter <= code - InputCode(zeroIn, bf, volts) <= converter
    ensures -(converter * brf) <= ReadVolts(brf, mABrf, code) - volts <= converter * brf
  {
    var error := code - InputCode(zeroIn, bf, volts);
    Quotient(1.0, bf);
    TimesQuotient(bf, volts);
    SignOfProduct(brf, converter - error);
    SignOfProduct(brf, converter + error);
    assert ReadVolts(brf, mABrf, code) == (bf * volts + error) * brf;
    assert (bf * volts + error) * brf == bf * (volts * brf) + error * brf;
    assert brf * (converter - error) == converter * brf - error * brf;
    assert brf * (converter + error) == converter * brf + error * brf;
  }

  // ---------- The hardware ----------

  /** An input that shows the code a + b * v for v volts, and an output that puts p + q * c volts out for the code c. */
  datatype Hardware = Hardware(a: real, b: real, p: real, q: real)

  function Shown(h: Hardware, volts: real): real {
    h.a + h.b * volts
  }

  function PutOut(h: Hardware, code: int): real {
    h.p + h.q * code as real
  }

  /** The calibration data has been measured on the hardware: what the input shows for 0 V, for 3 V, and for the codes 0
    and 0x400000 on the output. */
  predicate Measured(h: Hardware, d: InputData, o: OutputData) {
    && Shown(h, 0.0) == d.zeroIn as real && Shown(h, 3.0) == d.threeVolt as real
    && Shown(h, PutOut(h, 0)) == o.zeroOut as real && Shown(h, PutOut(h, 0x40_0000)) == o.halfOut as real
  }

  lemma SameFactor(b: real, x: real, y: real)
    requires b != 0.0 && b * x == b * y
    ensures x == y
  {
  }

  /** Then the coefficients are those of the hardware. */
  lemma MeasuredLines(h: Hardware, d: InputData, o: OutputData)
    requires ValidIn(d) && ValidOut(o) && Measured(h, d, o)
    ensures h.a == d.zeroIn as real && h.b == Bf(d) > 0.0 && h.p == Df(d, o) && h.q == Ef(d, o) > 0.0
  {
    var z, n := (o.zeroOut - d.zeroIn) as real, Span(o) as real;
    assert h.b * 3.0 == (d.threeVolt - d.zeroIn) as real && h.b * h.p == z;
    assert h.b * (h.p + h.q * 4194304.0) == h.b * h.p + h.b * h.q * 4194304.0;
    assert h.b * h.q * 4194304.0 == n;
    assert h.b != 0.0;
    assert h.b == Bf(d);
    PositiveScales(d, o);
    TimesQuotient(h.b, z);
    SameFactor(h.b, h.p, Df(d, o));
    TimesQuotient(h.b * 4194304.0, n);
    assert h.b * 4194304.0 * h.q == n;
    SameFactor(h.b * 4194304.0, h.q, Ef(d, o));
  }

  /** The equations of the comment: the computed output line runs through the codes that were measured for 0 and for
    0x400000, whatever the input span. */
  lemma OutputCalibrationPoints(d: InputData, o: OutputData)
    requires ValidIn(d) && ValidOut(o)
    ensures InputCode(d.zeroIn, Bf(d), OutputVolts(Df(d, o), Ef(d, o), 0)) == o.zeroOut as real
    ensures InputCode(d.zeroIn, Bf(d), OutputVolts(Df(d, o), Ef(d, o), 0x40_0000)) == o.halfOut as real
  {
    var b, z, n := Bf(d), (o.zeroOut - d.zeroIn) as real, Span(o) as real;
    PositiveScales(d, o);
    TimesQuotient(b, z);
    TimesQuotient(b * 4194304.0, n);
    assert b * (Df(d, o) + Ef(d, o) * 4194304.0) == b * Df(d, o) + b * 4194304.0 * Ef(d, o);
  }

  /** A voltage sent to the output is put out within two output codes. */
  predicate PutOutTrue(h: Hardware, code: int, volts: real) {
    -2.0 * h.q < PutOut(h, code) - volts < 2.0 * h.q
  }

  /** What is read is within two output codes, and the error of the converter, of what was sent. */
  predicate ReadTrue(h: Hardware, read: real, volts: real, converter: real)
    requires h.b != 0.0
  {
    -2.0 * h.q - converter / h.b < read - volts < 2.0 * h.q + converter / h.b
  }

  lemma PutOutOn(h: Hardware, erf: real, dd: int, volts: real)
    requires h.q > 0.0 && erf == 1.0 / h.q && dd == Trunc(h.p / h.q)
    ensures PutOutTrue(h, OutputCode(erf, dd, volts), volts)
  {
    OutputError(h.q, h.p, erf, dd, volts);
  }

  lemma ReadOn(h: Hardware, zeroIn: int, brf: real, mABrf: real, volts: real, sent: real, code: real, converter: real)
    requires h.b > 0.0 && h.q > 0.0 && h.a == zeroIn as real && brf == 1.0 / h.b && mABrf == -(zeroIn as real) * brf
    requires -2.0 * h.q < sent - volts < 2.0 * h.q && -converter <= code - Shown(h, sent) <= converter
    ensures ReadTrue(h, ReadVolts(brf, mABrf, code), volts, converter)
  {
    InputError(zeroIn, h.b, brf, mABrf, sent, code, converter);
    TimesInverse(converter, h.b);
  }

  lemma TimesInverse(x: real, b: real)
    requires b != 0.0
    ensures x / b == x * (1.0 / b)
  {
  }

  /** Loopback, on any hardware that the data has been measured on: a voltage sent through the output formula and not
    clamped is put out true, and read true through the same jack's input formula. */
  lemma Loopback(h: Hardware, d: InputData, o: OutputData, volts: real, code: real, converter: real)
    requires ValidIn(d) && ValidOut(o) && Measured(h, d, o)
    requires var c := OutputCode(Erf(d, o), Dd(d, o), volts);
             Clamp(c) == c && -converter <= code - Shown(h, PutOut(h, Clamp(c))) <= converter
    ensures h.b > 0.0 && h.q > 0.0
    ensures PutOutTrue(h, OutputCode(Erf(d, o), Dd(d, o), volts), volts)
    ensures ReadTrue(h, ReadVolts(Brf(d), MABrf(d), code), volts, converter)
  {
    MeasuredLines(h, d, o);
    var sent := PutOut(h, OutputCode(Erf(d, o), Dd(d, o), volts));
    PutOutOn(h, Erf(d, o), Dd(d, o), volts);
    ReadOn(h, d.zeroIn, Brf(d), MABrf(d), volts, sent, code, converter);
  }

  lemma ThreeVolts(d: InputData)
    requires d.threeVolt != d.zeroIn
    ensures (d.threeVolt - d.zeroIn) as real * Brf(d) == 3.0
  {
    TimesQuotient(Bf(d), 1.0);
    assert 3.0 * Bf(d) * Brf(d) == 3.0 * (Bf(d) * Brf(d));
  }

  /** The two points an input is calibrated at read as what they are, the second exactly if it is not the first. */
  lemma CalibrationPoints(d: InputData)
    requires ValidIn(d)
    ensures ReadVolts(Brf(d), MABrf(d), d.zeroIn as real) == 0.0
    ensures ReadVolts(Brf(d), MABrf(d), d.threeVolt as real) == 3.0 <==> d.threeVolt != d.zeroIn
  {
    var r := Brf(d);
    assert ReadVolts(r, MABrf(d), d.zeroIn as real) == (d.zeroIn as real - d.zeroIn as real) * r;
    assert ReadVolts(r, MABrf(d), d.threeVolt as real) == (d.threeVolt - d.zeroIn) as real * r;
    if d.threeVolt != d.zeroIn {
      ThreeVolts(d);
    }
  }

  /** The offset code is in range of the 24-bit converter, whatever the input span, so its conversion to int
    is defined. */
  lemma OffsetInRange(d: InputData, o: OutputData)
    requires ValidIn(d) && ValidOut(o)
    ensures -0x80_0000 <= Dd(d, o) <= 0x80_0000
  {
    PositiveScales(d, o);
    var z, n := (o.zeroOut - d.zeroIn) as real, Span(o) as real;
    QuotientOfQuotients(z, Bf(d), n);
    assert n >= 1048576.0 && -2097152.0 <= z <= 2097152.0;
    WithinRange(z, n, Df(d, o) / Ef(d, o));
    TruncWithin(Df(d, o) / Ef(d, o), 0x80_0000);
  }

  lemma WithinRange(z: real, n: real, y: real)
    requires n >= 1048576.0 && -2097152.0 <= z <= 2097152.0 && n * y == z * 4194304.0
    ensures -8388608.0 <= y <= 8388608.0
  {
    assert n * (8388608.0 - y) == n * 8388608.0 - n * y;
    assert n * (8388608.0 + y) == n * 8388608.0 + n * y;
    SignOfProduct(n, 8388608.0 - y);
    SignOfProduct(n, 8388608.0 + y);
  }

  lemma QuotientOfQuotients(z: real, b: real, n: real)
    requires b > 0.0 && n > 0.0
    ensures n / (b * 4194304.0) > 0.0
    ensures n * ((z / b) / (n / (b * 4194304.0))) == z * 4194304.0
  {
    var c := b * 4194304.0;
    Quotient(n, c);
    var e := n / c;
    var y := (z / b) / e;
    TimesQuotient(c, n);
    TimesQuotient(e, z / b);
    TimesQuotient(b, z);
    assert n * y == c * e * y == c * (e * y) == c * (z / b) == b * (z / b) * 4194304.0;
  }

  /** The fixed-point scale agrees with the real one to within five parts, exactly if the span is not one or
    two codes: then the first uses a default and the second does not. */
  lemma FixedPointAccuracy(d: InputData, o: OutputData)
    requires ValidIn(d) && ValidOut(o)
    ensures 0.0 <= Erf(d, o) - Er(d, o) as real / 32.0 < 5.0 <==>
            d.threeVolt - d.zeroIn != 1 && d.threeVolt - d.zeroIn != 2
  {
    ErExact(d, o);
    RealScale(d, o);
    if d.threeVolt - d.zeroIn == 1 || d.threeVolt - d.zeroIn == 2 {
      ValidCodesPerVolt(d);
      FixedAboveReal(Span(o), Bf(d), Er(d, o), Erf(d, o));
    } else {
      CodesPerVoltNear(d);
      FixedAgainstReal(Span(o), Bf(d), CodesPerVolt(d), Er(d, o), Erf(d, o));
    }
  }

  /** On a span of one code the two scales have nothing to do with each other. */
  lemma ScalesDisagree()
    ensures var d, o := InputData(0x100000, 0x100001), OutputData(0, 0x400000);
            && ValidIn(d) && ValidOut(o)
            && Er(d, o) as real / 32.0 == 838860.0 && Erf(d, o) == 1.0 / 3.0
  {
  }

  lemma FixedAboveReal(n: int, b: real, fixed: int, y: real)
    requires 0x100000 <= n <= 0x700000 && b < 1.0 && n as real * y == b * 4194304.0
    requires DEFAULT_B * TWO_TO_THE_27 < (fixed + 1) * n
    ensures y - fixed as real / 32.0 < 0.0
  {
    ProductAsReal(fixed, n);
    assert (fixed + 1) * n == fixed * n + n;
    var gap := y - fixed as real / 32.0;
    assert n as real * gap == n as real * y - fixed as real * n as real / 32.0;
    SignOfProduct(n as real, gap);
  }

  lemma CodesPerVoltNear(d: InputData)
    requires ValidIn(d)
    requires d.threeVolt - d.zeroIn != 1 && d.threeVolt - d.zeroIn != 2
    ensures 0.0 <= Bf(d) - CodesPerVolt(d) as real < 1.0
  {
    ValidCodesPerVolt(d);
  }

  lemma RealScale(d: InputData, o: OutputData)
    requires ValidIn(d) && ValidOut(o)
    ensures Span(o) as real * Erf(d, o) == Bf(d) * 4194304.0
  {
    PositiveScales(d, o);
    InverseScale(Span(o) as real, Bf(d));
  }

  lemma FixedAgainstReal(n: int, b: real, c: int, fixed: int, y: real)
    requires n >= 0x100000 && 0.0 <= b - c as real < 1.0 && n as real * y == b * 4194304.0
    requires fixed * n <= c * TWO_TO_THE_27 < (fixed + 1) * n
    ensures 0.0 <= y - fixed as real / 32.0 < 5.0
  {
    ProductAsReal(fixed, n);
    assert (fixed + 1) * n == fixed * n + n;
    Between(n as real, b, c as real, fixed as real, y);
  }

  lemma Between(n: real, b: real, c: real, fixed: real, y: real)
    requires n >= 1048576.0 && 0.0 <= b - c < 1.0 && n * y == b * 4194304.0
    requires fixed * n <= c * 134217728.0 < fixed * n + n
    ensures 0.0 <= y - fixed / 32.0 < 5.0
  {
    var gap := y - fixed / 32.0;
    assert n * gap == n * y - fixed * n / 32.0;
    assert n * (5.0 - gap) == n * 5.0 - n * gap;
    SignOfProduct(n, gap);
    SignOfProduct(n, 5.0 - gap);
  }

  lemma {:induction false} ProductAsReal(x: int, n: nat)
    ensures (x * n) as real == x as real * n as real
    decreases n
  {
    if n > 0 {
      ProductAsReal(x, n - 1);
      assert x * n == x * (n - 1) + x;
    }
  }

  lemma InverseScale(n: real, b: real)
    requires n > 0.0 && b > 0.0
    ensures n / (b * 4194304.0) > 0.0 && n * (1.0 / (n / (b * 4194304.0))) == b * 4194304.0
  {
    var c := b * 4194304.0;
    Quotient(n, c);
    var e := n / c;
    TimesQuotient(c, n);
    TimesQuotient(e, 1.0);
    assert n * (1.0 / e) == c * e * (1.0 / e) == c * (e * (1.0 / e));
  }
}
