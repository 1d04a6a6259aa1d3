/** What src/app.c makes of the encoders and pots before it calls algorithm_UI: quadrature decoding at the slow
  rate, and the sliding sum over the last eight conversions of each pot. */
module FrontPanel {

  // ---------- Encoders ----------

  datatype Contacts = Contacts(a: bool, b: bool)

  /** The contacts at a position of the shaft: four positions a detent, both open at the detent. */
  function At(position: int): Contacts {
    var q := position % 4;
    Contacts(q == 0 || q == 1, q == 0 || q == 3)
  }

  /** The decoding in serviceAudioInternalSingle, from the contacts and the last reading of A. */
  function Decode(c: Contacts, lastA: bool): int {
    if c.b then 0
    else if !c.a && lastA then 1
    else if c.a && !lastA then -1
    else 0
  }

  /** The shaft moves by at most one position a tick. */
  predicate Walk(positions: seq<int>) {
    forall k :: 0 <= k < |positions| - 1 ==> -1 <= positions[k + 1] - positions[k] <= 1
  }

  /** The steps reported for a walk whose first position has been read already. */
  function Total(positions: seq<int>): int {
    if |positions| < 2 then 0
    else Total(positions[..|positions| - 1]) + Decode(At(positions[|positions| - 1]), At(positions[|positions| - 2]).a)
  }

  /** The detent a position counts for; the step is reported half-way. */
  function Detent(position: int): int {
    (position + 2) / 4
  }

  /** Path independence: the steps reported depend on where the walk starts and ends only, so contact bounce
    cancels and the way back undoes the way there. */
  lemma {:induction false} PathIndependence(positions: seq<int>)
    requires positions != [] && Walk(positions)
    ensures Total(positions) == Detent(positions[|positions| - 1]) - Detent(positions[0])
    decreases |positions|
  {
    if |positions| > 1 {
      var n := |positions|;
      var front := positions[..n - 1];
      forall k | 0 <= k < |front| - 1
        ensures -1 <= front[k + 1] - front[k] <= 1
      {
        assert front[k + 1] == positions[k + 1];
      }
      PathIndependence(front);
      OneTick(positions[n - 2], positions[n - 1] - positions[n - 2]);
    }
  }

  lemma OneTick(p: int, d: int)
    requires -1 <= d <= 1
    ensures Decode(At(p + d), At(p).a) == Detent(p + d) - Detent(p)
  {
  }

  class HalfState {
    var encA: bool
    var encB: bool
    var lastEncA: bool

    constructor ()
      ensures encA && encB && lastEncA
    {
      encA, encB, lastEncA := true, true, true;
    }

    /** One pass of the slow-rate loop for one half. */
    method ReadEncoder(c: Contacts) returns (enc: int)
      modifies this
      ensures enc == Decode(c, old(lastEncA)) && lastEncA == encA == c.a && encB == c.b
    {
      encA, encB, enc := c.a, c.b, 0;
      if !encB {
        if !encA && lastEncA {
          enc := 1;
        } else if encA && !lastEncA {
          enc := -1;
        }
      }
      lastEncA := encA;
    }
  }

  // ---------- Pots ----------

  const SAMPLES := 8

  function Sum(s: seq<int>): int {
    if s == [] then 0 else Sum(s[..|s| - 1]) + s[|s| - 1]
  }

  /** The last eight of the samples, with zeros before the first. */
  function Window(samples: seq<int>): (w: seq<int>)
    ensures |w| == SAMPLES
  {
    var padded := seq(SAMPLES, _ => 0) + samples;
    padded[|samples|..]
  }

  lemma {:induction false} SumConcat(a: seq<int>, b: seq<int>)
    ensures Sum(a + b) == Sum(a) + Sum(b)
    decreases |b|
  {
    if b == [] {
      assert a + b == a;
    } else {
      assert (a + b)[..|a + b| - 1] == a + b[..|b| - 1];
      SumConcat(a, b[..|b| - 1]);
    }
  }

  lemma SumSlides(w: seq<int>, sample: int)
    requires w != []
    ensures Sum(w[1..] + [sample]) == Sum(w) - w[0] + sample
  {
    assert w == w[..1] + w[1..];
    SumConcat(w[..1], w[1..]);
    SumConcat(w[1..], [sample]);
    assert w[..1][..0] == [] && w[..1][0] == w[0];
    assert [sample][..0] == [];
  }

  lemma {:induction false} SumBounded(s: seq<int>, max: nat)
    requires forall k :: 0 <= k < |s| ==> 0 <= s[k] <= max
    ensures 0 <= Sum(s) <= |s| * max
    decreases |s|
  {
    if s != [] {
      SumBounded(s[..|s| - 1], max);
    }
  }

  /** Until eight samples have been taken, the sum is that of all of them. */
  lemma FirstSamples(samples: seq<int>)
    requires |samples| <= 8
    ensures Sum(Window(samples)) == Sum(samples)
  {
    SumOfZeros(8 - |samples|);
    assert Window(samples) == seq(8 - |samples|, _ => 0) + samples;
    SumConcat(seq(8 - |samples|, _ => 0), samples);
  }

  /** Once eight samples have been taken, the window holds the last eight. */
  lemma LastEight(samples: seq<int>)
    requires |samples| >= 8
    ensures Window(samples) == samples[|samples| - 8..]
    ensures var n := |samples|;
            Sum(Window(samples)) == samples[n - 8] + samples[n - 7] + samples[n - 6] + samples[n - 5] +
                                    samples[n - 4] + samples[n - 3] + samples[n - 2] + samples[n - 1]
  {
    SumOfEight(samples[|samples| - 8..]);
  }

  lemma SumOfEight(s: seq<int>)
    requires |s| == 8
    ensures Sum(s) == s[0] + s[1] + s[2] + s[3] + s[4] + s[5] + s[6] + s[7]
  {
    SumOfFour(s[..4]);
    SumOfFour(s[4..]);
    SumConcat(s[..4], s[4..]);
    assert s[..4] + s[4..] == s;
  }

  lemma SumOfFour(s: seq<int>)
    requires |s| == 4
    ensures Sum(s) == s[0] + s[1] + s[2] + s[3]
  {
    var a, b, c := s[..3], s[..2], s[..1];
    assert a[..2] == b && b[..1] == c && c[..0] == [];
    assert Sum(s) == Sum(a) + s[3] && Sum(a) == Sum(b) + s[2] && Sum(b) == Sum(c) + s[1] && Sum(c) == s[0];
  }

  lemma WindowSlides(samples: seq<int>, sample: int)
    ensures Window(samples + [sample]) == Window(samples)[1..] + [sample]
  {
  }

  /** From twelve-bit samples, the doubled sum is in the range of a parameter. */
  lemma PotInRange(samples: seq<int>)
    requires forall k :: 0 <= k < |samples| ==> 0 <= samples[k] < 4096
    ensures 0 <= 2 * Sum(Window(samples)) <= 65520
  {
    SumBounded(Window(samples), 4095);
  }

  class AdcChannel {
    var value: int
    var pos: nat
    var samples: array<int>

    /** All samples taken. */
    ghost var history: seq<int>

    /** The ring holds the window, its oldest sample at pos, and value is its sum. */
    ghost predicate Valid()
      reads this, samples
    {
      && samples.Length == SAMPLES && pos < SAMPLES
      && value == Sum(Window(history))
      && samples[pos..] + samples[..pos] == Window(history)
    }

    constructor ()
      ensures Valid() && history == [] && value == 0
    {
      value, pos, history := 0, 0, [];
      samples := new int[SAMPLES](_ => 0);
      new;
      assert samples[0..] + samples[..0] == seq(SAMPLES, _ => 0) == Window([]);
      SumOfZeros(SAMPLES);
    }

    /** processADCZs for one channel. */
    method Process(raw: int)
      requires Valid()
      modifies this, samples
      ensures Valid() && samples == old(samples) && history == old(history) + [raw]
      ensures value == Sum(Window(old(history) + [raw]))
    {
      ghost var w := Window(history);
      SumSlides(w, raw);
      WindowSlides(history, raw);
      assert w[0] == samples[pos];
      value := value - samples[pos] + raw;
      samples[pos] := raw;
      pos := (pos + 1) % SAMPLES;
      history := history + [raw];
      assert samples[pos..] + samples[..pos] == w[1..] + [raw];
    }
  }

  lemma {:induction false} SumOfZeros(n: nat)
    ensures Sum(seq(n, _ => 0)) == 0
  {
    if n > 0 {
      assert seq(n, _ => 0)[..n - 1] == seq(n - 1, _ => 0);
      SumOfZeros(n - 1);
    }
  }
}
