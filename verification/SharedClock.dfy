/** The MIDI clock of src/midi.c is moved by both parsers, through the one message handler they call: by the MIDI input,
  which hears real-time bytes anywhere, and by the Select Bus (src/recall.c), which treats them as status bytes. */
module SharedClock {
  import opened Bytes
  import M = MidiParser
  import R = RecallParser

  datatype Arrival = OnMidi(b: Byte) | OnSelectBus(b: Byte)

  datatype Firmware = Firmware(midi: M.Parser, bus: R.Parser, clock: M.Clock)

  /** DefaultMIDIMessageHandler, of whose branches only 0xF0 has an effect. */
  function Handled(c: M.Clock, calls: seq<R.Event>): M.Clock
    decreases |calls|
  {
    if calls == [] then c
    else Handled(if RealTimeCall(calls[0]) then M.ClockStep(c, calls[0].channel) else c, calls[1..])
  }

  predicate RealTimeCall(e: R.Event) {
    e.Handler? && e.status == 0xF0 && e.channel >= 8
  }

  function Receive(f: Firmware, a: Arrival): Firmware {
    match a
    case OnMidi(b) =>
      f.(midi := M.Step(f.midi, b).parser, clock := M.ClockRun(f.clock, M.Step(f.midi, b).events))
    case OnSelectBus(b) =>
      f.(bus := R.Step(f.bus, b).parser, clock := Handled(f.clock, R.Step(f.bus, b).events))
  }

  function After(f: Firmware, arrivals: seq<Arrival>): Firmware
    decreases |arrivals|
  {
    if arrivals == [] then f else After(Receive(f, arrivals[0]), arrivals[1..])
  }

  /** States of the Select Bus parser that occur: it waits for the data bytes its status demands. */
  predicate Possible(p: R.Parser) {
    match p.mode
    case WantByte1of1 => M.OneDataByte(p.status) || (p.status == 0xF0 && p.channel == 4)
    case WantByte1of2 => M.TwoDataBytes(p.status)
    case WantByte2 => M.TwoDataBytes(p.status)
    case _ => true
  }

  lemma StaysPossible(p: R.Parser, b: Byte)
    requires Possible(p)
    ensures Possible(R.Step(p, b).parser)
  {
  }

  /** The real-time message that a byte on the Select Bus is heard as: its own between messages and in a sysex, none
    inside another message, and for a data byte behind a real-time message that message again. */
  function HeardOnBus(p: R.Parser, b: Byte): seq<Byte> {
    if IsRealTime(b) then (if p.mode == M.Idle || p.mode == M.WantSysex then [LowNibble(b)] else [])
    else if !IsStatus(b) && p.mode == M.Idle && p.status == 0xF0 && p.channel >= 8 then [p.channel]
    else []
  }

  function HeardOne(f: Firmware, a: Arrival): seq<Byte> {
    match a
    case OnMidi(b) => if IsRealTime(b) then [LowNibble(b)] else []
    case OnSelectBus(b) => HeardOnBus(f.bus, b)
  }

  /** The real-time messages heard in a stream of arrivals, in order. */
  function Heard(f: Firmware, arrivals: seq<Arrival>): seq<Byte>
    decreases |arrivals|
  {
    if arrivals == [] then [] else HeardOne(f, arrivals[0]) + Heard(Receive(f, arrivals[0]), arrivals[1..])
  }

  function Run(c: M.Clock, kinds: seq<Byte>): M.Clock
    decreases |kinds|
  {
    if kinds == [] then c else Run(M.ClockStep(c, kinds[0]), kinds[1..])
  }

  lemma BusStep(c: M.Clock, p: R.Parser, b: Byte)
    requires Possible(p)
    ensures Handled(c, R.Step(p, b).events) == Run(c, HeardOnBus(p, b))
  {
    var calls := R.Step(p, b).events;
    assert b == HighNibble(b) + LowNibble(b);
    assert |calls| <= 1;
    assert calls != [] ==> Handled(c, calls) == Handled(if RealTimeCall(calls[0]) then M.ClockStep(c, calls[0].channel)
                                                         else c, []);
    var kinds := HeardOnBus(p, b);
    assert kinds != [] ==> Run(c, kinds) == Run(M.ClockStep(c, kinds[0]), []);
  }

  lemma ReceiveHears(f: Firmware, a: Arrival)
    requires Possible(f.bus)
    ensures Receive(f, a).clock == Run(f.clock, HeardOne(f, a)) && Possible(Receive(f, a).bus)
  {
    match a
    case OnMidi(b) =>
      M.ClockOfStep(f.clock, f.midi, b);
      assert IsRealTime(b) ==> Run(f.clock, [LowNibble(b)]) == Run(M.ClockStep(f.clock, LowNibble(b)), []);
    case OnSelectBus(b) =>
      BusStep(f.clock, f.bus, b);
      StaysPossible(f.bus, b);
  }

  lemma {:induction false} RunConcat(c: M.Clock, a: seq<Byte>, b: seq<Byte>)
    ensures Run(c, a + b) == Run(Run(c, a), b)
    decreases |a|
  {
    if a == [] {
      assert a + b == b;
    } else {
      assert (a + b)[1..] == a[1..] + b;
      RunConcat(M.ClockStep(c, a[0]), a[1..], b);
    }
  }

  /** The clock hears the same messages, however the two inputs interleave. */
  lemma {:induction false} ClockHears(f: Firmware, arrivals: seq<Arrival>)
    requires Possible(f.bus)
    ensures After(f, arrivals).clock == Run(f.clock, Heard(f, arrivals)) && Possible(After(f, arrivals).bus)
    decreases |arrivals|
  {
    if arrivals != [] {
      ReceiveHears(f, arrivals[0]);
      ClockHears(Receive(f, arrivals[0]), arrivals[1..]);
      RunConcat(f.clock, HeardOne(f, arrivals[0]), Heard(Receive(f, arrivals[0]), arrivals[1..]));
    }
  }

  lemma {:induction false} AfterConcat(f: Firmware, a: seq<Arrival>, b: seq<Arrival>)
    ensures After(f, a + b) == After(After(f, a), b)
    decreases |a|
  {
    if a == [] {
      assert a + b == b;
    } else {
      assert (a + b)[1..] == a[1..] + b;
      AfterConcat(Receive(f, a[0]), a[1..], b);
    }
  }

  lemma {:induction false} CountClocks(c: M.Clock, kinds: seq<Byte>)
    requires c.counter < M.CLOCKS_PER_LOOP && 0xA !in kinds
    ensures Run(c, kinds) == M.Ticked(c, M.Count(kinds, 8))
    decreases |kinds|
  {
    if kinds != [] {
      assert kinds[0] != 0xA;
      CountClocks(M.ClockStep(c, kinds[0]), kinds[1..]);
      if kinds[0] == 8 {
        M.TickedNext(c, M.Count(kinds[1..], 8));
      }
    }
  }

  lemma {:induction false} RunBounded(c: M.Clock, kinds: seq<Byte>)
    requires c.counter < M.CLOCKS_PER_LOOP
    ensures Run(c, kinds).counter < M.CLOCKS_PER_LOOP
    decreases |kinds|
  {
    if kinds != [] {
      RunBounded(M.ClockStep(c, kinds[0]), kinds[1..]);
    }
  }

  /** In every interleaving of the two inputs, with whatever messages around them, the clock follows the latest Start
    heard on either: the counter is the number of clocks heard on both since then, less one, within the loop. */
  lemma ClockAfterStart(f: Firmware, before: seq<Arrival>, start: Arrival, since: seq<Arrival>)
    requires f.clock.counter < M.CLOCKS_PER_LOOP && Possible(f.bus)
    requires HeardOne(After(f, before), start) == [0xA]
    requires 0xA !in Heard(Receive(After(f, before), start), since)
    ensures var clocks := M.Count(Heard(Receive(After(f, before), start), since), 8);
            After(f, before + [start] + since).clock ==
            if clocks == 0 then M.Clock(true, After(f, before).clock.counter)
            else M.Clock(false, (clocks - 1) % 384)
  {
    var g := After(f, before);
    var h := Receive(g, start);
    AfterConcat(f, before + [start], since);
    AfterConcat(f, before, [start]);
    assert [start][1..] == [];
    ClockHears(f, before);
    RunBounded(f.clock, Heard(f, before));
    ReceiveHears(g, start);
    assert Run(g.clock, [0xA]) == Run(M.ClockStep(g.clock, 0xA), []);
    ClockHears(h, since);
    CountClocks(h.clock, Heard(h, since));
  }

  // ---------- Where the clock follows what was sent ----------

  /** The real-time message a byte is, wherever it stands. */
  function SentOne(a: Arrival): seq<Byte> {
    if IsRealTime(a.b) then [LowNibble(a.b)] else []
  }

  function Sent(arrivals: seq<Arrival>): seq<Byte> {
    if arrivals == [] then [] else SentOne(arrivals[0]) + Sent(arrivals[1..])
  }

  /** A real-time byte inside another message on the bus is lost. */
  predicate Lost(f: Firmware, a: Arrival) {
    a.OnSelectBus? && IsRealTime(a.b) && f.bus.mode != M.Idle && f.bus.mode != M.WantSysex
  }

  /** A data byte behind a real-time message on the bus repeats it. */
  predicate Repeats(f: Firmware, a: Arrival) {
    a.OnSelectBus? && !IsStatus(a.b) && f.bus.mode == M.Idle && f.bus.status == 0xF0 && f.bus.channel >= 8
  }

  /** Whether a real-time message changes the clock: a clock always does, and a start unless one is pending. */
  predicate Moves(c: M.Clock, kind: Byte) {
    kind == 8 || (kind == 0xA && !c.first)
  }

  predicate Misled(f: Firmware, a: Arrival) {
    (Lost(f, a) && Moves(f.clock, LowNibble(a.b))) || (Repeats(f, a) && Moves(f.clock, f.bus.channel))
  }

  lemma StepFollows(f: Firmware, a: Arrival)
    requires Possible(f.bus)
    ensures Receive(f, a).clock == Run(f.clock, SentOne(a)) <==> !Misled(f, a)
  {
    ReceiveHears(f, a);
    RunOne(f.clock, if Lost(f, a) then LowNibble(a.b) else f.bus.channel);
    assert Lost(f, a) || Repeats(f, a) || HeardOne(f, a) == SentOne(a);
  }

  lemma RunOne(c: M.Clock, kind: Byte)
    ensures Run(c, [kind]) == M.ClockStep(c, kind) && (M.ClockStep(c, kind) != c <==> Moves(c, kind))
  {
    assert Run(c, [kind]) == Run(M.ClockStep(c, kind), [kind][1..]);
  }

  lemma {:induction false} SentSnoc(arrivals: seq<Arrival>, a: Arrival)
    ensures Sent(arrivals + [a]) == Sent(arrivals) + SentOne(a)
    decreases |arrivals|
  {
    if arrivals == [] {
      assert arrivals + [a] == [a] && [a][1..] == [];
    } else {
      assert (arrivals + [a])[1..] == arrivals[1..] + [a];
      SentSnoc(arrivals[1..], a);
    }
  }

  /** After n arrivals the clock is what the real-time bytes among them, as sent, make it. */
  predicate Follows(f: Firmware, arrivals: seq<Arrival>, n: nat)
    requires n <= |arrivals|
  {
    After(f, arrivals[..n]).clock == Run(f.clock, Sent(arrivals[..n]))
  }

  /** If it was so far, it is after one more arrival exactly if that does not mislead it. */
  lemma NextFollows(f: Firmware, arrivals: seq<Arrival>, n: nat)
    requires Possible(f.bus) && n < |arrivals| && Follows(f, arrivals, n)
    ensures Follows(f, arrivals, n + 1) <==> !Misled(After(f, arrivals[..n]), arrivals[n])
  {
    var front, a := arrivals[..n], arrivals[n];
    assert arrivals[..n + 1] == front + [a] && [a][1..] == [];
    AfterConcat(f, front, [a]);
    SentSnoc(front, a);
    RunConcat(f.clock, Sent(front), SentOne(a));
    ClockHears(f, front);
    StepFollows(After(f, front), a);
  }

  lemma {:induction false} FollowsUpTo(f: Firmware, arrivals: seq<Arrival>, n: nat)
    requires Possible(f.bus) && n <= |arrivals|
    requires forall j :: 0 <= j < n ==> !Misled(After(f, arrivals[..j]), arrivals[j])
    ensures Follows(f, arrivals, n)
    decreases n
  {
    if n == 0 {
      assert arrivals[..0] == [];
    } else {
      FollowsUpTo(f, arrivals, n - 1);
      NextFollows(f, arrivals, n - 1);
    }
  }

  /** In every interleaving of the two inputs the clock is throughout what the real-time bytes as sent make it, if and
    only if no clock, and no start that matters, arrives inside another message on the bus or is repeated there by a
    data byte behind it. */
  lemma ClockFollowsSent(f: Firmware, arrivals: seq<Arrival>)
    requires Possible(f.bus)
    ensures (forall n :: 0 <= n <= |arrivals| ==> Follows(f, arrivals, n)) <==>
            (forall j :: 0 <= j < |arrivals| ==> !Misled(After(f, arrivals[..j]), arrivals[j]))
  {
    if forall n :: 0 <= n <= |arrivals| ==> Follows(f, arrivals, n) {
      forall j | 0 <= j < |arrivals|
        ensures !Misled(After(f, arrivals[..j]), arrivals[j])
      {
        assert Follows(f, arrivals, j) && Follows(f, arrivals, j + 1);
        NextFollows(f, arrivals, j);
      }
    }
    if forall j :: 0 <= j < |arrivals| ==> !Misled(After(f, arrivals[..j]), arrivals[j]) {
      forall n | 0 <= n <= |arrivals|
        ensures Follows(f, arrivals, n)
      {
        FollowsUpTo(f, arrivals, n);
      }
    }
  }

  function OnBus(bytes: seq<Byte>): (arrivals: seq<Arrival>)
    ensures |arrivals| == |bytes| && forall k :: 0 <= k < |bytes| ==> arrivals[k] == OnSelectBus(bytes[k])
  {
    seq(|bytes|, i requires 0 <= i < |bytes| => OnSelectBus(bytes[i]))
  }

  lemma {:induction false} ClocksBehind(f: Firmware, data: seq<Byte>)
    requires f.bus.mode == M.Idle && f.bus.status == 0xF0 && f.bus.channel == 8 && AllData(data)
    ensures M.Count(Heard(f, OnBus(data)), 8) == |data|
    decreases |data|
  {
    if data != [] {
      var arrivals := OnBus(data);
      var g := Receive(f, arrivals[0]);
      assert arrivals[1..] == OnBus(data[1..]);
      ClocksBehind(g, data[1..]);
      assert ([8] + Heard(g, arrivals[1..]))[1..] == Heard(g, arrivals[1..]);
    }
  }

  /** A clock on the Select Bus between messages counts once, and once more for each data byte behind it. */
  lemma ClocksRepeat(f: Firmware, data: seq<Byte>)
    requires f.bus.mode == M.Idle || f.bus.mode == M.WantSysex
    requires AllData(data)
    ensures M.Count(Heard(f, OnBus([0xF8] + data)), 8) == 1 + |data|
  {
    var arrivals := OnBus([0xF8] + data);
    var g := Receive(f, arrivals[0]);
    assert HighNibble(0xF8) == 0xF0 && LowNibble(0xF8) == 8;
    assert arrivals[1..] == OnBus(data);
    ClocksBehind(g, data);
    assert ([8] + Heard(g, arrivals[1..]))[1..] == Heard(g, arrivals[1..]);
  }
}
