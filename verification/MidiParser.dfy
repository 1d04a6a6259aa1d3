/** The MIDI input parser of src/midi.c.

  `Step` says what one received byte does; the class MidiIn is the parser as the source has it, with its
  static variables as fields and its two mutually recursive functions as methods, and is proved to do
  what `Step` says. */
module MidiParser {
  import opened Bytes

  const MAX_SYSEX := 4096
  const CLOCKS_PER_LOOP := 96 * 4

  /** The manufacturer prefix that marks a message as the module's own. */
  const SYSEX_ID: seq<Byte> := [0xF0, 0x00, 0x21, 0x27]

  datatype Mode = Idle | WantByte1of1 | WantByte1of2 | WantByte2 | WantSysex

  /** What the parser tells the rest of the firmware. A Message carries the bytes received for it. */
  datatype Event =
    | RealTime(kind: Byte)
    | Message(status: Byte, channel: Byte, data: seq<Byte>)
    | NativeSysex(buffer: seq<Byte>)
    | NonRealTimeSysex(buffer: seq<Byte>)

  datatype Parser = Parser(mode: Mode, status: Byte, channel: Byte, first: Byte, sysex: seq<Byte>)

  /** The status in force for running status: set by a channel message, cancelled by system messages. */
  datatype Running = NoStatus | Status(status: Byte, channel: Byte)

  datatype Outcome = Outcome(parser: Parser, events: seq<Event>)

  const INITIAL := Parser(Idle, 0, 0, 0, [])

  predicate TwoDataBytes(status: Byte) {
    status == 0x80 || status == 0x90 || status == 0xA0 || status == 0xB0 || status == 0xE0
  }

  predicate OneDataByte(status: Byte) {
    status == 0xC0 || status == 0xD0
  }

  /** The capture buffer takes no more than MAX_SYSEX bytes and drops the rest. */
  function Grow(buffer: seq<Byte>, b: Byte): seq<Byte> {
    if |buffer| < MAX_SYSEX then buffer + [b] else buffer
  }

  function EndOfSysex(buffer: seq<Byte>): seq<Event> {
    if |buffer| > 4 && buffer[..4] == SYSEX_ID then [NativeSysex(buffer)]
    else if |buffer| > 2 && buffer[1] == 0x7E then [NonRealTimeSysex(buffer)]
    else []
  }

  /** The switch on the status in force: a new status byte replaces it, a data byte leaves it. */
  function Latch(p: Parser, b: Byte): Parser {
    var q := if IsStatus(b) then p.(status := HighNibble(b), channel := LowNibble(b)) else p;
    if TwoDataBytes(q.status) then q.(mode := WantByte1of2)
    else if OneDataByte(q.status) then q.(mode := WantByte1of1)
    else if q.status == 0xF0 && q.channel == 0 then q.(mode := WantSysex, sysex := [b])
    else q
  }

  /** A byte that belongs to the message being collected. */
  function Collect(p: Parser, b: Byte): Outcome {
    match p.mode
    case Idle => Outcome(p, [])
    case WantByte1of1 => Outcome(p.(mode := Idle, first := b), [Message(p.status, p.channel, [b])])
    case WantByte1of2 => Outcome(p.(mode := WantByte2, first := b), [])
    case WantByte2 => Outcome(p.(mode := Idle), [Message(p.status, p.channel, [p.first, b])])
    case WantSysex =>
      var buffer := Grow(p.sysex, b);
      if IsStatus(b) then Outcome(p.(mode := Idle, sysex := buffer), EndOfSysex(buffer))
      else Outcome(p.(sysex := buffer), [])
  }

  function OnStatus(p: Parser, b: Byte): Outcome {
    var q := Latch(p, b);
    if IsStatus(b) then Outcome(q, []) else Collect(q, b)
  }

  /** One received byte. */
  function Step(p: Parser, b: Byte): Outcome {
    if IsRealTime(b) then Outcome(p, [RealTime(LowNibble(b))])
    else if p.mode == Idle then OnStatus(p, b)
    else if p.mode == WantSysex && IsStatus(b) && b != 0xF7 then
      OnStatus(p.(mode := Idle, sysex := Grow(p.sysex, b)), b)
    else Collect(p, b)
  }

  /** The parser after a whole stream. */
  function After(p: Parser, bs: seq<Byte>): Parser
    decreases |bs|
  {
    if bs == [] then p else After(Step(p, bs[0]).parser, bs[1..])
  }

  /** The events of a stream, byte by byte. */
  function Trace(p: Parser, bs: seq<Byte>): (t: seq<seq<Event>>)
    ensures |t| == |bs|
    decreases |bs|
  {
    if bs == [] then [] else [Step(p, bs[0]).events] + Trace(Step(p, bs[0]).parser, bs[1..])
  }

  /** The events of a stream, in one list. */
  function Log(p: Parser, bs: seq<Byte>): seq<Event>
    decreases |bs|
  {
    if bs == [] then [] else Step(p, bs[0]).events + Log(Step(p, bs[0]).parser, bs[1..])
  }

  lemma OneByte(p: Parser, bs: seq<Byte>)
    requires |bs| == 1
    ensures var o := Step(p, bs[0]);
            Trace(p, bs) == [o.events] && Log(p, bs) == o.events && After(p, bs) == o.parser
  {
  }

  lemma TwoBytes(p: Parser, bs: seq<Byte>)
    requires |bs| == 2
    ensures var a := Step(p, bs[0]);
            var b := Step(a.parser, bs[1]);
            && Trace(p, bs) == [a.events, b.events] && Log(p, bs) == a.events + b.events
            && After(p, bs) == b.parser
  {
    OneByte(Step(p, bs[0]).parser, bs[1..]);
  }

  lemma {:induction false} AfterConcat(p: Parser, a: seq<Byte>, b: seq<Byte>)
    ensures After(p, a + b) == After(After(p, a), b)
    decreases |a|
  {
    if a == [] {
      assert a + b == b;
    } else {
      assert (a + b)[1..] == a[1..] + b;
      AfterConcat(Step(p, a[0]).parser, a[1..], b);
    }
  }

  lemma {:induction false} TraceConcat(p: Parser, a: seq<Byte>, b: seq<Byte>)
    ensures Trace(p, a + b) == Trace(p, a) + Trace(After(p, a), b)
    decreases |a|
  {
    if a == [] {
      assert a + b == b;
    } else {
      assert (a + b)[1..] == a[1..] + b;
      TraceConcat(Step(p, a[0]).parser, a[1..], b);
    }
  }

  /** The events at one byte are those of that byte in the state all earlier bytes lead to. */
  lemma {:induction false} TraceAt(p: Parser, bs: seq<Byte>, j: nat)
    requires j < |bs|
    ensures Trace(p, bs)[j] == Step(After(p, bs[..j]), bs[j]).events
    decreases j
  {
    if j > 0 {
      assert bs[..j][1..] == bs[1..][..j - 1];
      TraceAt(Step(p, bs[0]).parser, bs[1..], j - 1);
    }
  }

  lemma {:induction false} AfterSnoc(p: Parser, bs: seq<Byte>, j: nat)
    requires j < |bs|
    ensures After(p, bs[..j + 1]) == Step(After(p, bs[..j]), bs[j]).parser
  {
    assert bs[..j + 1] == bs[..j] + [bs[j]];
    AfterConcat(p, bs[..j], [bs[j]]);
  }

  /** From power-up, data bytes are ignored. */
  lemma {:induction false} PowerUp(data: seq<Byte>)
    requires AllData(data)
    ensures Log(INITIAL, data) == [] && After(INITIAL, data) == INITIAL
    decreases |data|
  {
    if data != [] {
      PowerUp(data[1..]);
    }
  }

  // ---------- Real-time bytes ----------

  /** The stream without its real-time bytes. */
  function Strip(bs: seq<Byte>): (r: seq<Byte>)
    ensures |r| <= |bs|
    ensures forall k :: 0 <= k < |r| ==> !IsRealTime(r[k])
  {
    if bs == [] then []
    else if IsRealTime(bs[0]) then Strip(bs[1..])
    else [bs[0]] + Strip(bs[1..])
  }

  /** The events of a stream whose other bytes have the events `t`: each real-time byte reports at its place. */
  function Weave(bs: seq<Byte>, t: seq<seq<Event>>): seq<Event>
    requires |t| == |Strip(bs)|
  {
    if bs == [] then []
    else if IsRealTime(bs[0]) then [RealTime(LowNibble(bs[0]))] + Weave(bs[1..], t)
    else t[0] + Weave(bs[1..], t[1..])
  }

  /** Real-time bytes may stand anywhere: they report at once and disturb nothing else. */
  lemma {:induction false} RealTimeTransparent(p: Parser, bs: seq<Byte>)
    ensures After(p, bs) == After(p, Strip(bs))
    ensures Log(p, bs) == Weave(bs, Trace(p, Strip(bs)))
    decreases |bs|
  {
    if bs != [] {
      if IsRealTime(bs[0]) {
        RealTimeTransparent(p, bs[1..]);
      } else {
        assert Strip(bs)[1..] == Strip(bs[1..]);
        RealTimeTransparent(Step(p, bs[0]).parser, bs[1..]);
      }
    }
  }

  // ---------- The MIDI clock ----------

  datatype Clock = Clock(first: bool, counter: nat)

  /** DefaultProcessRealTime. */
  function ClockStep(c: Clock, kind: Byte): Clock {
    if kind == 0xA then c.(first := true)
    else if kind == 0x8 then
      if c.first then Clock(false, 0)
      else c.(counter := if c.counter + 1 >= CLOCKS_PER_LOOP then 0 else c.counter + 1)
    else c
  }

  function ClockRun(c: Clock, events: seq<Event>): Clock
    decreases |events|
  {
    if events == [] then c
    else ClockRun(if events[0].RealTime? then ClockStep(c, events[0].kind) else c, events[1..])
  }

  lemma {:induction false} ClockRunConcat(c: Clock, a: seq<Event>, b: seq<Event>)
    ensures ClockRun(c, a + b) == ClockRun(ClockRun(c, a), b)
    decreases |a|
  {
    if a == [] {
      assert a + b == b;
    } else {
      assert (a + b)[1..] == a[1..] + b;
      ClockRunConcat(if a[0].RealTime? then ClockStep(c, a[0].kind) else c, a[1..], b);
    }
  }

  /** Only real-time bytes move the clock. */
  lemma ClockOfStep(c: Clock, p: Parser, b: Byte)
    ensures ClockRun(c, Step(p, b).events) == if IsRealTime(b) then ClockStep(c, LowNibble(b)) else c
  {
  }

  function Count(bs: seq<Byte>, b: Byte): nat {
    if bs == [] then 0 else (if bs[0] == b then 1 else 0) + Count(bs[1..], b)
  }

  function Ticked(c: Clock, clocks: nat): Clock {
    if clocks == 0 then c
    else Clock(false, (if c.first then clocks - 1 else c.counter + clocks) % CLOCKS_PER_LOOP)
  }

  lemma TickedNext(c: Clock, clocks: nat)
    requires c.counter < CLOCKS_PER_LOOP
    ensures Ticked(ClockStep(c, 0x8), clocks) == Ticked(c, clocks + 1)
  {
  }

  lemma {:induction false} ClockFromHere(c: Clock, p: Parser, bs: seq<Byte>)
    requires c.counter < CLOCKS_PER_LOOP
    requires 0xFA !in bs
    ensures ClockRun(c, Log(p, bs)) == Ticked(c, Count(bs, 0xF8))
    decreases |bs|
  {
    if bs != [] {
      var o := Step(p, bs[0]);
      ClockRunConcat(c, o.events, Log(o.parser, bs[1..]));
      ClockOfStep(c, p, bs[0]);
      assert bs[0] != 0xFA;
      var d := if bs[0] == 0xF8 then ClockStep(c, 0x8) else c;
      ClockFromHere(d, o.parser, bs[1..]);
      if bs[0] == 0xF8 {
        TickedNext(c, Count(bs[1..], 0xF8));
      }
    }
  }

  lemma {:induction false} LogConcat(p: Parser, a: seq<Byte>, b: seq<Byte>)
    ensures Log(p, a + b) == Log(p, a) + Log(After(p, a), b)
    decreases |a|
  {
    if a == [] {
      assert a + b == b;
    } else {
      assert (a + b)[1..] == a[1..] + b;
      LogConcat(Step(p, a[0]).parser, a[1..], b);
    }
  }

  lemma {:induction false} ClockBounded(c: Clock, events: seq<Event>)
    requires c.counter < CLOCKS_PER_LOOP
    ensures ClockRun(c, events).counter < CLOCKS_PER_LOOP
    decreases |events|
  {
    if events != [] {
      ClockBounded(if events[0].RealTime? then ClockStep(c, events[0].kind) else c, events[1..]);
    }
  }

  /** The clock follows the latest Start in the stream: with whatever messages around them, the counter is the
    number of clocks since then, less one, within the four-bar loop. */
  lemma ClockAfterStart(c: Clock, p: Parser, before: seq<Byte>, since: seq<Byte>)
    requires c.counter < CLOCKS_PER_LOOP && 0xFA !in since
    ensures var clocks := Count(since, 0xF8);
            ClockRun(c, Log(p, before + [0xFA] + since)) ==
            if clocks == 0 then Clock(true, ClockRun(c, Log(p, before)).counter)
            else Clock(false, (clocks - 1) % 384)
  {
    var q := After(p, before);
    LogConcat(p, before + [0xFA], since);
    LogConcat(p, before, [0xFA]);
    AfterConcat(p, before, [0xFA]);
    assert [0xFA][1..] == [] && LowNibble(0xFA) == 0xA;
    assert Log(q, [0xFA]) == [RealTime(0xA)] && After(q, [0xFA]) == q;
    ClockRunConcat(c, Log(p, before + [0xFA]), Log(q, since));
    ClockRunConcat(c, Log(p, before), [RealTime(0xA)]);
    assert [RealTime(0xA)][1..] == [];
    ClockBounded(c, Log(p, before));
    ClockFromHere(ClockStep(ClockRun(c, Log(p, before)), 0xA), q, since);
  }
}
