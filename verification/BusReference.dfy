/** A receiver on the Select Bus as the MIDI 1.0 Detailed Specification (v4.2) has it, with F4 n to save a slot and
  messages routed as src/recall.c routes them, and exactly where the parser of src/recall.c departs from it over
  arbitrary byte streams. */
module BusReference {
  import opened Bytes
  import M = MidiParser
  import opened RecallParser

  /** A channel message in progress is the running status and the data bytes so far; a sysex is all of it so far. */
  datatype Receiver =
    | Listening(running: M.Running, pending: seq<Byte>)
    | AwaitingSlot
    | Capturing(buffer: seq<Byte>)

  datatype Bus = Bus(receiver: Receiver, saveMode: bool)

  datatype Heard = Heard(bus: Bus, events: seq<Event>)

  const SILENT := Listening(M.NoStatus, [])

  function DataBytes(status: Byte): nat {
    if 0xC0 <= status < 0xE0 then 1 else 2
  }

  /** A complete sysex is reported as the module's own by its first bytes. */
  function Reported(sysex: seq<Byte>): seq<Event> {
    if [0xF0, 0x00, 0x21, 0x27] <= sysex then [Native(sysex)] else []
  }

  /** A status byte drops what is in progress. A system message goes to the handler at once, without its data. */
  function OnStatusByte(u: Bus, b: Byte): Heard {
    if u.receiver.Capturing? && b == 0xF7 then Heard(u.(receiver := SILENT), Reported(u.receiver.buffer + [b]))
    else if b < 0xF0 then Heard(u.(receiver := Listening(M.Status(HighNibble(b), LowNibble(b)), [])), [])
    else if b == 0xF0 then Heard(u.(receiver := Capturing([b])), [])
    else if b == 0xF4 then Heard(u.(receiver := AwaitingSlot), [])
    else Heard(u.(receiver := SILENT), [Handler(0xF0, LowNibble(b), [])])
  }

  function OnDataByte(u: Bus, b: Byte): Heard {
    match u.receiver
    case Capturing(buffer) => Heard(u.(receiver := Capturing(buffer + [b])), [])
    case AwaitingSlot => Heard(u.(receiver := SILENT), if b < 0x40 then [Save(b)] else [])
    case Listening(running, pending) =>
      if running.NoStatus? then Heard(u, [])
      else if |pending| + 1 == DataBytes(running.status) then
        Heard(Bus(Listening(running, []), SaveModeBehind(u.saveMode, running, pending + [b])),
              RouteChannel(u.saveMode, running.status, running.channel, pending + [b]))
      else Heard(u.(receiver := Listening(running, pending + [b])), [])
  }

  function SaveModeBehind(saveMode: bool, running: M.Running, data: seq<Byte>): bool
    requires running.Status?
  {
    if running == M.Status(0xB0, 0) && |data| == 2 && data[0] == 16 then data[1] == 127 else saveMode
  }

  /** A real-time byte is heard at once and leaves everything as it is. */
  function Receive(u: Bus, b: Byte): Heard {
    if IsRealTime(b) then Heard(u, [Handler(0xF0, LowNibble(b), [])])
    else if IsStatus(b) then OnStatusByte(u, b)
    else OnDataByte(u, b)
  }

  function BusAfter(u: Bus, bs: seq<Byte>): Bus
    decreases |bs|
  {
    if bs == [] then u else BusAfter(Receive(u, bs[0]).bus, bs[1..])
  }

  /** The events byte by byte, of the receiver and of the parser. */
  function BusTrace(u: Bus, bs: seq<Byte>): (t: seq<seq<Event>>)
    ensures |t| == |bs|
    decreases |bs|
  {
    if bs == [] then [] else [Receive(u, bs[0]).events] + BusTrace(Receive(u, bs[0]).bus, bs[1..])
  }

  function Trace(p: Parser, bs: seq<Byte>): (t: seq<seq<Event>>)
    ensures |t| == |bs|
    decreases |bs|
  {
    if bs == [] then [] else [Step(p, bs[0]).events] + Trace(Step(p, bs[0]).parser, bs[1..])
  }

  // ---------- In step ----------

  predicate Bogus(p: Parser) {
    p.mode == M.WantSysex && |p.sysex| > 0 && !IsStatus(p.sysex[0])
  }

  predicate ChannelMode(status: Byte) {
    M.TwoDataBytes(status) || M.OneDataByte(status)
  }

  predicate InStep(p: Parser, u: Bus) {
    && p.saveMode == u.saveMode && p.channel < 16
    && match p.mode
       case Idle =>
         if ChannelMode(p.status) then u.receiver == Listening(M.Status(p.status, p.channel), [])
         else u.receiver == SILENT || (p.status == 0xF0 && p.channel == 4 && u.receiver.AwaitingSlot?)
       case WantByte1of1 =>
         if p.status == 0xF0 then p.channel == 4 && u.receiver.AwaitingSlot?
         else M.OneDataByte(p.status) && u.receiver == Listening(M.Status(p.status, p.channel), [])
       case WantByte1of2 =>
         M.TwoDataBytes(p.status) && u.receiver == Listening(M.Status(p.status, p.channel), [])
       case WantByte2 =>
         && M.TwoDataBytes(p.status) && !IsStatus(p.first)
         && u.receiver == Listening(M.Status(p.status, p.channel), [p.first])
       case WantSysex =>
         && p.status == 0xF0 && p.channel == 0
         && if Bogus(p) then u.receiver == SILENT
            else Captures(p, u.receiver)
  }

  predicate Captures(p: Parser, r: Receiver) {
    r.Capturing? && |r.buffer| > 0 && r.buffer[0] == 0xF0 && p.sysex == Cut(r.buffer)
  }

  /** Where the parser departs. Between messages: a real-time byte under running status or behind F4, for it replaces
    the status; a data byte behind a system message, and one below 0x40 behind F4 n, for they act as if they belonged
    to another such message. In a message: a status byte, for it is taken as data. In a sysex: a real-time byte, for
    it breaks the sysex off, and the end of one that is too long; and 0xF7 in a capture that a data byte opened. */
  predicate Departs(p: Parser, u: Bus, b: Byte) {
    match p.mode
    case Idle =>
      if IsRealTime(b) then u.receiver != SILENT
      else !IsStatus(b) && u.receiver == SILENT && p.status == 0xF0 && p.channel != 0 && (p.channel == 4 ==> b < 0x40)
    case WantByte1of1 => IsStatus(b) && !(p.status == 0xF0 && b == 0xF4)
    case WantByte1of2 => IsStatus(b)
    case WantByte2 => IsStatus(b) && !(LosesNothing(p) && b == 0xB0)
    case WantSysex =>
      if Bogus(p) then b == 0xF7
      else IsRealTime(b) || (b == 0xF7 && |p.sysex| == 20 && Reported(p.sysex) != [])
  }

  /** Controller 16 on channel 0 broken off by its own status byte, with the save mode off as it then sets it. */
  predicate LosesNothing(p: Parser) {
    p.status == 0xB0 && p.channel == 0 && p.first == 16 && !p.saveMode
  }

  predicate Follows(p: Parser, u: Bus, b: Byte) {
    Step(p, b).events == Receive(u, b).events && InStep(Step(p, b).parser, Receive(u, b).bus)
  }

  lemma IdleFollows(p: Parser, u: Bus, b: Byte)
    requires InStep(p, u) && p.mode == M.Idle && !Departs(p, u, b)
    ensures Follows(p, u, b)
  {
    if IsStatus(b) {
      StatusFollows(p, u, b);
    } else if ChannelMode(p.status) {
      ChannelDataFollows(p, u, b);
    } else {
      OtherDataFollows(p, u, b);
    }
  }

  lemma StatusFollows(p: Parser, u: Bus, b: Byte)
    requires InStep(p, u) && p.mode == M.Idle && !Departs(p, u, b) && IsStatus(b)
    ensures Follows(p, u, b)
  {
    assert b == HighNibble(b) + LowNibble(b);
    if b == 0xF0 {
      assert Cut([b]) == [b];
    }
  }

  lemma ChannelDataFollows(p: Parser, u: Bus, b: Byte)
    requires InStep(p, u) && p.mode == M.Idle && !IsStatus(b) && ChannelMode(p.status)
    ensures Follows(p, u, b)
  {
    assert [] + [b] == [b];
  }

  lemma OtherDataFollows(p: Parser, u: Bus, b: Byte)
    requires InStep(p, u) && p.mode == M.Idle && !Departs(p, u, b) && !IsStatus(b) && !ChannelMode(p.status)
    ensures Follows(p, u, b)
  {
  }

  lemma MessageFollows(p: Parser, u: Bus, b: Byte)
    requires InStep(p, u) && p.mode != M.Idle && p.mode != M.WantSysex && !Departs(p, u, b)
    ensures Follows(p, u, b)
  {
    assert [] + [b] == [b] && [p.first] + [b] == [p.first, b];
  }

  lemma SysexDataFollows(p: Parser, u: Bus, b: Byte)
    requires InStep(p, u) && p.mode == M.WantSysex && !IsStatus(b)
    ensures Follows(p, u, b)
  {
    assert Grow(p.sysex, b)[0] == p.sysex[0];
    if !Bogus(p) {
      CutGrow(u.receiver.buffer, b);
      assert (u.receiver.buffer + [b])[0] == u.receiver.buffer[0];
    }
  }

  lemma SysexStatusFollows(p: Parser, u: Bus, b: Byte)
    requires InStep(p, u) && p.mode == M.WantSysex && !Departs(p, u, b) && IsStatus(b)
    ensures Follows(p, u, b)
  {
    if b == 0xF7 {
      EndFollows(u.receiver.buffer);
    } else {
      assert b == HighNibble(b) + LowNibble(b);
      if b == 0xF0 {
        assert Cut([b]) == [b];
      }
    }
  }

  /** The same is reported for a sysex and for what fits the buffer, unless that is different. */
  lemma EndFollows(s: seq<Byte>)
    requires s != [] && (|Cut(s)| < 20 || Reported(Cut(s)) == [])
    ensures EndOfSysex(Grow(Cut(s), 0xF7)) == Reported(s + [0xF7])
  {
    var t, u := Grow(Cut(s), 0xF7), s + [0xF7];
    assert |s| >= 4 ==> t[..4] == s[..4] == u[..4];
    if |s| == 3 {
      assert u[3] == 0xF7;
    }
    if |s| >= 20 {
      assert Cut(s)[..4] == s[..4];
    }
  }

  /** A byte that is no departure has the same events, and leaves parser and receiver in step. */
  lemma StepFollows(p: Parser, u: Bus, b: Byte)
    requires InStep(p, u) && !Departs(p, u, b)
    ensures Follows(p, u, b)
  {
    if p.mode == M.Idle {
      IdleFollows(p, u, b);
    } else if p.mode != M.WantSysex {
      MessageFollows(p, u, b);
    } else if IsStatus(b) {
      SysexStatusFollows(p, u, b);
    } else {
      SysexDataFollows(p, u, b);
    }
  }

  // ---------- Wanted continuations ----------

  /** A data byte that ends a message. */
  predicate Completes(u: Bus, b: Byte) {
    match u.receiver
    case Capturing(_) => false
    case AwaitingSlot => true
    case Listening(running, pending) => running.Status? && |pending| + 1 == DataBytes(running.status)
  }

  /** More data bytes of the message in progress, or under running status; and, directly behind a complete message (at
    the start if `done`), the status byte of a channel message. */
  predicate Wanted(u: Bus, done: bool, cs: seq<Byte>)
    decreases |cs|
  {
    cs != [] ==>
      var v := Receive(u, cs[0]).bus;
      if IsStatus(cs[0]) then done && cs[0] < 0xF0 && Wanted(v, false, cs[1..])
      else u.receiver != SILENT && Wanted(v, Completes(u, cs[0]), cs[1..])
  }

  predicate Agree(p: Parser, u: Bus, bs: seq<Byte>) {
    Trace(p, bs) == BusTrace(u, bs)
  }

  lemma CompletesIdle(p: Parser, u: Bus, b: Byte)
    requires InStep(p, u) && !IsStatus(b) && Completes(u, b)
    ensures Step(p, b).parser.mode == M.Idle
  {
  }

  /** In step, they agree on every wanted continuation. */
  lemma {:induction false} WantedAgrees(p: Parser, u: Bus, done: bool, cs: seq<Byte>)
    requires InStep(p, u) && (done ==> p.mode == M.Idle) && Wanted(u, done, cs)
    ensures Agree(p, u, cs)
    decreases |cs|
  {
    if cs != [] {
      var b := cs[0];
      assert !Departs(p, u, b);
      StepFollows(p, u, b);
      if !IsStatus(b) && Completes(u, b) {
        CompletesIdle(p, u, b);
      }
      WantedAgrees(Step(p, b).parser, Receive(u, b).bus, !IsStatus(b) && Completes(u, b), cs[1..]);
    }
  }

  // ---------- What exposes a departure ----------

  /** A wanted continuation on which parser and receiver part, if they have not done so at the departure. */
  function Exposes(p: Parser, u: Bus, b: Byte): seq<Byte> {
    match p.mode
    case Idle => if IsRealTime(b) then [0x45] else []
    case WantByte1of1 => if p.status != 0xF0 || b > 0xF0 then [] else if b == 0xF0 then [1] else [0x45, 0x45]
    case WantByte1of2 => if b <= 0xF0 || b == 0xF4 then [0x45] else []
    case WantByte2 =>
      if !(p.status == 0xB0 && p.channel == 0 && p.first == 16) || (b > 0xF0 && b != 0xF4) then []
      else if b == 0xF4 then [1]
      else if b == 0xB0 then [0x45, 0x45, 0xC0, 1]
      else [0x45, 0x45]
    case WantSysex => if !Bogus(p) && IsRealTime(b) then [1] else []
  }

  lemma DisagreeNow(p: Parser, u: Bus, bs: seq<Byte>)
    requires bs != [] && Step(p, bs[0]).events != Receive(u, bs[0]).events
    ensures !Agree(p, u, bs)
  {
    assert Trace(p, bs)[0] == Step(p, bs[0]).events && BusTrace(u, bs)[0] == Receive(u, bs[0]).events;
  }

  lemma DisagreeLater(p: Parser, u: Bus, bs: seq<Byte>)
    requires bs != [] && !Agree(Step(p, bs[0]).parser, Receive(u, bs[0]).bus, bs[1..])
    ensures !Agree(p, u, bs)
  {
    assert Trace(p, bs)[1..] == Trace(Step(p, bs[0]).parser, bs[1..]);
    assert BusTrace(u, bs)[1..] == BusTrace(Receive(u, bs[0]).bus, bs[1..]);
  }

  /** Data bytes 45 45, of which the first or the second is reported otherwise. */
  lemma TwoDisagree(p: Parser, u: Bus)
    requires var o, h := Step(p, 0x45), Receive(u, 0x45);
             o.events != h.events || Step(o.parser, 0x45).events != Receive(h.bus, 0x45).events
    ensures !Agree(p, u, [0x45, 0x45])
  {
    var bs := [0x45, 0x45];
    assert bs[1..] == [0x45];
    if Step(p, 0x45).events != Receive(u, 0x45).events {
      DisagreeNow(p, u, bs);
    } else {
      DisagreeNow(Step(p, 0x45).parser, Receive(u, 0x45).bus, bs[1..]);
      DisagreeLater(p, u, bs);
    }
  }

  predicate Exposed(p: Parser, u: Bus, b: Byte, cs: seq<Byte>) {
    Wanted(Receive(u, b).bus, false, cs) && !Agree(p, u, [b] + cs)
  }

  /** One more byte suffices. */
  lemma ExposedBy(p: Parser, u: Bus, b: Byte, c: Byte)
    requires !IsStatus(c) && Receive(u, b).bus.receiver != SILENT
    requires Step(Step(p, b).parser, c).events != Receive(Receive(u, b).bus, c).events
    ensures Exposed(p, u, b, [c])
  {
    var bs := [b] + [c];
    assert bs[1..] == [c] && [c][1..] == [];
    DisagreeNow(Step(p, b).parser, Receive(u, b).bus, [c]);
    DisagreeLater(p, u, bs);
  }

  lemma ExposedNow(p: Parser, u: Bus, b: Byte)
    requires Step(p, b).events != Receive(u, b).events
    ensures Exposed(p, u, b, [])
  {
    DisagreeNow(p, u, [b] + []);
  }

  lemma ExposedByTwo(p: Parser, u: Bus, b: Byte)
    requires var q, v := Step(p, b).parser, Receive(u, b).bus;
             && v.receiver != SILENT && Receive(v, 0x45).bus.receiver != SILENT
             && (Step(q, 0x45).events != Receive(v, 0x45).events ||
                 Step(Step(q, 0x45).parser, 0x45).events != Receive(Receive(v, 0x45).bus, 0x45).events)
    ensures Exposed(p, u, b, [0x45, 0x45])
  {
    var cs := [0x45, 0x45];
    assert ([b] + cs)[1..] == cs && cs[1..] == [0x45] && cs[1..][1..] == [];
    TwoDisagree(Step(p, b).parser, Receive(u, b).bus);
    DisagreeLater(p, u, [b] + cs);
  }

  lemma IdleExposed(p: Parser, u: Bus, b: Byte)
    requires InStep(p, u) && p.mode == M.Idle && Departs(p, u, b)
    ensures Exposed(p, u, b, Exposes(p, u, b))
  {
    if IsRealTime(b) {
      ExposedBy(p, u, b, 0x45);
    } else {
      ExposedNow(p, u, b);
    }
  }

  lemma FirstExposed(p: Parser, u: Bus, b: Byte)
    requires InStep(p, u) && p.mode == M.WantByte1of1 && Departs(p, u, b)
    ensures Exposed(p, u, b, Exposes(p, u, b))
  {
    assert b == HighNibble(b) + LowNibble(b);
    if p.status != 0xF0 || b > 0xF0 {
      ExposedNow(p, u, b);
    } else if b == 0xF0 {
      ExposedBy(p, u, b, 1);
    } else {
      ExposedByTwo(p, u, b);
    }
  }

  lemma FirstOfTwoExposed(p: Parser, u: Bus, b: Byte)
    requires InStep(p, u) && p.mode == M.WantByte1of2 && Departs(p, u, b)
    ensures Exposed(p, u, b, Exposes(p, u, b))
  {
    assert b == HighNibble(b) + LowNibble(b);
    if b <= 0xF0 || b == 0xF4 {
      ExposedBy(p, u, b, 0x45);
    } else {
      ExposedNow(p, u, b);
    }
  }

  lemma SysexExposed(p: Parser, u: Bus, b: Byte)
    requires InStep(p, u) && p.mode == M.WantSysex && Departs(p, u, b)
    ensures Exposed(p, u, b, Exposes(p, u, b))
  {
    if !Bogus(p) && IsRealTime(b) {
      ExposedBy(p, u, b, 1);
    } else {
      if Bogus(p) {
        assert Grow(p.sysex, b)[0] == p.sysex[0];
        assert |Grow(p.sysex, b)| > 4 ==> Grow(p.sysex, b)[..4][0] == p.sysex[0] != M.SYSEX_ID[0];
      }
      ExposedNow(p, u, b);
    }
  }

  /** Behind a complete message a program change tells which save mode is on. */
  lemma ProgramChangeExposes(q: Parser, v: Bus)
    requires q.mode == M.Idle && v.receiver.Listening? && q.saveMode != v.saveMode
    ensures Wanted(v, true, [0xC0, 1]) && !Agree(q, v, [0xC0, 1])
  {
    var cs := [0xC0, 1];
    var o, h := Step(q, 0xC0).parser, Receive(v, 0xC0).bus;
    assert HighNibble(0xC0) == 0xC0 && LowNibble(0xC0) == 0;
    assert cs[1..] == [1] && [1][1..] == [] && [] + [1] == [1];
    DisagreeNow(o, h, cs[1..]);
    DisagreeLater(q, v, cs);
  }

  /** So does one behind a controller that is sent under running status first. */
  lemma SaveModeExposed(q: Parser, v: Bus)
    requires q.mode == M.Idle && q.status == 0xB0 && q.channel == 0 && q.saveMode != v.saveMode
    requires v.receiver == Listening(M.Status(0xB0, 0), [])
    ensures Wanted(v, false, [0x45, 0x45, 0xC0, 1]) && !Agree(q, v, [0x45, 0x45, 0xC0, 1])
  {
    var cs := [0x45, 0x45, 0xC0, 1];
    var q1, v1 := Step(q, 0x45).parser, Receive(v, 0x45).bus;
    var q2, v2 := Step(q1, 0x45).parser, Receive(v1, 0x45).bus;
    assert cs[1..][1..] == [0xC0, 1] && cs[1..][0] == 0x45;
    assert [] + [0x45] == [0x45];
    ProgramChangeExposes(q2, v2);
    DisagreeLater(q1, v1, cs[1..]);
    DisagreeLater(q, v, cs);
  }

  lemma ExposedBehind(p: Parser, u: Bus, b: Byte, cs: seq<Byte>)
    requires Wanted(Receive(u, b).bus, false, cs) && !Agree(Step(p, b).parser, Receive(u, b).bus, cs)
    ensures Exposed(p, u, b, cs)
  {
    assert ([b] + cs)[1..] == cs;
    DisagreeLater(p, u, [b] + cs);
  }

  lemma LastExposed(p: Parser, u: Bus, b: Byte)
    requires InStep(p, u) && p.mode == M.WantByte2 && Departs(p, u, b)
    ensures Exposed(p, u, b, Exposes(p, u, b))
  {
    assert b == HighNibble(b) + LowNibble(b);
    if !(p.status == 0xB0 && p.channel == 0 && p.first == 16) || (b > 0xF0 && b != 0xF4) {
      ExposedNow(p, u, b);
    } else if b == 0xF4 {
      ExposedBy(p, u, b, 1);
    } else if b == 0xB0 {
      SaveModeExposed(Step(p, b).parser, Receive(u, b).bus);
      ExposedBehind(p, u, b, Exposes(p, u, b));
    } else {
      ExposedByTwo(p, u, b);
    }
  }

  /** From the two in step, a byte has the same events, and so has every wanted continuation, exactly if the byte is no
    departure. */
  lemma StepExact(p: Parser, u: Bus, b: Byte)
    requires InStep(p, u)
    ensures !Departs(p, u, b) <==>
            forall cs :: Wanted(Receive(u, b).bus, false, cs) ==> Agree(p, u, [b] + cs)
  {
    if !Departs(p, u, b) {
      forall cs | Wanted(Receive(u, b).bus, false, cs)
        ensures Agree(p, u, [b] + cs)
      {
        StepFollows(p, u, b);
        WantedAgrees(Step(p, b).parser, Receive(u, b).bus, false, cs);
        assert ([b] + cs)[1..] == cs;
      }
    } else {
      match p.mode {
        case Idle => IdleExposed(p, u, b);
        case WantByte1of1 => FirstExposed(p, u, b);
        case WantByte1of2 => FirstOfTwoExposed(p, u, b);
        case WantByte2 => LastExposed(p, u, b);
        case WantSysex => SysexExposed(p, u, b);
      }
      assert Exposed(p, u, b, Exposes(p, u, b));
    }
  }

  // ---------- Streams ----------

  predicate Conforms(p: Parser, u: Bus, bs: seq<Byte>)
    decreases |bs|
  {
    bs != [] ==> !Departs(p, u, bs[0]) && Conforms(Step(p, bs[0]).parser, Receive(u, bs[0]).bus, bs[1..])
  }

  /** They agree on the stream cut anywhere and continued as wanted. */
  ghost predicate AgreeThroughout(p: Parser, u: Bus, bs: seq<Byte>) {
    forall k, cs :: 0 <= k <= |bs| && Wanted(BusAfter(u, bs[..k]), false, cs) ==> Agree(p, u, bs[..k] + cs)
  }

  lemma {:induction false} ConformingAgrees(p: Parser, u: Bus, bs: seq<Byte>, k: nat, cs: seq<Byte>)
    requires InStep(p, u) && Conforms(p, u, bs) && k <= |bs| && Wanted(BusAfter(u, bs[..k]), false, cs)
    ensures Agree(p, u, bs[..k] + cs)
    decreases k
  {
    if k == 0 {
      assert bs[..0] + cs == cs;
      WantedAgrees(p, u, false, cs);
    } else {
      var q, v := Step(p, bs[0]).parser, Receive(u, bs[0]).bus;
      StepFollows(p, u, bs[0]);
      assert bs[..k][1..] == bs[1..][..k - 1];
      ConformingAgrees(q, v, bs[1..], k - 1, cs);
      assert (bs[..k] + cs)[1..] == bs[1..][..k - 1] + cs;
    }
  }

  /** The first departure is exposed. */
  lemma {:induction false} DepartureExposed(p: Parser, u: Bus, bs: seq<Byte>) returns (k: nat, cs: seq<Byte>)
    requires InStep(p, u) && !Conforms(p, u, bs)
    ensures k <= |bs| && Wanted(BusAfter(u, bs[..k]), false, cs) && !Agree(p, u, bs[..k] + cs)
    decreases |bs|
  {
    var q, v := Step(p, bs[0]).parser, Receive(u, bs[0]).bus;
    if Departs(p, u, bs[0]) {
      StepExact(p, u, bs[0]);
      k := 1;
      cs :| Wanted(v, false, cs) && !Agree(p, u, [bs[0]] + cs);
      assert bs[..1] == [bs[0]] && bs[..1][1..] == [];
    } else {
      StepFollows(p, u, bs[0]);
      var j, ds := DepartureExposed(q, v, bs[1..]);
      k, cs := j + 1, ds;
      assert bs[..k][1..] == bs[1..][..j];
      assert (bs[..k] + cs)[1..] == bs[1..][..j] + cs;
      DisagreeLater(p, u, bs[..k] + cs);
    }
  }

  /** Over every byte stream the parser routes what the receiver of the specification routes, on the stream cut anywhere
    and continued as wanted, if and only if none of its bytes is a departure. */
  lemma BusConforms(p: Parser, u: Bus, bs: seq<Byte>)
    requires InStep(p, u)
    ensures AgreeThroughout(p, u, bs) <==> Conforms(p, u, bs)
  {
    if Conforms(p, u, bs) {
      forall k, cs | 0 <= k <= |bs| && Wanted(BusAfter(u, bs[..k]), false, cs)
        ensures Agree(p, u, bs[..k] + cs)
      {
        ConformingAgrees(p, u, bs, k, cs);
      }
    } else {
      var k, cs := DepartureExposed(p, u, bs);
    }
  }

  // ---------- Legal streams ----------

  function BusLog(u: Bus, bs: seq<Byte>): seq<Event>
    decreases |bs|
  {
    if bs == [] then [] else Receive(u, bs[0]).events + BusLog(Receive(u, bs[0]).bus, bs[1..])
  }

  lemma {:induction false} BusConcat(u: Bus, a: seq<Byte>, b: seq<Byte>)
    ensures BusAfter(u, a + b) == BusAfter(BusAfter(u, a), b)
    ensures BusLog(u, a + b) == BusLog(u, a) + BusLog(BusAfter(u, a), b)
    decreases |a|
  {
    if a == [] {
      assert a + b == b;
    } else {
      assert (a + b)[1..] == a[1..] + b;
      BusConcat(Receive(u, a[0]).bus, a[1..], b);
    }
  }

  /** The receiver is between messages, or in a sysex yet to be broken off, and remembers the running status. */
  predicate Fits(u: Bus, running: Running) {
    match running
    case NoStatus => u.receiver == SILENT
    case Status(status, channel) => u.receiver == Listening(M.Status(status, channel), [])
    case OpenSysex => u.receiver.Capturing?
  }

  predicate Routes(u: Bus, item: Item, bytes: seq<Byte>)
    requires Shaped(item)
  {
    && BusLog(u, bytes) == Route(PerMessage, u.saveMode, item)
    && Fits(BusAfter(u, bytes), RunningAfter(item))
    && BusAfter(u, bytes).saveMode == SaveMode(u.saveMode, [item])
  }

  lemma BusByte(u: Bus, bs: seq<Byte>)
    requires bs != []
    ensures BusLog(u, bs) == Receive(u, bs[0]).events + BusLog(Receive(u, bs[0]).bus, bs[1..])
    ensures BusAfter(u, bs) == BusAfter(Receive(u, bs[0]).bus, bs[1..])
  {
  }

  lemma ChannelDataRouted(u: Bus, item: Item)
    requires item.Channel? && Shaped(item)
    requires u.receiver == Listening(M.Status(item.status, item.channel), [])
    ensures Routes(u, item, item.data)
  {
    var data := item.data;
    BusByte(u, data);
    assert [] + [data[0]] == [data[0]] && [item][..0] == [];
    if |data| == 1 {
      assert data == [data[0]];
    } else {
      BusByte(Receive(u, data[0]).bus, data[1..]);
      assert data == [data[0]] + [data[1]] && data[1..][1..] == [];
    }
  }

  lemma ChannelStatusHeard(u: Bus, status: Byte, channel: Byte)
    requires ChannelMode(status) && channel < 16
    ensures Receive(u, status + channel) == Heard(u.(receiver := Listening(M.Status(status, channel), [])), [])
  {
    assert HighNibble(status + channel) == status && LowNibble(status + channel) == channel;
  }

  lemma ChannelRouted(u: Bus, running: Running, item: Item)
    requires item.Channel? && LegalItem(running, item) && Fits(u, running)
    ensures Routes(u, item, EncodeItem(item))
  {
    if item.omitStatus {
      assert EncodeItem(item) == item.data;
      ChannelDataRouted(u, item);
    } else {
      var bytes := [item.status + item.channel] + item.data;
      BusByte(u, bytes);
      ChannelStatusHeard(u, item.status, item.channel);
      assert bytes[1..] == item.data;
      ChannelDataRouted(Receive(u, bytes[0]).bus, item);
    }
  }

  lemma SlotRouted(u: Bus, running: Running, item: Item)
    requires item.SaveSlot? && LegalItem(running, item) && Fits(u, running)
    ensures Routes(u, item, EncodeItem(item))
  {
    var bytes := [0xF4, item.n];
    BusByte(u, bytes);
    BusByte(Receive(u, 0xF4).bus, bytes[1..]);
    assert bytes[1..][1..] == [] && [item][..0] == [];
  }

  lemma {:induction false} Ignored(u: Bus, data: seq<Byte>)
    requires u.receiver == SILENT && AllData(data)
    ensures BusAfter(u, data) == u && BusLog(u, data) == []
    decreases |data|
  {
    if data != [] {
      Ignored(u, data[1..]);
    }
  }

  lemma SystemRouted(u: Bus, running: Running, item: Item)
    requires item.System? && LegalItem(running, item) && Fits(u, running) && item.id < 8
    ensures Routes(u, item, EncodeItem(item))
  {
    var bytes := EncodeItem(item);
    BusByte(u, bytes);
    assert LowNibble(bytes[0]) == item.id && bytes[1..] == item.data && [item][..0] == [];
    Ignored(Receive(u, bytes[0]).bus, item.data);
  }

  lemma {:induction false} BodyCaptured(u: Bus, body: seq<Byte>)
    requires u.receiver.Capturing? && AllData(body)
    ensures BusLog(u, body) == [] && BusAfter(u, body) == u.(receiver := Capturing(u.receiver.buffer + body))
    decreases |body|
  {
    if body == [] {
      assert u.receiver.buffer + body == u.receiver.buffer;
    } else {
      assert u.receiver.buffer + [body[0]] + body[1..] == u.receiver.buffer + body;
      BodyCaptured(Receive(u, body[0]).bus, body[1..]);
    }
  }

  /** No real-time message, which the receiver hears in passing, and no sysex too long for the parser. */
  predicate Plain(item: Item) {
    (item.System? ==> item.id < 8) && (item.Sysex? && item.ended ==> |item.body| + 2 <= 20)
  }

  lemma ReportedByBody(body: seq<Byte>)
    ensures var whole := [0xF0] + body + [0xF7];
            Reported(whole) == if [0x00, 0x21, 0x27] <= body then [Native(whole)] else []
  {
    var whole := [0xF0] + body + [0xF7];
    assert |body| >= 3 ==> whole[..4] == [0xF0] + body[..3];
    assert [0xF0, 0x00, 0x21, 0x27][1..] == [0x00, 0x21, 0x27];
    if |body| >= 3 {
      assert whole[..4][1..] == body[..3];
    } else if |body| == 2 {
      assert whole[3] == 0xF7;
    }
  }

  lemma SysexRouted(u: Bus, running: Running, item: Item)
    requires item.Sysex? && LegalItem(running, item) && Fits(u, running) && Plain(item)
    ensures Routes(u, item, EncodeItem(item))
  {
    var head := [0xF0] + item.body;
    var v := Receive(u, 0xF0).bus;
    assert head[1..] == item.body && [item][..0] == [];
    BusByte(u, head);
    BodyCaptured(v, item.body);
    if item.ended {
      BusConcat(u, head, [0xF7]);
      BusByte(BusAfter(u, head), [0xF7]);
      assert [0xF0] + item.body + [0xF7] == EncodeItem(item) && [0xF7][1..] == [];
      ReportedByBody(item.body);
    } else {
      assert EncodeItem(item) == head;
    }
  }

  lemma ItemRouted(u: Bus, running: Running, item: Item)
    requires LegalItem(running, item) && Fits(u, running) && Plain(item)
    ensures Routes(u, item, EncodeItem(item))
  {
    match item {
      case Channel(_, _, _, _) => ChannelRouted(u, running, item);
      case SaveSlot(_) => SlotRouted(u, running, item);
      case System(_, _) => SystemRouted(u, running, item);
      case Sysex(_, _) => SysexRouted(u, running, item);
    }
  }

  /** The receiver routes every legal stream of such items message by message, each once. */
  lemma {:induction false} ReferenceRouted(u: Bus, running: Running, items: seq<Item>)
    requires Legal(running, items) && Fits(u, running) && forall k :: 0 <= k < |items| ==> Plain(items[k])
    ensures BusLog(u, Encode(running, items)) == Routed(PerMessage, u.saveMode, items, |items|)
    decreases |items|
  {
    if items != [] {
      var bytes := EncodeItem(items[0]);
      ItemRouted(u, running, items[0]);
      BusConcat(u, bytes, Encode(RunningAfter(items[0]), items[1..]));
      ReferenceRouted(BusAfter(u, bytes), RunningAfter(items[0]), items[1..]);
      RoutedOfTail(PerMessage, u.saveMode, items, |items|);
    }
  }

  // ---------- From power-up ----------

  /** A clock cancels the running status, so the second note goes to the handler as two more clocks. */
  lemma RunningStatusLost(a: Byte, b: Byte)
    requires !IsStatus(a) && !IsStatus(b)
    ensures Log(INITIAL, [0x90, a, b] + [0xF8, a, b]) ==
            [Handler(0x90, 0, [a, b])] + [Handler(0xF0, 8, []), Handler(0xF0, 8, []), Handler(0xF0, 8, [])]
  {
    var note, clock := Channel(0x90, 0, [a, b], false), System(8, [a, b]);
    assert EncodeItem(note) == [0x90, a, b] && EncodeItem(clock) == [0xF8, a, b];
    ItemDecoded(INITIAL, NoStatus, note);
    var p := After(INITIAL, [0x90, a, b]);
    ItemDecoded(p, NoStatus, clock);
    RunConcat(INITIAL, [0x90, a, b], [0xF8, a, b]);
  }

  /** A stray data byte behind F4 n saves a second slot. */
  lemma SecondSlotSaved(n: Byte, m: Byte)
    requires n < 0x40 && m < 0x40
    ensures Log(INITIAL, [0xF4, n] + [m]) == [Save(n), Save(m)]
  {
    assert HighNibble(0xF4) == 0xF0 && LowNibble(0xF4) == 4;
    TwoBytes(INITIAL, 0xF4, n);
    OneByte(After(INITIAL, [0xF4, n]), m);
    RunConcat(INITIAL, [0xF4, n], [m]);
  }
}
