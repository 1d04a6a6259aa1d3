/** A receiver as the MIDI 1.0 Detailed Specification (v4.2) describes it, in its section on running status, and
  exactly where the parser of src/midi.c departs from it over arbitrary byte streams. */
module MidiReference {
  import opened Bytes
  import opened MidiParser
  import opened MidiSysex

  /** A channel message in progress is the running status and the data bytes so far; a sysex is all of it so far,
    however long. */
  datatype Receiver = Listening(running: Running, pending: seq<Byte>) | Capturing(buffer: seq<Byte>)

  datatype Received = Received(receiver: Receiver, events: seq<Event>)

  function DataBytes(status: Byte): nat {
    if 0xC0 <= status < 0xE0 then 1 else 2
  }

  /** A complete sysex is reported as the module's own or as non-real-time, by its first bytes. */
  function Reported(sysex: seq<Byte>): seq<Event> {
    if [0xF0, 0x00, 0x21, 0x27] <= sysex then [NativeSysex(sysex)]
    else if [0xF0, 0x7E] <= sysex then [NonRealTimeSysex(sysex)]
    else []
  }

  /** A status byte drops what is in progress. One of a channel message is running status from then on, 0xF0 opens
    a sysex, and others cancel running status; 0xF7 in a sysex ends it. */
  function OnStatusByte(r: Receiver, b: Byte): Received {
    if r.Capturing? && b == 0xF7 then
      Received(Listening(NoStatus, []), Reported(r.buffer + [b]))
    else if b < 0xF0 then Received(Listening(Status(HighNibble(b), LowNibble(b)), []), [])
    else if b == 0xF0 then Received(Capturing([b]), [])
    else Received(Listening(NoStatus, []), [])
  }

  /** A data byte belongs to the sysex or the channel message in progress, and is ignored if there is neither. */
  function OnDataByte(r: Receiver, b: Byte): Received {
    match r
    case Capturing(buffer) => Received(Capturing(buffer + [b]), [])
    case Listening(running, pending) =>
      if running.NoStatus? then Received(r, [])
      else if |pending| + 1 == DataBytes(running.status) then
        Received(Listening(running, []), [Message(running.status, running.channel, pending + [b])])
      else Received(Listening(running, pending + [b]), [])
  }

  function Receive(r: Receiver, b: Byte): Received {
    if IsRealTime(b) then Received(r, [RealTime(LowNibble(b))])
    else if IsStatus(b) then OnStatusByte(r, b)
    else OnDataByte(r, b)
  }

  function ReferenceTrace(r: Receiver, bs: seq<Byte>): (t: seq<seq<Event>>)
    ensures |t| == |bs|
    decreases |bs|
  {
    if bs == [] then [] else [Receive(r, bs[0]).events] + ReferenceTrace(Receive(r, bs[0]).receiver, bs[1..])
  }

  function ReferenceLog(r: Receiver, bs: seq<Byte>): seq<Event>
    decreases |bs|
  {
    if bs == [] then [] else Receive(r, bs[0]).events + ReferenceLog(Receive(r, bs[0]).receiver, bs[1..])
  }

  const SILENT := Listening(NoStatus, [])

  // ---------- Where the parser departs ----------

  /** A status byte inside a channel message: the parser takes it for the last data byte, or for the first of two
    if the other follows. */
  predicate Interrupts(p: Parser, b: Byte, more: bool) {
    IsStatus(b) && (p.mode == WantByte1of1 || p.mode == WantByte2 || (p.mode == WantByte1of2 && more))
  }

  /** A capture that a data byte began. */
  predicate BogusCapture(p: Parser) {
    p.mode == WantSysex && |p.sysex| >= 2 && !IsStatus(p.sysex[0]) && p.sysex[0] == p.sysex[1]
  }

  /** Its end, if it looks like a non-real-time sysex. */
  predicate EndsBogus(p: Parser, b: Byte) {
    BogusCapture(p) && b == 0xF7 && p.sysex[0] == 0x7E
  }

  /** The end of a sysex that is reported and does not fit the buffer. */
  predicate EndsLong(p: Parser, b: Byte) {
    p.mode == WantSysex && b == 0xF7 && |p.sysex| == 4096 && Reported(p.sysex) != []
  }

  predicate Departs(p: Parser, b: Byte, more: bool) {
    Interrupts(p, b, more) || EndsBogus(p, b) || EndsLong(p, b)
  }

  predicate Conforms(p: Parser, bs: seq<Byte>)
    decreases |bs|
  {
    bs != [] ==>
      && !Departs(p, bs[0], |bs| > 1)
      && Conforms(Step(p, bs[0]).parser, bs[1..])
  }

  /** An event no receiver of MIDI 1.0 reports: a message with a status byte for data, or a sysex without its 0xF0 or
    its 0xF7. */
  predicate Foreign(e: Event) {
    match e
    case RealTime(_) => false
    case Message(_, _, data) => !AllData(data)
    case NativeSysex(buffer) => |buffer| > 0 && (buffer[0] != 0xF0 || buffer[|buffer| - 1] != 0xF7)
    case NonRealTimeSysex(buffer) => |buffer| > 0 && (buffer[0] != 0xF0 || buffer[|buffer| - 1] != 0xF7)
  }

  /** Parser and receiver are in step. */
  predicate InStep(p: Parser, r: Receiver) {
    match p.mode
    case Idle => r == Listening(RunningOf(p), [])
    case WantByte1of1 => OneDataByte(p.status) && r == Listening(Status(p.status, p.channel), [])
    case WantByte1of2 => TwoDataBytes(p.status) && r == Listening(Status(p.status, p.channel), [])
    case WantByte2 =>
      TwoDataBytes(p.status) && !IsStatus(p.first) && r == Listening(Status(p.status, p.channel), [p.first])
    case WantSysex =>
      && p.status == 0xF0 && p.channel == 0
      && if BogusCapture(p) then r == SILENT else Captures(p, r)
  }

  predicate Captures(p: Parser, r: Receiver) {
    r.Capturing? && p.sysex == Cut(r.buffer) && |r.buffer| > 0 && r.buffer[0] == 0xF0 && AllData(r.buffer[1..])
  }

  function RunningOf(p: Parser): Running {
    if TwoDataBytes(p.status) || OneDataByte(p.status) then Status(p.status, p.channel) else NoStatus
  }

  /** A byte that is no departure does the same to both. */
  lemma StepInStep(p: Parser, r: Receiver, b: Byte)
    requires InStep(p, r) && !IsRealTime(b) && !Departs(p, b, true)
    ensures Step(p, b).events == Receive(r, b).events
    ensures InStep(Step(p, b).parser, Receive(r, b).receiver)
  {
    if IsStatus(b) {
      StatusInStep(p, r, b);
    } else {
      DataInStep(p, r, b);
    }
  }

  lemma StatusInStep(p: Parser, r: Receiver, b: Byte)
    requires InStep(p, r) && IsStatus(b) && !IsRealTime(b) && !Departs(p, b, true)
    ensures Step(p, b).events == Receive(r, b).events
    ensures InStep(Step(p, b).parser, Receive(r, b).receiver)
  {
    assert b == HighNibble(b) + LowNibble(b);
    assert p.mode == Idle || p.mode == WantSysex;
    if p.mode == WantSysex && b == 0xF7 {
      if BogusCapture(p) {
        var buffer := Grow(p.sysex, b);
        assert buffer[0] == p.sysex[0] && buffer[1] == p.sysex[1];
        assert |buffer| > 4 ==> buffer[..4][0] == buffer[0] != SYSEX_ID[0];
      } else {
        EndInStep(r.buffer);
      }
    }
  }

  /** The same is reported for a sysex and for what fits the buffer, unless that is different. */
  lemma EndInStep(s: seq<Byte>)
    requires s != [] && s[0] == 0xF0 && (|Cut(s)| < 4096 || Reported(Cut(s)) == [])
    ensures EndOfSysex(Grow(Cut(s), 0xF7)) == Reported(s + [0xF7])
  {
    CutGrow(s, 0xF7);
    EndOfMarked(s);
    SameKind(s);
  }

  /** What a sysex is reported as shows in what fits the buffer, and without its end. */
  lemma SameKind(s: seq<Byte>)
    requires s != [] && s[0] == 0xF0
    ensures Marked(Native, s) <==> [0xF0, 0x00, 0x21, 0x27] <= s + [0xF7]
    ensures Marked(NonRealTime, s) <==> [0xF0, 0x7E] <= s + [0xF7]
    ensures |Cut(s)| == 4096 ==> (Reported(Cut(s)) != [] <==> Reported(s + [0xF7]) != [])
  {
    var u := s + [0xF7];
    assert |s| >= 4 ==> u[..4] == s[..4];
    assert |s| >= 2 ==> u[..2] == s[..2];
    if |s| == 3 {
      assert u[3] == 0xF7;
    } else if |s| == 1 {
      assert u[1] == 0xF7;
    }
    if |Cut(s)| == 4096 {
      assert Cut(s)[..4] == s[..4] && Cut(s)[..2] == s[..2];
    }
  }

  lemma DataInStep(p: Parser, r: Receiver, b: Byte)
    requires InStep(p, r) && !IsStatus(b)
    ensures Step(p, b).events == Receive(r, b).events
    ensures InStep(Step(p, b).parser, Receive(r, b).receiver)
  {
    assert [] + [b] == [b] && [p.first] + [b] == [p.first, b];
    if p.mode == WantSysex {
      var buffer := Grow(p.sysex, b);
      assert |p.sysex| > 0 ==> buffer[0] == p.sysex[0];
      assert |p.sysex| > 1 ==> buffer[1] == p.sysex[1];
      if !BogusCapture(p) {
        CutGrow(r.buffer, b);
        assert (r.buffer + [b])[1..] == r.buffer[1..] + [b];
      }
    }
  }

  /** Up to the first departure the parser reports what the receiver reports. */
  lemma {:induction false} ConformingTrace(p: Parser, r: Receiver, bs: seq<Byte>)
    requires InStep(p, r) && NoRealTime(bs) && Conforms(p, bs)
    ensures Trace(p, bs) == ReferenceTrace(r, bs)
    decreases |bs|
  {
    if bs != [] {
      if Interrupts(p, bs[0], true) {
        assert bs[1..] == [];
      } else {
        StepInStep(p, r, bs[0]);
        ConformingTrace(Step(p, bs[0]).parser, Receive(r, bs[0]).receiver, bs[1..]);
      }
    }
  }

  ghost predicate ForeignIn(events: seq<Event>) {
    exists e :: e in events && Foreign(e)
  }

  /** At a departure the parser reports an event that is foreign to MIDI 1.0, with this byte or with the next. */
  lemma Departure(p: Parser, r: Receiver, bs: seq<Byte>)
    requires InStep(p, r) && NoRealTime(bs) && bs != []
    requires Departs(p, bs[0], |bs| > 1)
    ensures ForeignIn(Log(p, bs))
  {
    var b, o := bs[0], Step(p, bs[0]);
    if p.mode == WantByte1of2 {
      var e := Message(p.status, p.channel, [b, bs[1]]);
      assert Step(o.parser, bs[1]).events == [e];
      assert Log(o.parser, bs[1..]) == [e] + Log(Step(o.parser, bs[1]).parser, bs[1..][1..]);
      assert e.data[0] == b;
      assert e in Log(p, bs) && Foreign(e);
    } else if p.mode == WantSysex {
      SysexDeparture(p, r, b);
      assert o.events[0] in Log(p, bs);
    } else {
      var e := Message(p.status, p.channel, if p.mode == WantByte1of1 then [b] else [p.first, b]);
      assert o.events == [e] && e.data[|e.data| - 1] == b;
      assert e in Log(p, bs);
    }
  }

  lemma SysexDeparture(p: Parser, r: Receiver, b: Byte)
    requires InStep(p, r) && p.mode == WantSysex && (EndsBogus(p, b) || EndsLong(p, b))
    ensures |Step(p, b).events| == 1 && Foreign(Step(p, b).events[0])
  {
    var buffer := Grow(p.sysex, b);
    assert buffer[0] == p.sysex[0] && buffer[1] == p.sysex[1];
    if EndsBogus(p, b) {
      assert |buffer| > 4 ==> buffer[..4][0] == buffer[0] != SYSEX_ID[0];
    } else {
      assert buffer[MAX_SYSEX - 1] == r.buffer[1..][MAX_SYSEX - 2];
    }
  }

  lemma {:induction false} DepartureReported(p: Parser, r: Receiver, bs: seq<Byte>)
    requires InStep(p, r) && NoRealTime(bs) && !Conforms(p, bs)
    ensures ForeignIn(Log(p, bs))
    decreases |bs|
  {
    if Departs(p, bs[0], |bs| > 1) {
      Departure(p, r, bs);
    } else {
      if !Interrupts(p, bs[0], true) {
        StepInStep(p, r, bs[0]);
        DepartureReported(Step(p, bs[0]).parser, Receive(r, bs[0]).receiver, bs[1..]);
        var e :| e in Log(Step(p, bs[0]).parser, bs[1..]) && Foreign(e);
        assert e in Log(p, bs);
      }
    }
  }

  /** What a receiver has in progress is data, behind an 0xF0 for a sysex. */
  predicate Sound(r: Receiver) {
    match r
    case Listening(_, pending) => AllData(pending)
    case Capturing(buffer) => |buffer| > 0 && buffer[0] == 0xF0
  }

  lemma {:induction false} ReferenceNotForeign(r: Receiver, bs: seq<Byte>)
    requires Sound(r)
    ensures !ForeignIn(ReferenceLog(r, bs))
    decreases |bs|
  {
    if bs != [] {
      var o := Receive(r, bs[0]);
      assert r.Capturing? ==> (r.buffer + [bs[0]])[0] == r.buffer[0];
      ReferenceNotForeign(o.receiver, bs[1..]);
    }
  }

  /** The reference receiver too hears real-time bytes anywhere, at their places. */
  lemma {:induction false} ReferenceWeave(r: Receiver, ws: seq<Byte>)
    ensures ReferenceLog(r, ws) == Weave(ws, ReferenceTrace(r, Strip(ws)))
    decreases |ws|
  {
    if ws != [] {
      if IsRealTime(ws[0]) {
        ReferenceWeave(r, ws[1..]);
      } else {
        assert Strip(ws)[1..] == Strip(ws[1..]);
        ReferenceWeave(Receive(r, ws[0]).receiver, ws[1..]);
      }
    }
  }

  /** Taking the real-time bytes out leaves the other events. */
  lemma {:induction false} StrippedEvents(p: Parser, ws: seq<Byte>, e: Event)
    requires e in Log(p, Strip(ws))
    ensures e in Log(p, ws)
    decreases |ws|
  {
    if ws != [] {
      if IsRealTime(ws[0]) {
        StrippedEvents(p, ws[1..], e);
      } else {
        assert Strip(ws)[1..] == Strip(ws[1..]);
        if e !in Step(p, ws[0]).events {
          StrippedEvents(Step(p, ws[0]).parser, ws[1..], e);
        }
      }
    }
  }

  lemma ConformsExactly(p: Parser, r: Receiver, ws: seq<Byte>)
    requires InStep(p, r)
    ensures Log(p, ws) == ReferenceLog(r, ws) <==> Conforms(p, Strip(ws))
  {
    var bs := Strip(ws);
    if Conforms(p, bs) {
      RealTimeTransparent(p, ws);
      ReferenceWeave(r, ws);
      ConformingTrace(p, r, bs);
    } else {
      DepartureReported(p, r, bs);
      var e :| e in Log(p, bs) && Foreign(e);
      StrippedEvents(p, ws, e);
      ReferenceNotForeign(r, ws);
    }
  }

  // ---------- The same, read off the stream ----------

  /** The byte at j is a status byte inside a channel message: the last data byte is due, or the first of two and
    another byte follows. */
  predicate InterruptedAt(p: Parser, bs: seq<Byte>, j: nat) {
    j < |bs| && Interrupts(After(p, bs[..j]), bs[j], j + 1 < |bs|)
  }

  /** bs[..j+1] is data* F7, and the capture under way at the start was bogus and began with 7E. */
  predicate BogusRest(p: Parser, bs: seq<Byte>, j: nat) {
    j < |bs| && BogusCapture(p) && p.sysex[0] == 0x7E && DataBefore(bs, j) && bs[j] == 0xF7
  }

  ghost predicate EndsBogusAt(p: Parser, bs: seq<Byte>, j: nat) {
    BogusRest(p, bs, j) || exists i: nat :: BogusSegment(p, bs, i, j)
  }

  /** bs[i..j+1] is F0 data* F7 with its F0 taken for a start, longer than the buffer and of a kind that is reported. */
  predicate LongSysex(p: Parser, bs: seq<Byte>, i: nat, j: nat) {
    && OpensAt(p, bs, i) && i < j < |bs| && DataBetween(bs, i, j) && bs[j] == 0xF7
    && j + 1 - i > 4096 && Reported(bs[i..j + 1]) != []
  }

  /** So is the sysex under way at the start, which bs[..j+1] ends. */
  predicate LongRest(r: Receiver, bs: seq<Byte>, j: nat) {
    && r.Capturing? && j < |bs| && DataBefore(bs, j) && bs[j] == 0xF7
    && |r.buffer| + j + 1 > 4096 && Reported(r.buffer + bs[..j + 1]) != []
  }

  ghost predicate EndsLongAt(p: Parser, r: Receiver, bs: seq<Byte>, j: nat) {
    LongRest(r, bs, j) || exists i: nat :: LongSysex(p, bs, i, j)
  }

  lemma {:induction false} ConformsByPosition(p: Parser, bs: seq<Byte>)
    ensures Conforms(p, bs) <==>
            forall j: nat :: j < |bs| ==> !Departs(After(p, bs[..j]), bs[j], j + 1 < |bs|)
    decreases |bs|
  {
    if bs != [] {
      var q, tail := Step(p, bs[0]).parser, bs[1..];
      ConformsByPosition(q, tail);
      assert bs[..0] == [];
      forall j: nat | j < |tail|
        ensures After(p, bs[..j + 1]) == After(q, tail[..j])
      {
        assert bs[..j + 1][1..] == tail[..j];
      }
      if Conforms(p, bs) {
        forall j: nat | j < |bs|
          ensures !Departs(After(p, bs[..j]), bs[j], j + 1 < |bs|)
        {
          if j > 0 {
            assert After(p, bs[..(j - 1) + 1]) == After(q, tail[..j - 1]);
            assert !Departs(After(q, tail[..j - 1]), tail[j - 1], j < |tail|);
          }
        }
      } else if !Departs(p, bs[0], |bs| > 1) {
        var j: nat :| j < |tail| && Departs(After(q, tail[..j]), tail[j], j + 1 < |tail|);
        assert Departs(After(p, bs[..j + 1]), bs[j + 1], j + 2 < |bs|);
      } else {
        assert Departs(After(p, bs[..0]), bs[0], 1 < |bs|);
      }
    }
  }

  /** A capture is bogus, or holds the 0xF0 it began with. */
  predicate ShapedCapture(p: Parser) {
    p.mode == WantSysex ==> BogusCapture(p) || (|p.sysex| > 0 && p.sysex[0] == 0xF0)
  }

  /** What has been captured begins as what there is to capture. */
  lemma CutBegins(s: seq<Byte>)
    ensures s != [] ==> Cut(s) != [] && Cut(s)[0] == s[0]
    ensures |s| > 1 ==> |Cut(s)| > 1 && Cut(s)[1] == s[1]
  {
  }

  lemma BogusRestByStream(p: Parser, bs: seq<Byte>, j: nat)
    requires ShapedCapture(p) && j < |bs| && Continues(p, bs, j) && After(p, bs[..j]).mode == WantSysex
    ensures BogusCapture(After(p, bs[..j])) <==> BogusCapture(p)
    ensures After(p, bs[..j]).sysex[0] == p.sysex[0]
  {
    var s := p.sysex + bs[..j];
    CutBegins(s);
    assert s[0] == p.sysex[0] && (|p.sysex| > 1 ==> s[1] == p.sysex[1]);
  }

  lemma BogusSegmentByStream(p: Parser, bs: seq<Byte>, i: nat, j: nat)
    requires j < |bs| && BogusFrom(p, bs, i, j) && After(p, bs[..j]).mode == WantSysex
    ensures BogusCapture(After(p, bs[..j])) && After(p, bs[..j]).sysex[0] == bs[i]
  {
    var s := [bs[i]] + bs[i..j];
    CutBegins(s);
    assert s[0] == s[1] == bs[i];
  }

  lemma SegmentByStream(p: Parser, bs: seq<Byte>, i: nat, j: nat)
    requires j < |bs| && CapturesFrom(p, bs, i, j)
    ensures !BogusCapture(After(p, bs[..j]))
  {
    CutBegins(bs[i..j]);
  }

  lemma BogusByStream(p: Parser, bs: seq<Byte>, j: nat)
    requires ShapedCapture(p) && |Carried(p)| <= MAX_SYSEX && NoRealTime(bs) && j < |bs|
    ensures EndsBogus(After(p, bs[..j]), bs[j]) <==> EndsBogusAt(p, bs, j)
  {
    var q := After(p, bs[..j]);
    if EndsBogus(q, bs[j]) {
      CaptureTracks(p, bs, j);
      if Continues(p, bs, j) {
        BogusRestByStream(p, bs, j);
      } else if i: nat :| CapturesFrom(p, bs, i, j) {
        SegmentByStream(p, bs, i, j);
      } else {
        var i: nat :| BogusFrom(p, bs, i, j);
        BogusSegmentByStream(p, bs, i, j);
        assert BogusSegment(p, bs, i, j);
      }
    }
    if BogusRest(p, bs, j) {
      TailCaptured(p, bs, j);
      BogusRestByStream(p, bs, j);
    } else if EndsBogusAt(p, bs, j) {
      var i: nat :| BogusSegment(p, bs, i, j);
      BogusCaptured(p, bs, i, j);
      BogusSegmentByStream(p, bs, i, j);
    }
  }

  lemma CutTwice(s: seq<Byte>, t: seq<Byte>)
    ensures Cut(Cut(s) + t) == Cut(s + t)
  {
    if |s| > MAX_SYSEX {
      assert (s[..MAX_SYSEX] + t)[..MAX_SYSEX] == (s + t)[..MAX_SYSEX];
    }
  }

  lemma LongRestByStream(p: Parser, r: Receiver, bs: seq<Byte>, j: nat)
    requires p.mode == WantSysex && Captures(p, r) && NoRealTime(bs) && j < |bs| && bs[j] == 0xF7
    requires After(p, bs[..j]).mode == WantSysex && Continues(p, bs, j)
    ensures EndsLong(After(p, bs[..j]), bs[j]) <==> LongRest(r, bs, j)
  {
    var s := r.buffer + bs[..j];
    CutTwice(r.buffer, bs[..j]);
    assert s + [bs[j]] == r.buffer + bs[..j + 1] && s[0] == r.buffer[0];
    SameKind(s);
  }

  lemma LongSegmentByStream(p: Parser, bs: seq<Byte>, i: nat, j: nat)
    requires NoRealTime(bs) && j < |bs| && bs[j] == 0xF7 && CapturesFrom(p, bs, i, j)
    requires After(p, bs[..j]).mode == WantSysex
    ensures EndsLong(After(p, bs[..j]), bs[j]) <==> LongSysex(p, bs, i, j)
  {
    assert bs[i..j] + [bs[j]] == bs[i..j + 1];
    SameKind(bs[i..j]);
  }

  /** A capture that is not bogus holds what fits of the sysex under way, and the stream says how long that is. */
  lemma LongByStream(p: Parser, r: Receiver, bs: seq<Byte>, j: nat)
    requires InStep(p, r) && |Carried(p)| <= MAX_SYSEX && NoRealTime(bs) && j < |bs|
    ensures EndsLong(After(p, bs[..j]), bs[j]) <==> EndsLongAt(p, r, bs, j)
  {
    var q := After(p, bs[..j]);
    if EndsLong(q, bs[j]) {
      CaptureTracks(p, bs, j);
      assert q.sysex[0] == 0xF0;
      if Continues(p, bs, j) {
        BogusRestByStream(p, bs, j);
        LongRestByStream(p, r, bs, j);
      } else if i: nat :| CapturesFrom(p, bs, i, j) {
        LongSegmentByStream(p, bs, i, j);
      } else {
        var i: nat :| BogusFrom(p, bs, i, j);
        BogusSegmentByStream(p, bs, i, j);
      }
    }
    if LongRest(r, bs, j) {
      TailCaptured(p, bs, j);
      LongRestByStream(p, r, bs, j);
    } else if EndsLongAt(p, r, bs, j) {
      var i: nat :| LongSysex(p, bs, i, j);
      OpenSegmentCaptured(p, bs, i, j);
      LongSegmentByStream(p, bs, i, j);
    }
  }

  /** The parser reports over any byte stream exactly what a receiver of MIDI 1.0 reports, if and only if, real-time
    bytes apart, no status byte interrupts a channel message, no 7E data* F7 follows a finished sysex, and no sysex to
    be reported is longer than the buffer. */
  lemma ParserConforms(p: Parser, r: Receiver, ws: seq<Byte>)
    requires InStep(p, r) && |Carried(p)| <= MAX_SYSEX
    ensures Log(p, ws) == ReferenceLog(r, ws) <==>
            forall j: nat :: j < |Strip(ws)| ==>
              && !InterruptedAt(p, Strip(ws), j) && !EndsBogusAt(p, Strip(ws), j) && !EndsLongAt(p, r, Strip(ws), j)
  {
    var bs := Strip(ws);
    ConformsExactly(p, r, ws);
    ConformsByPosition(p, bs);
    forall j: nat | j < |bs|
      ensures EndsBogus(After(p, bs[..j]), bs[j]) <==> EndsBogusAt(p, bs, j)
      ensures EndsLong(After(p, bs[..j]), bs[j]) <==> EndsLongAt(p, r, bs, j)
    {
      BogusByStream(p, bs, j);
      LongByStream(p, r, bs, j);
    }
  }

  /** The same without real-time bytes, byte by byte. */
  lemma TraceConforms(p: Parser, r: Receiver, bs: seq<Byte>)
    requires InStep(p, r) && NoRealTime(bs)
    ensures Trace(p, bs) == ReferenceTrace(r, bs) <==> Conforms(p, bs)
  {
    StripIdentity(bs);
    RealTimeTransparent(p, bs);
    ReferenceWeave(r, bs);
    ConformsExactly(p, r, bs);
    if Conforms(p, bs) {
      ConformingTrace(p, r, bs);
    }
  }

  lemma Unroll(p: Parser, r: Receiver, bs: seq<Byte>)
    requires bs != []
    ensures Log(p, bs) == Step(p, bs[0]).events + Log(Step(p, bs[0]).parser, bs[1..])
    ensures ReferenceLog(r, bs) == Receive(r, bs[0]).events + ReferenceLog(Receive(r, bs[0]).receiver, bs[1..])
  {
  }

  /** From power-up, a status byte that interrupts a note on is reported as its velocity. */
  lemma InterruptedNote()
    ensures InStep(INITIAL, SILENT)
    ensures Log(INITIAL, [0x90, 0x40, 0x80]) == [Message(0x90, 0, [0x40, 0x80])]
    ensures ReferenceLog(SILENT, [0x90, 0x40, 0x80]) == []
  {
    var p, r := Parser(WantByte1of2, 0x90, 0, 0, []), Listening(Status(0x90, 0), []);
    var q, t := Parser(WantByte2, 0x90, 0, 0x40, []), Listening(Status(0x90, 0), [0x40]);
    assert Step(INITIAL, 0x90) == Outcome(p, []) && Receive(SILENT, 0x90) == Received(r, []);
    assert [] + [0x40] == [0x40];
    assert Step(p, 0x40) == Outcome(q, []) && Receive(r, 0x40) == Received(t, []);
    Unroll(INITIAL, SILENT, [0x90, 0x40, 0x80]);
    assert [0x90, 0x40, 0x80][1..] == [0x40, 0x80];
    Unroll(p, r, [0x40, 0x80]);
    assert [0x40, 0x80][1..] == [0x80];
    Unroll(q, t, [0x80]);
    assert [0x80][1..] == [];
  }

  /** After a sysex has ended, 7E F7 is reported as another one. */
  lemma BogusTail()
    ensures Log(INITIAL, [0xF0, 0xF7, 0x7E, 0xF7]) == [NonRealTimeSysex([0x7E, 0x7E, 0xF7])]
    ensures ReferenceLog(SILENT, [0xF0, 0xF7, 0x7E, 0xF7]) == []
  {
    var p, q := Parser(WantSysex, 0xF0, 0, 0, [0xF0]), Parser(Idle, 0xF0, 0, 0, [0xF0, 0xF7]);
    var u := Parser(WantSysex, 0xF0, 0, 0, [0x7E, 0x7E]);
    assert Step(INITIAL, 0xF0) == Outcome(p, []) && Receive(SILENT, 0xF0) == Received(Capturing([0xF0]), []);
    assert [0xF0] + [0xF7] == [0xF0, 0xF7] && [0x7E] + [0x7E] == [0x7E, 0x7E];
    assert [0xF0, 0xF7][1] == 0xF7;
    assert Step(p, 0xF7) == Outcome(q, []) && Receive(Capturing([0xF0]), 0xF7) == Received(SILENT, []);
    BogusSteps(q, u);
    Unroll(INITIAL, SILENT, [0xF0, 0xF7, 0x7E, 0xF7]);
    assert [0xF0, 0xF7, 0x7E, 0xF7][1..] == [0xF7, 0x7E, 0xF7];
    Unroll(p, Capturing([0xF0]), [0xF7, 0x7E, 0xF7]);
    assert [0xF7, 0x7E, 0xF7][1..] == [0x7E, 0xF7];
  }

  lemma BogusSteps(q: Parser, u: Parser)
    requires q == Parser(Idle, 0xF0, 0, 0, [0xF0, 0xF7]) && u == Parser(WantSysex, 0xF0, 0, 0, [0x7E, 0x7E])
    ensures Log(q, [0x7E, 0xF7]) == [NonRealTimeSysex([0x7E, 0x7E, 0xF7])]
    ensures ReferenceLog(SILENT, [0x7E, 0xF7]) == []
  {
    assert Grow([0x7E], 0x7E) == [0x7E, 0x7E] && Grow([0x7E, 0x7E], 0xF7) == [0x7E, 0x7E, 0xF7];
    assert Step(q, 0x7E) == Outcome(u, []);
    assert Step(u, 0xF7).events == [NonRealTimeSysex([0x7E, 0x7E, 0xF7])];
    Unroll(q, SILENT, [0x7E, 0xF7]);
    assert [0x7E, 0xF7][1..] == [0xF7];
    Unroll(u, SILENT, [0xF7]);
    assert [0xF7][1..] == [];
  }

  /** Any sysex of the module's own that does not fit the buffer is reported otherwise than it was sent. */
  lemma LongSysexCut(p: Parser, r: Receiver, bs: seq<Byte>)
    requires InStep(p, r) && p.mode == Idle
    requires |bs| > 4096 && bs[..4] == [0xF0, 0x00, 0x21, 0x27] && bs[|bs| - 1] == 0xF7
    requires forall k :: 0 < k < |bs| - 1 ==> !IsStatus(bs[k])
    ensures Log(p, bs) != ReferenceLog(r, bs)
  {
    var j := |bs| - 1;
    assert bs[..0] == [] && bs[0..j + 1] == bs && bs[0] == bs[..4][0];
    StripIdentity(bs);
    assert LongSysex(p, bs, 0, j);
    assert EndsLongAt(p, r, bs, j);
    ParserConforms(p, r, bs);
  }
}
