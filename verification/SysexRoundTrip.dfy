/** From sendBytes, through the output ring and the wire, into the parser of a receiver and to the tests at
  the head of ProcessNativeSysEx. */
module SysexRoundTrip {
  import opened Bytes
  import opened MidiParser
  import opened MidiSysex
  import opened OutputQueue
  import opened MidiOutput

  /** The tests of ProcessNativeSysEx, and what it then dispatches on. */
  datatype Command = Ignored | Command(code: Byte, message: seq<Byte>)

  function Interpret(buffer: seq<Byte>): Command {
    if !(|buffer| > 5 && buffer[4] == 0x5D) then Ignored
    else if !(|buffer| > 7) then Ignored
    else if buffer[5] != 0x7F && buffer[5] != 0 then Ignored
    else Command.Command(buffer[6], buffer[7..])
  }

  /** All bytes transmitted when a message is sent behind what is queued and the queue then drains. */
  function Transmitted(queued: seq<Byte>, started: bool, bs: seq<Byte>): seq<Byte>
    requires |queued| <= CAPACITY
  {
    Flushed(SendAll(Line(queued, started, []), bs)).wire
  }

  /** Everything goes out exactly if a byte has been taken from the ring before, or it all fits in it; otherwise a whole
    round of the ring is lost, and all that had been queued with it. */
  lemma TransmittedExact(queued: seq<Byte>, started: bool, bs: seq<Byte>)
    requires |queued| <= CAPACITY
    ensures var all := queued + bs;
            if started || |all| <= 735 then Transmitted(queued, started, bs) == all
            else Transmitted(queued, started, bs) == LastOf(all, |all| % 736) && |all| % 736 < |bs|
  {
    var l := Line(queued, started, []);
    if started || |queued| + |bs| <= CAPACITY {
      SendAllConserves(l, bs);
      assert l.wire + l.contents + bs == queued + bs;
    } else {
      SendAllOverrun(l, bs);
    }
  }

  /** A receiver takes an 0xF0 for the start of a message between messages and in a sysex, which it then drops. */
  predicate TakesStart(p: Parser) {
    p.mode == Idle || p.mode == WantSysex
  }

  /** A frame without stray status bytes is one segment, and a receiver that takes its start delivers it once. */
  lemma FrameDelivered(p: Parser, frame: seq<Byte>)
    requires TakesStart(p) && |Carried(p)| <= MAX_SYSEX && NoRealTime(frame)
    requires 8 <= |frame| <= MAX_SYSEX && frame[..4] == [0xF0, 0x00, 0x21, 0x27]
    requires frame[|frame| - 1] == 0xF7 && forall k :: 1 <= k < |frame| - 1 ==> !IsStatus(frame[k])
    ensures Deliveries(Native, p, frame, |frame|) == [frame]
  {
    assert frame[0] == frame[..4][0];
    NoneInFrame(p, frame);
    FrameIsSegment(p, frame);
    OnlyDelivery(Native, p, frame, |frame| - 1, frame);
  }

  lemma NoneInFrame(p: Parser, frame: seq<Byte>)
    requires |frame| > 0 && frame[0] == 0xF0 && forall k :: 1 <= k < |frame| - 1 ==> !IsStatus(frame[k])
    ensures Deliveries(Native, p, frame, |frame| - 1) == []
  {
    assert 0xF7 !in frame[..|frame| - 1];
    NoneBeforeEnd(p, frame, |frame| - 1);
  }

  lemma FrameIsSegment(p: Parser, frame: seq<Byte>)
    requires TakesStart(p)
    requires 8 <= |frame| <= MAX_SYSEX && frame[..4] == [0xF0, 0x00, 0x21, 0x27]
    requires frame[|frame| - 1] == 0xF7 && forall k :: 1 <= k < |frame| - 1 ==> !IsStatus(frame[k])
    ensures Delivered(Native, p, frame, |frame| - 1, frame)
  {
    var n := |frame|;
    assert frame[0] == frame[..4][0] == 0xF0 && frame[..0] == [];
    assert frame[0..n - 1][..4] == frame[..4];
    assert Segment(Native, p, frame, 0, n - 1);
    assert frame[0..n - 1 + 1] == frame;
  }

  lemma {:induction false} NoneBeforeEnd(p: Parser, bs: seq<Byte>, n: nat)
    requires n <= |bs| && 0xF7 !in bs[..n]
    ensures Deliveries(Native, p, bs, n) == []
  {
    if n > 0 {
      assert bs[n - 1] == bs[..n][n - 1] != 0xF7;
      assert bs[..n - 1] == bs[..n][..n - 1];
      NoneBeforeEnd(p, bs, n - 1);
    }
  }

  /** What sendBytes makes of the payload: data bytes stay as they are, and others lose their top bit. */
  lemma MaskedBits(payload: seq<Byte>)
    ensures |Masked(payload)| == |payload|
    ensures AllData(payload) ==> Masked(payload) == payload
    ensures forall k :: 0 <= k < |payload| ==> Unmasked(Masked(payload)[k], payload[k])
  {
  }

  /** The low seven bits of a byte. */
  predicate Unmasked(low: Byte, b: Byte) {
    low < 0x80 && (b == low || b == low + 0x80)
  }

  lemma FrameShape(code: int, payload: seq<Byte>)
    ensures var frame := Frame(code, payload);
            && frame == [0xF0, 0x00, 0x21, 0x27, 0x5D, 0x00, code % 0x100] + Masked(payload) + [0xF7]
            && frame[..4] == [0xF0, 0x00, 0x21, 0x27] && frame[|frame| - 1] == 0xF7 && frame[6] == code % 0x100
            && (code % 0x100 < 0x80 ==> forall k :: 1 <= k < |frame| - 1 ==> !IsStatus(frame[k]))
            && Interpret(frame) == Command.Command(code % 0x100, Masked(payload) + [0xF7])
  {
  }

  /** The tests of ProcessNativeSysEx let a message with the module's prefix through exactly if it is for the hardware
    0x5D and for the module 0 or for all modules. */
  lemma HeaderTests(hardware: Byte, id: Byte, code: Byte, message: seq<Byte>)
    ensures Interpret([0xF0, 0x00, 0x21, 0x27, hardware, id, code] + message + [0xF7]) ==
            if hardware == 0x5D && (id == 0 || id == 0x7F) then Command.Command(code, message + [0xF7]) else Ignored
    ensures Interpret([0xF0, 0x00, 0x21, 0x27, hardware, id, 0xF7]) == Ignored
  {
    var buffer := [0xF0, 0x00, 0x21, 0x27, hardware, id, code] + message + [0xF7];
    assert buffer[7..] == message + [0xF7];
  }

  /** The calls depend on the bytes without the real-time ones. */
  lemma CallsOfStripped(p: Parser, ws: seq<Byte>)
    ensures Calls(Native, Log(p, ws)) == CallsUpTo(Native, Trace(p, Strip(ws)), |Strip(ws)|)
  {
    RealTimeTransparent(p, ws);
    CallsOfWeave(Native, ws, Trace(p, Strip(ws)));
  }

  lemma SameCalls(p: Parser, ws: seq<Byte>, vs: seq<Byte>)
    requires Strip(ws) == Strip(vs)
    ensures Calls(Native, Log(p, ws)) == Calls(Native, Log(p, vs))
  {
    CallsOfStripped(p, ws);
    CallsOfStripped(p, vs);
  }

  /** Behind whatever else the receiver hears, what the frame brings about. */
  lemma BehindQueued(p: Parser, queued: seq<Byte>, frame: seq<Byte>)
    ensures Calls(Native, Log(p, queued + frame)) ==
            Calls(Native, Log(p, queued)) + Calls(Native, Log(After(p, queued), frame))
  {
    LogConcat(p, queued, frame);
    CallsConcat(Native, Log(p, queued), Log(After(p, queued), frame));
  }

  /** The round trip. A payload is sent behind what the output queue already holds, and real-time bytes may be mixed
    into what the receiver hears. Besides what the queue held for it, it hands the native handler exactly the message
    that was sent, once, and nothing else, if and only if the code is a data byte, the message fits the receiver's
    buffer, either the sender's ring has been read from before or all of it fits in the ring, and the queued bytes do
    not leave the receiver inside a channel message. */
  lemma RoundTrip(queued: seq<Byte>, started: bool, code: int, payload: seq<Byte>, p: Parser, received: seq<Byte>)
    requires |queued| <= CAPACITY && p.mode != WantSysex
    requires Strip(received) == Strip(Transmitted(queued, started, Frame(code, payload)))
    ensures Calls(Native, Log(p, received)) == Calls(Native, Log(p, queued)) + [Frame(code, payload)] <==>
            && code % 0x100 < 0x80 && |payload| + 8 <= 4096
            && (started || |queued| + |payload| + 8 <= 735) && TakesStart(After(p, queued))
  {
    var frame := Frame(code, payload);
    var sent := Transmitted(queued, started, frame);
    TransmittedExact(queued, started, frame);
    FrameShape(code, payload);
    SameCalls(p, received, sent);
    if started || |queued| + |frame| <= CAPACITY {
      BehindQueued(p, queued, frame);
      CarriedBounded(p, queued);
      FrameBehind(After(p, queued), code, payload, Calls(Native, Log(p, queued)));
    } else {
      DispatchExact(Native, p, sent);
      NotDelivered(p, Strip(sent), frame);
    }
  }

  /** A frame that arrives whole. */
  lemma FrameBehind(q: Parser, code: int, payload: seq<Byte>, before: seq<seq<Byte>>)
    requires |Carried(q)| <= MAX_SYSEX
    ensures before + Calls(Native, Log(q, Frame(code, payload))) == before + [Frame(code, payload)] <==>
            code % 0x100 < 0x80 && |payload| + 8 <= 4096 && TakesStart(q)
  {
    var frame := Frame(code, payload);
    var calls := Calls(Native, Log(q, frame));
    FrameShape(code, payload);
    DispatchExact(Native, q, frame);
    if code % 0x100 < 0x80 {
      StripIdentity(frame);
    }
    if code % 0x100 < 0x80 && |frame| <= MAX_SYSEX && TakesStart(q) {
      FrameDelivered(q, frame);
    } else {
      WholeNotDelivered(q, frame);
      assert (before + calls)[|before|..] == calls && (before + [frame])[|before|..] == [frame];
    }
  }

  /** A frame begins with a status byte, so it is not the tail of a capture that was under way. */
  lemma SegmentFromStart(q: Parser, bs: seq<Byte>, frame: seq<Byte>, j: nat) returns (i: nat)
    requires j < |bs| && bs[0] == 0xF0 && Delivered(Native, q, bs, j, frame)
    ensures Segment(Native, q, bs, i, j) && frame == Cut(bs[i..j + 1])
  {
    assert !Tail(Native, q, bs, j);
    i :| Segment(Native, q, bs, i, j) && frame == Cut(bs[i..j + 1]);
  }

  lemma WholeNotDelivered(q: Parser, frame: seq<Byte>)
    requires 8 <= |frame| && frame[0] == 0xF0
    requires |frame| > MAX_SYSEX || IsStatus(frame[6]) ||
             (!TakesStart(q) && forall k :: 1 <= k < |frame| - 1 ==> !IsStatus(frame[k]))
    ensures frame !in Deliveries(Native, q, Strip(frame), |Strip(frame)|)
  {
    var bs := Strip(frame);
    assert bs[0] == 0xF0;
    if frame in Deliveries(Native, q, bs, |bs|) {
      var j := DeliveredBefore(Native, q, bs, |bs|, frame);
      var i := SegmentFromStart(q, bs, frame, j);
    }
  }

  lemma NotDelivered(p: Parser, bs: seq<Byte>, frame: seq<Byte>)
    requires p.mode != WantSysex && |bs| < |frame|
    ensures frame !in Deliveries(Native, p, bs, |bs|)
  {
    if frame in Deliveries(Native, p, bs, |bs|) {
      SegmentsWellFormed(p, bs, |bs|, frame);
    }
  }

  /** What arrives last passes the header tests and carries the code, and behind it each byte of the payload with its
    top bit masked, so a payload of data bytes arrives as it was sent. */
  lemma RoundTripCommand(queued: seq<Byte>, started: bool, code: int, payload: seq<Byte>, p: Parser,
                         received: seq<Byte>)
    requires |queued| <= CAPACITY && p.mode != WantSysex && TakesStart(After(p, queued))
    requires Strip(received) == Strip(Transmitted(queued, started, Frame(code, payload)))
    requires code % 0x100 < 0x80 && |payload| + 8 <= 4096 && (started || |queued| + |payload| + 8 <= 735)
    ensures var calls := Calls(Native, Log(p, received));
            && calls != [] && calls[..|calls| - 1] == Calls(Native, Log(p, queued))
            && Carries(Interpret(calls[|calls| - 1]), code % 0x100, payload)
            && (AllData(payload) ==> Interpret(calls[|calls| - 1]) == Command.Command(code % 0x100, payload + [0xF7]))
  {
    RoundTrip(queued, started, code, payload, p, received);
    FrameShape(code, payload);
    MaskedBits(payload);
  }

  predicate Carries(c: Command, code: Byte, payload: seq<Byte>) {
    && c.Command? && c.code == code && |c.message| == |payload| + 1 && c.message[|payload|] == 0xF7
    && forall k :: 0 <= k < |payload| ==> Unmasked(c.message[k], payload[k])
  }
}
