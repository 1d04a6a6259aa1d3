/** Which system-exclusive messages reach ProcessNativeSysEx and ProcessNonRealTimeSystemExclusive, over arbitrary byte
  streams. */
module MidiSysex {
  import opened Bytes
  import opened MidiParser

  predicate NoRealTime(bs: seq<Byte>) {
    forall k :: 0 <= k < |bs| ==> !IsRealTime(bs[k])
  }

  function Cut(segment: seq<Byte>): seq<Byte> {
    if |segment| <= MAX_SYSEX then segment else segment[..MAX_SYSEX]
  }

  /** An 0xF0 the parser takes for the start of a message, rather than for data of a channel message. */
  predicate OpensAt(p: Parser, bs: seq<Byte>, i: nat) {
    i < |bs| && bs[i] == 0xF0 && (After(p, bs[..i]).mode == Idle || After(p, bs[..i]).mode == WantSysex)
  }

  predicate DataBetween(bs: seq<Byte>, i: nat, j: nat) {
    j <= |bs| && forall k :: i < k < j ==> !IsStatus(bs[k])
  }

  /** The two handlers that a sysex may go to. */
  datatype Kind = Native | NonRealTime

  /** The bytes by which a sysex belongs to a handler: the manufacturer's prefix, or 7E behind the first byte. */
  predicate Marked(kind: Kind, s: seq<Byte>) {
    match kind
    case Native => [0xF0, 0x00, 0x21, 0x27] <= s
    case NonRealTime => |s| > 1 && s[1] == 0x7E
  }

  /** The call of a handler. */
  function Call(kind: Kind, buffer: seq<Byte>): Event {
    match kind
    case Native => NativeSysex(buffer)
    case NonRealTime => NonRealTimeSysex(buffer)
  }

  /** bs[i..j+1] is F0 data* F7 with its F0 taken for a start, and it belongs to the handler. */
  predicate Segment(kind: Kind, p: Parser, bs: seq<Byte>, i: nat, j: nat) {
    OpensAt(p, bs, i) && i < j < |bs| && DataBetween(bs, i, j) && bs[j] == 0xF7 && Marked(kind, bs[i..j])
  }

  /** bs[..j+1] is data* F7 and ends the capture that was under way at the start, which belongs to the handler. */
  predicate Tail(kind: Kind, p: Parser, bs: seq<Byte>, j: nat) {
    p.mode == WantSysex && j < |bs| && DataBefore(bs, j) && bs[j] == 0xF7 && Marked(kind, p.sysex + bs[..j])
  }

  /** A data byte behind a sysex that ended, with no status byte since: it opens a capture and is stored twice. */
  predicate OpensBogus(p: Parser, bs: seq<Byte>, i: nat) {
    i < |bs| && !IsStatus(bs[i]) &&
    var q := After(p, bs[..i]);
    q.mode == Idle && q.status == 0xF0 && q.channel == 0
  }

  /** bs[i..j+1] is data* F7 behind a sysex that ended, and begins with 7E. */
  predicate BogusSegment(p: Parser, bs: seq<Byte>, i: nat, j: nat) {
    i < j < |bs| && OpensBogus(p, bs, i) && bs[i] == 0x7E && DataBetween(bs, i, j) && bs[j] == 0xF7
  }

  predicate DataBefore(bs: seq<Byte>, j: nat) {
    j <= |bs| && forall k :: 0 <= k < j ==> !IsStatus(bs[k])
  }

  ghost predicate Delivered(kind: Kind, p: Parser, bs: seq<Byte>, j: nat, buffer: seq<Byte>) {
    || (exists i: nat :: Segment(kind, p, bs, i, j) && buffer == Cut(bs[i..j + 1]))
    || (Tail(kind, p, bs, j) && buffer == Cut(p.sysex + bs[..j + 1]))
    || (kind == NonRealTime && exists i: nat :: BogusSegment(p, bs, i, j) && buffer == Cut([0x7E] + bs[i..j + 1]))
  }

  /** The capture that was under way at the start goes on. */
  predicate Continues(p: Parser, bs: seq<Byte>, n: nat)
    requires n <= |bs|
  {
    p.mode == WantSysex && DataBefore(bs, n) && After(p, bs[..n]).sysex == Cut(p.sysex + bs[..n])
  }

  /** The bytes captured before the stream begins. */
  function Carried(p: Parser): seq<Byte> {
    if p.mode == WantSysex then p.sysex else []
  }

  ghost predicate CapturesFrom(p: Parser, bs: seq<Byte>, i: nat, n: nat)
    requires n <= |bs|
  {
    i < n && OpensAt(p, bs, i) && DataBetween(bs, i, n) && After(p, bs[..n]).sysex == Cut(bs[i..n])
  }

  /** A capture that a data byte opened goes on. */
  predicate BogusFrom(p: Parser, bs: seq<Byte>, i: nat, n: nat)
    requires n <= |bs|
  {
    i < n && OpensBogus(p, bs, i) && DataBetween(bs, i, n) && After(p, bs[..n]).sysex == Cut([bs[i]] + bs[i..n])
  }

  /** A capture under way at n holds the segment since its F0, or is still the first one, or began with a data byte. */
  ghost predicate Tracks(p: Parser, bs: seq<Byte>, n: nat)
    requires n <= |bs|
  {
    After(p, bs[..n]).mode == WantSysex ==>
      || Continues(p, bs, n)
      || (exists i: nat :: CapturesFrom(p, bs, i, n))
      || (exists i: nat :: BogusFrom(p, bs, i, n))
  }

  /** The capture buffer is never overrun. */
  lemma {:induction false} CarriedBounded(p: Parser, bs: seq<Byte>)
    requires |Carried(p)| <= MAX_SYSEX
    ensures |Carried(After(p, bs))| <= MAX_SYSEX
    decreases |bs|
  {
    if bs != [] {
      CarriedBounded(Step(p, bs[0]).parser, bs[1..]);
    }
  }

  lemma CutGrow(s: seq<Byte>, b: Byte)
    ensures Grow(Cut(s), b) == Cut(s + [b])
  {
  }

  /** How a byte can leave the parser capturing. */
  lemma StepIntoSysex(p: Parser, b: Byte)
    requires !IsRealTime(b) && Step(p, b).parser.mode == WantSysex
    ensures var q := Step(p, b).parser;
            if IsStatus(b) then b == 0xF0 && q.sysex == [b] && (p.mode == Idle || p.mode == WantSysex)
            else if p.mode == WantSysex then q.sysex == Grow(p.sysex, b)
            else q.sysex == [b, b] && p.mode == Idle && p.status == 0xF0 && p.channel == 0
  {
  }

  lemma BogusGrows(p: Parser, bs: seq<Byte>, i: nat, n: nat)
    requires n < |bs| && BogusFrom(p, bs, i, n) && !IsStatus(bs[n])
    requires After(p, bs[..n + 1]).sysex == Grow(After(p, bs[..n]).sysex, bs[n])
    ensures BogusFrom(p, bs, i, n + 1)
  {
    CutGrow([bs[i]] + bs[i..n], bs[n]);
    assert [bs[i]] + bs[i..n] + [bs[n]] == [bs[i]] + bs[i..n + 1];
  }

  lemma CaptureGrows(p: Parser, bs: seq<Byte>, i: nat, n: nat)
    requires n < |bs| && CapturesFrom(p, bs, i, n) && !IsStatus(bs[n])
    requires After(p, bs[..n + 1]).sysex == Grow(After(p, bs[..n]).sysex, bs[n])
    ensures CapturesFrom(p, bs, i, n + 1)
  {
  }

  lemma ContinuesOn(p: Parser, bs: seq<Byte>, n: nat)
    requires n < |bs| && Continues(p, bs, n) && !IsStatus(bs[n])
    requires After(p, bs[..n + 1]).sysex == Grow(After(p, bs[..n]).sysex, bs[n])
    ensures Continues(p, bs, n + 1)
  {
    CutGrow(p.sysex + bs[..n], bs[n]);
    assert p.sysex + bs[..n] + [bs[n]] == p.sysex + bs[..n + 1];
  }

  lemma TracksOn(p: Parser, bs: seq<Byte>, n: nat)
    requires n < |bs| && Tracks(p, bs, n) && After(p, bs[..n]).mode == WantSysex && !IsStatus(bs[n])
    requires After(p, bs[..n + 1]).sysex == Grow(After(p, bs[..n]).sysex, bs[n])
    ensures Tracks(p, bs, n + 1)
  {
    if Continues(p, bs, n) {
      ContinuesOn(p, bs, n);
    } else if i: nat :| CapturesFrom(p, bs, i, n) {
      CaptureGrows(p, bs, i, n);
    } else {
      var i: nat :| BogusFrom(p, bs, i, n);
      BogusGrows(p, bs, i, n);
    }
  }

  lemma {:induction false} CaptureTracks(p: Parser, bs: seq<Byte>, n: nat)
    requires |Carried(p)| <= MAX_SYSEX && NoRealTime(bs) && n <= |bs|
    ensures Tracks(p, bs, n)
    decreases n
  {
    if n == 0 {
      assert p.sysex + bs[..0] == p.sysex;
    } else if After(p, bs[..n]).mode == WantSysex {
      AfterSnoc(p, bs, n - 1);
      var before, b := After(p, bs[..n - 1]), bs[n - 1];
      StepIntoSysex(before, b);
      if IsStatus(b) {
        assert bs[n - 1..n] == [b];
        assert CapturesFrom(p, bs, n - 1, n);
      } else if before.mode == WantSysex {
        CaptureTracks(p, bs, n - 1);
        TracksOn(p, bs, n - 1);
      } else {
        assert [b] + bs[n - 1..n] == [b, b];
        assert BogusFrom(p, bs, n - 1, n);
      }
    }
  }

  lemma StartsCapture(q: Parser)
    requires q.mode == Idle || q.mode == WantSysex
    ensures Step(q, 0xF0).parser.mode == WantSysex && Step(q, 0xF0).parser.sysex == [0xF0]
  {
    assert HighNibble(0xF0) == 0xF0 && LowNibble(0xF0) == 0;
  }

  lemma CaptureStep(q: Parser, segment: seq<Byte>, b: Byte)
    requires q.mode == WantSysex && q.sysex == Cut(segment) && !IsStatus(b)
    ensures Step(q, b).parser.mode == WantSysex && Step(q, b).parser.sysex == Cut(segment + [b])
  {
    CutGrow(segment, b);
  }

  /** Conversely, between an F0 taken for a start and the next status byte the capture goes on. */
  lemma {:induction false} OpenSegmentCaptured(p: Parser, bs: seq<Byte>, i: nat, n: nat)
    requires NoRealTime(bs) && OpensAt(p, bs, i) && i < n <= |bs| && DataBetween(bs, i, n)
    ensures After(p, bs[..n]).mode == WantSysex && After(p, bs[..n]).sysex == Cut(bs[i..n])
    decreases n
  {
    AfterSnoc(p, bs, n - 1);
    if n == i + 1 {
      assert bs[i..n] == [bs[i]];
      StartsCapture(After(p, bs[..i]));
    } else {
      OpenSegmentCaptured(p, bs, i, n - 1);
      CaptureStep(After(p, bs[..n - 1]), bs[i..n - 1], bs[n - 1]);
      assert bs[i..n - 1] + [bs[n - 1]] == bs[i..n];
    }
  }

  lemma {:induction false} TailCaptured(p: Parser, bs: seq<Byte>, n: nat)
    requires p.mode == WantSysex && |p.sysex| <= MAX_SYSEX && n <= |bs| && DataBefore(bs, n)
    ensures After(p, bs[..n]).mode == WantSysex && Continues(p, bs, n)
    decreases n
  {
    if n == 0 {
      assert p.sysex + bs[..0] == p.sysex;
    } else {
      TailCaptured(p, bs, n - 1);
      AfterSnoc(p, bs, n - 1);
      ContinuesOn(p, bs, n - 1);
    }
  }

  /** Conversely, from a data byte that opens a capture to the next status byte it goes on. */
  lemma {:induction false} BogusCaptured(p: Parser, bs: seq<Byte>, i: nat, n: nat)
    requires NoRealTime(bs) && OpensBogus(p, bs, i) && i < n <= |bs| && DataBetween(bs, i, n)
    ensures After(p, bs[..n]).mode == WantSysex && BogusFrom(p, bs, i, n)
    decreases n
  {
    AfterSnoc(p, bs, n - 1);
    if n == i + 1 {
      assert [bs[i]] + bs[i..n] == [bs[i], bs[i]];
    } else {
      BogusCaptured(p, bs, i, n - 1);
      BogusGrows(p, bs, i, n - 1);
    }
  }

  /** When a byte makes the parser call a handler, and how that shows in what has been captured. */
  lemma StepIntoHandler(kind: Kind, p: Parser, b: Byte, s: seq<Byte>, buffer: seq<Byte>)
    requires p.mode == WantSysex ==> p.sysex == Cut(s)
    ensures |Step(p, b).events| <= 1
    ensures Call(kind, buffer) in Step(p, b).events <==>
            p.mode == WantSysex && b == 0xF7 && Marked(kind, s) && buffer == Cut(s + [0xF7])
  {
    if p.mode == WantSysex && b == 0xF7 {
      CutGrow(s, b);
      EndOfMarked(s);
    }
  }

  /** The tests at the end of a sysex go by its first bytes, of which those of the two kinds exclude each other. */
  lemma EndOfMarked(s: seq<Byte>)
    ensures EndOfSysex(Cut(s + [0xF7])) ==
            if Marked(Native, s) then [NativeSysex(Cut(s + [0xF7]))]
            else if Marked(NonRealTime, s) then [NonRealTimeSysex(Cut(s + [0xF7]))]
            else []
    ensures !(Marked(Native, s) && Marked(NonRealTime, s))
  {
    var t := Cut(s + [0xF7]);
    assert |s| > 3 ==> t[..4] == s[..4];
    assert |s| > 1 ==> t[1] == s[1];
    if |s| < 4 && |t| > 4 {
      assert false;
    }
  }

  /** What a capture under way at j holds at least as much of. */
  ghost predicate Holds(p: Parser, bs: seq<Byte>, j: nat, s: seq<Byte>)
    requires j <= |bs|
  {
    || (Continues(p, bs, j) && s == p.sysex + bs[..j])
    || (exists i: nat :: CapturesFrom(p, bs, i, j) && s == bs[i..j])
    || (exists i: nat :: BogusFrom(p, bs, i, j) && s == [bs[i]] + bs[i..j])
  }

  lemma TailDelivered(kind: Kind, p: Parser, bs: seq<Byte>, j: nat)
    requires j < |bs| && bs[j] == 0xF7 && Continues(p, bs, j) && Marked(kind, p.sysex + bs[..j])
    ensures Delivered(kind, p, bs, j, Cut(p.sysex + bs[..j] + [0xF7]))
  {
    assert p.sysex + bs[..j] + [0xF7] == p.sysex + bs[..j + 1];
    assert Tail(kind, p, bs, j);
  }

  lemma SegmentDelivered(kind: Kind, p: Parser, bs: seq<Byte>, i: nat, j: nat)
    requires j < |bs| && bs[j] == 0xF7 && CapturesFrom(p, bs, i, j) && Marked(kind, bs[i..j])
    ensures Delivered(kind, p, bs, j, Cut(bs[i..j] + [0xF7]))
  {
    assert bs[i..j] + [0xF7] == bs[i..j + 1];
    assert Segment(kind, p, bs, i, j);
  }

  lemma BogusDelivered(kind: Kind, p: Parser, bs: seq<Byte>, i: nat, j: nat)
    requires j < |bs| && bs[j] == 0xF7 && BogusFrom(p, bs, i, j) && Marked(kind, [bs[i]] + bs[i..j])
    ensures Delivered(kind, p, bs, j, Cut([bs[i]] + bs[i..j] + [0xF7]))
  {
    var s := [bs[i]] + bs[i..j];
    assert s[0] == s[1] == bs[i];
    assert kind == NonRealTime;
    assert s + [0xF7] == [0x7E] + bs[i..j + 1];
    assert BogusSegment(p, bs, i, j);
  }

  /** If the byte behind it is F7, the sysex is delivered exactly if it belongs to the handler. */
  lemma HeldDelivered(kind: Kind, p: Parser, bs: seq<Byte>, j: nat, s: seq<Byte>)
    requires j < |bs| && bs[j] == 0xF7 && Holds(p, bs, j, s) && Marked(kind, s)
    ensures Delivered(kind, p, bs, j, Cut(s + [0xF7]))
  {
    if Continues(p, bs, j) && s == p.sysex + bs[..j] {
      TailDelivered(kind, p, bs, j);
    } else if i: nat :| CapturesFrom(p, bs, i, j) && s == bs[i..j] {
      SegmentDelivered(kind, p, bs, i, j);
    } else {
      var i: nat :| BogusFrom(p, bs, i, j) && s == [bs[i]] + bs[i..j];
      BogusDelivered(kind, p, bs, i, j);
    }
  }

  /** A sysex that belongs to the handler and that the byte at j ends. */
  predicate Ends(kind: Kind, p: Parser, bs: seq<Byte>, j: nat, s: seq<Byte>, buffer: seq<Byte>) {
    && j < |bs| && bs[j] == 0xF7 && Marked(kind, s) && buffer == Cut(s + [0xF7])
    && After(p, bs[..j]).mode == WantSysex && After(p, bs[..j]).sysex == Cut(s)
  }

  lemma TailEnds(kind: Kind, p: Parser, bs: seq<Byte>, j: nat)
    requires |Carried(p)| <= MAX_SYSEX && NoRealTime(bs) && Tail(kind, p, bs, j)
    ensures Ends(kind, p, bs, j, p.sysex + bs[..j], Cut(p.sysex + bs[..j + 1]))
  {
    TailCaptured(p, bs, j);
    assert p.sysex + bs[..j] + [0xF7] == p.sysex + bs[..j + 1];
  }

  lemma SegmentEnds(kind: Kind, p: Parser, bs: seq<Byte>, i: nat, j: nat)
    requires NoRealTime(bs) && Segment(kind, p, bs, i, j)
    ensures Ends(kind, p, bs, j, bs[i..j], Cut(bs[i..j + 1]))
  {
    OpenSegmentCaptured(p, bs, i, j);
    assert bs[i..j] + [0xF7] == bs[i..j + 1];
  }

  lemma BogusEnds(p: Parser, bs: seq<Byte>, i: nat, j: nat)
    requires NoRealTime(bs) && BogusSegment(p, bs, i, j)
    ensures Ends(NonRealTime, p, bs, j, [bs[i]] + bs[i..j], Cut([0x7E] + bs[i..j + 1]))
  {
    BogusCaptured(p, bs, i, j);
    var s := [bs[i]] + bs[i..j];
    assert s[1] == bs[i] && s + [0xF7] == [0x7E] + bs[i..j + 1];
  }

  lemma DeliveredHeld(kind: Kind, p: Parser, bs: seq<Byte>, j: nat, buffer: seq<Byte>) returns (s: seq<Byte>)
    requires |Carried(p)| <= MAX_SYSEX && NoRealTime(bs) && j < |bs| && Delivered(kind, p, bs, j, buffer)
    ensures Ends(kind, p, bs, j, s, buffer)
  {
    if Tail(kind, p, bs, j) && buffer == Cut(p.sysex + bs[..j + 1]) {
      s := p.sysex + bs[..j];
      TailEnds(kind, p, bs, j);
    } else if i: nat :| Segment(kind, p, bs, i, j) && buffer == Cut(bs[i..j + 1]) {
      s := bs[i..j];
      SegmentEnds(kind, p, bs, i, j);
    } else {
      var i: nat :| BogusSegment(p, bs, i, j) && buffer == Cut([0x7E] + bs[i..j + 1]);
      s := [bs[i]] + bs[i..j];
      BogusEnds(p, bs, i, j);
    }
  }

  /** At the byte at j a handler is called exactly if bs[..j+1] ends in a segment of its own, or is the tail of one that
    was open at the start, or for the second handler ends in 7E data* F7 behind a finished sysex; and then with that,
    cut at the size of the buffer. */
  lemma DispatchAt(kind: Kind, p: Parser, bs: seq<Byte>, j: nat, buffer: seq<Byte>)
    requires |Carried(p)| <= MAX_SYSEX && NoRealTime(bs) && j < |bs|
    ensures |Trace(p, bs)[j]| <= 1
    ensures Call(kind, buffer) in Trace(p, bs)[j] <==> Delivered(kind, p, bs, j, buffer)
  {
    TraceAt(p, bs, j);
    var q := After(p, bs[..j]);
    if q.mode == WantSysex {
      CaptureTracks(p, bs, j);
      var s := Held(p, bs, j);
      StepIntoHandler(kind, q, bs[j], s, buffer);
      if Call(kind, buffer) in Trace(p, bs)[j] {
        HeldDelivered(kind, p, bs, j, s);
      }
    } else {
      StepIntoHandler(kind, q, bs[j], [], buffer);
    }
    if Delivered(kind, p, bs, j, buffer) {
      var s := DeliveredHeld(kind, p, bs, j, buffer);
      StepIntoHandler(kind, q, bs[j], s, buffer);
    }
  }

  lemma Held(p: Parser, bs: seq<Byte>, j: nat) returns (s: seq<Byte>)
    requires j <= |bs| && Tracks(p, bs, j) && After(p, bs[..j]).mode == WantSysex
    ensures Holds(p, bs, j, s) && After(p, bs[..j]).sysex == Cut(s)
  {
    if Continues(p, bs, j) {
      s := p.sysex + bs[..j];
    } else if i: nat :| CapturesFrom(p, bs, i, j) {
      s := bs[i..j];
    } else {
      var i: nat :| BogusFrom(p, bs, i, j);
      s := [bs[i]] + bs[i..j];
    }
  }

  // ---------- Whole streams ----------

  lemma {:induction false} StripIdentity(bs: seq<Byte>)
    requires NoRealTime(bs)
    ensures Strip(bs) == bs
  {
    if bs != [] {
      StripIdentity(bs[1..]);
    }
  }

  function BufferOf(kind: Kind, e: Event): seq<seq<Byte>> {
    match e
    case NativeSysex(buffer) => if kind == Native then [buffer] else []
    case NonRealTimeSysex(buffer) => if kind == NonRealTime then [buffer] else []
    case _ => []
  }

  /** The buffers given to a handler, in order. */
  function Calls(kind: Kind, events: seq<Event>): seq<seq<Byte>> {
    if events == [] then [] else BufferOf(kind, events[0]) + Calls(kind, events[1..])
  }

  function CallsUpTo(kind: Kind, t: seq<seq<Event>>, n: nat): seq<seq<Byte>>
    requires n <= |t|
  {
    if n == 0 then [] else CallsUpTo(kind, t, n - 1) + Calls(kind, t[n - 1])
  }

  /** What is delivered at j, if anything is. There is one such buffer at most, so this leaves no choice. */
  ghost function DeliveryAt(kind: Kind, p: Parser, bs: seq<Byte>, j: nat): seq<seq<Byte>>
    requires j < |bs|
  {
    if exists buffer :: Delivered(kind, p, bs, j, buffer) then
      var buffer :| Delivered(kind, p, bs, j, buffer);
      [buffer]
    else []
  }

  /** What is delivered before n, in order. */
  ghost function Deliveries(kind: Kind, p: Parser, bs: seq<Byte>, n: nat): seq<seq<Byte>>
    requires n <= |bs|
  {
    if n == 0 then [] else Deliveries(kind, p, bs, n - 1) + DeliveryAt(kind, p, bs, n - 1)
  }

  lemma OneDelivery(kind: Kind, p: Parser, bs: seq<Byte>, j: nat, a: seq<Byte>, b: seq<Byte>)
    requires |Carried(p)| <= MAX_SYSEX && NoRealTime(bs) && j < |bs|
    requires Delivered(kind, p, bs, j, a) && Delivered(kind, p, bs, j, b)
    ensures a == b
  {
    DispatchAt(kind, p, bs, j, a);
    DispatchAt(kind, p, bs, j, b);
    OneCall(kind, Trace(p, bs)[j], a, b);
  }

  lemma OneCall(kind: Kind, events: seq<Event>, a: seq<Byte>, b: seq<Byte>)
    requires |events| <= 1 && Call(kind, a) in events && Call(kind, b) in events
    ensures a == b
  {
    assert events[0] == Call(kind, a) && events[0] == Call(kind, b);
  }

  lemma DeliveryAtIs(kind: Kind, p: Parser, bs: seq<Byte>, j: nat, buffer: seq<Byte>)
    requires j < |bs| && buffer in DeliveryAt(kind, p, bs, j)
    ensures Delivered(kind, p, bs, j, buffer)
  {
  }

  lemma OnlyDelivery(kind: Kind, p: Parser, bs: seq<Byte>, j: nat, buffer: seq<Byte>)
    requires |Carried(p)| <= MAX_SYSEX && NoRealTime(bs) && j < |bs| && Delivered(kind, p, bs, j, buffer)
    ensures DeliveryAt(kind, p, bs, j) == [buffer]
  {
    var other := DeliveryAt(kind, p, bs, j)[0];
    DeliveryAtIs(kind, p, bs, j, other);
    OneDelivery(kind, p, bs, j, buffer, other);
  }

  lemma {:induction false} DeliveredBefore(kind: Kind, p: Parser, bs: seq<Byte>, n: nat, buffer: seq<Byte>)
    returns (j: nat)
    requires n <= |bs| && buffer in Deliveries(kind, p, bs, n)
    ensures j < n && Delivered(kind, p, bs, j, buffer)
    decreases n
  {
    if buffer in Deliveries(kind, p, bs, n - 1) {
      j := DeliveredBefore(kind, p, bs, n - 1, buffer);
    } else {
      j := n - 1;
      DeliveryAtIs(kind, p, bs, j, buffer);
    }
  }

  lemma {:induction false} CallsConcat(kind: Kind, a: seq<Event>, b: seq<Event>)
    ensures Calls(kind, a + b) == Calls(kind, a) + Calls(kind, b)
  {
    if a == [] {
      assert a + b == b;
    } else {
      assert (a + b)[1..] == a[1..] + b;
      CallsConcat(kind, a[1..], b);
    }
  }

  lemma {:induction false} CallsOfTail(kind: Kind, t: seq<seq<Event>>, n: nat)
    requires 0 < n <= |t|
    ensures CallsUpTo(kind, t, n) == Calls(kind, t[0]) + CallsUpTo(kind, t[1..], n - 1)
  {
    if n > 1 {
      CallsOfTail(kind, t, n - 1);
    }
  }

  lemma {:induction false} CallsOfWeave(kind: Kind, ws: seq<Byte>, t: seq<seq<Event>>)
    requires |t| == |Strip(ws)|
    ensures Calls(kind, Weave(ws, t)) == CallsUpTo(kind, t, |t|)
  {
    if ws != [] {
      if IsRealTime(ws[0]) {
        CallsConcat(kind, [RealTime(LowNibble(ws[0]))], Weave(ws[1..], t));
        CallsOfWeave(kind, ws[1..], t);
      } else {
        CallsConcat(kind, t[0], Weave(ws[1..], t[1..]));
        CallsOfWeave(kind, ws[1..], t[1..]);
        CallsOfTail(kind, t, |t|);
      }
    }
  }

  lemma OneOrNoCall(kind: Kind, events: seq<Event>)
    requires |events| <= 1
    ensures Calls(kind, events) == if events == [] then [] else BufferOf(kind, events[0])
  {
  }

  lemma CallsAt(kind: Kind, p: Parser, bs: seq<Byte>, j: nat)
    requires |Carried(p)| <= MAX_SYSEX && NoRealTime(bs) && j < |bs|
    ensures Calls(kind, Trace(p, bs)[j]) == DeliveryAt(kind, p, bs, j)
  {
    var events := Trace(p, bs)[j];
    DispatchAt(kind, p, bs, j, []);
    OneOrNoCall(kind, events);
    if DeliveryAt(kind, p, bs, j) != [] {
      var buffer := DeliveryAt(kind, p, bs, j)[0];
      assert Delivered(kind, p, bs, j, buffer);
      DispatchAt(kind, p, bs, j, buffer);
    } else if events != [] && BufferOf(kind, events[0]) != [] {
      DispatchAt(kind, p, bs, j, BufferOf(kind, events[0])[0]);
    }
  }

  lemma {:induction false} CallsAreDeliveries(kind: Kind, p: Parser, bs: seq<Byte>, n: nat)
    requires |Carried(p)| <= MAX_SYSEX && NoRealTime(bs) && n <= |bs|
    ensures CallsUpTo(kind, Trace(p, bs), n) == Deliveries(kind, p, bs, n)
    decreases n
  {
    if n > 0 {
      CallsAreDeliveries(kind, p, bs, n - 1);
      CallsAt(kind, p, bs, n - 1);
    }
  }

  /** Over any byte stream at all, from any state, the native handler is called once for each segment F0 data* F7 with
    the module's prefix whose F0 the parser takes, or has taken, for a start, in order, and for nothing else; and the
    non-real-time handler for each such segment F0 7E data* F7, and for each 7E data* F7 behind a finished sysex. */
  lemma DispatchExact(kind: Kind, p: Parser, ws: seq<Byte>)
    requires |Carried(p)| <= MAX_SYSEX
    ensures Calls(kind, Log(p, ws)) == Deliveries(kind, p, Strip(ws), |Strip(ws)|)
  {
    RealTimeTransparent(p, ws);
    CallsOfWeave(kind, ws, Trace(p, Strip(ws)));
    CallsAreDeliveries(kind, p, Strip(ws), |Strip(ws)|);
  }

  predicate NothingButData(buffer: seq<Byte>) {
    forall k :: 1 <= k < |buffer| - 1 ==> !IsStatus(buffer[k])
  }

  lemma CutWellFormed(p: Parser, bs: seq<Byte>, j: nat, buffer: seq<Byte>)
    requires Delivered(Native, p, bs, j, buffer)
    ensures 5 <= |buffer| <= 4096 && |buffer| <= |Carried(p)| + j + 1
    ensures (forall k :: 1 <= k < |Carried(p)| ==> !IsStatus(Carried(p)[k])) ==> NothingButData(buffer)
  {
  }

  /** A buffer delivered to the native handler fits the array, is no longer than the stream, and has no status byte
    inside; it may begin with what had been captured before. */
  lemma SegmentsWellFormed(p: Parser, bs: seq<Byte>, n: nat, buffer: seq<Byte>)
    requires n <= |bs| && buffer in Deliveries(Native, p, bs, n)
    ensures 5 <= |buffer| <= 4096 && |buffer| <= |Carried(p)| + n
    ensures (forall k :: 1 <= k < |Carried(p)| ==> !IsStatus(Carried(p)[k])) ==> NothingButData(buffer)
  {
    var j := DeliveredBefore(Native, p, bs, n, buffer);
    CutWellFormed(p, bs, j, buffer);
  }
}
