/** Decoding inverts encoding: what the parser of src/midi.c makes of a stream that a sender built from
  messages, with running status, as the MIDI 1.0 Detailed Specification (v4.2) lays it out. */
module MidiEncoding {
  import opened Bytes
  import opened MidiParser
  import opened MidiSysex

  /** A message as sent. A channel message may leave out its status byte, under running status; a sysex
    message may end with 0xF7 or be broken off by the next status byte. */
  datatype Item =
    | Channel(status: Byte, channel: Byte, data: seq<Byte>, omitStatus: bool)
    | Common(id: Byte, data: seq<Byte>)
    | Sysex(body: seq<Byte>, ended: bool)

  predicate LegalItem(running: Running, item: Item) {
    match item
    case Channel(status, channel, data, omitStatus) =>
      && channel < 16 && AllData(data)
      && (if status in {0x80, 0x90, 0xA0, 0xB0, 0xE0} then |data| == 2 else status in {0xC0, 0xD0} && |data| == 1)
      && (omitStatus ==> running == Status(status, channel))
    case Common(id, data) => 1 <= id <= 6 && AllData(data)
    case Sysex(body, ended) => AllData(body)
  }

  function RunningAfter(item: Item): Running {
    if item.Channel? then Status(item.status, item.channel) else NoStatus
  }

  predicate Legal(running: Running, items: seq<Item>)
    decreases |items|
  {
    items != [] ==> LegalItem(running, items[0]) && Legal(RunningAfter(items[0]), items[1..])
  }

  function EncodeItem(running: Running, item: Item): seq<Byte>
    requires LegalItem(running, item)
  {
    match item
    case Channel(status, channel, data, omitStatus) => (if omitStatus then [] else [status + channel]) + data
    case Common(id, data) => [0xF0 + id] + data
    case Sysex(body, ended) => [0xF0] + body + (if ended then [0xF7] else [])
  }

  function Encode(running: Running, items: seq<Item>): seq<Byte>
    requires Legal(running, items)
    decreases |items|
  {
    if items == [] then []
    else EncodeItem(running, items[0]) + Encode(RunningAfter(items[0]), items[1..])
  }

  /** What a message is to report with its last byte. */
  function Report(item: Item): seq<Event> {
    match item
    case Channel(status, channel, data, _) => [Message(status, channel, data)]
    case Common(_, _) => []
    case Sysex(body, ended) =>
      var whole := Cut([0xF0] + body + [0xF7]);
      if ended && [0x00, 0x21, 0x27] <= body then [NativeSysex(whole)]
      else if ended && [0x7E] <= body then [NonRealTimeSysex(whole)]
      else []
  }

  function Blank(n: nat): (t: seq<seq<Event>>)
    ensures |t| == n
  {
    seq(n, _ => [])
  }

  /** Nothing until the last byte of a message, and then its report. */
  function Reports(running: Running, items: seq<Item>): (t: seq<seq<Event>>)
    requires Legal(running, items)
    ensures |t| == |Encode(running, items)|
    decreases |items|
  {
    if items == [] then []
    else
      assert EncodeItem(running, items[0]) != [];
      Blank(|EncodeItem(running, items[0])| - 1) + [Report(items[0])] + Reports(RunningAfter(items[0]), items[1..])
  }

  /** The parser is between messages (or in a sysex yet to be broken off) and remembers the running status. */
  predicate Ready(p: Parser, running: Running) {
    match running
    case NoStatus => p.mode == Idle || p.mode == WantSysex
    case Status(status, channel) => p.mode == Idle && p.status == status && p.channel == channel
  }

  /** In a sysex, data bytes are captured and report nothing. */
  lemma {:induction false} CaptureBody(p: Parser, s: seq<Byte>, body: seq<Byte>)
    requires p.mode == WantSysex && p.sysex == Cut(s) && AllData(body)
    ensures After(p, body) == p.(sysex := Cut(s + body))
    ensures Trace(p, body) == Blank(|body|)
    decreases |body|
  {
    if body == [] {
      assert s + body == s;
    } else {
      CutGrow(s, body[0]);
      assert s + [body[0]] + body[1..] == s + body;
      CaptureBody(Step(p, body[0]).parser, s + [body[0]], body[1..]);
    }
  }

  /** After a system common status byte, data bytes are ignored. */
  lemma {:induction false} IgnoreData(p: Parser, data: seq<Byte>)
    requires p.mode == Idle && p.status == 0xF0 && p.channel != 0 && AllData(data)
    ensures After(p, data) == p && Trace(p, data) == Blank(|data|)
    decreases |data|
  {
    if data != [] {
      IgnoreData(p, data[1..]);
    }
  }

  /** A status byte of a channel message is taken as one between messages and in a sysex alike. */
  lemma ChannelStatus(p: Parser, status: Byte, channel: Byte)
    requires p.mode == Idle || p.mode == WantSysex
    requires (TwoDataBytes(status) || OneDataByte(status)) && channel < 16
    ensures var o := Step(p, status + channel);
            o.events == [] && o.parser.status == status && o.parser.channel == channel &&
            o.parser.mode == if TwoDataBytes(status) then WantByte1of2 else WantByte1of1
  {
  }

  /** The data bytes complete the message, whether the parser still waits for them or knows the status only. */
  lemma ChannelData(p: Parser, status: Byte, channel: Byte, data: seq<Byte>)
    requires LegalItem(NoStatus, Channel(status, channel, data, false))
    requires p.status == status && p.channel == channel
    requires p.mode == Idle || p.mode == if TwoDataBytes(status) then WantByte1of2 else WantByte1of1
    ensures Trace(p, data) == Blank(|data| - 1) + [[Message(status, channel, data)]]
    ensures Ready(After(p, data), Status(status, channel))
  {
    assert !IsStatus(data[0]);
    if OneDataByte(status) {
      assert data == [data[0]];
      OneByte(p, data);
    } else {
      assert data == [data[0], data[1]] && !IsStatus(data[1]);
      TwoBytes(p, data);
    }
  }

  lemma StatusAndData(p: Parser, status: Byte, channel: Byte, data: seq<Byte>)
    requires p.mode == Idle || p.mode == WantSysex
    requires LegalItem(NoStatus, Channel(status, channel, data, false))
    ensures Trace(p, [status + channel] + data) == Blank(|data|) + [[Message(status, channel, data)]]
    ensures Ready(After(p, [status + channel] + data), Status(status, channel))
  {
    var q := Step(p, status + channel).parser;
    ChannelStatus(p, status, channel);
    assert ([status + channel] + data)[1..] == data;
    ChannelData(q, status, channel, data);
    assert [[]] + Blank(|data| - 1) == Blank(|data|);
  }

  lemma ChannelItem(p: Parser, running: Running, item: Item)
    requires item.Channel? && LegalItem(running, item) && Ready(p, running)
    ensures var bytes := EncodeItem(running, item);
            Trace(p, bytes) == Blank(|bytes| - 1) + [Report(item)] && Ready(After(p, bytes), RunningAfter(item))
  {
    var Channel(status, channel, data, omitStatus) := item;
    if omitStatus {
      assert EncodeItem(running, item) == data;
      ChannelData(p, status, channel, data);
    } else {
      StatusAndData(p, status, channel, data);
    }
  }

  lemma CommonItem(p: Parser, running: Running, item: Item)
    requires item.Common? && LegalItem(running, item) && Ready(p, running)
    ensures var bytes := EncodeItem(running, item);
            Trace(p, bytes) == Blank(|bytes| - 1) + [Report(item)] && Ready(After(p, bytes), RunningAfter(item))
  {
    var bytes := [0xF0 + item.id] + item.data;
    assert HighNibble(bytes[0]) == 0xF0 && LowNibble(bytes[0]) == item.id;
    assert bytes[1..] == item.data;
    IgnoreData(Step(p, bytes[0]).parser, item.data);
  }

  /** The tests of a sysex, on what follows its 0xF0. */
  lemma ByBody(body: seq<Byte>)
    ensures Marked(Native, [0xF0] + body) <==> [0x00, 0x21, 0x27] <= body
    ensures Marked(NonRealTime, [0xF0] + body) <==> [0x7E] <= body
  {
    var s := [0xF0] + body;
    assert |body| >= 3 ==> s[..4] == [0xF0] + body[..3];
    assert [0xF0, 0x00, 0x21, 0x27][1..] == [0x00, 0x21, 0x27] && s[1..] == body;
    assert body != [] ==> s[1] == body[0] && body[..1] == [body[0]];
  }

  lemma SysexHead(p: Parser, body: seq<Byte>)
    requires (p.mode == Idle || p.mode == WantSysex) && AllData(body)
    ensures var head := [0xF0] + body;
            Trace(p, head) == Blank(|head|) && After(p, head).mode == WantSysex && After(p, head).sysex == Cut(head)
  {
    var head := [0xF0] + body;
    assert HighNibble(0xF0) == 0xF0 && LowNibble(0xF0) == 0;
    assert head[1..] == body;
    CaptureBody(Step(p, 0xF0).parser, [0xF0], body);
    assert [[]] + Blank(|body|) == Blank(|head|);
  }

  /** The end of a sysex that has been captured. */
  lemma SysexEnd(q: Parser, body: seq<Byte>)
    requires q.mode == WantSysex && q.sysex == Cut([0xF0] + body)
    ensures Step(q, 0xF7).events == Report(Sysex(body, true)) && Step(q, 0xF7).parser.mode == Idle
  {
    CutGrow([0xF0] + body, 0xF7);
    EndOfMarked([0xF0] + body);
    ByBody(body);
  }

  lemma SysexItem(p: Parser, running: Running, item: Item)
    requires item.Sysex? && LegalItem(running, item) && Ready(p, running)
    ensures var bytes := EncodeItem(running, item);
            Trace(p, bytes) == Blank(|bytes| - 1) + [Report(item)] && Ready(After(p, bytes), RunningAfter(item))
  {
    var head := [0xF0] + item.body;
    SysexHead(p, item.body);
    if item.ended {
      var q := After(p, head);
      SysexEnd(q, item.body);
      TraceConcat(p, head, [0xF7]);
      AfterConcat(p, head, [0xF7]);
      OneByte(q, [0xF7]);
    } else {
      assert EncodeItem(running, item) == head;
      assert Blank(|head|) == Blank(|head| - 1) + [[]];
    }
  }

  lemma {:induction false} DecodeInvertsEncode(p: Parser, running: Running, items: seq<Item>)
    requires Legal(running, items) && Ready(p, running)
    ensures Trace(p, Encode(running, items)) == Reports(running, items)
    decreases |items|
  {
    if items != [] {
      var bytes := EncodeItem(running, items[0]);
      match items[0] {
        case Channel(_, _, _, _) => ChannelItem(p, running, items[0]);
        case Common(_, _) => CommonItem(p, running, items[0]);
        case Sysex(_, _) => SysexItem(p, running, items[0]);
      }
      TraceConcat(p, bytes, Encode(RunningAfter(items[0]), items[1..]));
      DecodeInvertsEncode(After(p, bytes), RunningAfter(items[0]), items[1..]);
    }
  }

  /** A stream that is the encoding of legal items once its real-time bytes are taken out is reported as
    those items, each with its last byte, and the real-time bytes at their places. */
  lemma DecodeWithRealTime(p: Parser, running: Running, items: seq<Item>, ws: seq<Byte>)
    requires Legal(running, items) && Ready(p, running) && Strip(ws) == Encode(running, items)
    ensures Log(p, ws) == Weave(ws, Reports(running, items))
  {
    RealTimeTransparent(p, ws);
    DecodeInvertsEncode(p, running, items);
  }
}
