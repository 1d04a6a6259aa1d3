/** The Select Bus parser of src/recall.c and its routing of program changes to save or load. */
module RecallParser {
  import opened Bytes
  import opened Sequences
  import M = MidiParser

  const MAX_SYSEX := 20

  datatype Event =
    | Save(slot: Byte)
    | Load(slot: Byte)
    | Handler(status: Byte, channel: Byte, data: seq<Byte>)
    | Native(buffer: seq<Byte>)

  datatype Parser = Parser(mode: M.Mode, status: Byte, channel: Byte, first: Byte, sysex: seq<Byte>, saveMode: bool)

  datatype Outcome = Outcome(parser: Parser, events: seq<Event>)

  const INITIAL := Parser(M.Idle, 0, 0, 0, [], false)

  function Grow(buffer: seq<Byte>, b: Byte): seq<Byte> {
    if |buffer| < MAX_SYSEX then buffer + [b] else buffer
  }

  function EndOfSysex(buffer: seq<Byte>): seq<Event> {
    if |buffer| > 4 && buffer[..4] == M.SYSEX_ID then [Native(buffer)] else []
  }

  /** Recall_ProcessMessage, for a message whose data bytes have arrived. */
  function Process(p: Parser, data: seq<Byte>): Outcome
    requires |data| == 1 || |data| == 2
  {
    if p.channel == 0 && p.status == 0xB0 && data[0] == 16 then
      Outcome(p.(saveMode := |data| == 2 && data[1] == 127), [])
    else if p.channel == 0 && p.status == 0xC0 then
      Outcome(p, [if p.saveMode then Save(data[0] % 64) else Load(data[0] % 64)])
    else if p.channel != 0 && p.status + p.channel == 0xF4 then
      Outcome(p, if data[0] < 0x40 then [Save(data[0] % 64)] else [])
    else Outcome(p, [Handler(p.status, p.channel, data)])
  }

  /** The switch of Recall_ProcessStatus: the parser it leaves, and whether the handler is called at once. */
  function Latch(p: Parser, b: Byte): Parser {
    var q := if IsStatus(b) then p.(status := HighNibble(b), channel := LowNibble(b)) else p;
    if M.TwoDataBytes(q.status) then q.(mode := M.WantByte1of2)
    else if M.OneDataByte(q.status) then q.(mode := M.WantByte1of1)
    else if q.status == 0xF0 && q.channel == 4 then q.(mode := M.WantByte1of1)
    else if q.status == 0xF0 && q.channel == 0 then q.(mode := M.WantSysex, sysex := [b])
    else q
  }

  predicate Immediate(q: Parser) {
    q.status == 0xF0 && q.channel != 0 && q.channel != 4
  }

  function Collect(p: Parser, b: Byte): Outcome {
    match p.mode
    case Idle => Outcome(p, [])
    case WantByte1of1 =>
      var o := Process(p.(first := b), [b]);
      Outcome(o.parser.(mode := M.Idle), o.events)
    case WantByte1of2 => Outcome(p.(mode := M.WantByte2, first := b), [])
    case WantByte2 =>
      var o := Process(p, [p.first, b]);
      Outcome(o.parser.(mode := M.Idle), o.events)
    case WantSysex =>
      var buffer := Grow(p.sysex, b);
      if IsStatus(b) then Outcome(p.(mode := M.Idle, sysex := buffer), EndOfSysex(buffer))
      else Outcome(p.(sysex := buffer), [])
  }

  function OnStatus(p: Parser, b: Byte): Outcome {
    var q := Latch(p, b);
    if Immediate(q) then Outcome(q, [Handler(q.status, q.channel, [])])
    else if IsStatus(b) then Outcome(q, [])
    else Collect(q, b)
  }

  /** Recall_ProcessMIDI. Real-time bytes get no special treatment. */
  function Step(p: Parser, b: Byte): Outcome {
    if p.mode == M.Idle then OnStatus(p, b)
    else if p.mode == M.WantSysex && IsStatus(b) && b != 0xF7 then
      OnStatus(p.(mode := M.Idle, sysex := Grow(p.sysex, b)), b)
    else Collect(p, b)
  }

  function After(p: Parser, bs: seq<Byte>): Parser
    decreases |bs|
  {
    if bs == [] then p else After(Step(p, bs[0]).parser, bs[1..])
  }

  function Log(p: Parser, bs: seq<Byte>): seq<Event>
    decreases |bs|
  {
    if bs == [] then [] else Step(p, bs[0]).events + Log(Step(p, bs[0]).parser, bs[1..])
  }

  lemma {:induction false} RunConcat(p: Parser, a: seq<Byte>, b: seq<Byte>)
    ensures After(p, a + b) == After(After(p, a), b)
    ensures Log(p, a + b) == Log(p, a) + Log(After(p, a), b)
    decreases |a|
  {
    if a == [] {
      assert a + b == b;
    } else {
      assert (a + b)[1..] == a[1..] + b;
      RunConcat(Step(p, a[0]).parser, a[1..], b);
    }
  }

  // ---------- Streams of messages ----------

  /** A message on the bus. F4 n saves a slot; System is any other system message. */
  datatype Item =
    | Channel(status: Byte, channel: Byte, data: seq<Byte>, omitStatus: bool)
    | SaveSlot(n: Byte)
    | System(id: Byte, data: seq<Byte>)
    | Sysex(body: seq<Byte>, ended: bool)

  datatype Running = NoStatus | Status(status: Byte, channel: Byte) | OpenSysex

  predicate Shaped(item: Item) {
    match item
    case Channel(status, channel, data, _) =>
      && channel < 16 && AllData(data)
      && if status in {0x80, 0x90, 0xA0, 0xB0, 0xE0} then |data| == 2 else status in {0xC0, 0xD0} && |data| == 1
    case SaveSlot(n) => !IsStatus(n)
    case System(id, data) => 1 <= id < 16 && id != 4 && AllData(data)
    case Sysex(body, _) => AllData(body)
  }

  /** A status byte may be left out if it is the one in force; 0xF7 is a message of its own outside a sysex only. */
  predicate LegalItem(running: Running, item: Item) {
    && Shaped(item)
    && (item.Channel? && item.omitStatus ==> running == Status(item.status, item.channel))
    && (item.System? && item.id == 7 ==> running != OpenSysex)
  }

  function RunningAfter(item: Item): Running {
    match item
    case Channel(status, channel, _, _) => Status(status, channel)
    case Sysex(_, ended) => if ended then NoStatus else OpenSysex
    case _ => NoStatus
  }

  predicate Legal(running: Running, items: seq<Item>): (legal: bool)
    ensures legal ==> forall k :: 0 <= k < |items| ==> Shaped(items[k])
    decreases |items|
  {
    items != [] ==> LegalItem(running, items[0]) && Legal(RunningAfter(items[0]), items[1..])
  }

  function EncodeItem(item: Item): seq<Byte>
    requires Shaped(item)
  {
    match item
    case Channel(status, channel, data, omitStatus) => (if omitStatus then [] else [status + channel]) + data
    case SaveSlot(n) => [0xF4, n]
    case System(id, data) => [0xF0 + id] + data
    case Sysex(body, ended) => [0xF0] + body + (if ended then [0xF7] else [])
  }

  function Encode(running: Running, items: seq<Item>): seq<Byte>
    requires Legal(running, items)
    decreases |items|
  {
    if items == [] then [] else EncodeItem(items[0]) + Encode(RunningAfter(items[0]), items[1..])
  }

  predicate SetsSaveMode(item: Item) {
    item.Channel? && item.status == 0xB0 && item.channel == 0 && |item.data| == 2 && item.data[0] == 16
  }

  /** The save mode after the items: whether the latest controller 16 on channel 0 had value 127. */
  function SaveMode(initial: bool, items: seq<Item>): bool {
    if items == [] then initial
    else if SetsSaveMode(items[|items| - 1]) then items[|items| - 1].data[1] == 127
    else SaveMode(initial, items[..|items| - 1])
  }

  function Repeat(e: Event, n: nat): (r: seq<Event>)
    ensures |r| == n
  {
    seq(n, _ => e)
  }

  function Cut(segment: seq<Byte>): seq<Byte> {
    if |segment| <= MAX_SYSEX then segment else segment[..MAX_SYSEX]
  }

  /** Where a channel message goes. */
  function RouteChannel(saveMode: bool, status: Byte, channel: Byte, data: seq<Byte>): seq<Event>
    requires data != []
  {
    if status == 0xB0 && channel == 0 && |data| == 2 && data[0] == 16 then []
    else if status == 0xC0 && channel == 0 then [if saveMode then Save(data[0] % 64) else Load(data[0] % 64)]
    else [Handler(status, channel, data)]
  }

  /** Whether a system message goes to the handler once, as it should, or once for each of its bytes. */
  datatype Manner = PerMessage | PerByte

  /** Where a message goes. */
  function Route(manner: Manner, saveMode: bool, item: Item): seq<Event>
    requires Shaped(item)
  {
    match item
    case Channel(status, channel, data, _) => RouteChannel(saveMode, status, channel, data)
    case SaveSlot(n) => if n < 0x40 then [Save(n)] else []
    case System(id, data) => Repeat(Handler(0xF0, id, []), if manner.PerMessage? then 1 else 1 + |data|)
    case Sysex(body, ended) =>
      if ended && [0x00, 0x21, 0x27] <= body then [Native(Cut([0xF0] + body + [0xF7]))] else []
  }

  /** The first n messages of a stream, each routed by the save mode of the messages before it. */
  function Routed(manner: Manner, initial: bool, items: seq<Item>, n: nat): seq<Event>
    requires n <= |items| && forall k :: 0 <= k < |items| ==> Shaped(items[k])
  {
    if n == 0 then []
    else Routed(manner, initial, items, n - 1) + Route(manner, SaveMode(initial, items[..n - 1]), items[n - 1])
  }

  // ---------- Decoding ----------

  /** The parser is between messages, or in a sysex yet to be broken off, and remembers the running status. */
  predicate Ready(p: Parser, running: Running) {
    match running
    case NoStatus => p.mode == M.Idle
    case Status(status, channel) => p.mode == M.Idle && p.status == status && p.channel == channel
    case OpenSysex => p.mode == M.WantSysex
  }

  /** What an item does from a parser that is ready for it. */
  predicate Decoded(p: Parser, item: Item, bytes: seq<Byte>)
    requires Shaped(item)
  {
    && Log(p, bytes) == Route(PerByte, p.saveMode, item)
    && Ready(After(p, bytes), RunningAfter(item))
    && After(p, bytes).saveMode == SaveMode(p.saveMode, [item])
  }

  lemma OneByte(p: Parser, a: Byte)
    ensures Log(p, [a]) == Step(p, a).events && After(p, [a]) == Step(p, a).parser
  {
  }

  lemma TwoBytes(p: Parser, a: Byte, b: Byte)
    ensures var q := Step(p, a).parser;
            Log(p, [a, b]) == Step(p, a).events + Step(q, b).events && After(p, [a, b]) == Step(q, b).parser
  {
    assert [a, b][1..] == [b];
    OneByte(Step(p, a).parser, b);
  }

  lemma ChannelStatus(p: Parser, status: Byte, channel: Byte)
    requires p.mode == M.Idle || p.mode == M.WantSysex
    requires (M.TwoDataBytes(status) || M.OneDataByte(status)) && channel < 16
    ensures var o := Step(p, status + channel);
            o.events == [] && o.parser.status == status && o.parser.channel == channel &&
            o.parser.saveMode == p.saveMode &&
            o.parser.mode == if M.TwoDataBytes(status) then M.WantByte1of2 else M.WantByte1of1
  {
    assert HighNibble(status + channel) == status && LowNibble(status + channel) == channel;
  }

  /** Routing one complete channel message. */
  lemma ProcessRoutes(p: Parser, item: Item)
    requires item.Channel? && Shaped(item) && p.status == item.status && p.channel == item.channel
    ensures var o := Process(p, item.data);
            && o.events == Route(PerByte, p.saveMode, item) && o.parser == p.(saveMode := o.parser.saveMode)
            && o.parser.saveMode == SaveMode(p.saveMode, [item])
  {
  }

  lemma ChannelData(p: Parser, item: Item)
    requires item.Channel? && Shaped(item) && p.status == item.status && p.channel == item.channel
    requires p.mode == M.Idle || p.mode == if M.TwoDataBytes(item.status) then M.WantByte1of2 else M.WantByte1of1
    ensures Decoded(p, item, item.data)
  {
    var data := item.data;
    var waiting := p.(mode := if M.TwoDataBytes(item.status) then M.WantByte1of2 else M.WantByte1of1);
    assert Step(p, data[0]) == Collect(waiting, data[0]);
    if |data| == 1 {
      assert data == [data[0]];
      OneByte(p, data[0]);
      ProcessRoutes(waiting.(first := data[0]), item);
    } else {
      assert data == [data[0], data[1]];
      TwoBytes(p, data[0], data[1]);
      ProcessRoutes(Step(p, data[0]).parser, item);
    }
  }

  lemma ChannelItem(p: Parser, running: Running, item: Item)
    requires item.Channel? && LegalItem(running, item) && Ready(p, running)
    ensures Decoded(p, item, EncodeItem(item))
  {
    if item.omitStatus {
      assert EncodeItem(item) == item.data;
      ChannelData(p, item);
    } else {
      var bytes := [item.status + item.channel] + item.data;
      ChannelStatus(p, item.status, item.channel);
      assert bytes[1..] == item.data;
      ChannelData(Step(p, bytes[0]).parser, item);
    }
  }

  lemma SaveSlotItem(p: Parser, running: Running, item: Item)
    requires item.SaveSlot? && LegalItem(running, item) && Ready(p, running)
    ensures Decoded(p, item, EncodeItem(item))
  {
    assert HighNibble(0xF4) == 0xF0 && LowNibble(0xF4) == 4;
    TwoBytes(p, 0xF4, item.n);
    assert [item][..0] == [];
  }

  lemma {:induction false} SystemData(p: Parser, data: seq<Byte>)
    requires p.mode == M.Idle && p.status == 0xF0 && p.channel != 0 && p.channel != 4 && AllData(data)
    ensures After(p, data) == p && Log(p, data) == Repeat(Handler(0xF0, p.channel, []), |data|)
    decreases |data|
  {
    if data != [] {
      SystemData(p, data[1..]);
    }
  }

  lemma SystemItem(p: Parser, running: Running, item: Item)
    requires item.System? && LegalItem(running, item) && Ready(p, running)
    ensures Decoded(p, item, EncodeItem(item))
  {
    var bytes := EncodeItem(item);
    var q := Step(p, bytes[0]).parser;
    assert HighNibble(bytes[0]) == 0xF0 && LowNibble(bytes[0]) == item.id;
    assert bytes[1..] == item.data;
    assert Step(p, bytes[0]).events == [Handler(0xF0, item.id, [])];
    SystemData(q, item.data);
    assert [item][..0] == [];
  }

  lemma CutGrow(s: seq<Byte>, b: Byte)
    ensures Grow(Cut(s), b) == Cut(s + [b])
  {
  }

  lemma {:induction false} CaptureBody(p: Parser, s: seq<Byte>, body: seq<Byte>)
    requires p.mode == M.WantSysex && p.sysex == Cut(s) && AllData(body)
    ensures After(p, body) == p.(sysex := Cut(s + body)) && Log(p, body) == []
    decreases |body|
  {
    if body == [] {
      assert s + body == s;
    } else {
      CutGrow(s, body[0]);
      assert s + [body[0]] + body[1..] == s + body;
      CaptureBody(Step(p, body[0]).parser, s + [body[0]], body[1..]);
    }
  }

  /** The opening byte and the body of a sysex, which report nothing. */
  lemma SysexHead(p: Parser, body: seq<Byte>)
    requires (p.mode == M.Idle || p.mode == M.WantSysex) && AllData(body)
    ensures var head := [0xF0] + body;
            && Log(p, head) == [] && After(p, head).mode == M.WantSysex
            && After(p, head).sysex == Cut(head) && After(p, head).saveMode == p.saveMode
  {
    var head := [0xF0] + body;
    assert HighNibble(0xF0) == 0xF0 && LowNibble(0xF0) == 0;
    assert head[1..] == body;
    CaptureBody(Step(p, 0xF0).parser, [0xF0], body);
  }

  /** The test of a sysex, on what follows its 0xF0. */
  lemma EndByBody(body: seq<Byte>)
    ensures var whole := Cut([0xF0] + body + [0xF7]);
            EndOfSysex(whole) == if [0x00, 0x21, 0x27] <= body then [Native(whole)] else []
  {
    var s := [0xF0] + body + [0xF7];
    assert |body| >= 3 ==> Cut(s)[..4] == s[..4] == [0xF0] + body[..3];
    assert M.SYSEX_ID[1..] == [0x00, 0x21, 0x27];
    assert |body| >= 3 && s[..4] == M.SYSEX_ID ==> s[..4][1..] == body[..3];
  }

  lemma SysexEnd(q: Parser, body: seq<Byte>)
    requires q.mode == M.WantSysex && q.sysex == Cut([0xF0] + body) && AllData(body)
    ensures Log(q, [0xF7]) == Route(PerByte, q.saveMode, Sysex(body, true))
    ensures After(q, [0xF7]).mode == M.Idle && After(q, [0xF7]).saveMode == q.saveMode
  {
    CutGrow([0xF0] + body, 0xF7);
    EndByBody(body);
    OneByte(q, 0xF7);
  }

  lemma SysexItem(p: Parser, running: Running, item: Item)
    requires item.Sysex? && LegalItem(running, item) && Ready(p, running)
    ensures Decoded(p, item, EncodeItem(item))
  {
    var head := [0xF0] + item.body;
    assert [item][..0] == [];
    SysexHead(p, item.body);
    if item.ended {
      RunConcat(p, head, [0xF7]);
      SysexEnd(After(p, head), item.body);
    } else {
      assert EncodeItem(item) == head;
    }
  }

  lemma ItemDecoded(p: Parser, running: Running, item: Item)
    requires LegalItem(running, item) && Ready(p, running)
    ensures Decoded(p, item, EncodeItem(item))
  {
    match item {
      case Channel(_, _, _, _) => ChannelItem(p, running, item);
      case SaveSlot(_) => SaveSlotItem(p, running, item);
      case System(_, _) => SystemItem(p, running, item);
      case Sysex(_, _) => SysexItem(p, running, item);
    }
  }

  lemma {:induction false} SaveModeOfTail(initial: bool, items: seq<Item>)
    requires items != []
    ensures SaveMode(initial, items) == SaveMode(SaveMode(initial, [items[0]]), items[1..])
    decreases |items|
  {
    var front := items[..|items| - 1];
    if |items| == 1 {
      assert items == [items[0]];
    } else {
      assert items[1..][..|items| - 2] == front[1..];
      SaveModeOfTail(initial, front);
    }
  }

  lemma {:induction false} RoutedOfTail(manner: Manner, initial: bool, items: seq<Item>, n: nat)
    requires 0 < n <= |items| && forall k :: 0 <= k < |items| ==> Shaped(items[k])
    ensures Routed(manner, initial, items, n) ==
            Route(manner, initial, items[0]) + Routed(manner, SaveMode(initial, [items[0]]), items[1..], n - 1)
    decreases n
  {
    var mode, tail := SaveMode(initial, [items[0]]), items[1..];
    if n == 1 {
      assert items[..0] == [];
    } else {
      RoutedOfTail(manner, initial, items, n - 1);
      SameMode(initial, items, n);
      var last := Route(manner, SaveMode(mode, tail[..n - 2]), tail[n - 2]);
      Reassociate(Route(manner, initial, items[0]), Routed(manner, mode, tail, n - 2), last);
    }
  }

  lemma SameMode(initial: bool, items: seq<Item>, n: nat)
    requires 1 < n <= |items|
    ensures SaveMode(initial, items[..n - 1]) == SaveMode(SaveMode(initial, [items[0]]), items[1..][..n - 2])
  {
    assert items[..n - 1][1..] == items[1..][..n - 2];
    SaveModeOfTail(initial, items[..n - 1]);
  }

  /** Every legal stream of messages is routed message by message: a program change on channel 0 to save exactly
    when the latest controller 16 on channel 0 had value 127 and to load otherwise, F4 n to save exactly when
    n < 0x40, that controller nowhere, and every other message to the handler, a system message
    once for each of its bytes. */
  lemma {:induction false} StreamRouted(p: Parser, running: Running, items: seq<Item>)
    requires Legal(running, items) && Ready(p, running)
    ensures Log(p, Encode(running, items)) == Routed(PerByte, p.saveMode, items, |items|)
    decreases |items|
  {
    if items != [] {
      var bytes := EncodeItem(items[0]);
      ItemDecoded(p, running, items[0]);
      RunConcat(p, bytes, Encode(RunningAfter(items[0]), items[1..]));
      StreamRouted(After(p, bytes), RunningAfter(items[0]), items[1..]);
      RoutedOfTail(PerByte, p.saveMode, items, |items|);
    }
  }

  // ---------- Each message once ----------

  /** The calls of the handler for data bytes of system messages. */
  function ExtraCalls(items: seq<Item>, n: nat): nat
    requires n <= |items|
  {
    if n == 0 then 0 else ExtraCalls(items, n - 1) + if items[n - 1].System? then |items[n - 1].data| else 0
  }

  predicate NoSystemData(items: seq<Item>, n: nat)
    requires n <= |items|
  {
    forall k :: 0 <= k < n && items[k].System? ==> items[k].data == []
  }

  lemma {:induction false} ExtraCallsCounted(initial: bool, items: seq<Item>, n: nat)
    requires n <= |items| && forall k :: 0 <= k < |items| ==> Shaped(items[k])
    ensures |Routed(PerByte, initial, items, n)| == |Routed(PerMessage, initial, items, n)| + ExtraCalls(items, n)
    ensures NoSystemData(items, n) ==> Routed(PerByte, initial, items, n) == Routed(PerMessage, initial, items, n)
    ensures ExtraCalls(items, n) == 0 <==> NoSystemData(items, n)
    decreases n
  {
    if n > 0 {
      ExtraCallsCounted(initial, items, n - 1);
    }
  }

  /** A legal stream reaches its destinations message by message, each once, if and only if no system message in it has
    data bytes. */
  lemma StreamRoutedOnce(p: Parser, running: Running, items: seq<Item>)
    requires Legal(running, items) && Ready(p, running)
    ensures Log(p, Encode(running, items)) == Routed(PerMessage, p.saveMode, items, |items|) <==>
            forall k :: 0 <= k < |items| && items[k].System? ==> items[k].data == []
  {
    StreamRouted(p, running, items);
    ExtraCallsCounted(p.saveMode, items, |items|);
  }

  /** From power-up, a song position is reported three times. */
  lemma SongPositionRepeats(lsb: Byte, msb: Byte)
    requires !IsStatus(lsb) && !IsStatus(msb)
    ensures Log(INITIAL, [0xF2, lsb, msb]) == [Handler(0xF0, 2, []), Handler(0xF0, 2, []), Handler(0xF0, 2, [])]
  {
    var item := System(2, [lsb, msb]);
    assert EncodeItem(item) == [0xF2, lsb, msb];
    SystemItem(INITIAL, NoStatus, item);
  }

  /** From power-up, data bytes are ignored and a program change on channel 0 loads. */
  lemma {:induction false} PowerUp(data: seq<Byte>, n: Byte)
    requires AllData(data) && !IsStatus(n)
    ensures Log(INITIAL, data) == [] && After(INITIAL, data) == INITIAL
    ensures Log(INITIAL, [0xC0, n]) == [Load(n % 64)]
    decreases |data|
  {
    if data != [] {
      PowerUp(data[1..], n);
    }
    ChannelStatus(INITIAL, 0xC0, 0);
    TwoBytes(INITIAL, 0xC0, n);
  }
}
