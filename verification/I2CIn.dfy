/** The I2C command parser of src/i2c.c as the source has it, with its state and message buffer updated byte
  by byte, passing MIDI messages on to the output ring of src/midi.c or to the Select Bus. */
module I2CInput {
  import opened Bytes
  import OutputQueue
  import MidiOutput
  import opened I2CParser

  /** All bytes the effects pass on to a port. */
  function PortBytes(effects: seq<Effect>, port: Port): seq<Byte> {
    if effects == [] then []
    else
      (if effects[0].Relay? && effects[0].port == port then effects[0].message else []) + PortBytes(effects[1..], port)
  }

  lemma {:induction false} PortBytesConcat(a: seq<Effect>, b: seq<Effect>, port: Port)
    ensures PortBytes(a + b, port) == PortBytes(a, port) + PortBytes(b, port)
  {
    if a == [] {
      assert a + b == b;
    } else {
      assert (a + b)[1..] == a[1..] + b;
      PortBytesConcat(a[1..], b, port);
    }
  }

  lemma OneEffect(effect: Effect, port: Port)
    ensures PortBytes([effect], port) == if effect.Relay? && effect.port == port then effect.message else []
  {
  }

  /** What a command makes an I2C master read next. The values are fixed. */
  function Reply(before: seq<Byte>, effect: Effect): seq<Byte> {
    if effect.Command? && |effect.bytes| == 2 && 0x48 <= effect.bytes[0] <= 0x4A then [0, 0]
    else if effect.Command? && |effect.bytes| == 1 && (effect.bytes[0] == 0x43 || effect.bytes[0] == 0x61) then [0, 0]
    else if effect.Command? && |effect.bytes| == 1 && effect.bytes[0] == 0x45 then [1]
    else before
  }

  function Replies(before: seq<Byte>, effects: seq<Effect>): seq<Byte>
    decreases |effects|
  {
    if effects == [] then before else Replies(Reply(before, effects[0]), effects[1..])
  }

  lemma {:induction false} RepliesConcat(before: seq<Byte>, a: seq<Effect>, b: seq<Effect>)
    ensures Replies(before, a + b) == Replies(Replies(before, a), b)
    decreases |a|
  {
    if a == [] {
      assert a + b == b;
    } else {
      assert (a + b)[1..] == a[1..] + b;
      RepliesConcat(Reply(before, a[0]), a[1..], b);
    }
  }

  /** A BYTE counted up n times. */
  function Counted(count: Byte, n: nat): Byte {
    if n == 0 then count
    else
      var c := Counted(count, n - 1);
      if c == 0xFF then 0 else c + 1
  }

  lemma {:induction false} CountedConcat(count: Byte, m: nat, n: nat)
    ensures Counted(count, m + n) == Counted(Counted(count, m), n)
  {
    if n > 0 {
      CountedConcat(count, m, n - 1);
    }
  }

  /** Addition to a BYTE */
  function Add(count: Byte, n: Byte): Byte {
    if count + n < 0x100 then count + n else count + n - 0x100
  }

  lemma {:induction false} CountedAtOnce(count: Byte, n: Byte)
    ensures Counted(count, n) == Add(count, n)
    decreases n
  {
    if n > 0 {
      CountedAtOnce(count, n - 1);
    }
  }

  lemma OneReply(before: seq<Byte>, effect: Effect)
    ensures Replies(before, [effect]) == Reply(before, effect)
  {
    assert [effect][1..] == [];
  }

  /** The log, what went out on the Select Bus and how many bytes are to be ignored when it brings them back, what an
    I2C master reads next, and the MIDI output queue. */
  datatype Output = Output(effects: seq<Effect>, selectWire: seq<Byte>, ignore: Byte, response: seq<Byte>,
                           line: OutputQueue.Line)

  function Emit(o: Output, effects: seq<Effect>): (r: Output)
    requires OutputQueue.Bounded(o.line)
    ensures OutputQueue.Bounded(r.line)
  {
    Output(o.effects + effects,
           o.selectWire + PortBytes(effects, SelectBus),
           Counted(o.ignore, |PortBytes(effects, SelectBus)|),
           Replies(o.response, effects),
           OutputQueue.SendAll(o.line, PortBytes(effects, MidiPort)))
  }

  lemma SelectBusConcat(o: Output, a: seq<Effect>, b: seq<Effect>)
    requires OutputQueue.Bounded(o.line)
    ensures Emit(o, a + b).selectWire == Emit(Emit(o, a), b).selectWire
    ensures Emit(o, a + b).ignore == Emit(Emit(o, a), b).ignore
  {
    var x, y := PortBytes(a, SelectBus), PortBytes(b, SelectBus);
    PortBytesConcat(a, b, SelectBus);
    assert o.selectWire + (x + y) == o.selectWire + x + y;
    CountedConcat(o.ignore, |x|, |y|);
  }

  lemma MidiConcat(o: Output, a: seq<Effect>, b: seq<Effect>)
    requires OutputQueue.Bounded(o.line)
    ensures Emit(o, a + b).line == Emit(Emit(o, a), b).line
  {
    PortBytesConcat(a, b, MidiPort);
    OutputQueue.SendAllConcat(o.line, PortBytes(a, MidiPort), PortBytes(b, MidiPort));
  }

  lemma EmitConcat(o: Output, a: seq<Effect>, b: seq<Effect>)
    requires OutputQueue.Bounded(o.line)
    ensures Emit(o, a + b) == Emit(Emit(o, a), b)
  {
    SelectBusConcat(o, a, b);
    MidiConcat(o, a, b);
    RepliesConcat(o.response, a, b);
    assert o.effects + (a + b) == o.effects + a + b;
  }

  lemma EmitCommand(o: Output, bytes: seq<Byte>)
    requires OutputQueue.Bounded(o.line)
    ensures Emit(o, [Command(bytes)]) ==
            o.(effects := o.effects + [Command(bytes)], response := Reply(o.response, Command(bytes)))
  {
    OneEffect(Command(bytes), MidiPort);
    OneEffect(Command(bytes), SelectBus);
    OneReply(o.response, Command(bytes));
  }

  lemma EmitToMidi(o: Output, message: seq<Byte>)
    requires OutputQueue.Bounded(o.line)
    ensures Emit(o, [Relay(MidiPort, message)]) ==
            o.(effects := o.effects + [Relay(MidiPort, message)], line := OutputQueue.SendAll(o.line, message))
  {
    OneEffect(Relay(MidiPort, message), MidiPort);
    OneEffect(Relay(MidiPort, message), SelectBus);
    OneReply(o.response, Relay(MidiPort, message));
  }

  lemma EmitToSelectBus(o: Output, message: seq<Byte>)
    requires OutputQueue.Bounded(o.line) && |message| <= 3
    ensures Emit(o, [Relay(SelectBus, message)]) ==
            o.(effects := o.effects + [Relay(SelectBus, message)], selectWire := o.selectWire + message,
               ignore := Add(o.ignore, |message|))
  {
    OneEffect(Relay(SelectBus, message), MidiPort);
    OneEffect(Relay(SelectBus, message), SelectBus);
    OneReply(o.response, Relay(SelectBus, message));
    CountedAtOnce(o.ignore, |message|);
  }

  /** What goes out where: nothing on the Select Bus but for command 50, and nothing to the MIDI output but for 4F. */
  lemma {:induction false} NothingOn(effects: seq<Effect>, port: Port)
    requires forall e :: e in effects && e.Relay? ==> e.port != port
    ensures PortBytes(effects, port) == []
  {
    if effects != [] {
      assert effects[0] in effects;
      NothingOn(effects[1..], port);
    }
  }

  lemma WhereTransactionsGo(bs: seq<Byte>)
    ensures bs == [] || bs[0] != 0x4F ==> PortBytes(Transaction(bs), MidiPort) == []
    ensures bs == [] || bs[0] != 0x50 ==> PortBytes(Transaction(bs), SelectBus) == []
  {
    forall e | e in Transaction(bs) && e.Relay?
      ensures bs != [] && (e.port == MidiPort <==> bs[0] == 0x4F) && (e.port == SelectBus <==> bs[0] == 0x50)
    {
      var k :| 0 <= k < |Transaction(bs)| && Transaction(bs)[k] == e;
      RelayPorts(bs, k);
    }
    if bs == [] || bs[0] != 0x4F {
      NothingOn(Transaction(bs), MidiPort);
    }
    if bs == [] || bs[0] != 0x50 {
      NothingOn(Transaction(bs), SelectBus);
    }
  }

  lemma {:induction false} NoReply(before: seq<Byte>, effects: seq<Effect>)
    requires forall e :: e in effects && e.Command? ==> |e.bytes| > 2
    ensures Replies(before, effects) == before
    decreases |effects|
  {
    if effects != [] {
      assert effects[0] in effects;
      NoReply(before, effects[1..]);
    }
  }

  /** What an I2C master reads behind a transaction: two zero bytes for the current preset, the current algorithms and
    the value, minimum or maximum of a parameter; 1 for the current algorithm; and what it would have read before for
    all other commands. */
  lemma ReplyToTransaction(before: seq<Byte>, bs: seq<Byte>)
    requires bs != []
    ensures Replies(before, Transaction(bs)) ==
            if bs[0] == 0x43 || bs[0] == 0x61 || (0x48 <= bs[0] <= 0x4A && |bs| >= 2) then [0, 0]
            else if bs[0] == 0x45 then [1]
            else before
  {
    match ShapeOf(bs[0]) {
      case Unknown =>
      case Fixed(size) =>
        if |bs| >= size {
          if size <= 2 {
            assert Transaction(bs) == [Command(bs[..size])];
            OneReply(before, Command(bs[..size]));
          } else {
            LongCommands(bs);
            NoReply(before, Transaction(bs));
          }
        }
      case Variable =>
        LongCommands(bs);
        NoReply(before, Transaction(bs));
    }
  }

  lemma LongCommands(bs: seq<Byte>)
    requires bs != [] && ShapeOf(bs[0]) != Fixed(1) && ShapeOf(bs[0]) != Fixed(2)
    ensures forall e :: e in Transaction(bs) && e.Command? ==> |e.bytes| > 2
  {
    forall e | e in Transaction(bs) && e.Command?
      ensures |e.bytes| > 2
    {
      var k :| 0 <= k < |Transaction(bs)| && Transaction(bs)[k] == e;
      if |bs| >= 2 {
        RepeatedAt(bs, |bs|, k);
        RepeatedRelayAt(bs, |bs|, k);
      }
    }
  }

  class I2CIn {
    var i2cState: State
    var i2cMsg: array<Byte>
    const midiOut: MidiOutput.MidiOut

    /** The bytes written to the transmit register of the Select Bus. */
    var selectWire: seq<Byte>

    var recallIgnoreBytes: Byte

    /** i2cResponse, from its first byte to i2cResponseSize. */
    var i2cResponse: seq<Byte>

    /** The commands and messages handled, in order. */
    var effects: seq<Effect>

    ghost predicate Valid()
      reads this, midiOut, midiOut.midiQueue
    {
      i2cMsg.Length == 4 && midiOut.Valid() && i2cMsg != midiOut.midiQueue
    }

    ghost function View(): (p: Parser)
      reads this, i2cMsg
      requires i2cMsg.Length == 4
      ensures |p.msg| == 4
    {
      I2CParser.Parser.Parser(i2cState, i2cMsg[..])
    }

    constructor (midiOut: MidiOutput.MidiOut)
      requires midiOut.Valid()
      ensures Valid() && fresh(i2cMsg) && this.midiOut == midiOut
      ensures View() == I2CParser.Parser.Parser(Idle, [0, 0, 0, 0]) && effects == [] && selectWire == []
      ensures recallIgnoreBytes == 0 && i2cResponse == []
    {
      i2cState := Idle;
      i2cMsg := new Byte[4](_ => 0);
      this.midiOut := midiOut;
      selectWire, effects := [], [];
      recallIgnoreBytes, i2cResponse := 0, [];
    }

    ghost function Out(): (o: Output)
      reads this, midiOut, midiOut.midiQueue
      requires midiOut.Consistent()
      ensures OutputQueue.Bounded(o.line)
    {
      Output(effects, selectWire, recallIgnoreBytes, i2cResponse, midiOut.Line())
    }

    /** The loop that queues the message for the MIDI output. */
    method SendMidi(numBytes: nat)
      requires Valid() && numBytes <= 3
      modifies midiOut, midiOut.midiQueue
      ensures Valid() && midiOut.midiQueue == old(midiOut.midiQueue)
      ensures midiOut.Line() == OutputQueue.SendAll(old(midiOut.Line()), i2cMsg[1..1 + numBytes])
    {
      ghost var l, message := midiOut.Line(), i2cMsg[1..1 + numBytes];
      for i := 0 to numBytes
        invariant Valid() && midiOut.midiQueue == old(midiOut.midiQueue)
        invariant i2cMsg[1..1 + numBytes] == message
        invariant OutputQueue.SendAll(midiOut.Line(), message[i..]) == OutputQueue.SendAll(l, message)
      {
        assert message[i..][1..] == message[i + 1..] && i2cMsg[1 + i] == message[i];
        var _ := midiOut.BlockingQueueMIDI1(i2cMsg[1 + i]);
      }
    }

    /** The loop that writes the message to the Select Bus, waiting for its transmitter each time. */
    method SendSelectBus(numBytes: nat)
      requires Valid() && numBytes <= 3
      modifies this`selectWire
      ensures Valid() && selectWire == old(selectWire) + i2cMsg[1..1 + numBytes]
    {
      for i := 0 to numBytes
        invariant selectWire == old(selectWire) + i2cMsg[1..1 + i]
      {
        selectWire := selectWire + [i2cMsg[1 + i]];
        assert i2cMsg[1..1 + i + 1] == i2cMsg[1..1 + i] + [i2cMsg[1 + i]];
      }
    }

    method ProcessI2CMIDICommand()
      requires Valid() && (i2cMsg[0] == SEND_MIDI || i2cMsg[0] == SEND_SELECT_BUS)
      modifies this`effects, this`selectWire, this`recallIgnoreBytes, midiOut, midiOut.midiQueue
      ensures Valid() && midiOut.midiQueue == old(midiOut.midiQueue)
      ensures Out() == Emit(old(Out()), RelayMessage(i2cMsg[..]))
      ensures i2cMsg[0] == 0x4F ==> selectWire == old(selectWire) && recallIgnoreBytes == old(recallIgnoreBytes)
      ensures i2cMsg[0] == 0x50 ==> midiOut.Line() == old(midiOut.Line())
    {
      var numBytes := RelayLength(i2cMsg[1]);
      if numBytes == 0 {
        return;
      }
      var cmd, message := i2cMsg[0], i2cMsg[1..1 + numBytes];
      assert i2cMsg[..][1..1 + numBytes] == message;
      if cmd == SEND_MIDI {
        EmitToMidi(Out(), message);
        SendMidi(numBytes);
      } else {
        EmitToSelectBus(Out(), message);
        SendSelectBus(numBytes);
        recallIgnoreBytes := Add(recallIgnoreBytes, numBytes);
      }
      effects := effects + [Relay(PortOf(cmd), message)];
      assert RelayMessage(i2cMsg[..]) == [Relay(PortOf(cmd), message)];
    }

    /** The branches of the handlers for commands of one and two bytes that answer. */
    method SetResponse(size: nat)
      requires Valid() && 1 <= size <= 4
      modifies this`i2cResponse
      ensures i2cResponse == Reply(old(i2cResponse), Command(i2cMsg[..][..size]))
    {
      if size == 2 && 0x48 <= i2cMsg[0] <= 0x4A {
        i2cResponse := [0, 0];
      } else if size == 1 && (i2cMsg[0] == 0x43 || i2cMsg[0] == 0x61) {
        i2cResponse := [0, 0];
      } else if size == 1 && i2cMsg[0] == 0x45 {
        i2cResponse := [1];
      }
    }

    /** The handlers for commands of one to four bytes; what they do is to pass messages on and to set the response. */
    method ProcessCommand(size: nat)
      requires Valid() && 1 <= size <= 4
      modifies this`effects, this`selectWire, this`recallIgnoreBytes, this`i2cResponse, midiOut, midiOut.midiQueue
      ensures Valid() && midiOut.midiQueue == old(midiOut.midiQueue)
      ensures Out() == Emit(old(Out()), Dispatch(i2cMsg[..], size))
    {
      if size >= 3 && (i2cMsg[0] == SEND_MIDI || i2cMsg[0] == SEND_SELECT_BUS) {
        ProcessI2CMIDICommand();
      } else {
        EmitCommand(Out(), i2cMsg[..][..size]);
        SetResponse(size);
        effects := effects + [Command(i2cMsg[..size])];
        assert i2cMsg[..][..size] == i2cMsg[..size];
      }
    }

    /** i2cMsg[i] = data; i2cState = next */
    method Store(i: nat, data: Byte, next: State)
      requires Valid() && i < 4
      modifies this`i2cState, i2cMsg
      ensures Valid() && View() == I2CParser.Parser.Parser(next, old(i2cMsg[..])[i := data])
      ensures Out() == Emit(old(Out()), [])
    {
      i2cMsg[i] := data;
      i2cState := next;
      assert i2cMsg[..] == old(i2cMsg[..])[i := data];
    }

    /** The case kWantByte1 of ProcessI2CIn. */
    method FirstByteOfCommand(data: Byte)
      requires Valid()
      modifies this, i2cMsg, midiOut, midiOut.midiQueue
      ensures Valid() && midiOut.midiQueue == old(midiOut.midiQueue) && i2cMsg == old(i2cMsg)
      ensures View() == FirstByte(old(i2cMsg[..])[0 := data]).parser
      ensures Out() == Emit(old(Out()), FirstByte(old(i2cMsg[..])[0 := data]).effects)
    {
      match ShapeOf(data) {
        case Fixed(size) =>
          if size == 4 {
            Store(0, data, WantByte2of4);
          } else if size == 3 {
            Store(0, data, WantByte2of3);
          } else if size == 2 {
            Store(0, data, WantByte2of2);
          } else {
            Store(0, data, Idle);
            ProcessCommand(1);
          }
        case Variable => Store(0, data, WantByte2ofN);
        case Unknown => Store(0, data, Idle);
      }
    }

    /** The case kWantByte2ofN of ProcessI2CIn. */
    method SecondOfMessage(data: Byte)
      requires Valid()
      modifies this, i2cMsg, midiOut, midiOut.midiQueue
      ensures Valid() && i2cMsg == old(i2cMsg) && midiOut.midiQueue == old(midiOut.midiQueue)
      ensures View() == Route(old(i2cMsg[..])[1 := data]).parser
      ensures Out() == Emit(old(Out()), Route(old(i2cMsg[..])[1 := data]).effects)
    {
      Store(1, data, Idle);
      if i2cMsg[0] == SEND_MIDI || i2cMsg[0] == SEND_SELECT_BUS {
        var high, low := HighNibble(i2cMsg[1]), LowNibble(i2cMsg[1]);
        if high in {0x80, 0x90, 0xA0, 0xB0, 0xE0} {
          i2cState := WantByte3of4;
        } else if high == 0xC0 || high == 0xD0 {
          i2cState := WantByte3of3;
        } else if high == 0xF0 {
          if low == 1 || low == 3 {
            i2cState := WantByte3of3;
          } else if low == 2 {
            i2cState := WantByte3of4;
          } else if low != 0 {
            ProcessI2CMIDICommand();
          }
        }
      }
    }

    method ProcessI2CIn(b: Token)
      requires Valid()
      modifies this, i2cMsg, midiOut, midiOut.midiQueue
      ensures Valid() && i2cMsg == old(i2cMsg) && midiOut.midiQueue == old(midiOut.midiQueue)
      ensures View() == Step(old(View()), b).parser
      ensures Out() == Emit(old(Out()), Step(old(View()), b).effects)
    {
      if b < 0 {
        i2cState := WantByte1;
        return;
      }
      match i2cState {
        case Idle =>
        case WantByte1 => FirstByteOfCommand(b);
        case WantByte2of4 => Store(1, b, WantByte3of4);
        case WantByte3of4 => Store(2, b, WantByte4of4);
        case WantByte4of4 =>
          Store(3, b, Idle);
          ProcessCommand(4);
        case WantByte2ofN => SecondOfMessage(b);
        case WantByte2of2 =>
          Store(1, b, Idle);
          ProcessCommand(2);
        case WantByte2of3 => Store(1, b, WantByte3of3);
        case WantByte3of3 =>
          Store(2, b, WantByte3of3);
          ProcessCommand(3);
      }
    }

    /** The loop of FlushMIDIRx that hands queued tokens to the parser. */
    method ReceiveAll(tokens: seq<Token>)
      requires Valid()
      modifies this, i2cMsg, midiOut, midiOut.midiQueue
      ensures Valid() && i2cMsg == old(i2cMsg) && midiOut.midiQueue == old(midiOut.midiQueue)
      ensures View() == After(old(View()), tokens)
      ensures Out() == Emit(old(Out()), Log(old(View()), tokens))
    {
      for i := 0 to |tokens|
        invariant Valid() && i2cMsg == old(i2cMsg) && midiOut.midiQueue == old(midiOut.midiQueue)
        invariant After(View(), tokens[i..]) == After(old(View()), tokens)
        invariant Emit(Out(), Log(View(), tokens[i..])) == Emit(old(Out()), Log(old(View()), tokens))
      {
        ghost var o := Step(View(), tokens[i]);
        assert tokens[i..][1..] == tokens[i + 1..];
        EmitConcat(Out(), o.effects, Log(o.parser, tokens[i + 1..]));
        ProcessI2CIn(tokens[i]);
      }
    }
  }
}
