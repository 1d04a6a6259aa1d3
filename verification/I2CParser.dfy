/** The I2C command parser of src/i2c.c, over the tokens its interrupt handler queues: a negative token for
  an address byte or a read, otherwise a received byte. */
module I2CParser {
  import opened Bytes

  type Token = t: int | -0x100 <= t < 0x100

  // src/i2c.h
  const SEND_MIDI: Byte := 0x4F
  const SEND_SELECT_BUS: Byte := 0x50

  datatype State = Idle | WantByte1 | WantByte2of4 | WantByte3of4 | WantByte4of4 | WantByte2of2
                 | WantByte2of3 | WantByte3of3 | WantByte2ofN

  datatype Port = MidiPort | SelectBus

  /** A call of one of the command handlers with the bytes it may use, or a message passed on. */
  datatype Effect =
    | Command(bytes: seq<Byte>)
    | Relay(port: Port, message: seq<Byte>)

  /** The first switch of ProcessI2CIn: how many bytes a command has, 0 for none. */
  datatype Shape = Unknown | Fixed(size: nat) | Variable

  function ShapeOf(b: Byte): (r: Shape)
    ensures r.Fixed? ==> 1 <= r.size <= 4
  {
    if b in {0x11, 0x46, 0x47, 0x51, 0x52, 0x54, 0x55, 0x5E} then Fixed(4)
    else if b == SEND_MIDI || b == SEND_SELECT_BUS then Variable
    else if b in {0x40, 0x41, 0x4D, 0x5D, 0x60, 0x62, 0x63, 0x64, 0x65, 0x67} then Fixed(3)
    else if b in {0x44, 0x48, 0x49, 0x4A, 0x4B, 0x4C, 0x53, 0x56, 0x59, 0x5A, 0x5B, 0x5C, 0x5F} then Fixed(2)
    else if b in {0x42, 0x43, 0x45, 0x4E, 0x57, 0x58, 0x61, 0x66} then Fixed(1)
    else Unknown
  }

  /** The state machine, with the message buffer in which bytes of earlier transactions may remain. */
  datatype Parser = Parser(state: State, msg: seq<Byte>)

  datatype Outcome = Outcome(parser: Parser, effects: seq<Effect>)

  /** The length table of ProcessI2CMIDICommand; 0 where it returns. */
  function RelayLength(status: Byte): (n: nat)
    ensures n <= 3
  {
    var high, low := HighNibble(status), LowNibble(status);
    if high in {0x80, 0x90, 0xA0, 0xB0, 0xE0} then 3
    else if high == 0xC0 || high == 0xD0 then 2
    else if high == 0xF0 then
      if low == 0 then 0 else if low == 1 || low == 3 then 2 else if low == 2 then 3 else 1
    else 1
  }

  function PortOf(cmd: Byte): Port {
    if cmd == SEND_MIDI then MidiPort else SelectBus
  }

  /** ProcessI2CMIDICommand, on the whole buffer. */
  function RelayMessage(msg: seq<Byte>): seq<Effect>
    requires |msg| == 4
  {
    if RelayLength(msg[1]) == 0 then [] else [Relay(PortOf(msg[0]), msg[1..1 + RelayLength(msg[1])])]
  }

  /** The handlers for commands of `size` bytes. Those of three and four bytes pass MIDI messages on. */
  function Dispatch(msg: seq<Byte>, size: nat): seq<Effect>
    requires |msg| == 4 && size <= 4
  {
    if size >= 3 && (msg[0] == SEND_MIDI || msg[0] == SEND_SELECT_BUS) then RelayMessage(msg)
    else [Command(msg[..size])]
  }

  /** Where the second byte of a message to pass on leads: the routing table of ProcessI2CIn. */
  function Route(msg: seq<Byte>): Outcome
    requires |msg| == 4
  {
    var high, low := HighNibble(msg[1]), LowNibble(msg[1]);
    if !(msg[0] == SEND_MIDI || msg[0] == SEND_SELECT_BUS) then Outcome(Parser(Idle, msg), [])
    else if high in {0x80, 0x90, 0xA0, 0xB0, 0xE0} then Outcome(Parser(WantByte3of4, msg), [])
    else if high == 0xC0 || high == 0xD0 then Outcome(Parser(WantByte3of3, msg), [])
    else if high == 0xF0 then
      if low == 0 then Outcome(Parser(Idle, msg), [])
      else if low == 1 || low == 3 then Outcome(Parser(WantByte3of3, msg), [])
      else if low == 2 then Outcome(Parser(WantByte3of4, msg), [])
      else Outcome(Parser(Idle, msg), RelayMessage(msg))
    else Outcome(Parser(Idle, msg), [])
  }

  function FirstByte(msg: seq<Byte>): Outcome
    requires |msg| == 4
  {
    match ShapeOf(msg[0])
    case Unknown => Outcome(Parser(Idle, msg), [])
    case Variable => Outcome(Parser(WantByte2ofN, msg), [])
    case Fixed(size) =>
      if size == 4 then Outcome(Parser(WantByte2of4, msg), [])
      else if size == 3 then Outcome(Parser(WantByte2of3, msg), [])
      else if size == 2 then Outcome(Parser(WantByte2of2, msg), [])
      else Outcome(Parser(Idle, msg), Dispatch(msg, 1))
  }

  /** ProcessI2CIn. */
  function Step(p: Parser, t: Token): (o: Outcome)
    requires |p.msg| == 4
    ensures |o.parser.msg| == 4
  {
    if t < 0 then Outcome(p.(state := WantByte1), [])
    else
      match p.state
      case Idle => Outcome(p, [])
      case WantByte1 => FirstByte(p.msg[0 := t])
      case WantByte2of4 => Outcome(Parser(WantByte3of4, p.msg[1 := t]), [])
      case WantByte3of4 => Outcome(Parser(WantByte4of4, p.msg[2 := t]), [])
      case WantByte4of4 => Outcome(Parser(Idle, p.msg[3 := t]), Dispatch(p.msg[3 := t], 4))
      case WantByte2ofN => Route(p.msg[1 := t])
      case WantByte2of2 => Outcome(Parser(Idle, p.msg[1 := t]), Dispatch(p.msg[1 := t], 2))
      case WantByte2of3 => Outcome(Parser(WantByte3of3, p.msg[1 := t]), [])
      case WantByte3of3 => Outcome(p.(msg := p.msg[2 := t]), Dispatch(p.msg[2 := t], 3))
  }

  function After(p: Parser, ts: seq<Token>): (q: Parser)
    requires |p.msg| == 4
    ensures |q.msg| == 4
    decreases |ts|
  {
    if ts == [] then p else After(Step(p, ts[0]).parser, ts[1..])
  }

  function Log(p: Parser, ts: seq<Token>): seq<Effect>
    requires |p.msg| == 4
    decreases |ts|
  {
    if ts == [] then [] else Step(p, ts[0]).effects + Log(Step(p, ts[0]).parser, ts[1..])
  }

  lemma {:induction false} RunConcat(p: Parser, a: seq<Token>, b: seq<Token>)
    requires |p.msg| == 4
    ensures After(p, a + b) == After(After(p, a), b)
    ensures Log(p, a + b) == Log(p, a) + Log(After(p, a), b)
    decreases |a|
  {
    if a == [] {
      assert a + b == b;
    } else {
      assert (a + b)[1..] == a[1..] + b;
      RunConcat(Step(p, a[0]).parser, a[1..], b);
    }
  }

  // ---------- The reference: one transaction at a time ----------

  /** How many bytes a MIDI message has, by its status byte; None for data bytes and sysex. From the MIDI 1.0
    Detailed Specification (v4.2): system messages F4 to FF have no data bytes. */
  datatype Length = NoMessage | Bytes(n: nat)

  function MidiLength(status: Byte): Length {
    if status < 0x80 || status == 0xF0 then NoMessage
    else if 0xC0 <= status < 0xE0 || status == 0xF1 || status == 0xF3 then Bytes(2)
    else if status < 0xF0 || status == 0xF2 then Bytes(3)
    else Bytes(1)
  }

  /** A three-byte command is carried out for its third byte and again for each byte after it. */
  function Repeated(bs: seq<Byte>, n: nat): seq<Effect>
    requires 2 <= n <= |bs|
  {
    if n == 2 then [] else Repeated(bs, n - 1) + [Command([bs[0], bs[1], bs[n - 1]])]
  }

  function RepeatedRelay(bs: seq<Byte>, n: nat): seq<Effect>
    requires 2 <= n <= |bs|
  {
    if n == 2 then [] else RepeatedRelay(bs, n - 1) + [Relay(PortOf(bs[0]), [bs[1], bs[n - 1]])]
  }

  /** What the bytes of one transaction bring about, of themselves. */
  function Transaction(bs: seq<Byte>): seq<Effect> {
    if bs == [] then []
    else
      match ShapeOf(bs[0])
      case Unknown => []
      case Fixed(size) =>
        if |bs| < size then [] else if size == 3 then Repeated(bs, |bs|) else [Command(bs[..size])]
      case Variable => if |bs| < 2 then [] else PassedOn(bs, MidiLength(bs[1]))
  }

  function PassedOn(bs: seq<Byte>, length: Length): seq<Effect>
    requires |bs| >= 2
  {
    match length
    case NoMessage => []
    case Bytes(n) =>
      if |bs| < 1 + n then []
      else if n == 2 then RepeatedRelay(bs, |bs|)
      else [Relay(PortOf(bs[0]), bs[1..1 + n])]
  }

  /** Both copies of the length table agree with the MIDI specification, wherever a message is passed on. */
  lemma TablesAgree(msg: seq<Byte>)
    requires |msg| == 4 && (msg[0] == 0x4F || msg[0] == 0x50)
    ensures RelayLength(msg[1]) == 0 <==> msg[1] == 0xF0
    ensures match MidiLength(msg[1])
            case NoMessage => Route(msg) == Outcome(Parser(Idle, msg), [])
            case Bytes(n) =>
              && RelayLength(msg[1]) == n
              && Route(msg) == if n == 1 then Outcome(Parser(Idle, msg), [Relay(PortOf(msg[0]), [msg[1]])])
                               else Outcome(Parser(if n == 2 then WantByte3of3 else WantByte3of4, msg), [])
  {
    assert msg[1] == HighNibble(msg[1]) + LowNibble(msg[1]);
    assert msg[1..2] == [msg[1]];
  }

  /** The commands that the handler for commands of n bytes has a branch for, by the ranges it tests. */
  predicate HandlerKnows(cmd: Byte, n: nat) {
    match n
    case 4 => cmd == 0x11 || 0x46 <= cmd <= 0x47 || 0x51 <= cmd <= 0x52 || 0x54 <= cmd <= 0x55 || cmd == 0x5E
    case 3 => cmd == 0x4D || cmd == 0x40 || cmd == 0x41 || cmd == 0x5D || cmd == 0x60 || cmd == 0x62 ||
              0x63 <= cmd <= 0x65 || cmd == 0x67
    case 2 => cmd == 0x53 || cmd == 0x56 || 0x4B <= cmd <= 0x4C || cmd == 0x59 || cmd == 0x44 ||
              0x48 <= cmd <= 0x4A || 0x5A <= cmd <= 0x5C || cmd == 0x5F
    case 1 => cmd == 0x57 || cmd == 0x4E || cmd == 0x58 || cmd == 0x42 || cmd == 0x43 || cmd == 0x45 ||
              cmd == 0x61 || cmd == 0x66
    case _ => false
  }

  /** The first switch of ProcessI2CIn sends each command to the one handler that knows it, and every byte from
    0x40 to 0x67 is a command. */
  lemma HandlersAgree(cmd: Byte, n: nat)
    ensures HandlerKnows(cmd, n) <==> ShapeOf(cmd) == Fixed(n)
    ensures ShapeOf(cmd) == Unknown <==> cmd != 0x11 && !(0x40 <= cmd <= 0x67)
  {
  }

  /** In the idle state, bytes do nothing. */
  lemma {:induction false} IdleIgnores(p: Parser, bs: seq<Byte>)
    requires |p.msg| == 4 && p.state == Idle
    ensures Log(p, bs) == []
    decreases |bs|
  {
    if bs != [] {
      IdleIgnores(p, bs[1..]);
    }
  }

  lemma Unroll(p: Parser, bs: seq<Token>, i: nat)
    requires |p.msg| == 4 && i <= |bs|
    ensures Log(p, bs[i..]) ==
            if i == |bs| then [] else Step(p, bs[i]).effects + Log(Step(p, bs[i]).parser, bs[i + 1..])
  {
  }

  /** From the third byte of a three-byte command on, each byte carries the command out. */
  lemma {:induction false} RepeatsForEachByte(p: Parser, bs: seq<Byte>, i: nat)
    requires |p.msg| == 4 && p.state == WantByte3of3 && 2 <= i <= |bs| && p.msg[0] == bs[0] && p.msg[1] == bs[1]
    requires bs[0] != SEND_MIDI && bs[0] != SEND_SELECT_BUS
    ensures Repeated(bs, i) + Log(p, bs[i..]) == Repeated(bs, |bs|)
    decreases |bs| - i
  {
    Unroll(p, bs, i);
    if i < |bs| {
      var o := Step(p, bs[i]);
      assert p.msg[2 := bs[i]][..3] == [bs[0], bs[1], bs[i]];
      RepeatsForEachByte(o.parser, bs, i + 1);
      assert Repeated(bs, i) + (o.effects + Log(o.parser, bs[i + 1..])) ==
             Repeated(bs, i + 1) + Log(o.parser, bs[i + 1..]);
    }
  }

  lemma {:induction false} RelaysForEachByte(p: Parser, bs: seq<Byte>, i: nat)
    requires |p.msg| == 4 && p.state == WantByte3of3 && 2 <= i <= |bs| && p.msg[0] == bs[0] && p.msg[1] == bs[1]
    requires (bs[0] == SEND_MIDI || bs[0] == SEND_SELECT_BUS) && MidiLength(bs[1]) == Bytes(2)
    ensures RepeatedRelay(bs, i) + Log(p, bs[i..]) == RepeatedRelay(bs, |bs|)
    decreases |bs| - i
  {
    Unroll(p, bs, i);
    if i < |bs| {
      var o := Step(p, bs[i]);
      TablesAgree(p.msg[2 := bs[i]]);
      assert p.msg[2 := bs[i]][1..3] == [bs[1], bs[i]];
      RelaysForEachByte(o.parser, bs, i + 1);
      assert RepeatedRelay(bs, i) + (o.effects + Log(o.parser, bs[i + 1..])) ==
             RepeatedRelay(bs, i + 1) + Log(o.parser, bs[i + 1..]);
    }
  }

  lemma ShortCommand(p: Parser, bs: seq<Byte>)
    requires |p.msg| == 4 && p.state == WantByte1 && bs != []
    requires ShapeOf(bs[0]) == Unknown || ShapeOf(bs[0]) == Fixed(1) || ShapeOf(bs[0]) == Fixed(2)
    ensures Log(p, bs) == Transaction(bs)
  {
    var p1 := Step(p, bs[0]).parser;
    if ShapeOf(bs[0]) == Fixed(2) {
      Unroll(p1, bs, 1);
      if |bs| > 1 {
        IdleIgnores(Step(p1, bs[1]).parser, bs[2..]);
        assert Step(p1, bs[1]).parser.msg[..2] == bs[..2];
      }
    } else {
      IdleIgnores(p1, bs[1..]);
      assert p1.msg[..1] == bs[..1];
    }
  }

  lemma ThreeByteCommand(p: Parser, bs: seq<Byte>)
    requires |p.msg| == 4 && p.state == WantByte1 && bs != [] && ShapeOf(bs[0]) == Fixed(3)
    ensures Log(p, bs) == Transaction(bs)
  {
    var p1 := Step(p, bs[0]).parser;
    Unroll(p1, bs, 1);
    if |bs| > 1 {
      RepeatsForEachByte(Step(p1, bs[1]).parser, bs, 2);
    }
  }

  lemma LastTwoOfFour(p: Parser, bs: seq<Byte>)
    requires |p.msg| == 4 && p.state == WantByte3of4 && |bs| >= 2 && p.msg[0] == bs[0] && p.msg[1] == bs[1]
    ensures Log(p, bs[2..]) == if |bs| < 4 then [] else Dispatch(bs[..4], 4)
  {
    Unroll(p, bs, 2);
    if |bs| > 2 {
      var p3 := Step(p, bs[2]).parser;
      Unroll(p3, bs, 3);
      if |bs| > 3 {
        var p4 := Step(p3, bs[3]).parser;
        assert p4.msg == bs[..4];
        IdleIgnores(p4, bs[4..]);
      }
    }
  }

  lemma FourByteCommand(p: Parser, bs: seq<Byte>)
    requires |p.msg| == 4 && p.state == WantByte1 && bs != [] && ShapeOf(bs[0]) == Fixed(4)
    ensures Log(p, bs) == Transaction(bs)
  {
    var p1 := Step(p, bs[0]).parser;
    Unroll(p1, bs, 1);
    if |bs| > 1 {
      LastTwoOfFour(Step(p1, bs[1]).parser, bs);
      if |bs| >= 4 {
        assert bs[..4][..4] == bs[..4];
      }
    }
  }

  lemma RelayFourth(p: Parser, bs: seq<Byte>)
    requires |p.msg| == 4 && p.state == WantByte3of4 && |bs| >= 2 && p.msg[0] == bs[0] && p.msg[1] == bs[1]
    requires (bs[0] == SEND_MIDI || bs[0] == SEND_SELECT_BUS) && MidiLength(bs[1]) == Bytes(3)
    ensures Log(p, bs[2..]) == PassedOn(bs, Bytes(3))
  {
    LastTwoOfFour(p, bs);
    if |bs| >= 4 {
      TablesAgree(bs[..4]);
      assert bs[..4][1..4] == bs[1..4];
    }
  }

  lemma RelayThird(p: Parser, bs: seq<Byte>)
    requires |p.msg| == 4 && p.state == WantByte3of3 && |bs| >= 2 && p.msg[0] == bs[0] && p.msg[1] == bs[1]
    requires (bs[0] == SEND_MIDI || bs[0] == SEND_SELECT_BUS) && MidiLength(bs[1]) == Bytes(2)
    ensures Log(p, bs[2..]) == PassedOn(bs, Bytes(2))
  {
    RelaysForEachByte(p, bs, 2);
  }

  /** From the status byte of a message to pass on. */
  lemma FromStatus(p: Parser, bs: seq<Byte>)
    requires |p.msg| == 4 && p.state == WantByte2ofN && |bs| >= 2 && p.msg[0] == bs[0]
    requires bs[0] == SEND_MIDI || bs[0] == SEND_SELECT_BUS
    ensures Log(p, bs[1..]) == PassedOn(bs, MidiLength(bs[1]))
  {
    Unroll(p, bs, 1);
    var msg := p.msg[1 := bs[1]];
    TablesAgree(msg);
    var q := Step(p, bs[1]).parser;
    match MidiLength(bs[1])
    case NoMessage =>
      IdleIgnores(q, bs[2..]);
    case Bytes(n) =>
      if n == 1 {
        IdleIgnores(q, bs[2..]);
        assert bs[1..2] == [bs[1]];
      } else if n == 2 {
        RelayThird(q, bs);
      } else {
        RelayFourth(q, bs);
      }
  }

  lemma MessageToRelay(p: Parser, bs: seq<Byte>)
    requires |p.msg| == 4 && p.state == WantByte1 && bs != [] && ShapeOf(bs[0]) == Variable
    ensures Log(p, bs) == Transaction(bs)
  {
    var p1 := Step(p, bs[0]).parser;
    Unroll(p1, bs, 1);
    if |bs| > 1 {
      FromStatus(p1, bs);
    }
  }

  /** Whatever state the parser is in and whatever its buffer holds, after a negative token the bytes of the
    transaction have the effects the transaction has of itself. */
  lemma TransactionExact(p: Parser, start: Token, bs: seq<Byte>)
    requires |p.msg| == 4 && start < 0
    ensures Log(p, [start] + bs) == Transaction(bs)
  {
    var q := Step(p, start).parser;
    assert ([start] + bs)[1..] == bs;
    if bs != [] {
      match ShapeOf(bs[0]) {
        case Unknown => ShortCommand(q, bs);
        case Variable => MessageToRelay(q, bs);
        case Fixed(size) =>
          if size == 4 {
            FourByteCommand(q, bs);
          } else if size == 3 {
            ThreeByteCommand(q, bs);
          } else {
            ShortCommand(q, bs);
          }
      }
    }
  }

  datatype Framed = Framed(start: Token, bytes: seq<Byte>)

  predicate Starts(transactions: seq<Framed>) {
    forall k :: 0 <= k < |transactions| ==> transactions[k].start < 0
  }

  function Tokens(transactions: seq<Framed>): seq<Token> {
    if transactions == [] then []
    else [transactions[0].start] + transactions[0].bytes + Tokens(transactions[1..])
  }

  function Effects(transactions: seq<Framed>): seq<Effect> {
    if transactions == [] then [] else Transaction(transactions[0].bytes) + Effects(transactions[1..])
  }

  /** History independence. After any tokens whatever, cut short or with some lost, a stream of transactions
    has the effects of each of them, in order. */
  lemma {:induction false} HistoryIndependence(p: Parser, before: seq<Token>, transactions: seq<Framed>)
    requires |p.msg| == 4 && Starts(transactions)
    ensures Log(p, before + Tokens(transactions)) == Log(p, before) + Effects(transactions)
    decreases |transactions|
  {
    RunConcat(p, before, Tokens(transactions));
    if transactions != [] {
      var q, first := After(p, before), [transactions[0].start] + transactions[0].bytes;
      TransactionExact(q, transactions[0].start, transactions[0].bytes);
      assert Starts(transactions[1..]);
      HistoryIndependence(q, first, transactions[1..]);
    }
  }

  /** Every token stream is of that form: what comes before its first negative token, and then transactions. */
  lemma {:induction false} EveryStreamSplits(ts: seq<Token>) returns (head: seq<Byte>, transactions: seq<Framed>)
    ensures Starts(transactions) && ts == head + Tokens(transactions)
  {
    if ts == [] {
      head, transactions := [], [];
    } else {
      var h, rest := EveryStreamSplits(ts[1..]);
      if ts[0] < 0 {
        head, transactions := [], [Framed(ts[0], h)] + rest;
        assert transactions[1..] == rest;
        assert Tokens(transactions) == [ts[0]] + h + Tokens(rest);
      } else {
        head, transactions := [ts[0]] + h, rest;
      }
      assert ts == [ts[0]] + ts[1..];
    }
  }

  /** A message passed on in a transaction is as long as its status byte demands, and its bytes are the
    status byte and data bytes received in that transaction. */
  lemma {:induction false} RelaysOwnBytes(bs: seq<Byte>, k: nat)
    requires k < |Transaction(bs)| && Transaction(bs)[k].Relay?
    ensures var message := Transaction(bs)[k].message;
            && |bs| >= 2 && ShapeOf(bs[0]) == Variable
            && MidiLength(bs[1]) == Bytes(|message|) && message[0] == bs[1]
            && forall i :: 0 <= i < |message| ==> message[i] in bs[1..]
  {
    if ShapeOf(bs[0]) == Variable {
      if MidiLength(bs[1]) == Bytes(2) {
        RepeatedRelayAt(bs, |bs|, k);
        assert bs[1] == bs[1..][0] && bs[k + 2] == bs[1..][k + 1];
      }
    } else if ShapeOf(bs[0]) == Fixed(3) {
      RepeatedAt(bs, |bs|, k);
    }
  }

  lemma {:induction false} RepeatedRelayAt(bs: seq<Byte>, n: nat, k: nat)
    requires 2 <= n <= |bs|
    ensures |RepeatedRelay(bs, n)| == n - 2
    ensures k < n - 2 ==> RepeatedRelay(bs, n)[k] == Relay(PortOf(bs[0]), [bs[1], bs[k + 2]])
    decreases n
  {
    if n > 2 {
      RepeatedRelayAt(bs, n - 1, k);
    }
  }

  lemma {:induction false} RepeatedAt(bs: seq<Byte>, n: nat, k: nat)
    requires 2 <= n <= |bs|
    ensures |Repeated(bs, n)| == n - 2
    ensures k < n - 2 ==> Repeated(bs, n)[k] == Command([bs[0], bs[1], bs[k + 2]])
    decreases n
  {
    if n > 2 {
      RepeatedAt(bs, n - 1, k);
    }
  }

  /** Command 4F passes its messages on to the MIDI output, and 50 to the Select Bus. */
  lemma RelayPorts(bs: seq<Byte>, k: nat)
    requires k < |Transaction(bs)| && Transaction(bs)[k].Relay?
    ensures Transaction(bs)[k].port == MidiPort <==> bs[0] == 0x4F
    ensures Transaction(bs)[k].port == SelectBus <==> bs[0] == 0x50
  {
    RelaysOwnBytes(bs, k);
    if MidiLength(bs[1]) == Bytes(2) {
      RepeatedRelayAt(bs, |bs|, k);
    }
  }
}
