/** The receiving side of src/midi.c as the source has it: static variables updated in place by two
  functions that call each other. */
module MidiInput {
  import opened Bytes
  import opened MidiParser

  class MidiIn {
    var state: Mode
    var sStatus: Byte
    var sChannel: Byte
    var sMessage: array<Byte>
    var sysex: array<Byte>
    var sysexCount: nat
    var firstMidiClock: bool
    var masterMIDIClockCounter: nat

    /** What the message handler and the two sysex handlers have been given, in order. */
    var log: seq<Event>

    ghost predicate Valid()
      reads this
    {
      && sMessage.Length == 2
      && sysex.Length == MAX_SYSEX
      && sMessage != sysex
      && sysexCount <= MAX_SYSEX
      && masterMIDIClockCounter < CLOCKS_PER_LOOP
    }

    ghost function Parser(): Parser
      reads this, sMessage, sysex
      requires Valid()
    {
      MidiParser.Parser.Parser(state, sStatus, sChannel, sMessage[0], sysex[..sysexCount])
    }

    ghost function Clock(): Clock
      reads this
      requires Valid()
    {
      MidiParser.Clock.Clock(firstMidiClock, masterMIDIClockCounter)
    }

    constructor ()
      ensures Valid() && fresh(sMessage) && fresh(sysex)
      ensures Parser() == INITIAL && Clock() == MidiParser.Clock.Clock(false, 0) && log == []
    {
      state, sStatus, sChannel := Idle, 0, 0;
      sMessage := new Byte[2](_ => 0);
      sysex := new Byte[MAX_SYSEX](_ => 0);
      sysexCount := 0;
      firstMidiClock, masterMIDIClockCounter := false, 0;
      log := [];
    }

    method DefaultProcessRealTime(channel: Byte)
      requires Valid()
      modifies this`firstMidiClock, this`masterMIDIClockCounter
      ensures Valid() && Clock() == ClockStep(old(Clock()), channel)
    {
      if channel == 0xA {
        firstMidiClock := true;
      } else if channel == 0x8 {
        if firstMidiClock {
          firstMidiClock := false;
          masterMIDIClockCounter := 0;
        } else {
          masterMIDIClockCounter := masterMIDIClockCounter + 1;
          if masterMIDIClockCounter >= CLOCKS_PER_LOOP {
            masterMIDIClockCounter := 0;
          }
        }
      }
    }

    /** The installed handler, DefaultMIDIMessageHandler: of its branches only real time has an effect. */
    method MidiMessageHandler(event: Event)
      requires Valid() && (event.RealTime? || event.Message?)
      modifies this`log, this`firstMidiClock, this`masterMIDIClockCounter
      ensures Valid() && log == old(log) + [event]
      ensures Clock() == ClockRun(old(Clock()), [event])
    {
      log := log + [event];
      if event.RealTime? {
        DefaultProcessRealTime(event.kind);
      }
      assert [event][1..] == [];
    }

    method ProcessStatus(b: Byte)
      requires Valid()
      modifies this, sMessage, sysex
      ensures Valid() && sMessage == old(sMessage) && sysex == old(sysex)
      ensures Parser() == OnStatus(old(Parser()), b).parser
      ensures log == old(log) + OnStatus(old(Parser()), b).events
      ensures Clock() == old(Clock())
      decreases 1
    {
      if IsStatus(b) {
        sStatus := HighNibble(b);
        sChannel := LowNibble(b);
      }
      if TwoDataBytes(sStatus) {
        state := WantByte1of2;
      } else if OneDataByte(sStatus) {
        state := WantByte1of1;
      } else if sStatus == 0xF0 {
        if sChannel == 0 {
          state := WantSysex;
          sysexCount := 0;
          sysex[sysexCount] := b;
          sysexCount := sysexCount + 1;
          assert sysex[..sysexCount] == [b];
        }
      }
      if !IsStatus(b) && state != Idle {
        ProcessMIDI(b);
      }
    }

    method ProcessMIDI(b: Byte)
      requires Valid()
      modifies this, sMessage, sysex
      ensures Valid() && sMessage == old(sMessage) && sysex == old(sysex)
      ensures Parser() == Step(old(Parser()), b).parser
      ensures log == old(log) + Step(old(Parser()), b).events
      ensures Clock() == ClockRun(old(Clock()), Step(old(Parser()), b).events)
      decreases if state == Idle || IsStatus(b) then 2 else 0
    {
      if b >= 0xF8 {
        MidiMessageHandler(RealTime(LowNibble(b)));
        return;
      }
      match state {
        case Idle =>
          ProcessStatus(b);
        case WantByte1of1 =>
          sMessage[0] := b;
          MidiMessageHandler(Message(sStatus, sChannel, [sMessage[0]]));
          state := Idle;
        case WantByte1of2 =>
          sMessage[0] := b;
          state := WantByte2;
        case WantByte2 =>
          sMessage[1] := b;
          MidiMessageHandler(Message(sStatus, sChannel, [sMessage[0], sMessage[1]]));
          state := Idle;
        case WantSysex =>
          CaptureByte(b);
          if IsStatus(b) {
            state := Idle;
            if b != 0xF7 {
              ProcessStatus(b);
            } else {
              EndSysex();
            }
          }
      }
    }

    method CaptureByte(b: Byte)
      requires Valid()
      modifies this`sysexCount, sysex
      ensures Valid() && Parser() == old(Parser()).(sysex := Grow(old(Parser()).sysex, b))
    {
      ghost var captured := sysex[..sysexCount];
      if sysexCount < MAX_SYSEX {
        sysex[sysexCount] := b;
        sysexCount := sysexCount + 1;
      }
      assert sysex[..sysexCount] == Grow(captured, b);
    }

    /** The tests at the end of a sysex, and the call they lead to. */
    method EndSysex()
      requires Valid()
      modifies this`log
      ensures Valid() && log == old(log) + EndOfSysex(Parser().sysex)
      ensures Clock() == ClockRun(Clock(), EndOfSysex(Parser().sysex))
    {
      var buffer := sysex[..sysexCount];
      if sysexCount > 4 && buffer[..4] == SYSEX_ID {
        log := log + [NativeSysex(buffer)];
      } else if sysexCount > 2 && sysex[1] == 0x7E {
        log := log + [NonRealTimeSysex(buffer)];
      }
      assert EndOfSysex(buffer) != [] ==> EndOfSysex(buffer)[1..] == [];
    }

    /** The foreground loop that hands every received byte to the parser. */
    method ReceiveAll(received: seq<Byte>)
      requires Valid()
      modifies this, sMessage, sysex
      ensures Valid() && sMessage == old(sMessage) && sysex == old(sysex)
      ensures Parser() == After(old(Parser()), received)
      ensures log == old(log) + Log(old(Parser()), received)
      ensures Clock() == ClockRun(old(Clock()), Log(old(Parser()), received))
    {
      for i := 0 to |received|
        invariant Valid() && sMessage == old(sMessage) && sysex == old(sysex)
        invariant After(Parser(), received[i..]) == After(old(Parser()), received)
        invariant log + Log(Parser(), received[i..]) == old(log) + Log(old(Parser()), received)
        invariant ClockRun(Clock(), Log(Parser(), received[i..])) ==
                  ClockRun(old(Clock()), Log(old(Parser()), received))
      {
        ghost var o := Step(Parser(), received[i]);
        ghost var rest := Log(o.parser, received[i + 1..]);
        assert received[i..][1..] == received[i + 1..];
        ClockRunConcat(Clock(), o.events, rest);
        assert log + (o.events + rest) == (log + o.events) + rest;
        ProcessMIDI(received[i]);
      }
    }
  }
}
