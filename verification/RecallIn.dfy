/** src/recall.c as the source has it: static variables updated in place by two functions that call each other. */
module RecallInput {
  import opened Bytes
  import M = MidiParser
  import opened RecallParser

  class RecallIn {
    var state: M.Mode
    var sStatus: Byte
    var sChannel: Byte
    var sMessage: array<Byte>
    var sysex: array<Byte>
    var sysexCount: nat
    var saveMode: bool

    /** The calls of save, load and the handlers, in order. */
    var log: seq<Event>

    ghost predicate Valid()
      reads this
    {
      && sMessage.Length == 2 && sysex.Length == MAX_SYSEX && sMessage != sysex && sysexCount <= MAX_SYSEX
      && (state == M.WantByte1of1 ==> !M.TwoDataBytes(sStatus))
      && (state == M.WantByte1of2 || state == M.WantByte2 ==> M.TwoDataBytes(sStatus))
    }

    ghost function View(): Parser
      reads this, sMessage, sysex
      requires Valid()
    {
      Parser(state, sStatus, sChannel, sMessage[0], sysex[..sysexCount], saveMode)
    }

    constructor ()
      ensures Valid() && fresh(sMessage) && fresh(sysex) && View() == INITIAL && log == []
    {
      state, sStatus, sChannel := M.Idle, 0, 0;
      sMessage := new Byte[2](_ => 0);
      sysex := new Byte[MAX_SYSEX](_ => 0);
      sysexCount, saveMode, log := 0, false, [];
    }

    /** Recall_ProcessMessage. `data` is the part of sMessage that has arrived for this message. */
    method ProcessMessage(ghost data: seq<Byte>)
      requires Valid() && data == if M.TwoDataBytes(sStatus) then sMessage[..2] else sMessage[..1]
      modifies this`saveMode, this`log
      ensures Valid() && View() == Process(old(View()), data).parser
      ensures log == old(log) + Process(old(View()), data).events
    {
      var handled := false;
      if sChannel == 0 {
        if sStatus == 0xB0 {
          if sMessage[0] == 16 {
            saveMode := sMessage[1] == 127;
            handled := true;
          }
        } else if sStatus == 0xC0 {
          if saveMode {
            log := log + [Save(sMessage[0] % 64)];
          } else {
            log := log + [Load(sMessage[0] % 64)];
          }
          handled := true;
        }
      } else if sStatus + sChannel == 0xF4 {
        if sMessage[0] < 0x40 {
          log := log + [Save(sMessage[0] % 64)];
        }
        handled := true;
      }
      if !handled {
        log := log + [Handler(sStatus, sChannel, if M.TwoDataBytes(sStatus) then sMessage[..2] else sMessage[..1])];
      }
    }

    /** Called between messages only. */
    method ProcessStatus(b: Byte)
      requires Valid() && state == M.Idle
      modifies this, sMessage, sysex
      ensures Valid() && sMessage == old(sMessage) && sysex == old(sysex)
      ensures View() == OnStatus(old(View()), b).parser
      ensures log == old(log) + OnStatus(old(View()), b).events
      decreases 1
    {
      if IsStatus(b) {
        sStatus := HighNibble(b);
        sChannel := LowNibble(b);
      }
      if M.TwoDataBytes(sStatus) {
        state := M.WantByte1of2;
      } else if M.OneDataByte(sStatus) {
        state := M.WantByte1of1;
      } else if sStatus == 0xF0 {
        if sChannel == 4 {
          state := M.WantByte1of1;
        } else if sChannel == 0 {
          state := M.WantSysex;
          sysexCount := 0;
          sysex[sysexCount] := b;
          sysexCount := sysexCount + 1;
          assert sysex[..sysexCount] == [b];
        } else {
          log := log + [Handler(sStatus, sChannel, [])];
          return;
        }
      }
      if !IsStatus(b) && state != M.Idle {
        ProcessMIDI(b);
      }
    }

    method ProcessMIDI(b: Byte)
      requires Valid()
      modifies this, sMessage, sysex
      ensures Valid() && sMessage == old(sMessage) && sysex == old(sysex)
      ensures View() == Step(old(View()), b).parser
      ensures log == old(log) + Step(old(View()), b).events
      decreases if state == M.Idle || IsStatus(b) then 2 else 0
    {
      match state {
        case Idle =>
          ProcessStatus(b);
        case WantByte1of1 =>
          sMessage[0] := b;
          assert sMessage[..1] == [b];
          ProcessMessage([b]);
          state := M.Idle;
        case WantByte1of2 =>
          sMessage[0] := b;
          state := M.WantByte2;
        case WantByte2 =>
          sMessage[1] := b;
          assert sMessage[..2] == [sMessage[0], b];
          ProcessMessage([sMessage[0], b]);
          state := M.Idle;
        case WantSysex =>
          CaptureByte(b);
          if IsStatus(b) {
            state := M.Idle;
            if b != 0xF7 {
              ProcessStatus(b);
            } else if sysexCount > 4 && sysex[..4] == M.SYSEX_ID {
              log := log + [Native(sysex[..sysexCount])];
            }
          }
      }
    }

    method CaptureByte(b: Byte)
      requires Valid()
      modifies this`sysexCount, sysex
      ensures Valid() && View() == old(View()).(sysex := Grow(old(View()).sysex, b))
    {
      ghost var captured := sysex[..sysexCount];
      if sysexCount < MAX_SYSEX {
        sysex[sysexCount] := b;
        sysexCount := sysexCount + 1;
      }
      assert sysex[..sysexCount] == Grow(captured, b);
    }

    /** The loop of FlushMIDIRx that hands every byte from the bus to the parser. */
    method ReceiveAll(received: seq<Byte>)
      requires Valid()
      modifies this, sMessage, sysex
      ensures Valid() && sMessage == old(sMessage) && sysex == old(sysex)
      ensures View() == After(old(View()), received)
      ensures log == old(log) + Log(old(View()), received)
    {
      for i := 0 to |received|
        invariant Valid() && sMessage == old(sMessage) && sysex == old(sysex)
        invariant After(View(), received[i..]) == After(old(View()), received)
        invariant log + Log(View(), received[i..]) == old(log) + Log(old(View()), received)
      {
        ghost var o := Step(View(), received[i]);
        assert received[i..][1..] == received[i + 1..];
        ghost var rest := Log(o.parser, received[i + 1..]);
        assert log + (o.events + rest) == (log + o.events) + rest;
        ProcessMIDI(received[i]);
      }
    }
  }
}
