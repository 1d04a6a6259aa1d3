/** The sending side of src/midi.c: a ring of 736 slots, with the position next to write and the position
  last read. The transmit register is a log, and whether it is busy an input. */
module MidiOutput {
  import opened Bytes
  import opened OutputQueue

  function Next(w: nat): nat
    requires w < RING
  {
    if w + 1 >= RING then 0 else w + 1
  }

  /** The slots from `start` up to but not including `end`, around the end of the ring. */
  function Slots(ring: seq<Byte>, start: nat, end: nat): seq<Byte>
    requires |ring| == RING && start < RING && end < RING
  {
    if start <= end then ring[start..end] else ring[start..] + ring[..end]
  }

  /** Storing at `w`: the stretch that ends at w grows by the byte, or closes the ring and looks empty;
    stretches that leave w out are unchanged. */
  lemma StoreAtEnd(ring: seq<Byte>, start: nat, w: nat, b: Byte)
    requires |ring| == RING && start < RING && w < RING
    ensures Slots(ring[w := b], start, Next(w)) == Wrapped(Slots(ring, start, w) + [b])
  {
    var s := Slots(ring, start, w) + [b];
    if Next(w) == start {
      assert |s| == RING;
    } else {
      assert |s| < RING;
      assert Slots(ring[w := b], start, Next(w)) == s;
    }
  }

  lemma StoreOutside(ring: seq<Byte>, start: nat, end: nat, w: nat, b: Byte)
    requires |ring| == RING && start < RING && w < RING && end < RING
    requires if start <= end then w < start || end <= w else end <= w < start
    ensures Slots(ring[w := b], start, end) == Slots(ring, start, end)
  {
  }

  lemma WrappedTwice(s: seq<Byte>, b: Byte)
    requires |s| < 2 * RING - 1
    ensures Wrapped(Wrapped(s) + [b]) == Wrapped(s + [b])
  {
  }

  /** The bytes of a message word, highest first. */
  function MessageBytes(msg: nat, count: nat): (r: seq<Byte>)
    requires count == 2 || count == 3
    ensures |r| == count
  {
    if count == 3 then [msg / 0x10000 % 0x100, msg / 0x100 % 0x100, msg % 0x100]
    else [msg / 0x100 % 0x100, msg % 0x100]
  }

  /** They are the digits of the message in base 256. */
  lemma MessageDigits(msg: nat)
    ensures var r := MessageBytes(msg, 3);
            msg < 0x100_0000 ==> msg == r[0] as int * 0x1_0000 + r[1] as int * 0x100 + r[2]
    ensures var r := MessageBytes(msg, 2);
            msg < 0x1_0000 ==> msg == r[0] as int * 0x100 + r[1]
  {
    ByBytes(msg);
  }

  /** The word after `msg <<= 8` has been done i times in 32 bits, by its four bytes. */
  function Shifted(msg: nat, i: nat): nat
    requires msg < 0x1_0000_0000 && i <= 3
  {
    var b2, b1, b0 := msg / 0x10000 % 0x100, msg / 0x100 % 0x100, msg % 0x100;
    if i == 0 then msg
    else if i == 1 then b2 * 0x100_0000 + b1 * 0x1_0000 + b0 * 0x100
    else if i == 2 then b1 * 0x100_0000 + b0 * 0x1_0000
    else b0 * 0x100_0000
  }

  lemma ByBytes(msg: nat)
    ensures msg == msg / 0x100_0000 * 0x100_0000 + msg / 0x1_0000 % 0x100 * 0x1_0000 +
                   msg / 0x100 % 0x100 * 0x100 + msg % 0x100
  {
    assert msg / 0x100 / 0x100 == msg / 0x1_0000;
    assert msg / 0x1_0000 / 0x100 == msg / 0x100_0000;
  }

  lemma DropTop(top: nat, rest: nat)
    requires rest < 0x1_0000_0000
    ensures (top * 0x1_0000_0000 + rest) % 0x1_0000_0000 == rest
  {
  }

  lemma ShiftOnce(msg: nat, i: nat)
    requires msg < 0x1_0000_0000 && i < 3
    ensures Shifted(msg, i) * 0x100 % 0x1_0000_0000 == Shifted(msg, i + 1)
  {
    ByBytes(msg);
    DropTop(if i == 0 then msg / 0x100_0000 else if i == 1 then msg / 0x10000 % 0x100 else msg / 0x100 % 0x100,
            Shifted(msg, i + 1));
  }

  lemma ShiftedByte(msg: nat, i: nat)
    requires msg < 0x1_0000_0000 && i < 3
    ensures Shifted(msg, i) / 0x10000 % 0x100 == MessageBytes(msg, 3)[i]
    ensures i < 2 ==> Shifted(msg, i) / 0x100 % 0x100 == MessageBytes(msg, 2)[i]
  {
    var b2, b1, b0 := msg / 0x10000 % 0x100, msg / 0x100 % 0x100, msg % 0x100;
    if i == 1 {
      TopBytes(b2, b1, b0);
    } else if i == 2 {
      TopBytes(b1, b0, 0);
    }
  }

  lemma TopBytes(a: Byte, b: Byte, c: Byte)
    ensures var x := a * 0x100_0000 + b * 0x1_0000 + c * 0x100;
            x / 0x1_0000 % 0x100 == b && x / 0x100 % 0x100 == c
  {
    var x := a * 0x100_0000 + b * 0x1_0000 + c * 0x100;
    assert x / 0x1_0000 == a * 0x100 + b;
    assert x / 0x100 == (a * 0x100 + b) * 0x100 + c;
  }

  /** i bytes of a message are stored from the end of the contents on, and w is the slot for the next. In a
    ring that has been read from, the contents are still there. */
  ghost predicate Filling(ring: seq<Byte>, start: nat, end: nat, started: bool, contents: seq<Byte>,
                          bytes: seq<Byte>, i: nat, w: nat)
  {
    && |ring| == RING && start < RING && end < RING && w < RING && i <= |bytes| <= 3 && |contents| <= CAPACITY
    && Slots(ring, start, w) == Wrapped(contents + bytes[..i])
    && (started ==> Slots(ring, start, end) == contents && |contents| + i <= CAPACITY)
  }

  lemma StartFilling(ring: seq<Byte>, start: nat, end: nat, started: bool, bytes: seq<Byte>)
    requires |ring| == RING && start < RING && end < RING && |bytes| <= 3
    ensures Filling(ring, start, end, started, Slots(ring, start, end), bytes, 0, end)
  {
    assert bytes[..0] == [];
  }

  lemma StoreNext(ring: seq<Byte>, start: nat, end: nat, started: bool, contents: seq<Byte>, bytes: seq<Byte>,
                  i: nat, w: nat)
    requires Filling(ring, start, end, started, contents, bytes, i, w) && i < |bytes|
    ensures started && Next(w) == start ==> |contents| + i == CAPACITY
    ensures (started ==> Next(w) != start) ==>
              Filling(ring[w := bytes[i]], start, end, started, contents, bytes, i + 1, Next(w))
  {
    var b := bytes[i];
    StoreAtEnd(ring, start, w, b);
    WrappedTwice(contents + bytes[..i], b);
    assert contents + bytes[..i] + [b] == contents + bytes[..i + 1];
    if started {
      assert |Slots(ring, start, w)| == |contents| + i;
      if Next(w) != start {
        StoreOutside(ring, start, end, w, b);
      }
    }
  }

  class MidiOut {
    var midiQueue: array<Byte>
    var midiQueueWritePos: nat
    var midiQueueReadPos: int
    var midiOutPending: bool

    /** The bytes written to the transmit register. */
    var wire: seq<Byte>

    ghost function Start(): nat
      reads this
      requires -1 <= midiQueueReadPos < RING
    {
      if midiQueueReadPos + 1 >= RING then 0 else midiQueueReadPos + 1
    }

    ghost predicate Consistent()
      reads this, midiQueue
    {
      midiQueue.Length == RING && midiQueueWritePos < RING && -1 <= midiQueueReadPos < RING
    }

    ghost function Line(): (l: Line)
      reads this, midiQueue
      requires Consistent()
      ensures Bounded(l)
    {
      OutputQueue.Line.Line(Slots(midiQueue[..], Start(), midiQueueWritePos), midiQueueReadPos != -1, wire)
    }

    /** The queue as it is once w is its write position. */
    ghost function Published(w: nat): Line
      reads this, midiQueue
      requires Consistent() && w < RING
    {
      OutputQueue.Line.Line(Slots(midiQueue[..], Start(), w), midiQueueReadPos != -1, wire)
    }

    /** A queue that holds something will be served. */
    ghost predicate Valid()
      reads this, midiQueue
    {
      Consistent() && (Line().contents != [] ==> midiOutPending)
    }

    constructor ()
      ensures Valid() && fresh(midiQueue) && Line() == OutputQueue.Line.Line([], false, [])
    {
      midiQueue := new Byte[RING](_ => 0);
      midiQueueWritePos, midiQueueReadPos := 0, -1;
      midiOutPending, wire := false, [];
    }

    method QueueMIDI1(b: Byte) returns (ok: bool)
      requires Valid()
      modifies this, midiQueue
      ensures Valid() && midiQueue == old(midiQueue)
      ensures ok == Accepts(old(Line()), [b])
      ensures Line() == Offer(old(Line()), [b])
    {
      var w: nat := midiQueueWritePos;
      if midiQueueReadPos == w {
        return false;
      }
      ghost var ring, start := midiQueue[..], Start();
      StoreAtEnd(ring, start, w, b);
      midiQueue[w] := b;
      assert midiQueue[..] == ring[w := b];
      w := w + 1;
      if w >= RING {
        w := 0;
      }
      midiQueueWritePos := w;
      midiOutPending := true;
      ok := true;
      assert Start() == start && Slots(midiQueue[..], start, w) == Wrapped(old(Line()).contents + [b]);
    }

    /** The loop of QueueMIDI2 and QueueMIDI3: fills slots from the write position on, without publishing
      them, and gives up on reaching the read position. */
    method StoreWord(message: nat, count: nat) returns (ok: bool, w: nat)
      requires Consistent() && message < 0x1_0000_0000 && (count == 2 || count == 3)
      modifies midiQueue
      ensures w < RING && ok == Accepts(old(Line()), MessageBytes(message, count))
      ensures ok ==> Published(w) == Offer(old(Line()), MessageBytes(message, count))
      ensures !ok ==> Line() == old(Line())
    {
      w := midiQueueWritePos;
      var r := midiQueueReadPos;
      var msg: nat := message;
      ghost var bytes := MessageBytes(message, count);
      ghost var start, end, contents := Start(), w, Line().contents;
      StartFilling(midiQueue[..], start, end, r != -1, bytes);
      for i := 0 to count
        invariant Filling(midiQueue[..], start, end, r != -1, contents, bytes, i, w)
        invariant msg == Shifted(message, i)
      {
        ghost var ring := midiQueue[..];
        StoreNext(ring, start, end, r != -1, contents, bytes, i, w);
        if r == w {
          return false, w;
        }
        ShiftedByte(message, i);
        midiQueue[w] := (if count == 3 then msg / 0x10000 else msg / 0x100) % 0x100;
        assert midiQueue[..] == ring[w := bytes[i]];
        ShiftOnce(message, i);
        msg := msg * 0x100 % 0x1_0000_0000;
        w := w + 1;
        if w >= RING {
          w := 0;
        }
      }
      assert bytes[..count] == bytes;
      ok := true;
    }

    method QueueMIDI2(msg: nat) returns (ok: bool)
      requires Valid() && msg < 0x1_0000_0000
      modifies this, midiQueue
      ensures Valid() && midiQueue == old(midiQueue)
      ensures ok == Accepts(old(Line()), MessageBytes(msg, 2))
      ensures Line() == Offer(old(Line()), MessageBytes(msg, 2))
    {
      var w;
      ok, w := StoreWord(msg, 2);
      if ok {
        midiQueueWritePos := w;
        midiOutPending := true;
      }
    }

    method QueueMIDI3(msg: nat) returns (ok: bool)
      requires Valid() && msg < 0x1_0000_0000
      modifies this, midiQueue
      ensures Valid() && midiQueue == old(midiQueue)
      ensures ok == Accepts(old(Line()), MessageBytes(msg, 3))
      ensures Line() == Offer(old(Line()), MessageBytes(msg, 3))
    {
      var w;
      ok, w := StoreWord(msg, 3);
      if ok {
        midiQueueWritePos := w;
        midiOutPending := true;
      }
    }

    /** Sends one byte if the transmitter can take it; false once the queue is found empty. */
    method HandleMIDIOut(busy: bool) returns (more: bool)
      requires Valid()
      modifies this
      ensures Valid() && midiQueue == old(midiQueue)
      ensures more == (busy || old(Line()).contents != [])
      ensures Line() == if busy then old(Line()) else Take(old(Line()))
      ensures midiOutPending == (more && old(midiOutPending))
    {
      if busy {
        return true;
      }
      var nextRead := midiQueueReadPos + 1;
      if nextRead >= RING {
        nextRead := 0;
      }
      if nextRead == midiQueueWritePos {
        midiOutPending := false;
        return false;
      }
      midiQueueReadPos := nextRead;
      var b := midiQueue[nextRead];
      wire := wire + [b];
      more := true;
    }

    /** The wait for the transmitter to be free is left out: by its end HandleMIDIOut finds it so. */
    method BlockingQueueMIDI1(b: Byte) returns (ghost taken: nat)
      requires Valid()
      modifies this, midiQueue
      ensures Valid() && midiQueue == old(midiQueue)
      ensures Line() == Force(old(Line()), [b])
      ensures taken == Excess(old(Line()), [b])
    {
      taken := 0;
      ghost var l, bytes := Line(), [b];
      while true
        invariant Valid() && midiQueue == old(midiQueue)
        invariant Force(Line(), bytes) == Force(l, bytes) && taken + Excess(Line(), bytes) == Excess(l, bytes)
        decreases Excess(Line(), bytes)
      {
        ghost var m := Line();
        var ok := QueueMIDI1(b);
        if ok {
          ForceAccepted(m, bytes);
          return;
        }
        ForceAfterTake(m, bytes);
        var _ := HandleMIDIOut(false);
        taken := taken + 1;
      }
    }

    method BlockingQueueMIDI2(msg: nat) returns (ghost taken: nat)
      requires Valid() && msg < 0x1_0000_0000
      modifies this, midiQueue
      ensures Valid() && midiQueue == old(midiQueue)
      ensures Line() == Force(old(Line()), MessageBytes(msg, 2))
      ensures taken == Excess(old(Line()), MessageBytes(msg, 2))
    {
      taken := 0;
      ghost var l, bytes := Line(), MessageBytes(msg, 2);
      while true
        invariant Valid() && midiQueue == old(midiQueue)
        invariant Force(Line(), bytes) == Force(l, bytes) && taken + Excess(Line(), bytes) == Excess(l, bytes)
        decreases Excess(Line(), bytes)
      {
        ghost var m := Line();
        var ok := QueueMIDI2(msg);
        if ok {
          ForceAccepted(m, bytes);
          return;
        }
        ForceAfterTake(m, bytes);
        var _ := HandleMIDIOut(false);
        taken := taken + 1;
      }
    }

    method BlockingQueueMIDI3(msg: nat) returns (ghost taken: nat)
      requires Valid() && msg < 0x1_0000_0000
      modifies this, midiQueue
      ensures Valid() && midiQueue == old(midiQueue)
      ensures Line() == Force(old(Line()), MessageBytes(msg, 3))
      ensures taken == Excess(old(Line()), MessageBytes(msg, 3))
    {
      taken := 0;
      ghost var l, bytes := Line(), MessageBytes(msg, 3);
      while true
        invariant Valid() && midiQueue == old(midiQueue)
        invariant Force(Line(), bytes) == Force(l, bytes) && taken + Excess(Line(), bytes) == Excess(l, bytes)
        decreases Excess(Line(), bytes)
      {
        ghost var m := Line();
        var ok := QueueMIDI3(msg);
        if ok {
          ForceAccepted(m, bytes);
          return;
        }
        ForceAfterTake(m, bytes);
        var _ := HandleMIDIOut(false);
        taken := taken + 1;
      }
    }

    /** Sends until the queue is empty. `polls` are the readings of the busy flag; after them it stays clear. */
    method FlushMIDIOut(polls: seq<bool>)
      requires Valid()
      modifies this
      ensures Valid() && midiQueue == old(midiQueue) && !midiOutPending
      ensures Line() == Flushed(old(Line()))
    {
      var i := 0;
      var more := true;
      while more
        invariant Valid() && midiQueue == old(midiQueue) && i <= |polls|
        invariant Flushed(Line()) == Flushed(old(Line()))
        invariant !more ==> Line().contents == [] && !midiOutPending
        decreases more, |polls| - i + |Line().contents|
      {
        var busy := i < |polls| && polls[i];
        if i < |polls| {
          i := i + 1;
        }
        FlushedAfterTake(Line());
        more := HandleMIDIOut(busy);
      }
    }

    /** The first loop of sendBytes. */
    method SendHeader(code: int)
      requires Valid()
      modifies this, midiQueue
      ensures Valid() && midiQueue == old(midiQueue)
      ensures Line() == SendAll(old(Line()), Header(code))
    {
      var header := Header(code);
      for i := 0 to |header|
        invariant Valid() && midiQueue == old(midiQueue)
        invariant SendAll(Line(), header[i..]) == SendAll(old(Line()), header)
      {
        assert header[i..][1..] == header[i + 1..];
        var _ := BlockingQueueMIDI1(header[i]);
      }
    }

    /** The second loop: the payload with the top bits masked off. */
    method SendPayload(payload: seq<Byte>)
      requires Valid()
      modifies this, midiQueue
      ensures Valid() && midiQueue == old(midiQueue)
      ensures Line() == SendAll(old(Line()), Masked(payload))
    {
      ghost var masked := Masked(payload);
      for i := 0 to |payload|
        invariant Valid() && midiQueue == old(midiQueue)
        invariant SendAll(Line(), masked[i..]) == SendAll(old(Line()), masked)
      {
        assert masked[i..][1..] == masked[i + 1..];
        var _ := BlockingQueueMIDI1(payload[i] % 0x80);
      }
    }

    /** sendBytes: header, payload, end of sysex. */
    method SendBytes(code: int, payload: seq<Byte>)
      requires Valid()
      modifies this, midiQueue
      ensures Valid() && midiQueue == old(midiQueue)
      ensures Line() == SendAll(old(Line()), Frame(code, payload))
    {
      SendAllConcat(Line(), Header(code), Masked(payload));
      SendAllConcat(Line(), Header(code) + Masked(payload), [0xF7]);
      SendHeader(code);
      SendPayload(payload);
      assert [0xF7][1..] == [];
      var _ := BlockingQueueMIDI1(0xF7);
    }
  }

  lemma FlushedAfterTake(l: Line)
    ensures Flushed(Take(l)) == Flushed(l)
  {
    if l.contents != [] {
      assert l.wire + [l.contents[0]] + l.contents[1..] == l.wire + l.contents;
    }
  }

  /** payload[i] & 0x7f */
  function Masked(payload: seq<Byte>): (r: seq<Byte>)
    ensures |r| == |payload|
  {
    seq(|payload|, i requires 0 <= i < |payload| => payload[i] % 0x80)
  }

  /** The header of a message; `code` is stored in a byte. */
  function Header(code: int): (r: seq<Byte>)
    ensures |r| == 7
  {
    [0xF0, 0x00, 0x21, 0x27, 0x5D, 0, code % 0x100]
  }

  /** The message sendBytes sends. */
  function Frame(code: int, payload: seq<Byte>): (r: seq<Byte>)
    ensures |r| == |payload| + 8
  {
    Header(code) + Masked(payload) + [0xF7]
  }
}
