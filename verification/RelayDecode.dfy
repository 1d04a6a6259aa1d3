/** From I2C to MIDI: what a receiver on the MIDI output makes of the messages that I2C transactions pass on. The
  relay sees to their length and leaves their data bytes, which may be any bytes, to the sender. */
module RelayDecode {
  import opened Bytes
  import opened Sequences
  import M = MidiParser
  import opened I2CParser
  import opened I2CInput

  /** A message as long as its status byte demands, as all that are passed on are. */
  predicate Sized(m: seq<Byte>) {
    m != [] && MidiLength(m[0]) == Bytes(|m|)
  }

  /** What a receiver is to report for a message. */
  function Reception(m: seq<Byte>): seq<M.Event>
    requires Sized(m)
  {
    if IsRealTime(m[0]) then [M.RealTime(LowNibble(m[0]))]
    else if m[0] < 0xF0 then [M.Message(HighNibble(m[0]), LowNibble(m[0]), m[1..])]
    else []
  }

  /** No data byte of a channel message may be a real-time byte, though it may be another status byte. One of a system
    common message may be a system common status byte, but not open a channel message, nor a sysex that stays open. */
  predicate Receivable(m: seq<Byte>)
    requires Sized(m)
  {
    if m[0] < 0xF0 then forall k :: 1 <= k < |m| ==> !IsRealTime(m[k])
    else (forall k :: 1 <= k < |m| ==> PassesIdly(m[k])) || (|m| == 3 && m[1] == 0xF0 && 0xF1 <= m[2] <= 0xF7)
  }

  predicate PassesIdly(b: Byte) {
    !IsStatus(b) || 0xF1 <= b <= 0xF7
  }

  /** A parser between messages reports the message, and is between messages again. */
  predicate Received(p: M.Parser, m: seq<Byte>)
    requires Sized(m)
  {
    M.Log(p, m) == Reception(m) && M.After(p, m).mode == M.Idle
  }

  lemma Unroll(p: M.Parser, m: seq<Byte>)
    requires m != []
    ensures M.Log(p, m) == M.Step(p, m[0]).events + M.Log(M.Step(p, m[0]).parser, m[1..])
    ensures M.After(p, m) == M.After(M.Step(p, m[0]).parser, m[1..])
  {
  }

  lemma OneDataByte(p: M.Parser, m: seq<Byte>)
    requires p.mode == M.Idle && Sized(m) && |m| == 2 && m[0] < 0xF0
    ensures Received(p, m) <==> Receivable(m)
  {
    var q := M.Step(p, m[0]).parser;
    assert m[1..] == [m[1]];
    M.TwoBytes(p, m);
    assert q.mode == M.WantByte1of1;
  }

  lemma TwoDataBytes(p: M.Parser, m: seq<Byte>)
    requires p.mode == M.Idle && Sized(m) && |m| == 3 && m[0] < 0xF0
    ensures Received(p, m) <==> Receivable(m)
  {
    var q := M.Step(p, m[0]).parser;
    assert m[1..] == [m[1], m[2]];
    Unroll(p, m);
    M.TwoBytes(q, m[1..]);
    assert q.mode == M.WantByte1of2;
  }

  /** One byte while the parser is idle and remembers a system common status. */
  lemma CommonByte(p: M.Parser, b: Byte)
    requires p.mode == M.Idle && p.status == 0xF0 && p.channel != 0
    ensures var o := M.Step(p, b);
            && (PassesIdly(b) ==> o.events == [] && o.parser.mode == M.Idle && o.parser.status == 0xF0 &&
                                  o.parser.channel != 0)
            && (IsRealTime(b) ==> o.events != [])
            && (b == 0xF0 ==> o.events == [] && o.parser.mode == M.WantSysex && o.parser.sysex == [b])
            && (0x80 <= b < 0xF0 ==> o.parser.mode == M.WantByte1of1 || o.parser.mode == M.WantByte1of2)
  {
    assert b == HighNibble(b) + LowNibble(b);
  }

  lemma CommonMessage(p: M.Parser, m: seq<Byte>)
    requires p.mode == M.Idle && Sized(m) && 0xF1 <= m[0] <= 0xF7
    ensures Received(p, m) <==> Receivable(m)
  {
    var q := M.Step(p, m[0]).parser;
    Unroll(p, m);
    CommonByte(p.(status := 0xF0, channel := 1), m[0]);
    if |m| == 2 {
      M.OneByte(q, m[1..]);
      CommonByte(q, m[1]);
    } else if |m| == 3 {
      M.TwoBytes(q, m[1..]);
      CommonByte(q, m[1]);
      LastByte(M.Step(q, m[1]).parser, m[2]);
    }
  }

  predicate Quiet(o: M.Outcome) {
    o.events == [] && o.parser.mode == M.Idle
  }

  /** The second data byte, in each state to which the first may have led. */
  lemma LastByte(r: M.Parser, b: Byte)
    ensures r.mode == M.Idle && r.status == 0xF0 && r.channel != 0 ==> (Quiet(M.Step(r, b)) <==> PassesIdly(b))
    ensures r.mode == M.WantSysex && r.sysex == [0xF0] ==> (Quiet(M.Step(r, b)) <==> 0xF1 <= b <= 0xF7)
    ensures r.mode == M.WantByte1of1 || r.mode == M.WantByte1of2 ==> !Quiet(M.Step(r, b))
  {
    if r.mode == M.Idle && r.status == 0xF0 && r.channel != 0 {
      CommonByte(r, b);
    }
    assert b == HighNibble(b) + LowNibble(b);
  }

  /** A message passed on is received as that message if and only if it is receivable. */
  lemma MessageReceived(p: M.Parser, m: seq<Byte>)
    requires p.mode == M.Idle && Sized(m)
    ensures Received(p, m) <==> Receivable(m)
  {
    if IsRealTime(m[0]) {
      M.OneByte(p, m);
    } else if m[0] >= 0xF0 {
      CommonMessage(p, m);
    } else if |m| == 2 {
      OneDataByte(p, m);
    } else {
      TwoDataBytes(p, m);
    }
  }

  // ---------- Lists of effects ----------

  /** What the relays to the MIDI output are to report, in order. */
  function Receptions(effects: seq<Effect>): seq<M.Event>
    requires AllSized(effects)
  {
    if effects == [] then []
    else
      assert effects[0] in effects;
      ReceptionOf(effects[0]) + Receptions(effects[1..])
  }

  function ReceptionOf(e: Effect): seq<M.Event>
    requires ToMidi(e) ==> Sized(e.message)
  {
    if ToMidi(e) then Reception(e.message) else []
  }

  predicate ToMidi(e: Effect) {
    e.Relay? && e.port == MidiPort
  }

  predicate AllSized(effects: seq<Effect>) {
    forall e :: e in effects && ToMidi(e) ==> Sized(e.message)
  }

  predicate AllReceivable(effects: seq<Effect>)
    requires AllSized(effects)
  {
    forall e :: e in effects && ToMidi(e) ==> Receivable(e.message)
  }

  predicate AllReceived(p: M.Parser, effects: seq<Effect>)
    requires AllSized(effects)
  {
    var wire := PortBytes(effects, MidiPort);
    M.Log(p, wire) == Receptions(effects) && M.After(p, wire).mode == M.Idle
  }

  lemma {:induction false} ReceivableReceived(p: M.Parser, effects: seq<Effect>)
    requires p.mode == M.Idle && AllSized(effects) && AllReceivable(effects)
    ensures AllReceived(p, effects)
    decreases |effects|
  {
    if effects != [] {
      var e, rest := effects[0], effects[1..];
      assert e in effects;
      if ToMidi(e) {
        MessageReceived(p, e.message);
        M.LogConcat(p, e.message, PortBytes(rest, MidiPort));
        M.AfterConcat(p, e.message, PortBytes(rest, MidiPort));
        ReceivableReceived(M.After(p, e.message), rest);
      } else {
        assert PortBytes(effects, MidiPort) == PortBytes(rest, MidiPort);
        ReceivableReceived(p, rest);
      }
    }
  }

  lemma {:induction false} ReceptionsSnoc(effects: seq<Effect>, e: Effect)
    requires AllSized(effects + [e]) && AllSized(effects)
    ensures ToMidi(e) ==> Sized(e.message)
    ensures Receptions(effects + [e]) == Receptions(effects) + ReceptionOf(e)
    decreases |effects|
  {
    var all := effects + [e];
    assert e in all;
    if effects == [] {
      assert all == [e] && all[1..] == [];
    } else {
      var tail := effects[1..];
      assert all[0] == effects[0] && all[1..] == tail + [e];
      ReceptionsSnoc(tail, e);
      Reassociate(ReceptionOf(effects[0]), Receptions(tail), ReceptionOf(e));
    }
  }

  /** A message received in its place is receivable. */
  lemma ReceivedReceivable(p: M.Parser, before: seq<Effect>, e: Effect)
    requires AllSized(before + [e]) && AllSized(before) && ToMidi(e)
    requires AllReceived(p, before) && AllReceived(p, before + [e])
    ensures e in before + [e] && Receivable(e.message)
  {
    var wire := PortBytes(before, MidiPort);
    assert e in before + [e];
    PortBytesConcat(before, [e], MidiPort);
    OneEffect(e, MidiPort);
    M.LogConcat(p, wire, e.message);
    M.AfterConcat(p, wire, e.message);
    ReceptionsSnoc(before, e);
    var log, last := M.Log(p, wire), M.Log(M.After(p, wire), e.message);
    assert (log + last)[|log|..] == last && (log + Reception(e.message))[|log|..] == Reception(e.message);
    MessageReceived(M.After(p, wire), e.message);
  }

  lemma AllSizedPrefixes(effects: seq<Effect>)
    requires AllSized(effects)
    ensures forall n :: 0 <= n <= |effects| ==> AllSized(effects[..n])
  {
  }

  /** A receiver between messages keeps up with the relays of a list of effects, reporting each message and nothing
    else before the next one comes, if and only if they are all receivable. */
  lemma RelaysReceived(p: M.Parser, effects: seq<Effect>)
    requires p.mode == M.Idle && AllSized(effects)
    ensures forall n :: 0 <= n <= |effects| ==> AllSized(effects[..n])
    ensures (forall n :: 0 <= n <= |effects| ==> AllReceived(p, effects[..n])) <==> AllReceivable(effects)
  {
    AllSizedPrefixes(effects);
    if AllReceivable(effects) {
      forall n | 0 <= n <= |effects|
        ensures AllReceived(p, effects[..n])
      {
        ReceivableReceived(p, effects[..n]);
      }
    }
    if forall n :: 0 <= n <= |effects| ==> AllReceived(p, effects[..n]) {
      forall e | e in effects && ToMidi(e)
        ensures Receivable(e.message)
      {
        var k :| 0 <= k < |effects| && effects[k] == e;
        assert effects[..k + 1] == effects[..k] + [e];
        ReceivedReceivable(p, effects[..k], e);
      }
    }
  }

  // ---------- Transactions ----------

  /** Every message that transactions pass on is as long as its status byte demands. */
  lemma {:induction false} TransactionsSized(transactions: seq<Framed>)
    ensures AllSized(Effects(transactions))
    decreases |transactions|
  {
    if transactions != [] {
      var bs := transactions[0].bytes;
      TransactionsSized(transactions[1..]);
      forall e | e in Transaction(bs) && ToMidi(e)
        ensures Sized(e.message)
      {
        var k :| 0 <= k < |Transaction(bs)| && Transaction(bs)[k] == e;
        RelaysOwnBytes(bs, k);
      }
    }
  }

  /** The sender has put data bytes behind the command and the status byte. */
  predicate Clean(transactions: seq<Framed>) {
    forall t :: t in transactions && |t.bytes| > 2 ==> AllData(t.bytes[2..])
  }

  lemma CleanMessage(bs: seq<Byte>, k: nat)
    requires k < |Transaction(bs)| && Transaction(bs)[k].Relay? && (|bs| > 2 ==> AllData(bs[2..]))
    ensures Sized(Transaction(bs)[k].message) && Receivable(Transaction(bs)[k].message)
  {
    RelaysOwnBytes(bs, k);
    var m := Transaction(bs)[k].message;
    if |m| == 2 {
      RepeatedRelayAt(bs, |bs|, k);
      assert bs[k + 2] == bs[2..][k];
    } else {
      assert m == bs[1..1 + |m|];
      assert forall i :: 1 <= i < |m| ==> m[i] == bs[2..][i - 1];
    }
  }

  lemma {:induction false} CleanReceivable(transactions: seq<Framed>)
    requires Clean(transactions) && AllSized(Effects(transactions))
    ensures AllReceivable(Effects(transactions))
    decreases |transactions|
  {
    if transactions != [] {
      var bs := transactions[0].bytes;
      assert transactions[0] in transactions;
      TransactionsSized(transactions[1..]);
      CleanReceivable(transactions[1..]);
      forall e | e in Transaction(bs) && ToMidi(e)
        ensures e in Effects(transactions) && Receivable(e.message)
      {
        var k :| 0 <= k < |Transaction(bs)| && Transaction(bs)[k] == e;
        CleanMessage(bs, k);
      }
    }
  }

  /** So everything that I2C passes on to the MIDI output is received, in order, if the sender's data bytes are data
    bytes. */
  lemma CleanTransactions(p: M.Parser, transactions: seq<Framed>)
    requires p.mode == M.Idle && Clean(transactions)
    ensures AllSized(Effects(transactions)) && AllReceived(p, Effects(transactions))
  {
    TransactionsSized(transactions);
    CleanReceivable(transactions);
    ReceivableReceived(p, Effects(transactions));
  }
}
