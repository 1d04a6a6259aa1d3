/** The queue that the output ring of src/midi.c implements: a FIFO of 735 bytes, once a byte has been
  taken from it. Until then the read position is -1, the test for a full ring cannot succeed, and the
  736th byte makes the ring look empty. */
module OutputQueue {
  import opened Bytes

  const RING := 736
  const CAPACITY := RING - 1

  /** What is queued, whether a byte was ever taken from the queue, and what has been transmitted. */
  datatype Line = Line(contents: seq<Byte>, started: bool, wire: seq<Byte>)

  predicate Bounded(l: Line) {
    |l.contents| <= CAPACITY
  }

  predicate Fits(l: Line, msg: seq<Byte>) {
    |l.contents| + |msg| <= CAPACITY
  }

  /** What the ring holds of a sequence stored from its first slot on: it forgets each full round. */
  function Wrapped(s: seq<Byte>): seq<Byte> {
    if |s| < RING then s else s[RING..]
  }

  predicate Accepts(l: Line, msg: seq<Byte>) {
    l.started ==> Fits(l, msg)
  }

  /** QueueMIDI1, 2 and 3: all of the message or none of it. */
  function Offer(l: Line, msg: seq<Byte>): Line {
    if Accepts(l, msg) then l.(contents := Wrapped(l.contents + msg)) else l
  }

  /** HandleMIDIOut with the transmitter free. */
  function Take(l: Line): Line {
    if l.contents == [] then l else Line(l.contents[1..], true, l.wire + [l.contents[0]])
  }

  /** How many bytes a blocking enqueue of the message has to transmit first. */
  function Excess(l: Line, msg: seq<Byte>): nat {
    if Accepts(l, msg) then 0 else |l.contents| + |msg| - CAPACITY
  }

  /** BlockingQueueMIDI1, 2 and 3. */
  function Force(l: Line, msg: seq<Byte>): Line
    requires Bounded(l) && |msg| <= 3
  {
    var k := Excess(l, msg);
    Offer(l.(contents := l.contents[k..], wire := l.wire + l.contents[..k]), msg)
  }

  /** A blocking enqueue that is refused transmits a byte and is no further from its goal for it. */
  lemma ForceAfterTake(l: Line, msg: seq<Byte>)
    requires Bounded(l) && |msg| <= 3 && !Accepts(l, msg)
    ensures Bounded(Take(l)) && Force(Take(l), msg) == Force(l, msg)
    ensures 0 < Excess(l, msg) == Excess(Take(l), msg) + 1 <= |msg|
  {
  }

  lemma ForceAccepted(l: Line, msg: seq<Byte>)
    requires Bounded(l) && |msg| <= 3 && Accepts(l, msg)
    ensures Force(l, msg) == Offer(l, msg) && Excess(l, msg) == 0
  {
    assert l.contents[0..] == l.contents && l.wire + l.contents[..0] == l.wire;
  }

  // ---------- Runs ----------

  datatype Op =
    | Queue(msg: seq<Byte>)
    | Block(msg: seq<Byte>)
    | Handle(busy: bool)

  predicate LegalOp(op: Op) {
    op.Handle? || 1 <= |op.msg| <= 3
  }

  function Apply(l: Line, op: Op): (m: Line)
    requires LegalOp(op) && Bounded(l)
    ensures Bounded(m)
  {
    match op
    case Queue(msg) => Offer(l, msg)
    case Block(msg) => Force(l, msg)
    case Handle(busy) => if busy then l else Take(l)
  }

  /** The bytes the operation reports as enqueued. */
  function AcceptedBy(l: Line, op: Op): seq<Byte> {
    match op
    case Queue(msg) => if Accepts(l, msg) then msg else []
    case Block(msg) => msg
    case Handle(_) => []
  }

  /** The one step that loses bytes: an enqueue past the capacity before anything has been taken. */
  predicate Overruns(l: Line, op: Op) {
    !op.Handle? && !l.started && !Fits(l, op.msg)
  }

  function Run(l: Line, ops: seq<Op>): Line
    requires Bounded(l) && forall op :: op in ops ==> LegalOp(op)
    decreases |ops|
  {
    if ops == [] then l else Run(Apply(l, ops[0]), ops[1..])
  }

  function Accepted(l: Line, ops: seq<Op>): seq<Byte>
    requires Bounded(l) && forall op :: op in ops ==> LegalOp(op)
    decreases |ops|
  {
    if ops == [] then [] else AcceptedBy(l, ops[0]) + Accepted(Apply(l, ops[0]), ops[1..])
  }

  function OverrunsIn(l: Line, ops: seq<Op>): nat
    requires Bounded(l) && forall op :: op in ops ==> LegalOp(op)
    decreases |ops|
  {
    if ops == [] then 0
    else (if Overruns(l, ops[0]) then 1 else 0) + OverrunsIn(Apply(l, ops[0]), ops[1..])
  }

  /** What is transmitted stays so, and transmitted and queued together are what they were and what has
    been accepted since. */
  predicate Conserved(l: Line, m: Line, accepted: seq<Byte>) {
    l.wire <= m.wire && m.wire + m.contents == l.wire + l.contents + accepted
  }

  lemma ApplyConserves(l: Line, op: Op)
    requires LegalOp(op) && Bounded(l)
    ensures !Overruns(l, op) ==> Conserved(l, Apply(l, op), AcceptedBy(l, op))
    ensures l.wire <= Apply(l, op).wire
    ensures |Apply(l, op).wire| + |Apply(l, op).contents| + (if Overruns(l, op) then RING else 0)
            == |l.wire| + |l.contents| + |AcceptedBy(l, op)|
  {
    if op.Block? {
      var k := Excess(l, op.msg);
      assert l.wire + l.contents == (l.wire + l.contents[..k]) + l.contents[k..];
    }
  }

  /** Over every run of enqueues and transmissions, from any state of the queue: nothing accepted is lost,
    reordered or repeated if and only if no message was offered past the capacity before the first byte
    was taken; and each time that happens costs one round of the ring. */
  lemma {:induction false} RunConserves(l: Line, ops: seq<Op>)
    requires Bounded(l) && forall op :: op in ops ==> LegalOp(op)
    ensures Conserved(l, Run(l, ops), Accepted(l, ops)) <==> OverrunsIn(l, ops) == 0
    ensures l.wire <= Run(l, ops).wire
    ensures |Run(l, ops).wire| + |Run(l, ops).contents| + 736 * OverrunsIn(l, ops)
            == |l.wire| + |l.contents| + |Accepted(l, ops)|
    decreases |ops|
  {
    if ops == [] {
      assert l.wire + l.contents + [] == l.wire + l.contents;
    } else {
      ApplyConserves(l, ops[0]);
      var m, r := Apply(l, ops[0]), Run(l, ops);
      RunConserves(m, ops[1..]);
      var a, b := AcceptedBy(l, ops[0]), Accepted(m, ops[1..]);
      if OverrunsIn(l, ops) == 0 {
        assert l.wire + l.contents + a + b == l.wire + l.contents + (a + b);
      } else {
        assert |r.wire + r.contents| < |l.wire + l.contents + (a + b)|;
      }
    }
  }

  /** Once a byte has been taken there are no more overruns. */
  lemma {:induction false} StartedIsSafe(l: Line, ops: seq<Op>)
    requires Bounded(l) && l.started && forall op :: op in ops ==> LegalOp(op)
    ensures OverrunsIn(l, ops) == 0
    decreases |ops|
  {
    if ops != [] {
      StartedIsSafe(Apply(l, ops[0]), ops[1..]);
    }
  }

  /** A message is accepted exactly while no more than 735 bytes, the message included, have been accepted and not yet
    transmitted; and always before the first byte has been taken. */
  lemma AcceptsExactly(l: Line, ops: seq<Op>, msg: seq<Byte>)
    requires Bounded(l) && (forall op :: op in ops ==> LegalOp(op)) && OverrunsIn(l, ops) == 0
    ensures var r := Run(l, ops);
            Accepts(r, msg) <==>
            !r.started || |l.contents| + |Accepted(l, ops)| + |msg| <= 735 + |r.wire| - |l.wire|
  {
    RunConserves(l, ops);
  }

  /** A blocking enqueue transmits exactly the bytes in excess of 735, the oldest first, and then the message is in. */
  lemma ForceExactly(l: Line, msg: seq<Byte>)
    requires Bounded(l) && |msg| <= 3 && l.started
    ensures var all := l.contents + msg;
            var k := if |all| <= 735 then 0 else |all| - 735;
            Force(l, msg) == Line(all[k..], true, l.wire + all[..k])
  {
    var all := l.contents + msg;
    if |all| > 735 {
      var k := |all| - 735;
      assert k <= |l.contents|;
      assert all[k..] == l.contents[k..] + msg && all[..k] == l.contents[..k];
    } else {
      assert l.contents[0..] == l.contents && l.wire + [] == l.wire;
    }
  }

  function Handlings(k: nat): (ops: seq<Op>)
    ensures |ops| == k && forall op :: op in ops ==> op == Handle(false)
  {
    seq(k, _ => Handle(false))
  }

  /** Each call of the handler while the transmitter is free sends one byte, the oldest. */
  lemma {:induction false} Drains(l: Line, k: nat)
    requires Bounded(l) && k <= |l.contents|
    ensures Run(l, Handlings(k)) == Line(l.contents[k..], l.started || k > 0, l.wire + l.contents[..k])
    decreases k
  {
    if k == 0 {
      assert l.wire + l.contents[..0] == l.wire;
    } else {
      var m := Take(l);
      assert Handlings(k)[0] in Handlings(k);
      assert Handlings(k)[1..] == Handlings(k - 1);
      Drains(m, k - 1);
      assert l.wire + [l.contents[0]] + m.contents[..k - 1] == l.wire + l.contents[..k];
    }
  }

  // ---------- Sending a list of bytes ----------

  /** A blocking enqueue of each byte. */
  function SendAll(l: Line, bs: seq<Byte>): (m: Line)
    requires Bounded(l)
    ensures Bounded(m)
    decreases |bs|
  {
    if bs == [] then l else SendAll(Force(l, [bs[0]]), bs[1..])
  }

  /** Transmission of all that is queued. */
  function Flushed(l: Line): Line {
    if l.contents == [] then l else Line([], true, l.wire + l.contents)
  }

  /** Which is what as many calls of the handler do as there are bytes queued. */
  lemma FlushDrains(l: Line)
    requires Bounded(l)
    ensures Flushed(l) == Run(l, Handlings(|l.contents|))
  {
    Drains(l, |l.contents|);
    assert l.contents[..|l.contents|] == l.contents && l.wire + [] == l.wire;
  }

  lemma {:induction false} SendAllConserves(l: Line, bs: seq<Byte>)
    requires Bounded(l) && (l.started || Fits(l, bs))
    ensures Conserved(l, SendAll(l, bs), bs)
    decreases |bs|
  {
    if bs == [] {
      assert l.wire + l.contents + [] == l.wire + l.contents;
    } else {
      ApplyConserves(l, Block([bs[0]]));
      SendAllConserves(Force(l, [bs[0]]), bs[1..]);
      assert l.wire + l.contents + [bs[0]] + bs[1..] == l.wire + l.contents + bs;
    }
  }

  function LastOf(s: seq<Byte>, n: nat): seq<Byte>
    requires n <= |s|
  {
    s[|s| - n..]
  }

  /** A send before a byte has been taken transmits nothing and keeps what the current round of the ring holds: the last
    bytes, as many as are left after all full rounds. */
  lemma {:induction false} SendAllOverrun(l: Line, bs: seq<Byte>)
    requires Bounded(l) && !l.started
    ensures var all := l.contents + bs;
            SendAll(l, bs) == l.(contents := LastOf(all, |all| % 736))
    decreases |bs|
  {
    var all := l.contents + bs;
    if bs == [] {
      assert all == l.contents;
    } else {
      var m, rest := Force(l, [bs[0]]), bs[1..];
      assert l.wire + [] == l.wire;
      assert m.contents == Wrapped(l.contents + [bs[0]]);
      assert all == l.contents + [bs[0]] + rest;
      SendAllOverrun(m, rest);
      SameLast(l.contents + [bs[0]], rest);
    }
  }

  /** Forgetting a full round changes nothing to what is left after all full rounds. */
  lemma SameLast(s: seq<Byte>, rest: seq<Byte>)
    requires |s| <= RING
    ensures LastOf(Wrapped(s) + rest, |Wrapped(s) + rest| % RING) == LastOf(s + rest, |s + rest| % RING)
  {
    if |s| == RING {
      assert Wrapped(s) == [] && Wrapped(s) + rest == rest;
      assert |s + rest| % RING == |rest| % RING;
    }
  }

  lemma {:induction false} SendAllConcat(l: Line, a: seq<Byte>, b: seq<Byte>)
    requires Bounded(l)
    ensures SendAll(l, a + b) == SendAll(SendAll(l, a), b)
    decreases |a|
  {
    if a == [] {
      assert a + b == b;
    } else {
      assert (a + b)[1..] == a[1..] + b;
      SendAllConcat(Force(l, [a[0]]), a[1..], b);
    }
  }
}
