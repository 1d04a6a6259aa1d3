/** The single-producer single-consumer rings between the receive interrupts (src/app.c, src/i2c.c) and the
  foreground loop FlushMIDIRx, as steps that may interleave in any way.

  The consumer publishes its new read index before it reads the slot. The read index starts at -1, where
  the test for a full ring cannot succeed. */
module RxProtocol {

  /** The ring as the firmware has it. `size` is a power of two. */
  datatype Ring<T> = Ring(size: nat, slots: seq<T>, read: int, write: nat)

  /** Where the interrupt handler is: before its full test, past it, or with the slot written. */
  datatype Producer<T> = Waiting | Admitted(token: T) | Stored

  /** Where the consumer is: before its empty test, past it, or with the read index published. */
  datatype Consumer = Looking | Found(next: nat) | Published

  /** The system, with all tokens stored and all tokens delivered so far. */
  datatype State<T> = State(ring: Ring<T>, producer: Producer<T>, consumer: Consumer, stored: seq<T>, delivered: seq<T>)

  datatype Action<T> = Receive(token: T) | Store | Publish | Look | Advance | Deliver

  predicate WellFormed<T>(r: Ring<T>) {
    r.size >= 2 && |r.slots| == r.size && -1 <= r.read < r.size && r.write < r.size
  }

  /** (i + 1) & (size - 1), for an index of the ring or -1 */
  function Successor(i: int, size: nat): nat
    requires -1 <= i < size
  {
    if i + 1 == size then 0 else i + 1
  }

  function NextRead<T>(r: Ring<T>): nat
    requires WellFormed(r)
  {
    Successor(r.read, r.size)
  }

  predicate Runnable<T>(s: State<T>) {
    && WellFormed(s.ring) && (s.consumer.Found? ==> s.consumer.next < s.ring.size)
    && (s.consumer.Published? ==> 0 <= s.ring.read)
  }

  /** One step of either side. A step whose turn it is not changes nothing. */
  function Next<T>(s: State<T>, a: Action<T>): (t: State<T>)
    requires Runnable(s)
    ensures Runnable(t)
  {
    match a
    case Receive(token) =>
      if s.producer.Waiting? && s.ring.read != s.ring.write then s.(producer := Admitted(token)) else s
    case Store =>
      if s.producer.Admitted? then
        s.(ring := s.ring.(slots := s.ring.slots[s.ring.write := s.producer.token]),
           producer := Stored, stored := s.stored + [s.producer.token])
      else s
    case Publish =>
      if s.producer.Stored? then
        s.(ring := s.ring.(write := Successor(s.ring.write, s.ring.size)), producer := Waiting)
      else s
    case Look =>
      if s.consumer.Looking? && NextRead(s.ring) != s.ring.write then
        s.(consumer := Found(NextRead(s.ring)))
      else s
    case Advance =>
      if s.consumer.Found? then s.(ring := s.ring.(read := s.consumer.next), consumer := Published) else s
    case Deliver =>
      if s.consumer.Published? then
        s.(consumer := Looking, delivered := s.delivered + [s.ring.slots[s.ring.read]])
      else s
  }

  /** How many tokens the consumer has claimed: those delivered and the one it is about to read. */
  function Claimed<T>(s: State<T>): nat {
    |s.delivered| + if s.consumer.Published? then 1 else 0
  }

  /** How many tokens have been stored and published. */
  function Visible<T>(s: State<T>): int {
    |s.stored| - if s.producer.Stored? then 1 else 0
  }

  /** How many tokens have been stored and not claimed. */
  function Outstanding<T>(s: State<T>): int {
    |s.stored| - Claimed(s)
  }

  /** The two steps that lose tokens, both before the first read and with every slot filled: publishing the last
    slot to a consumer that has yet to look, and admitting another token. */
  predicate Loses<T>(s: State<T>, a: Action<T>) {
    s.ring.read == -1 && |s.stored| == s.ring.size &&
    if a.Publish? then s.producer.Stored? && s.consumer.Looking? else a.Receive? && s.producer.Waiting?
  }

  /** The slot of the k-th token. */
  function Slot(k: nat, size: nat): (r: nat)
    requires size >= 2
    ensures r < size && r <= k
  {
    if k == 0 then 0 else Successor(Slot(k - 1, size), size)
  }

  /** What holds between any two steps. The slots from the token about to be delivered on are intact. */
  ghost predicate Inv<T>(s: State<T>) {
    var n := s.ring.size;
    && WellFormed(s.ring)
    && Claimed(s) <= Visible(s)
    && s.ring.write == Slot(Visible(s), n)
    && s.ring.read == (if Claimed(s) == 0 then -1 else Slot(Claimed(s) - 1, n))
    && Outstanding(s) <= n
    && (Outstanding(s) == n ==>
          s.ring.read == -1 && !s.producer.Admitted? && (s.producer.Stored? || s.consumer.Found?))
    && (s.producer.Admitted? && s.ring.read != -1 ==> Outstanding(s) <= n - 2)
    && (s.consumer.Found? ==> s.consumer.next == Slot(Claimed(s), n) && Claimed(s) < Visible(s))
    && s.delivered == s.stored[..|s.delivered|]
    && forall k {:trigger s.stored[k]} :: |s.delivered| <= k < |s.stored| ==> s.ring.slots[Slot(k, n)] == s.stored[k]
  }

  function Initial<T>(size: nat, slots: seq<T>): State<T> {
    State(Ring(size, slots, -1, 0), Waiting, Looking, [], [])
  }

  lemma {:induction false} SlotAhead(k: nat, d: nat, size: nat)
    requires size >= 2 && d < size
    ensures Slot(k + d, size) == if Slot(k, size) + d < size then Slot(k, size) + d else Slot(k, size) + d - size
    decreases d
  {
    if d > 0 {
      SlotAhead(k, d - 1, size);
    }
  }

  /** Tokens less than a round apart have slots of their own. */
  lemma OwnSlots(a: nat, b: nat, size: nat)
    requires size >= 2 && a < b < a + size
    ensures Slot(a, size) != Slot(b, size)
  {
    SlotAhead(a, b - a, size);
  }

  lemma {:induction false} FirstRound(k: nat, size: nat)
    requires size >= 2 && k < size
    ensures Slot(k, size) == k
  {
    SlotAhead(0, k, size);
  }

  lemma StoreKeeps<T>(s: State<T>, a: Action<T>)
    requires Inv(s) && a.Store?
    ensures Inv(Next(s, a))
  {
    var n := s.ring.size;
    if s.producer.Admitted? {
      var t := Next(s, a);
      forall k | |s.delivered| <= k < |s.stored|
        ensures t.ring.slots[Slot(k, n)] == t.stored[k]
      {
        OwnSlots(k, |s.stored|, n);
        assert s.stored[k] == t.stored[k];
      }
    }
  }

  /** The full test sees a free slot exactly when there is one beside the slot the consumer may be reading. */
  lemma ReceiveKeeps<T>(s: State<T>, a: Action<T>)
    requires Inv(s) && a.Receive?
    ensures !Loses(s, a) ==> Inv(Next(s, a))
    ensures s.producer.Waiting? ==>
              (Next(s, a).producer.Admitted? <==> s.ring.read == -1 || Outstanding(s) < s.ring.size - 1)
  {
    var n := s.ring.size;
    if s.producer.Waiting? && s.ring.read != -1 {
      var c := Claimed(s) - 1;
      if Outstanding(s) == n - 1 {
        SlotAhead(c, n - 1, n);
        assert Slot(c + (n - 1) + 1, n) == Successor(Slot(c + (n - 1), n), n);
      } else {
        OwnSlots(c, |s.stored|, n);
      }
    }
  }

  /** The empty test sees a token exactly when one is visible. */
  lemma LookKeeps<T>(s: State<T>, a: Action<T>)
    requires Inv(s) && a.Look?
    ensures Inv(Next(s, a))
    ensures s.consumer.Looking? ==> (Next(s, a).consumer.Found? <==> Claimed(s) < Visible(s))
  {
    if s.consumer.Looking? {
      var n := s.ring.size;
      assert NextRead(s.ring) == Slot(Claimed(s), n);
      if Claimed(s) < Visible(s) {
        OwnSlots(Claimed(s), Visible(s), n);
      }
    }
  }

  lemma OthersKeep<T>(s: State<T>, a: Action<T>)
    requires Inv(s) && (a.Publish? || a.Advance? || a.Deliver?) && !Loses(s, a)
    ensures Inv(Next(s, a))
  {
    if a.Deliver? && s.consumer.Published? {
      var k := |s.delivered|;
      assert s.stored[k] == s.ring.slots[s.ring.read];
      assert s.stored[..k + 1] == s.stored[..k] + [s.stored[k]];
    }
  }

  lemma StepKeeps<T>(s: State<T>, a: Action<T>)
    requires Inv(s) && !Loses(s, a)
    ensures Inv(Next(s, a))
  {
    match a {
      case Receive(_) => ReceiveKeeps(s, a);
      case Store => StoreKeeps(s, a);
      case Look => LookKeeps(s, a);
      case _ => OthersKeep(s, a);
    }
  }

  // ---------- Runs ----------

  function Run<T>(s: State<T>, actions: seq<Action<T>>): (t: State<T>)
    requires Runnable(s)
    ensures Runnable(t)
    decreases |actions|
  {
    if actions == [] then s else Run(Next(s, actions[0]), actions[1..])
  }

  predicate NoLoss<T>(s: State<T>, actions: seq<Action<T>>)
    requires Runnable(s)
    decreases |actions|
  {
    actions != [] ==> !Loses(s, actions[0]) && NoLoss(Next(s, actions[0]), actions[1..])
  }

  /** Tokens are delivered once, in order and unmodified; the slot the consumer is about to read still holds the
    next one although its index is already published; and a consumer that looks and finds the ring empty, with
    no token in flight, has been given all of them. */
  predicate Safe<T(==)>(s: State<T>)
    requires Runnable(s)
  {
    && s.delivered <= s.stored
    && (s.consumer.Published? ==>
          |s.delivered| < |s.stored| && s.ring.slots[s.ring.read] == s.stored[|s.delivered|])
    && (s.consumer.Looking? && s.producer.Waiting? && NextRead(s.ring) == s.ring.write ==> s.delivered == s.stored)
  }

  lemma {:induction false} RunKeeps<T>(s: State<T>, actions: seq<Action<T>>)
    requires Inv(s) && Runnable(s) && NoLoss(s, actions)
    ensures Inv(Run(s, actions))
    decreases |actions|
  {
    if actions != [] {
      StepKeeps(s, actions[0]);
      RunKeeps(Next(s, actions[0]), actions[1..]);
    }
  }

  lemma InvSafe<T>(s: State<T>)
    requires Inv(s) && Runnable(s)
    ensures Safe(s)
  {
    if s.consumer.Published? {
      assert s.stored[|s.delivered|] == s.ring.slots[s.ring.read];
    }
    LookKeeps(s, Look);
  }

  /** Every interleaving of the steps from power-up without a losing step is safe. */
  lemma EveryInterleavingIsSafe<T>(size: nat, slots: seq<T>, actions: seq<Action<T>>)
    requires size >= 2 && |slots| == size && NoLoss(Initial(size, slots), actions)
    ensures Safe(Run(Initial(size, slots), actions))
  {
    RunKeeps(Initial(size, slots), actions);
    InvSafe(Run(Initial(size, slots), actions));
  }

  /** What can follow a losing step: nothing more for a publication, and for an admission the interrupt handler runs to
    its end and the consumer reads a slot written twice. */
  function Downfall<T>(a: Action<T>): seq<Action<T>> {
    if a.Publish? then [] else [Store, Publish, Advance, Deliver]
  }

  lemma FourSteps<T>(s: State<T>, actions: seq<Action<T>>)
    requires Runnable(s) && |actions| == 4
    ensures Run(s, actions) == Next(Next(Next(Next(s, actions[0]), actions[1]), actions[2]), actions[3])
  {
    var b := Next(s, actions[0]);
    var c := Next(b, actions[1]);
    var d := Next(c, actions[2]);
    assert actions[1..][1..][1..][1..] == [];
    assert Run(s, actions) == Run(b, actions[1..]);
    assert Run(b, actions[1..]) == Run(c, actions[1..][1..]) && actions[1..][0] == actions[1];
    assert Run(c, actions[1..][1..]) == Run(d, actions[1..][1..][1..]) && actions[1..][1..][0] == actions[2];
    assert actions[1..][1..][1..][0] == actions[3];
  }

  /** A losing step from an intact state leads, by that schedule, to a consumer that finds the ring empty with
    tokens it was never given. */
  lemma LosingStepLoses<T>(s: State<T>, a: Action<T>)
    requires Inv(s) && Runnable(s) && Loses(s, a)
    ensures var t := Run(Next(s, a), Downfall(a));
            && !Safe(t) && t.consumer.Looking? && t.producer.Waiting? && NextRead(t.ring) == t.ring.write
            && |t.delivered| < |t.stored|
  {
    var n := s.ring.size;
    FirstRound(n - 1, n);
    if a.Receive? {
      FourSteps(Next(s, a), Downfall(a));
    }
  }

  lemma {:induction false} RunConcat<T>(s: State<T>, a: seq<Action<T>>, b: seq<Action<T>>)
    requires Runnable(s)
    ensures Run(s, a + b) == Run(Run(s, a), b)
    decreases |a|
  {
    if a == [] {
      assert a + b == b;
    } else {
      assert (a + b)[1..] == a[1..] + b;
      RunConcat(Next(s, a[0]), a[1..], b);
    }
  }

  lemma {:induction false} FirstLoss<T>(s: State<T>, actions: seq<Action<T>>) returns (k: nat)
    requires Inv(s) && Runnable(s) && !NoLoss(s, actions)
    ensures k < |actions| && NoLoss(s, actions[..k])
    ensures Inv(Run(s, actions[..k])) && Loses(Run(s, actions[..k]), actions[k])
    decreases |actions|
  {
    if Loses(s, actions[0]) {
      k := 0;
    } else {
      StepKeeps(s, actions[0]);
      var j := FirstLoss(Next(s, actions[0]), actions[1..]);
      k := j + 1;
      assert actions[..k][1..] == actions[1..][..j];
    }
  }

  /** The condition is exact: a run from power-up with a losing step can, from that step on, take a course that is
    not safe. */
  lemma EveryLosingStepCanLose<T>(size: nat, slots: seq<T>, actions: seq<Action<T>>) returns (k: nat)
    requires size >= 2 && |slots| == size && !NoLoss(Initial(size, slots), actions)
    ensures k < |actions| && NoLoss(Initial(size, slots), actions[..k])
    ensures !Safe(Run(Initial(size, slots), actions[..k + 1] + Downfall(actions[k])))
  {
    var s := Initial(size, slots);
    k := FirstLoss(s, actions);
    assert actions[..k + 1] == actions[..k] + [actions[k]];
    RunConcat(s, actions[..k], [actions[k]]);
    RunConcat(s, actions[..k + 1], Downfall(actions[k]));
    assert [actions[k]][1..] == [];
    LosingStepLoses(Run(s, actions[..k]), actions[k]);
  }

  // ---------- The interrupt as one step ----------

  /** The interrupt handlers, run to completion: a token that finds the ring full is dropped. */
  function Received<T>(r: Ring<T>, token: T): (q: Ring<T>)
    requires WellFormed(r)
    ensures WellFormed(q) && q.size == r.size && q.read == r.read
  {
    if r.read == r.write then r
    else r.(slots := r.slots[r.write := token], write := Successor(r.write, r.size))
  }

  /** What FlushMIDIRx will take from the ring if nothing arrives meanwhile. */
  function Pending<T>(r: Ring<T>): seq<T>
    requires WellFormed(r)
  {
    var next := NextRead(r);
    if next <= r.write then r.slots[next..r.write] else r.slots[next..] + r.slots[..r.write]
  }

  lemma ReceivedInSteps<T>(s: State<T>, token: T)
    requires Runnable(s) && s.producer.Waiting?
    ensures Run(s, [Receive(token), Store, Publish]).ring == Received(s.ring, token)
  {
    var steps: seq<Action<T>> := [Receive(token), Store, Publish];
    var a, b := Next(s, steps[0]), Next(Next(s, steps[0]), steps[1]);
    assert steps[1..][1..][1..] == [] && steps[1..][1..][0] == steps[2];
    assert Run(b, steps[1..][1..]) == Next(b, steps[2]);
    assert Run(a, steps[1..]) == Run(b, steps[1..][1..]);
  }

  lemma TakeOnto<T>(r: Ring<T>, data: seq<T>)
    requires WellFormed(r) && NextRead(r) != r.write
    ensures var q := r.(read := NextRead(r));
            data + Pending(r) == data + [r.slots[q.read]] + Pending(q) && |Pending(q)| < |Pending(r)|
  {
  }

  function ReceivedAll<T>(r: Ring<T>, tokens: seq<T>): (q: Ring<T>)
    requires WellFormed(r)
    ensures WellFormed(q) && q.size == r.size && q.read == r.read
  {
    if tokens == [] then r else Received(ReceivedAll(r, tokens[..|tokens| - 1]), tokens[|tokens| - 1])
  }

  lemma {:induction false} FillFromPowerUp<T>(r: Ring<T>, tokens: seq<T>)
    requires WellFormed(r) && r.read == -1 && r.write == 0
    ensures var q := ReceivedAll(r, tokens);
            q.write == Slot(|tokens|, r.size) <= |tokens| && q.slots[..q.write] == tokens[|tokens| - q.write..]
    decreases |tokens|
  {
    if tokens != [] {
      var front := tokens[..|tokens| - 1];
      FillFromPowerUp(r, front);
      var p, q := ReceivedAll(r, front), ReceivedAll(r, tokens);
      if q.write > 0 {
        assert q.slots[..q.write] == p.slots[..p.write] + [tokens[|tokens| - 1]];
        assert tokens[|tokens| - q.write..] == front[|front| - p.write..] + [tokens[|tokens| - 1]];
      }
    }
  }

  /** The boundary is exact. Tokens that arrive before the first read all come out, in order, if and only if
    they are fewer than the ring has slots; otherwise the last ones come out that a fresh round holds. */
  lemma PowerUpBoundary<T>(r: Ring<T>, tokens: seq<T>)
    requires WellFormed(r) && r.read == -1 && r.write == 0
    ensures Pending(ReceivedAll(r, tokens)) == tokens[|tokens| - Slot(|tokens|, r.size)..]
    ensures Pending(ReceivedAll(r, tokens)) == tokens <==> |tokens| < r.size
  {
    FillFromPowerUp(r, tokens);
    if |tokens| < r.size {
      FirstRound(|tokens|, r.size);
    }
  }

  class RxQueue<T(0)> {
    var queue: array<T>
    var read: int
    var write: nat

    ghost predicate Valid()
      reads this, queue
    {
      WellFormed(Ring.Ring(queue.Length, queue[..], read, write))
    }

    ghost function View(): Ring<T>
      reads this, queue
    {
      Ring.Ring(queue.Length, queue[..], read, write)
    }

    constructor (size: nat)
      requires size >= 2
      ensures Valid() && fresh(queue) && View().size == size && read == -1 && write == 0
    {
      queue := new T[size];
      read, write := -1, 0;
    }

    /** The body the receive interrupt handlers share. */
    method InterruptHandler(data: T)
      requires Valid()
      modifies this`write, queue
      ensures Valid() && View() == Received(old(View()), data)
    {
      if read == write {
        // queue overflow
      } else {
        queue[write] := data;
        write := if write + 1 == queue.Length then 0 else write + 1;
      }
    }

    /** One of the three loops of FlushMIDIRx; `data` is what it hands to the parser. */
    method Flush() returns (data: seq<T>)
      requires Valid()
      modifies this`read
      ensures Valid() && data == Pending(old(View())) && Pending(View()) == []
    {
      data := [];
      ghost var r := View();
      while true
        invariant Valid() && View() == r && data + Pending(r) == Pending(old(View()))
        decreases |Pending(r)|
      {
        var nextRead := if read + 1 == queue.Length then 0 else read + 1;
        if nextRead == write {
          return;
        }
        TakeOnto(r, data);
        read := nextRead;
        data := data + [queue[nextRead]];
        r := r.(read := nextRead);
      }
    }
  }
}
