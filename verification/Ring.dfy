/** The keyboard's single-producer, single-consumer ring of src/keyboard.rs. `push` and
    `pop` are taken apart into their individual loads and stores of HEAD, TAIL and the
    slots, and a schedule says whose access comes next. */
module Ring {
  import opened Common
  import opened LittleEndian

  /** Where `push` is, with its local variables. */
  datatype Producer =
    | Resting
    | TailLoaded(byte: byte, tail: nat)
    | RoomSeen(byte: byte, tail: nat, next: nat)
    | ByteStored(byte: byte, next: nat)

  /** Where `pop` is, with its local variables. */
  datatype Consumer =
    | Waiting
    | HeadLoaded(head: nat)
    | ByteSeen(head: nat)
    | ByteLoaded(head: nat, byte: byte)

  /** The ring, both sides, and what has gone through it: the bytes whose `push` has
      published them and the bytes whose `pop` has released them. */
  datatype State = State(slots: seq<byte>, head: nat, tail: nat, producer: Producer, consumer: Consumer,
                         accepted: seq<byte>, popped: seq<byte>)

  /** The next access of `push` (of this byte, if it is the first) or of `pop`. */
  datatype Access = Produce(byte: byte) | Consume

  ghost predicate Shape(s: State) {
    && s.slots != [] && s.head < |s.slots| && s.tail < |s.slots|
    && (s.producer.RoomSeen? ==> s.producer.tail < |s.slots|)
    && (s.consumer.ByteSeen? ==> s.consumer.head < |s.slots|)
  }

  /** One atomic access and the local computation up to the next one. */
  function Step(s: State, a: Access): State
    requires Shape(s)
  {
    var cap := |s.slots|;
    if a.Produce? then
      match s.producer
      case Resting => s.(producer := TailLoaded(a.byte, s.tail))
      case TailLoaded(b, tail) =>
        var next := (tail + 1) % cap;
        s.(producer := if next == s.head then Resting else RoomSeen(b, tail, next))
      case RoomSeen(b, tail, next) => s.(slots := s.slots[tail := b], producer := ByteStored(b, next))
      case ByteStored(b, next) => s.(tail := next, producer := Resting, accepted := s.accepted + [b])
    else
      match s.consumer
      case Waiting => s.(consumer := HeadLoaded(s.head))
      case HeadLoaded(head) => s.(consumer := if head == s.tail then Waiting else ByteSeen(head))
      case ByteSeen(head) => s.(consumer := ByteLoaded(head, s.slots[head]))
      case ByteLoaded(head, b) => s.(head := (head + 1) % cap, consumer := Waiting, popped := s.popped + [b])
  }

  /** Bytes published and not yet released. */
  function Backlog(s: State): int { |s.accepted| - |s.popped| }

  /** A byte's slot keeps it from before it is published until it is released. */
  ghost predicate SlotsHold(s: State)
    requires s.slots != []
  {
    forall i | |s.popped| <= i < |s.accepted| :: Slot(s, i) == s.accepted[i]
  }

  /** The slot of the i-th accepted byte. */
  function Slot(s: State, i: nat): byte requires s.slots != [] { s.slots[i % |s.slots|] }

  ghost predicate Inv(s: State) {
    && s.slots != []
    && s.head == |s.popped| % |s.slots| && s.tail == |s.accepted| % |s.slots|
    && s.popped <= s.accepted && Backlog(s) < |s.slots| && SlotsHold(s)
    && ProducerOk(s) && ConsumerOk(s)
  }

  ghost predicate ProducerOk(s: State)
    requires s.slots != []
  {
    match s.producer
    case Resting => true
    case TailLoaded(_, tail) => tail == s.tail
    case RoomSeen(_, tail, next) => tail == s.tail && next == (tail + 1) % |s.slots| && Backlog(s) + 1 < |s.slots|
    case ByteStored(b, next) =>
      next == (s.tail + 1) % |s.slots| && Backlog(s) + 1 < |s.slots| && Slot(s, |s.accepted|) == b
  }

  ghost predicate ConsumerOk(s: State)
    requires s.popped <= s.accepted
  {
    match s.consumer
    case Waiting => true
    case HeadLoaded(head) => head == s.head
    case ByteSeen(head) => head == s.head && |s.popped| < |s.accepted|
    case ByteLoaded(head, b) => head == s.head && |s.popped| < |s.accepted| && b == s.accepted[|s.popped|]
  }

  lemma ShapeFromInv(s: State)
    requires Inv(s)
    ensures Shape(s)
  {
  }

  /** A nonzero number of laps is at least one lap long. */
  lemma Laps(k: int, cap: nat)
    ensures k >= 1 ==> k * cap >= cap
    ensures k <= -1 ==> k * cap + cap <= 0
  {
  }

  lemma Remainder(n: nat, q: nat, r: nat, cap: nat)
    requires r < cap && n == q * cap + r
    ensures n % cap == r
  {
    Laps(n / cap - q, cap);
    assert (n / cap - q) * cap == r - n % cap;
  }

  /** Counts less than a lap apart share an index only if they are the same. */
  lemma SameSlot(i: nat, j: nat, cap: nat)
    requires cap > 0 && i <= j < i + cap
    ensures i % cap == j % cap <==> i == j
  {
    Laps(j / cap - i / cap, cap);
    assert (j / cap - i / cap) * cap == j - i - (j % cap - i % cap);
  }

  lemma NextIndex(i: nat, cap: nat)
    requires cap > 0
    ensures (i % cap + 1) % cap == (i + 1) % cap == if i % cap + 1 == cap then 0 else i % cap + 1
  {
    if i % cap + 1 == cap {
      Remainder(i + 1, i / cap + 1, 0, cap);
    } else {
      Remainder(i + 1, i / cap, i % cap + 1, cap);
    }
  }

  /** `push` finds the ring full exactly when all slots but one are unreleased. */
  lemma FullExactly(s: State)
    requires Inv(s) && s.producer.TailLoaded?
    ensures (s.producer.tail + 1) % |s.slots| == s.head <==> Backlog(s) == |s.slots| - 1
  {
    var cap := |s.slots|;
    NextIndex(|s.accepted|, cap);
    if Backlog(s) == cap - 1 {
      assert |s.accepted| + 1 == |s.popped| + cap;
      WholeLap(|s.popped|, cap);
    } else {
      SameSlot(|s.popped|, |s.accepted| + 1, cap);
    }
  }

  lemma WholeLap(i: nat, cap: nat)
    requires cap > 0
    ensures (i + cap) % cap == i % cap
  {
    Remainder(i + cap, i / cap + 1, i % cap, cap);
  }

  /** Storing the new byte changes the slot of no unreleased one. */
  lemma StoreKeepsUnread(s: State, i: nat)
    requires Inv(s) && s.producer.RoomSeen? && |s.popped| <= i < |s.accepted|
    ensures i % |s.slots| != s.producer.tail
  {
    SameSlot(i, |s.accepted|, |s.slots|);
  }

  lemma ProduceInv(s: State, a: Access)
    requires Inv(s) && a.Produce?
    ensures Shape(s) && Inv(Step(s, a))
  {
    ShapeFromInv(s);
    match s.producer
    case Resting =>
    case TailLoaded(_, _) => FullExactly(s);
    case RoomSeen(_, _, _) =>
      forall i | |s.popped| <= i < |s.accepted|
        ensures Slot(Step(s, a), i) == s.accepted[i]
      {
        StoreKeepsUnread(s, i);
      }
    case ByteStored(_, _) => NextIndex(|s.accepted|, |s.slots|);
  }

  lemma ConsumeInv(s: State)
    requires Inv(s)
    ensures Shape(s) && Inv(Step(s, Consume))
  {
    ShapeFromInv(s);
    match s.consumer
    case Waiting =>
    case HeadLoaded(_) =>
    case ByteSeen(_) => assert Slot(s, |s.popped|) == s.accepted[|s.popped|];
    case ByteLoaded(_, _) => NextIndex(|s.popped|, |s.slots|);
  }

  lemma StepInv(s: State, a: Access)
    requires Inv(s)
    ensures Shape(s) && Inv(Step(s, a))
  {
    if a.Produce? { ProduceInv(s, a); } else { ConsumeInv(s); }
  }

  // ---- Every interleaving ------------------------------------------------------------------

  /** The ring read from `head` round to `tail`: what is in it. */
  function Contents(slots: seq<byte>, head: nat, tail: nat): seq<byte>
    requires head < |slots| && tail < |slots|
    decreases if head <= tail then tail - head else |slots| - head + tail
  {
    if head == tail then []
    else [slots[head]] + Contents(slots, if head + 1 == |slots| then 0 else head + 1, tail)
  }

  /** Reading the ring gives the accepted bytes from the i-th on. */
  lemma {:induction false} ContentsAre(s: State, i: nat)
    requires Inv(s) && |s.popped| <= i <= |s.accepted|
    ensures s.tail < |s.slots| && i % |s.slots| < |s.slots|
    ensures Contents(s.slots, i % |s.slots|, s.tail) == s.accepted[i..]
    decreases |s.accepted| - i
  {
    ShapeFromInv(s);
    SameSlot(i, |s.accepted|, |s.slots|);
    if i < |s.accepted| {
      NextIndex(i, |s.slots|);
      ContentsAre(s, i + 1);
      assert Slot(s, i) == s.accepted[i];
    }
  }

  /** The state after a schedule of accesses. */
  function After(s: State, schedule: seq<Access>): (t: State)
    requires Inv(s)
    ensures Inv(t)
    decreases |schedule|
  {
    if schedule == [] then s
    else
      StepInv(s, schedule[0]);
      After(Step(s, schedule[0]), schedule[1..])
  }

  /** An empty ring of any capacity. */
  function Empty(slots: seq<byte>): State { State(slots, 0, 0, Resting, Waiting, [], []) }

  /** Whatever the interleaving, the bytes popped followed by the bytes in the ring are
      the bytes accepted, in order, and a byte that `pop` has loaded but not yet released
      is the oldest of those in the ring. */
  lemma Fifo(slots: seq<byte>, schedule: seq<Access>)
    requires slots != []
    ensures Inv(Empty(slots))
    ensures var s := After(Empty(slots), schedule);
      && Shape(s) && s.popped + Contents(s.slots, s.head, s.tail) == s.accepted
      && |Contents(s.slots, s.head, s.tail)| < |slots|
      && (s.consumer.ByteLoaded? ==> [s.consumer.byte] <= Contents(s.slots, s.head, s.tail))
  {
    assert Inv(Empty(slots)) by { Remainder(0, 0, 0, |slots|); }
    var s := After(Empty(slots), schedule);
    AfterSlots(Empty(slots), schedule);
    ShapeFromInv(s);
    ContentsAre(s, |s.popped|);
  }

  lemma {:induction false} AfterSlots(s: State, schedule: seq<Access>)
    requires Inv(s)
    ensures |After(s, schedule).slots| == |s.slots|
    decreases |schedule|
  {
    if schedule != [] {
      StepInv(s, schedule[0]);
      AfterSlots(Step(s, schedule[0]), schedule[1..]);
    }
  }

  /** The bytes that `push` was called with, over a schedule, if the call went on to
      publish; `current` is the byte of the call under way. */
  function Published(s: State, schedule: seq<Access>, current: byte): seq<byte>
    requires Inv(s)
    decreases |schedule|
  {
    if schedule == [] then []
    else
      StepInv(s, schedule[0]);
      var a := schedule[0];
      var byte := if a.Produce? && s.producer.Resting? then a.byte else current;
      (if a.Produce? && s.producer.ByteStored? then [byte] else []) + Published(Step(s, a), schedule[1..], byte)
  }

  /** They are the bytes accepted: none is changed, made up or moved on the way. */
  lemma {:induction false} AcceptedAreCalledWith(s: State, schedule: seq<Access>, current: byte)
    requires Inv(s) && (s.producer.Resting? || s.producer.byte == current)
    ensures After(s, schedule).accepted == s.accepted + Published(s, schedule, current)
    decreases |schedule|
  {
    hide Inv;
    if schedule != [] {
      var a := schedule[0];
      StepInv(s, a);
      AcceptedAreCalledWith(Step(s, a), schedule[1..], if a.Produce? && s.producer.Resting? then a.byte else current);
    }
  }

  /** A byte is dropped only when it looks at HEAD while all slots but one hold
      unreleased bytes, and `pop` gives up only when it looks at TAIL while none does. */
  lemma DropsAndMisses(slots: seq<byte>, schedule: seq<Access>, a: Access)
    requires slots != [] && Inv(Empty(slots))
    ensures var s := After(Empty(slots), schedule); Shape(s) && var t := Step(s, a);
      && (s.producer.TailLoaded? && a.Produce? ==>
            (t.producer == Resting <==> |Contents(s.slots, s.head, s.tail)| == |slots| - 1))
      && (s.consumer.HeadLoaded? && a == Consume ==>
            (t.consumer == Waiting <==> Contents(s.slots, s.head, s.tail) == []))
  {
    var s := After(Empty(slots), schedule);
    AfterSlots(Empty(slots), schedule);
    ShapeFromInv(s);
    ContentsAre(s, |s.popped|);
    if s.producer.TailLoaded? {
      FullExactly(s);
    }
    SameSlot(|s.popped|, |s.accepted|, |s.slots|);
  }

  /** No access changes a slot that holds an unread byte, or one `pop` is about to read. */
  lemma UnreadSlotsStay(slots: seq<byte>, schedule: seq<Access>, a: Access, i: nat)
    requires slots != [] && Inv(Empty(slots))
    requires var s := After(Empty(slots), schedule); |s.popped| <= i < |s.accepted|
    ensures var s := After(Empty(slots), schedule);
      Shape(s) && Slot(s, i) == s.accepted[i] && |Step(s, a).slots| == |s.slots| && Slot(Step(s, a), i) == s.accepted[i]
  {
    var s := After(Empty(slots), schedule);
    ShapeFromInv(s);
    if s.producer.RoomSeen? {
      StoreKeepsUnread(s, i);
    }
  }

  // ---- push and pop run to the end ------------------------------------------------------------

  /** All the accesses of one `push`. */
  function Pushed(s: State, byte: byte): State
    requires Inv(s) && s.producer == Resting
  {
    var seen := After(s, [Produce(byte), Produce(byte)]);
    if seen.producer == Resting then seen else After(seen, [Produce(byte), Produce(byte)])
  }

  /** All the accesses of one `pop`. */
  function Popped(s: State): State
    requires Inv(s) && s.consumer == Waiting
  {
    var seen := After(s, [Consume, Consume]);
    if seen.consumer == Waiting then seen else After(seen, [Consume, Consume])
  }

  lemma TwoAccesses(s: State, a: Access)
    requires Inv(s)
    ensures Shape(s) && Inv(Step(s, a)) && Shape(Step(s, a)) && After(s, [a, a]) == Step(Step(s, a), a)
  {
    hide Step, Inv, Shape;
    StepInv(s, a);
    StepInv(Step(s, a), a);
    assert [a, a][1..] == [a] && [a][1..] == [];
    var t := Step(s, a);
    assert After(t, [a]) == After(Step(t, a), []);
  }

  /** The ring in place. The other side may be anywhere in its own call: the keyboard
      interrupt can come between any two accesses of `pop`. */
  class InputRing {
    const slots: array<byte>
    var head: nat
    var tail: nat
    ghost var producer: Producer
    ghost var consumer: Consumer
    ghost var accepted: seq<byte>
    ghost var popped: seq<byte>

    ghost function Value(): State
      reads this, slots
    {
      State(slots[..], head, tail, producer, consumer, accepted, popped)
    }

    constructor (capacity: nat)
      requires capacity > 0
      ensures fresh(slots) && slots.Length == capacity && Value() == Empty(slots[..]) && Inv(Value())
    {
      slots := new byte[capacity](_ => 0);
      head, tail, producer, consumer, accepted, popped := 0, 0, Resting, Waiting, [], [];
      new;
      Remainder(0, 0, 0, capacity);
    }

    method Push(byte: byte)
      requires Inv(Value()) && producer == Resting
      modifies this`tail, this`accepted, slots
      ensures Inv(Value()) && Value() == Pushed(old(Value()), byte)
      ensures accepted == if |old(accepted)| - |popped| == slots.Length - 1 then old(accepted) else old(accepted) + [byte]
    {
      ghost var s := Value();
      TwoAccesses(s, Produce(byte));
      FullExactly(Step(s, Produce(byte)));
      var t := tail;
      var next := (t + 1) % slots.Length;
      if next == head { return; }
      ghost var seen := After(s, [Produce(byte), Produce(byte)]);
      TwoAccesses(seen, Produce(byte));
      slots[t] := byte;
      tail := next;
      accepted := accepted + [byte];
      assert slots[..] == s.slots[t := byte];
    }

    method Pop() returns (r: Option<byte>)
      requires Inv(Value()) && consumer == Waiting
      modifies this`head, this`popped
      ensures Inv(Value()) && Value() == Popped(old(Value()))
      ensures r == if old(popped) == accepted then None else Some(accepted[|old(popped)|])
      ensures popped == if r.None? then old(popped) else old(popped) + [r.value]
    {
      ghost var s := Value();
      TwoAccesses(s, Consume);
      SameSlot(|popped|, |accepted|, slots.Length);
      var h := head;
      if h == tail { return None; }
      ghost var seen := After(s, [Consume, Consume]);
      TwoAccesses(seen, Consume);
      var byte := slots[h];
      assert Slot(s, |popped|) == accepted[|popped|];
      head := (h + 1) % slots.Length;
      popped := popped + [byte];
      r := Some(byte);
    }
  }
}
