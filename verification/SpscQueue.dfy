/** ProducerConsumerQueue (base/ProducerConsumerQueue.h): a ring of size slots shared by one
    producer and one consumer without locks.  Each atomic load or store of an index, and each
    construction, move and destruction in a slot, is one step; steps of the two threads
    interleave freely. */
module SpscQueue {
  import opened Division
  import opened Wrappers

  const MAX_SIZE: nat := 0x7fff_ffff

  // ---- States ----------------------------------------------------------------------

  /** A slot of records_: malloc'ed memory, a value, or a value that has been moved from. */
  datatype Slot<T> = Raw | Live(value: T) | Moved

  datatype Query = IsEmpty | IsFull | SizeGuess

  datatype Answer = Flag(yes: bool) | Size(n: int)

  /** Where the producer is in write(value), or in a query.  mark is a history variable: how
      many values had been removed when index was loaded. */
  datatype Producer<T> =
    | Resting
    | LoadOwn(value: T)
    | LoadTheirs(value: T, current: nat)
    | Construct(value: T, current: nat, next: nat)
    | Publish(value: T, current: nat, next: nat)
    | Ask(query: Query)
    | Asked(query: Query, index: nat, mark: nat)

  datatype Operation = Read | FrontPtr | PopFront

  /** Where the consumer is in one of its operations, or in a query.  value is what the slot
      held; read() returns it. */
  datatype Consumer<T> =
    | Resting
    | LoadOwn(op: Operation)
    | LoadTheirs(op: Operation, current: nat)
    | Move(current: nat, next: nat)
    | Destroy(current: nat, next: nat, moved: bool, value: T)
    | Release(current: nat, next: nat, value: T)
    | Ask(query: Query)
    | Asked(query: Query, index: nat, mark: nat)

  /** written and removed are history variables: the values published, and taken out by read or
      popFront, in order.  fault records a construction over a value, an access to a slot that
      holds none, or a failed assert. */
  datatype State<T> = State(size: nat, readIndex: nat, writeIndex: nat, slots: seq<Slot<T>>,
                            producer: Producer<T>, consumer: Consumer<T>,
                            written: seq<T>, removed: seq<T>, fault: bool)

  /** The number of values between the two indices. */
  function Held<T>(s: State<T>): int {
    |s.written| - |s.removed|
  }

  // ---- Steps -----------------------------------------------------------------------

  datatype Step<T> =
    | CallWrite(value: T)
    | CallConsumer(op: Operation)
    | ProducerAsks(query: Query)
    | ConsumerAsks(query: Query)
    | Produce
    | Consume

  /** Each thread runs one operation at a time, and popFront needs a non-empty queue. */
  predicate Enabled<T>(s: State<T>, step: Step<T>) {
    match step
    case CallWrite(_) => s.producer.Resting?
    case CallConsumer(op) => s.consumer.Resting? && (op == PopFront ==> Held(s) > 0)
    case ProducerAsks(_) => s.producer.Resting?
    case ConsumerAsks(_) => s.consumer.Resting?
    case Produce => !s.producer.Resting?
    case Consume => !s.consumer.Resting?
  }

  function Next(i: nat, size: nat): nat {
    if i + 1 == size then 0 else i + 1
  }

  /** The load a query makes first, and the answer after its second load. */
  function FirstLoad<T>(s: State<T>, query: Query): nat {
    if query == IsEmpty then s.readIndex else s.writeIndex
  }

  function Reply<T>(s: State<T>, query: Query, index: nat): Answer {
    match query
    case IsEmpty => Flag(index == s.writeIndex)
    case IsFull => Flag(Next(index, s.size) == s.readIndex)
    case SizeGuess =>
      if index < s.readIndex then Size(index - s.readIndex + s.size)
      else Size(index - s.readIndex)
  }

  function ProducerStep<T>(s: State<T>): State<T> {
    match s.producer
    case Resting => s
    case LoadOwn(v) => s.(producer := Producer.LoadTheirs(v, s.writeIndex))
    case LoadTheirs(v, current) =>
      var next := Next(current, s.size);
      s.(producer := if next != s.readIndex then Construct(v, current, next) else Producer.Resting)
    case Construct(v, current, next) =>
      if current < |s.slots| && s.slots[current].Raw? then
        s.(slots := s.slots[current := Live(v)], producer := Publish(v, current, next))
      else s.(fault := true)
    case Publish(v, current, next) =>
      s.(writeIndex := next, written := s.written + [v], producer := Producer.Resting)
    case Ask(q) => s.(producer := Producer.Asked(q, FirstLoad(s, q), |s.removed|))
    case Asked(q, index, _) => s.(producer := Producer.Resting)
  }

  function ConsumerStep<T>(s: State<T>): State<T> {
    match s.consumer
    case Resting => s
    case LoadOwn(op) => s.(consumer := Consumer.LoadTheirs(op, s.readIndex))
    case LoadTheirs(op, current) =>
      var empty, next := current == s.writeIndex, Next(current, s.size);
      (match op
       case Read => s.(consumer := if empty then Consumer.Resting else Move(current, next))
       case FrontPtr => s.(consumer := Consumer.Resting)
       case PopFront =>
         if !empty && current < |s.slots| && s.slots[current].Live? then
           s.(consumer := Destroy(current, next, false, s.slots[current].value))
         else s.(fault := true))
    case Move(current, next) =>
      if current < |s.slots| && s.slots[current].Live? then
        s.(slots := s.slots[current := Moved], consumer := Destroy(current, next, true, s.slots[current].value))
      else s.(fault := true)
    case Destroy(current, next, _, v) =>
      if current < |s.slots| && !s.slots[current].Raw? then
        s.(slots := s.slots[current := Raw], consumer := Release(current, next, v))
      else s.(fault := true)
    case Release(current, next, v) =>
      s.(readIndex := next, removed := s.removed + [v], consumer := Consumer.Resting)
    case Ask(q) => s.(consumer := Consumer.Asked(q, FirstLoad(s, q), |s.written|))
    case Asked(q, index, _) => s.(consumer := Consumer.Resting)
  }

  function Apply<T>(s: State<T>, step: Step<T>): State<T> {
    match step
    case CallWrite(v) => s.(producer := Producer.LoadOwn(v))
    case CallConsumer(op) => s.(consumer := Consumer.LoadOwn(op))
    case ProducerAsks(q) => s.(producer := Producer.Ask(q))
    case ConsumerAsks(q) => s.(consumer := Consumer.Ask(q))
    case Produce => ProducerStep(s)
    case Consume => ConsumerStep(s)
  }

  /** A new queue; the constructor asserts size >= 2, and the indices are ints. */
  ghost predicate Init<T>(s: State<T>) {
    && 2 <= s.size <= MAX_SIZE && s.readIndex == 0 && s.writeIndex == 0
    && |s.slots| == s.size && (forall i :: 0 <= i < s.size ==> s.slots[i] == Raw)
    && s.producer == Producer.Resting && s.consumer == Consumer.Resting
    && s.written == [] && s.removed == [] && !s.fault
  }

  predicate ValidRun<T>(s: State<T>, steps: seq<Step<T>>)
    decreases |steps|
  {
    steps == [] || (Enabled(s, steps[0]) && ValidRun(Apply(s, steps[0]), steps[1..]))
  }

  function Final<T>(s: State<T>, steps: seq<Step<T>>): State<T>
    decreases |steps|
  {
    if steps == [] then s else Final(Apply(s, steps[0]), steps[1..])
  }

  // ---- Positions in the ring -------------------------------------------------------

  /** The slot of the k-th value. */
  function At(k: nat, size: nat): (i: nat)
    requires size > 0
    ensures i < size
  {
    k % size
  }

  lemma AtNext(k: nat, size: nat)
    requires size > 1
    ensures At(k + 1, size) == Next(At(k, size), size)
  {
    var q, i := k / size, k % size;
    assert k == q * size + i;
    if i + 1 == size {
      assert k + 1 == (q + 1) * size;
      DivMod(k + 1, size, q + 1, 0);
    } else {
      DivMod(k + 1, size, q, i + 1);
    }
  }

  /** Two values less than a whole ring apart are in different slots, and the distance between
      their slots, around the ring, is the distance between them. */
  lemma AtApart(a: nat, b: nat, size: nat)
    requires size > 1 && a <= b < a + size
    ensures At(a, size) == At(b, size) <==> a == b
    ensures b - a == At(b, size) - At(a, size) + (if At(b, size) < At(a, size) then size else 0)
    ensures Next(At(b, size), size) == At(a, size) <==> b - a == size - 1
    decreases b
  {
    if a == b {
      AtNext(a, size);
    } else {
      AtApart(a, b - 1, size);
      AtNext(b - 1, size);
    }
  }

  lemma AtCovers(from: nat, i: nat, size: nat) returns (k: nat)
    requires size > 1 && i < size
    ensures from <= k < from + size && At(k, size) == i
  {
    var f := At(from, size);
    k := if i < f then from + i + size - f else from + i - f;
    var q := from / size;
    assert from == q * size + f;
    if i < f {
      assert k == (q + 1) * size + i;
      DivMod(k, size, q + 1, i);
    } else {
      DivMod(k, size, q, i);
    }
  }

  // ---- The invariant ---------------------------------------------------------------

  /** What the slot of the k-th value holds. */
  function Expected<T>(s: State<T>, k: nat): Slot<T> {
    if k == |s.removed| && s.consumer.Release? then Raw
    else if k == |s.removed| && s.consumer.Destroy? && s.consumer.moved then Moved
    else if k < |s.written| then Live(s.written[k])
    else if k == |s.written| && s.producer.Publish? then Live(s.producer.value)
    else Raw
  }

  ghost predicate GoodProducer<T>(s: State<T>) {
    && (s.producer.LoadTheirs? || s.producer.Construct? || s.producer.Publish? ==>
          s.producer.current == s.writeIndex)
    && (s.producer.Construct? || s.producer.Publish? ==>
          s.producer.next == Next(s.writeIndex, s.size) && Held(s) < s.size - 1)
    && (s.producer.Asked? ==>
          && s.producer.mark <= |s.removed| && |s.written| - s.producer.mark < s.size
          && s.size > 0
          && s.producer.index == At(if s.producer.query == IsEmpty then s.producer.mark else |s.written|, s.size))
  }

  ghost predicate GoodConsumer<T>(s: State<T>) {
    && (s.consumer.LoadTheirs? || s.consumer.Move? || s.consumer.Destroy? || s.consumer.Release? ==>
          s.consumer.current == s.readIndex)
    && (s.consumer.Move? || s.consumer.Destroy? || s.consumer.Release? ==>
          s.consumer.next == Next(s.readIndex, s.size) && Held(s) > 0)
    && (s.consumer.Destroy? || s.consumer.Release? ==>
          |s.removed| < |s.written| && s.consumer.value == s.written[|s.removed|])
    && ((s.consumer.LoadOwn? || s.consumer.LoadTheirs?) && s.consumer.op == PopFront ==> Held(s) > 0)
    && (s.consumer.Asked? ==>
          && |s.removed| <= s.consumer.mark <= |s.written|
          && s.size > 0
          && s.consumer.index == At(if s.consumer.query == IsEmpty then |s.removed| else s.consumer.mark, s.size))
  }

  ghost predicate GoodSlots<T>(s: State<T>)
    requires s.size > 0 && |s.slots| == s.size
  {
    forall k :: |s.removed| <= k < |s.removed| + s.size ==> s.slots[At(k, s.size)] == Expected(s, k)
  }

  ghost predicate Inv<T>(s: State<T>) {
    && 2 <= s.size <= MAX_SIZE && |s.slots| == s.size && !s.fault
    && s.readIndex == At(|s.removed|, s.size) && s.writeIndex == At(|s.written|, s.size)
    && 0 <= Held(s) < s.size
    && s.removed <= s.written
    && GoodProducer(s) && GoodConsumer(s) && GoodSlots(s)
  }

  // ---- Every step keeps the invariant ----------------------------------------------

  lemma InitInv<T>(s: State<T>)
    requires Init(s)
    ensures Inv(s)
  {
  }

  /** Writing one slot of the window leaves the others as they were. */
  lemma SlotsAfter<T>(s: State<T>, s': State<T>, k: nat)
    requires s.size == s'.size > 1 && |s.slots| == s.size && GoodSlots(s)
    requires |s.removed| == |s'.removed| <= k < |s.removed| + s.size
    requires s'.slots == s.slots[At(k, s.size) := Expected(s', k)]
    requires forall j :: |s.removed| <= j < |s.removed| + s.size && j != k ==> Expected(s', j) == Expected(s, j)
    ensures GoodSlots(s')
  {
    hide At, Expected;
    forall j | |s.removed| <= j < |s.removed| + s.size ensures s'.slots[At(j, s.size)] == Expected(s', j) {
      if j < k {
        AtApart(j, k, s.size);
      } else {
        AtApart(k, j, s.size);
      }
    }
  }

  lemma SlotsStay<T>(s: State<T>, s': State<T>)
    requires s'.size == s.size > 0 && s'.slots == s.slots && |s.slots| == s.size
    requires |s'.removed| == |s.removed| && GoodSlots(s)
    requires forall k :: |s.removed| <= k < |s.removed| + s.size ==> Expected(s', k) == Expected(s, k)
    ensures GoodSlots(s')
  {
    hide Expected, At;
  }

  lemma ConstructKeepsInv<T>(s: State<T>)
    requires Inv(s) && s.producer.Construct?
    ensures Inv(ProducerStep(s)) && ProducerStep(s).producer.Publish?
  {
    hide At;
    assert s.slots[At(|s.written|, s.size)] == Expected(s, |s.written|);
    SlotsAfter(s, ProducerStep(s), |s.written|);
  }

  lemma PublishKeepsInv<T>(s: State<T>)
    requires Inv(s) && s.producer.Publish?
    ensures Inv(ProducerStep(s))
  {
    hide At;
    AtNext(|s.written|, s.size);
    SlotsStay(s, ProducerStep(s));
    hide GoodSlots;
  }

  lemma ProduceKeepsInv<T>(s: State<T>)
    requires Inv(s) && Enabled(s, Produce)
    ensures Inv(ProducerStep(s))
  {
    if s.producer.Construct? {
      ConstructKeepsInv(s);
    } else if s.producer.Publish? {
      PublishKeepsInv(s);
    } else {
      hide At;
      AtApart(|s.removed|, |s.written|, s.size);
      SlotsStay(s, ProducerStep(s));
      hide GoodSlots, Expected;
    }
  }

  /** Removing the front value moves the window of slots by one. */
  lemma SlotsAfterRelease<T>(s: State<T>, s': State<T>)
    requires Inv(s) && s.consumer.Release? && s' == ConsumerStep(s)
    ensures GoodSlots(s')
  {
    hide At;
    var p := |s.removed|;
    forall k | p + 1 <= k < p + 1 + s.size ensures s'.slots[At(k, s.size)] == Expected(s', k) {
      if k < p + s.size {
        assert s.slots[At(k, s.size)] == Expected(s, k);
      } else {
        AtApart(p, p + s.size - 1, s.size);
        AtNext(p + s.size - 1, s.size);
        assert s.slots[At(p, s.size)] == Expected(s, p);
      }
    }
  }

  lemma TakingKeepsInv<T>(s: State<T>)
    requires Inv(s) && (s.consumer.Move? || s.consumer.Destroy?)
    ensures Inv(ConsumerStep(s))
  {
    hide At;
    assert s.slots[At(|s.removed|, s.size)] == Expected(s, |s.removed|);
    SlotsAfter(s, ConsumerStep(s), |s.removed|);
  }

  lemma ReleaseKeepsInv<T>(s: State<T>)
    requires Inv(s) && s.consumer.Release?
    ensures Inv(ConsumerStep(s))
  {
    hide At;
    AtNext(|s.removed|, s.size);
    SlotsAfterRelease(s, ConsumerStep(s));
    hide GoodSlots;
  }

  lemma ConsumeKeepsInv<T>(s: State<T>)
    requires Inv(s) && Enabled(s, Consume)
    ensures Inv(ConsumerStep(s))
  {
    if s.consumer.Release? {
      ReleaseKeepsInv(s);
    } else if s.consumer.Move? || s.consumer.Destroy? {
      TakingKeepsInv(s);
    } else {
      hide At;
      var p := |s.removed|;
      AtApart(p, |s.written|, s.size);
      assert s.slots[At(p, s.size)] == Expected(s, p);
      SlotsStay(s, ConsumerStep(s));
      hide GoodSlots;
    }
  }

  lemma StepKeepsInv<T>(s: State<T>, step: Step<T>)
    requires Inv(s) && Enabled(s, step)
    ensures Inv(Apply(s, step)) && Apply(s, step).size == s.size
  {
    hide At;
    match step {
      case Produce => ProduceKeepsInv(s);
      case Consume => ConsumeKeepsInv(s);
      case _ =>
        SlotsStay(s, Apply(s, step));
    }
  }

  lemma {:induction false} RunKeepsInv<T>(s: State<T>, steps: seq<Step<T>>)
    requires Inv(s) && ValidRun(s, steps)
    ensures Inv(Final(s, steps)) && Final(s, steps).size == s.size
    decreases |steps|
  {
    hide Inv, Enabled, Apply;
    if steps != [] {
      StepKeepsInv(s, steps[0]);
      RunKeepsInv(Apply(s, steps[0]), steps[1..]);
    }
  }

  // ---- What the queue promises -----------------------------------------------------

  function Occupied<T>(s: State<T>): set<nat> {
    set i: nat | i < |s.slots| && !s.slots[i].Raw?
  }

  lemma OccupiedBound<T>(s: State<T>)
    requires Inv(s)
    ensures |Occupied(s)| <= s.size - 1
  {
    hide At;
    var end := |s.written| + if s.producer.Publish? then 1 else 0;
    var free := At(end, s.size);
    assert s.slots[free] == Expected(s, end) == Raw;
    var others := Numbers(s.size) - {free};
    assert Occupied(s) <= others;
    assert Numbers(s.size) == others + {free};
    SubsetSize(Occupied(s), others);
  }

  function Numbers(n: nat): (all: set<nat>)
    ensures |all| == n && forall i: nat :: i in all <==> i < n
  {
    if n == 0 then {} else Numbers(n - 1) + {n - 1}
  }

  /** Under every interleaving the values taken out are a prefix of the values put in, no slot is
      constructed over or used when empty, and at most size - 1 slots are in use. */
  lemma FirstInFirstOut<T>(s: State<T>, steps: seq<Step<T>>)
    requires Init(s) && ValidRun(s, steps)
    ensures var f := Final(s, steps);
            f.removed <= f.written && !f.fault && Held(f) <= f.size - 1 && |Occupied(f)| <= f.size - 1
  {
    InitInv(s);
    RunKeepsInv(s, steps);
    OccupiedBound(Final(s, steps));
  }

  /** write() gives up exactly when the queue is full at its load of readIndex_; otherwise the
      value is appended when the store of writeIndex_ is reached. */
  lemma WriteOutcome<T>(s: State<T>, steps: seq<Step<T>>)
    requires Init(s) && ValidRun(s, steps)
    ensures var f := Final(s, steps);
            && (f.producer.LoadTheirs? ==> (ProducerStep(f).producer.Resting? <==> Held(f) == f.size - 1))
            && (f.producer.Construct? ==> Held(f) < f.size - 1 && ProducerStep(f).producer.Publish?)
  {
    hide At;
    InitInv(s);
    RunKeepsInv(s, steps);
    var f := Final(s, steps);
    AtApart(|f.removed|, |f.written|, f.size);
    if f.producer.Construct? {
      ConstructKeepsInv(f);
    }
  }

  /** read() fails, and frontPtr() is null, exactly when the queue is empty at the load of
      writeIndex_; the value then returned or pointed at is the oldest one not yet removed. */
  lemma ReadOutcome<T>(s: State<T>, steps: seq<Step<T>>)
    requires Init(s) && ValidRun(s, steps)
    ensures var f := Final(s, steps); f.consumer.LoadTheirs? ==>
            && (f.consumer.op == Read ==> (ConsumerStep(f).consumer.Resting? <==> Held(f) == 0))
            && (f.consumer.current == f.writeIndex <==> Held(f) == 0)
            && (Held(f) > 0 ==> f.consumer.current < |f.slots|
                                && f.slots[f.consumer.current] == Live(f.written[|f.removed|]))
    ensures var f := Final(s, steps); f.consumer.Release? ==>
            |f.removed| < |f.written| && f.consumer.value == f.written[|f.removed|]
  {
    hide At;
    InitInv(s);
    RunKeepsInv(s, steps);
    var f := Final(s, steps);
    AtApart(|f.removed|, |f.written|, f.size);
    assert f.slots[At(|f.removed|, f.size)] == Expected(f, |f.removed|);
  }

  // ---- Whole operations ------------------------------------------------------------

  /** How many steps of its own an operation that takes a value, or puts one, still needs. */
  function TakesLeft<T>(c: Consumer<T>): nat {
    match c
    case LoadOwn(op) => if op == Read then 5 else if op == PopFront then 4 else 0
    case LoadTheirs(op, _) => if op == Read then 4 else if op == PopFront then 3 else 0
    case Move(_, _) => 3
    case Destroy(_, _, _, _) => 2
    case Release(_, _, _) => 1
    case _ => 0
  }

  function PutsLeft<T>(p: Producer<T>): nat {
    match p
    case LoadOwn(_) => 4
    case LoadTheirs(_, _) => 3
    case Construct(_, _, _) => 2
    case Publish(_, _, _) => 1
    case _ => 0
  }

  function Count<T(==)>(steps: seq<Step<T>>, step: Step<T>): nat {
    if steps == [] then 0 else (if steps[0] == step then 1 else 0) + Count(steps[1..], step)
  }

  /** One thread's calls have all been made. */
  predicate NoConsumerCalls<T>(steps: seq<Step<T>>) {
    forall i :: 0 <= i < |steps| ==> !steps[i].CallConsumer? && !steps[i].ConsumerAsks?
  }

  predicate NoProducerCalls<T>(steps: seq<Step<T>>) {
    forall i :: 0 <= i < |steps| ==> !steps[i].CallWrite? && !steps[i].ProducerAsks?
  }

  /** A step towards the removal of the front value, and a step of the producer meanwhile. */
  lemma TakeStep<T>(s: State<T>, step: Step<T>)
    requires Inv(s) && Enabled(s, step) && !step.CallConsumer? && !step.ConsumerAsks?
    requires TakesLeft(s.consumer) > 0 && Held(s) > 0
    ensures var s' := Apply(s, step);
            && TakesLeft(s'.consumer) == TakesLeft(s.consumer) - (if step == Consume then 1 else 0)
            && |s.removed| < |s.written| <= |s'.written| && s'.written[|s.removed|] == s.written[|s.removed|]
            && (TakesLeft(s'.consumer) > 0 ==> s'.removed == s.removed && Held(s') > 0)
            && (TakesLeft(s'.consumer) == 0 ==>
                  s'.removed == s.removed + [s.written[|s.removed|]] && s'.consumer.Resting?)
  {
    hide At, GoodSlots, GoodProducer;
    StepKeepsInv(s, step);
    if s.consumer.LoadTheirs? {
      TakeLoads(s);
    }
  }

  lemma TakeLoads<T>(s: State<T>)
    requires Inv(s) && s.consumer.LoadTheirs? && Held(s) > 0
    ensures s.consumer.current != s.writeIndex
  {
    hide At;
    AtApart(|s.removed|, |s.written|, s.size);
  }

  lemma {:induction false} RestStays<T>(s: State<T>, steps: seq<Step<T>>)
    requires ValidRun(s, steps) && s.consumer.Resting? && NoConsumerCalls(steps)
    ensures Final(s, steps).removed == s.removed && Final(s, steps).consumer.Resting?
    decreases |steps|
  {
    if steps != [] {
      RestStays(Apply(s, steps[0]), steps[1..]);
    }
  }

  /** read() or popFront() under way with a value held takes out exactly the oldest value, by as
      many steps as it has left, whatever the producer does in between. */
  lemma {:induction false} TakeCompletes<T>(s: State<T>, steps: seq<Step<T>>)
    requires Inv(s) && ValidRun(s, steps) && NoConsumerCalls(steps)
    requires TakesLeft(s.consumer) > 0 && Held(s) > 0 && Count(steps, Consume) == TakesLeft(s.consumer)
    ensures |s.removed| < |s.written|
    ensures Final(s, steps).removed == s.removed + [s.written[|s.removed|]] && Final(s, steps).consumer.Resting?
    decreases |steps|
  {
    hide Inv, Enabled, Apply, TakesLeft;
    var s' := Apply(s, steps[0]);
    StepKeepsInv(s, steps[0]);
    TakeStep(s, steps[0]);
    if TakesLeft(s'.consumer) > 0 {
      TakeCompletes(s', steps[1..]);
    } else {
      RestStays(s', steps[1..]);
    }
  }

  /** A read() called while a value is held returns true and the oldest value, in five steps. */
  lemma ReadCompletes<T>(s: State<T>, before: seq<Step<T>>, steps: seq<Step<T>>)
    requires Init(s) && ValidRun(s, before)
    requires Held(Final(s, before)) > 0 && Enabled(Final(s, before), CallConsumer(Read))
    requires ValidRun(Apply(Final(s, before), CallConsumer(Read)), steps)
    requires NoConsumerCalls(steps) && Count(steps, Consume) == 5
    ensures var f := Final(s, before);
            var g := Final(Apply(f, CallConsumer(Read)), steps);
            |f.removed| < |f.written| && g.removed == f.removed + [f.written[|f.removed|]] && g.consumer.Resting?
  {
    hide Inv, ValidRun, Final;
    InitInv(s);
    RunKeepsInv(s, before);
    StepKeepsInv(Final(s, before), CallConsumer(Read));
    TakeCompletes(Apply(Final(s, before), CallConsumer(Read)), steps);
  }

  lemma PutStep<T>(s: State<T>, step: Step<T>)
    requires Inv(s) && Enabled(s, step) && !step.CallWrite? && !step.ProducerAsks?
    requires PutsLeft(s.producer) > 0 && Held(s) < s.size - 1
    ensures var s' := Apply(s, step);
            && PutsLeft(s'.producer) == PutsLeft(s.producer) - (if step == Produce then 1 else 0)
            && (PutsLeft(s'.producer) > 0 ==>
                  s'.written == s.written && Held(s') < s'.size - 1 && s'.producer.value == s.producer.value)
            && (PutsLeft(s'.producer) == 0 ==>
                  s'.written == s.written + [s.producer.value] && s'.producer.Resting?)
  {
    hide At, GoodSlots, GoodConsumer;
    StepKeepsInv(s, step);
    if s.producer.LoadTheirs? {
      AtApart(|s.removed|, |s.written|, s.size);
    }
  }

  lemma {:induction false} ProducerStays<T>(s: State<T>, steps: seq<Step<T>>)
    requires ValidRun(s, steps) && s.producer.Resting? && NoProducerCalls(steps)
    ensures Final(s, steps).written == s.written && Final(s, steps).producer.Resting?
    decreases |steps|
  {
    if steps != [] {
      ProducerStays(Apply(s, steps[0]), steps[1..]);
    }
  }

  lemma {:induction false} PutCompletes<T>(s: State<T>, steps: seq<Step<T>>)
    requires Inv(s) && ValidRun(s, steps) && NoProducerCalls(steps)
    requires PutsLeft(s.producer) > 0 && Held(s) < s.size - 1 && Count(steps, Produce) == PutsLeft(s.producer)
    ensures Final(s, steps).written == s.written + [s.producer.value] && Final(s, steps).producer.Resting?
    decreases |steps|
  {
    hide Inv, Enabled, Apply, PutsLeft;
    var s' := Apply(s, steps[0]);
    StepKeepsInv(s, steps[0]);
    PutStep(s, steps[0]);
    if PutsLeft(s'.producer) > 0 {
      PutCompletes(s', steps[1..]);
    } else {
      ProducerStays(s', steps[1..]);
    }
  }

  /** A write(value) called while the queue is not full appends the value, in four steps. */
  lemma WriteCompletes<T>(s: State<T>, before: seq<Step<T>>, value: T, steps: seq<Step<T>>)
    requires Init(s) && ValidRun(s, before)
    requires Held(Final(s, before)) < Final(s, before).size - 1 && Enabled(Final(s, before), CallWrite(value))
    requires ValidRun(Apply(Final(s, before), CallWrite(value)), steps)
    requires NoProducerCalls(steps) && Count(steps, Produce) == 4
    ensures var f := Final(s, before);
            var g := Final(Apply(f, CallWrite(value)), steps);
            g.written == f.written + [value] && g.producer.Resting?
  {
    hide Inv, ValidRun, Final;
    InitInv(s);
    RunKeepsInv(s, before);
    StepKeepsInv(Final(s, before), CallWrite(value));
    PutCompletes(Apply(Final(s, before), CallWrite(value)), steps);
  }

  /** Asked by the consumer, isEmpty() is exact at its second load and the other queries err on
      the low side: the true size may be more. */
  lemma ConsumerAnswers<T>(s: State<T>, steps: seq<Step<T>>)
    requires Init(s) && ValidRun(s, steps) && Final(s, steps).consumer.Asked?
    ensures var f := Final(s, steps);
            var a := Reply(f, f.consumer.query, f.consumer.index);
            && (f.consumer.query == IsEmpty ==> a == Flag(Held(f) == 0))
            && (f.consumer.query == IsFull && a == Flag(true) ==> Held(f) == f.size - 1)
            && (f.consumer.query == SizeGuess ==> a.Size? && a.n <= Held(f))
  {
    hide At;
    InitInv(s);
    RunKeepsInv(s, steps);
    var f := Final(s, steps);
    AtApart(|f.removed|, |f.written|, f.size);
    AtApart(|f.removed|, f.consumer.mark, f.size);
  }

  /** Asked by the producer, isFull() and sizeGuess() are exact at their second load, and
      isEmpty() errs on the high side: the true size may be less. */
  lemma ProducerAnswers<T>(s: State<T>, steps: seq<Step<T>>)
    requires Init(s) && ValidRun(s, steps) && Final(s, steps).producer.Asked?
    ensures var f := Final(s, steps);
            var a := Reply(f, f.producer.query, f.producer.index);
            && (f.producer.query == IsEmpty && a == Flag(true) ==> Held(f) == 0)
            && (f.producer.query == IsFull ==> a == Flag(Held(f) == f.size - 1))
            && (f.producer.query == SizeGuess ==> a == Size(Held(f)))
  {
    hide At;
    InitInv(s);
    RunKeepsInv(s, steps);
    var f := Final(s, steps);
    AtApart(|f.removed|, |f.written|, f.size);
    AtApart(f.producer.mark, |f.written|, f.size);
  }

  /** The destructor, with both threads at rest: every value still held is destroyed, once, and
      no slot is left occupied. */
  method DestroyAll<T>(s: State<T>) returns (slots: seq<Slot<T>>, destroyed: seq<T>)
    requires Inv(s) && s.producer.Resting? && s.consumer.Resting?
    ensures destroyed == s.written[|s.removed|..]
    ensures |slots| == s.size && forall i :: 0 <= i < s.size ==> slots[i] == Raw
  {
    hide At;
    var read, end := s.readIndex, s.writeIndex;
    slots, destroyed := s.slots, [];
    ghost var k: nat := |s.removed|;
    AtApart(k, |s.written|, s.size);
    while read != end
      invariant |s.removed| <= k <= |s.written| && |slots| == s.size
      invariant read == At(k, s.size) && (read == end <==> k == |s.written|)
      invariant destroyed == s.written[|s.removed|..k]
      invariant forall j :: |s.removed| <= j < |s.removed| + s.size ==>
        slots[At(j, s.size)] == if j < k then Raw else Expected(s, j)
      decreases |s.written| - k
    {
      assert slots[At(k, s.size)] == Live(s.written[k]);
      destroyed := destroyed + [slots[read].value];
      forall j | |s.removed| <= j < |s.removed| + s.size ensures At(j, s.size) == At(k, s.size) <==> j == k {
        if j < k { AtApart(j, k, s.size); } else { AtApart(k, j, s.size); }
      }
      slots := slots[read := Raw];
      AtNext(k, s.size);
      read := Next(read, s.size);
      k := k + 1;
      AtApart(k, |s.written|, s.size);
    }
    forall i | 0 <= i < s.size ensures slots[i] == Raw {
      var j := AtCovers(|s.removed|, i, s.size);
    }
  }
}
