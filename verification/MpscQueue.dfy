/** cooper/util/LockFreeQueue: the multi-producer single-consumer linked queue, one atomic
    operation per step, over a heap whose addresses may be reused once freed. */
module MpscQueues {
  import opened Options
  import S = Sequences

  type Addr = nat
  type Tid = nat

  datatype Payload<+T> = Uninitialised | Live(value: T) | Deleted

  datatype Node<+T> = Node(data: Payload<T>, next: Option<Addr>)

  /** Where a thread is in enqueue: it has built its node, or it has swapped the head and
      still has to link the previous node to its own (`place` numbers the exchange). */
  datatype Producer = Idle | Allocated(node: Addr) | Exchanged(node: Addr, prev: Addr, place: nat)

  /** Where the consumer is in dequeue. */
  datatype Consumer = Ready | Loaded(next: Addr) | Taken(next: Addr) | Advanced(retired: Addr)

  /** `chain` and the fields after it are history: the nodes from the tail to the head in
      exchange order, the value and the thread of every head exchange that has happened,
      and every value dequeued; `place` numbers the nodes of the chain, and `builder` says
      which thread is building a node. */
  datatype Queue<T> = Queue(
    heap: map<Addr, Node<T>>, head: Addr, tail: Addr,
    producers: map<Tid, Producer>, consumer: Consumer,
    chain: seq<Addr>, order: seq<T>, who: seq<Tid>, out: seq<T>,
    place: map<Addr, nat>, builder: map<Addr, Tid>)
  {
    function At(t: Tid): Producer { if t in producers then producers[t] else Idle }

    /** How many exchanges lie at or before the tail. */
    function Base(): int { |order| + 1 - |chain| }
  }

  datatype Step<T> =
    | Alloc(t: Tid, value: T, node: Addr)
    | Exchange(t: Tid)
    | Link(t: Tid)
    | LoadNext
    | Take
    | Advance
    | Free

  datatype Outcome<T> = Fault | Blocked | Done(q: Queue<T>)

  function Init<T>(): Queue<T> {
    Queue(map[0 := Node(Uninitialised, None)], 0, 0, map[], Ready, [0], [], [], [], map[0 := 0], map[])
  }

  // enqueue: build the node; swap the head; link the previous node.

  function DoAlloc<T>(q: Queue<T>, t: Tid, v: T, a: Addr): Queue<T> {
    q.(heap := q.heap[a := Node(Live(v), None)], producers := q.producers[t := Allocated(a)],
       builder := q.builder[a := t])
  }

  function DoExchange<T>(q: Queue<T>, t: Tid): Queue<T>
    requires q.At(t).Allocated? && q.At(t).node in q.heap && q.heap[q.At(t).node].data.Live?
  {
    var node := q.At(t).node;
    q.(head := node, producers := q.producers[t := Exchanged(node, q.head, |q.order|)],
       chain := q.chain + [node], order := q.order + [q.heap[node].data.value], who := q.who + [t],
       place := q.place[node := |q.order| + 1], builder := q.builder - {node})
  }

  function DoLink<T>(q: Queue<T>, t: Tid): Queue<T>
    requires q.At(t).Exchanged? && q.At(t).prev in q.heap
  {
    var prev := q.At(t).prev;
    q.(heap := q.heap[prev := q.heap[prev].(next := Some(q.At(t).node))], producers := q.producers[t := Idle])
  }

  // dequeue: load the tail's next; move the value out; store the tail; delete the old tail.

  function DoLoad<T>(q: Queue<T>): Queue<T>
    requires q.tail in q.heap
  {
    if q.heap[q.tail].next.None? then q  // dequeue returns false
    else q.(consumer := Loaded(q.heap[q.tail].next.value))
  }

  function DoTake<T>(q: Queue<T>): Queue<T>
    requires q.consumer.Loaded? && q.consumer.next in q.heap && q.heap[q.consumer.next].data.Live?
  {
    var next := q.consumer.next;
    q.(heap := q.heap[next := q.heap[next].(data := Deleted)], consumer := Taken(next),
       out := q.out + [q.heap[next].data.value])
  }

  function DoAdvance<T>(q: Queue<T>): Queue<T>
    requires q.consumer.Taken?
  {
    q.(tail := q.consumer.next, consumer := Advanced(q.tail),
       chain := if q.chain == [] then [] else q.chain[1..], place := q.place - {q.tail})
  }

  function DoFree<T>(q: Queue<T>): Queue<T>
    requires q.consumer.Advanced?
  {
    q.(heap := q.heap - {q.consumer.retired}, consumer := Ready)
  }

  /** One atomic step. `Fault` is an access to memory that is not allocated (or to a payload
      that is not there); `Blocked` means that the thread is not at that step. */
  function Apply<T>(q: Queue<T>, s: Step<T>): Outcome<T> {
    match s {
      case Alloc(t, v, a) =>
        if !q.At(t).Idle? || a in q.heap then Blocked else Done(DoAlloc(q, t, v, a))
      case Exchange(t) =>
        if !q.At(t).Allocated? then Blocked
        else if q.At(t).node !in q.heap || !q.heap[q.At(t).node].data.Live? then Fault
        else Done(DoExchange(q, t))
      case Link(t) =>
        if !q.At(t).Exchanged? then Blocked
        else if q.At(t).prev !in q.heap then Fault
        else Done(DoLink(q, t))
      case LoadNext =>
        if !q.consumer.Ready? then Blocked
        else if q.tail !in q.heap then Fault
        else Done(DoLoad(q))
      case Take =>
        if !q.consumer.Loaded? then Blocked
        else if q.consumer.next !in q.heap || !q.heap[q.consumer.next].data.Live? then Fault
        else Done(DoTake(q))
      case Advance =>
        if !q.consumer.Taken? then Blocked else Done(DoAdvance(q))
      case Free =>
        if !q.consumer.Advanced? then Blocked
        else if q.consumer.retired !in q.heap then Fault
        else Done(DoFree(q))
    }
  }

  /** An interleaving: steps that are not enabled are not taken. */
  function Run<T>(q: Queue<T>, steps: seq<Step<T>>): Outcome<T>
    decreases |steps|
  {
    if steps == [] then Done(q)
    else
      match Apply(q, steps[0])
      case Fault => Fault
      case Blocked => Run(q, steps[1..])
      case Done(q') => Run(q', steps[1..])
  }

  ghost predicate Shape<T>(q: Queue<T>) {
    && |q.chain| >= 1 && q.chain[0] == q.tail && q.chain[|q.chain| - 1] == q.head
    && q.Base() >= 0 && |q.who| == |q.order|
    && |q.out| == q.Base() + (if q.consumer.Taken? then 1 else 0) <= |q.order|
    && q.out == q.order[..|q.out|]
  }

  /** The k-th node from the tail is allocated, carries the value of its exchange unless that
      has been taken, and is linked to the next node unless the thread that exchanged the
      next node has still to do so. */
  ghost predicate NodeAt<T>(q: Queue<T>, k: int)
    requires Shape(q) && 0 <= k < |q.chain|
  {
    var a := q.chain[k];
    && a in q.heap && a in q.place && q.place[a] == q.Base() + k
    && (k >= 1 ==> q.heap[a].data ==
                   if q.consumer.Taken? && k == 1 then Deleted else Live(q.order[q.Base() + k - 1]))
    && (if k == |q.chain| - 1 then q.heap[a].next == None
        else || q.heap[a].next == Some(q.chain[k + 1])
             || (q.heap[a].next == None
                 && q.At(q.who[q.Base() + k]) == Exchanged(q.chain[k + 1], a, q.Base() + k)))
  }

  ghost predicate PlaceOk<T>(q: Queue<T>, a: Addr)
    requires a in q.place
  {
    0 <= q.place[a] - q.Base() < |q.chain| && q.chain[q.place[a] - q.Base()] == a
  }

  /** The node that a producer has to link from is still in the chain, with no link yet. */
  ghost predicate ProducerOk<T>(q: Queue<T>, t: Tid) {
    match q.At(t)
    case Idle => true
    case Allocated(node) => node in q.builder && q.builder[node] == t
    case Exchanged(node, prev, place) =>
      var k := place - q.Base();
      && 0 <= k < |q.chain| - 1 && place < |q.who| && q.who[place] == t
      && q.chain[k] == prev && q.chain[k + 1] == node
      && prev in q.heap && q.heap[prev].next == None
  }

  /** A node under construction is private to its thread. */
  ghost predicate BuilderOk<T>(q: Queue<T>, a: Addr)
    requires a in q.builder
  {
    && q.At(q.builder[a]) == Allocated(a)
    && a in q.heap && a !in q.place && q.heap[a].data.Live? && q.heap[a].next == None
    && q.consumer != Advanced(a)
  }

  ghost predicate ConsumerOk<T>(q: Queue<T>) {
    match q.consumer
    case Ready => true
    case Loaded(next) => FirstLinked(q, next)
    case Taken(next) => FirstLinked(q, next)
    case Advanced(retired) => retired in q.heap && retired !in q.place
  }

  ghost predicate FirstLinked<T>(q: Queue<T>, next: Addr) {
    |q.chain| >= 2 && next == q.chain[1] && q.tail in q.heap && q.heap[q.tail].next == Some(next)
  }

  /** No leak: everything allocated is in the chain, being built, or about to be freed. */
  ghost predicate Owned<T>(q: Queue<T>, a: Addr) {
    a in q.place || a in q.builder || q.consumer == Advanced(a)
  }

  ghost predicate ChainInv<T>(q: Queue<T>) {
    && Shape(q) && ConsumerOk(q)
    && (forall k :: 0 <= k < |q.chain| ==> NodeAt(q, k))
    && (forall a :: a in q.place ==> PlaceOk(q, a))
  }

  ghost predicate OwnerInv<T>(q: Queue<T>) {
    && (forall t :: ProducerOk(q, t))
    && (forall a :: a in q.builder ==> BuilderOk(q, a))
    && (forall a :: a in q.heap ==> Owned(q, a))
  }

  ghost predicate Inv<T>(q: Queue<T>) {
    ChainInv(q) && OwnerInv(q)
  }

  /** Every step of every thread keeps the invariant and touches only live memory. */
  lemma StepKeepsInv<T>(q: Queue<T>, s: Step<T>)
    requires Inv(q)
    ensures !Apply(q, s).Fault?
    ensures Apply(q, s).Done? ==> Inv(Apply(q, s).q)
  {
    NoFault(q, s);
    if Apply(q, s).Done? {
      match s {
        case Alloc(t, v, a) => AllocKeepsChain(q, t, v, a); AllocKeepsOwners(q, t, v, a);
        case Exchange(t) => ExchangeKeepsChain(q, t); ExchangeKeepsOwners(q, t);
        case Link(t) => LinkKeepsChain(q, t); LinkKeepsOwners(q, t);
        case LoadNext => LoadKeepsChain(q); LoadKeepsOwners(q);
        case Take => TakeKeepsChain(q); TakeKeepsOwners(q);
        case Advance => AdvanceKeepsChain(q); AdvanceKeepsOwners(q);
        case Free => FreeKeepsChain(q); FreeKeepsOwners(q);
      }
    }
  }

  lemma NoFault<T>(q: Queue<T>, s: Step<T>)
    requires Inv(q)
    ensures !Apply(q, s).Fault?
  {
    if s.Exchange? || s.Link? {
      assert ProducerOk(q, s.t);
      if q.At(s.t).Allocated? { assert BuilderOk(q, q.At(s.t).node); }
    }
    assert NodeAt(q, 0);
    if |q.chain| > 1 { assert NodeAt(q, 1); }
  }

  lemma PlacedIsAllocated<T>(q: Queue<T>, a: Addr)
    requires Inv(q) && a in q.place
    ensures a in q.heap
  {
    assert PlaceOk(q, a);
    assert NodeAt(q, q.place[a] - q.Base());
  }

  /** A thread's previous node is in the chain, at the place of its exchange. */
  lemma PrevIsPlaced<T>(q: Queue<T>, t: Tid)
    requires Inv(q) && q.At(t).Exchanged?
    ensures ProducerOk(q, t)
    ensures var Exchanged(node, prev, place) := q.At(t);
            && NodeAt(q, place - q.Base()) && prev in q.place && q.place[prev] == place
  {
    assert ProducerOk(q, t);
    assert NodeAt(q, q.At(t).place - q.Base());
  }

  lemma AllocKeepsNode<T>(q: Queue<T>, t: Tid, v: T, a: Addr, k: nat)
    requires Inv(q) && q.At(t).Idle? && a !in q.heap && k < |q.chain|
    ensures Shape(DoAlloc(q, t, v, a)) && NodeAt(DoAlloc(q, t, v, a), k)
  {
    assert NodeAt(q, k);
  }

  lemma AllocKeepsChain<T>(q: Queue<T>, t: Tid, v: T, a: Addr)
    requires Inv(q) && q.At(t).Idle? && a !in q.heap
    ensures ChainInv(DoAlloc(q, t, v, a))
  {
    var q' := DoAlloc(q, t, v, a);
    forall k | 0 <= k < |q'.chain| ensures NodeAt(q', k) { AllocKeepsNode(q, t, v, a, k); }
    forall x | x in q'.place ensures PlaceOk(q', x) { assert PlaceOk(q, x); }
  }

  lemma AllocKeepsOwners<T>(q: Queue<T>, t: Tid, v: T, a: Addr)
    requires Inv(q) && q.At(t).Idle? && a !in q.heap
    ensures OwnerInv(DoAlloc(q, t, v, a))
  {
    var q' := DoAlloc(q, t, v, a);
    if a in q.place { PlacedIsAllocated(q, a); }
    forall u ensures ProducerOk(q', u) { assert ProducerOk(q, u); }
    forall x | x in q'.builder ensures BuilderOk(q', x) { if x != a { assert BuilderOk(q, x); } }
    forall x | x in q'.heap ensures Owned(q', x) { if x != a { assert Owned(q, x); } }
  }

  /** The nodes already in the chain: the old last one now waits for its link. */
  lemma ExchangeKeepsNode<T>(q: Queue<T>, t: Tid, k: nat)
    requires Inv(q) && q.At(t).Allocated? && q.At(t).node in q.heap && q.heap[q.At(t).node].data.Live?
    requires k < |q.chain|
    ensures Shape(DoExchange(q, t)) && NodeAt(DoExchange(q, t), k)
  {
    assert ProducerOk(q, t) && BuilderOk(q, q.At(t).node) && NodeAt(q, k);
  }

  /** The node that has just become the last one. */
  lemma ExchangeAddsNode<T>(q: Queue<T>, t: Tid)
    requires Inv(q) && q.At(t).Allocated? && q.At(t).node in q.heap && q.heap[q.At(t).node].data.Live?
    ensures Shape(DoExchange(q, t)) && NodeAt(DoExchange(q, t), |q.chain|)
  {
    assert ProducerOk(q, t) && BuilderOk(q, q.At(t).node);
  }

  lemma ExchangeKeepsChain<T>(q: Queue<T>, t: Tid)
    requires Inv(q) && q.At(t).Allocated? && q.At(t).node in q.heap && q.heap[q.At(t).node].data.Live?
    ensures ChainInv(DoExchange(q, t))
  {
    var q' := DoExchange(q, t);
    assert ProducerOk(q, t) && BuilderOk(q, q.At(t).node);
    ExchangeAddsNode(q, t);
    forall k | 0 <= k < |q'.chain| ensures NodeAt(q', k) {
      if k < |q.chain| { ExchangeKeepsNode(q, t, k); }
    }
    forall x | x in q'.place ensures PlaceOk(q', x) {
      if x != q.At(t).node { assert PlaceOk(q, x); }
    }
  }

  lemma ExchangeKeepsOwners<T>(q: Queue<T>, t: Tid)
    requires Inv(q) && q.At(t).Allocated? && q.At(t).node in q.heap && q.heap[q.At(t).node].data.Live?
    ensures OwnerInv(DoExchange(q, t))
  {
    var q' := DoExchange(q, t);
    assert ProducerOk(q, t) && BuilderOk(q, q.At(t).node) && NodeAt(q, |q.chain| - 1);
    forall u ensures ProducerOk(q', u) { assert ProducerOk(q, u); }
    forall x | x in q'.builder ensures BuilderOk(q', x) { assert BuilderOk(q, x); }
    forall x | x in q'.heap ensures Owned(q', x) { assert Owned(q, x); }
  }

  lemma LinkKeepsNode<T>(q: Queue<T>, t: Tid, k: nat)
    requires Inv(q) && q.At(t).Exchanged? && q.At(t).prev in q.heap && k < |q.chain|
    ensures Shape(DoLink(q, t)) && NodeAt(DoLink(q, t), k)
  {
    PrevIsPlaced(q, t);
    assert NodeAt(q, k);
  }

  lemma LinkKeepsProducer<T>(q: Queue<T>, t: Tid, u: Tid)
    requires Inv(q) && q.At(t).Exchanged? && q.At(t).prev in q.heap
    ensures ProducerOk(DoLink(q, t), u)
  {
    PrevIsPlaced(q, t);
    assert ProducerOk(q, u);
    if q.At(u).Exchanged? { PrevIsPlaced(q, u); }
  }

  lemma LinkKeepsChain<T>(q: Queue<T>, t: Tid)
    requires Inv(q) && q.At(t).Exchanged? && q.At(t).prev in q.heap
    ensures ChainInv(DoLink(q, t))
  {
    var q' := DoLink(q, t);
    PrevIsPlaced(q, t);
    forall k | 0 <= k < |q'.chain| ensures NodeAt(q', k) { LinkKeepsNode(q, t, k); }
    forall x | x in q'.place ensures PlaceOk(q', x) { assert PlaceOk(q, x); }
  }

  lemma LinkKeepsOwners<T>(q: Queue<T>, t: Tid)
    requires Inv(q) && q.At(t).Exchanged? && q.At(t).prev in q.heap
    ensures OwnerInv(DoLink(q, t))
  {
    var q' := DoLink(q, t);
    forall u ensures ProducerOk(q', u) { LinkKeepsProducer(q, t, u); }
    PrevIsPlaced(q, t);
    forall x | x in q'.builder ensures BuilderOk(q', x) { assert BuilderOk(q, x); }
    forall x | x in q'.heap ensures Owned(q', x) { assert Owned(q, x); }
  }

  lemma LoadKeepsChain<T>(q: Queue<T>)
    requires Inv(q) && q.consumer.Ready? && q.tail in q.heap
    ensures ChainInv(DoLoad(q))
  {
    var q' := DoLoad(q);
    if q' != q {
      assert NodeAt(q, 0);
      forall k | 0 <= k < |q'.chain| ensures NodeAt(q', k) { assert NodeAt(q, k); }
      forall x | x in q'.place ensures PlaceOk(q', x) { assert PlaceOk(q, x); }
    }
  }

  lemma LoadKeepsOwners<T>(q: Queue<T>)
    requires Inv(q) && q.consumer.Ready? && q.tail in q.heap
    ensures OwnerInv(DoLoad(q))
  {
    var q' := DoLoad(q);
    forall u ensures ProducerOk(q', u) { assert ProducerOk(q, u); }
    forall x | x in q'.builder ensures BuilderOk(q', x) { assert BuilderOk(q, x); }
    forall x | x in q'.heap ensures Owned(q', x) { assert Owned(q, x); }
  }

  lemma TakeKeepsChain<T>(q: Queue<T>)
    requires Inv(q) && q.consumer.Loaded? && q.consumer.next in q.heap && q.heap[q.consumer.next].data.Live?
    ensures ChainInv(DoTake(q))
  {
    var q' := DoTake(q);
    assert NodeAt(q, 1);
    forall k | 0 <= k < |q'.chain| ensures NodeAt(q', k) { assert NodeAt(q, k); }
    forall x | x in q'.place ensures PlaceOk(q', x) { assert PlaceOk(q, x); }
  }

  lemma TakeKeepsOwners<T>(q: Queue<T>)
    requires Inv(q) && q.consumer.Loaded? && q.consumer.next in q.heap && q.heap[q.consumer.next].data.Live?
    ensures OwnerInv(DoTake(q))
  {
    var q' := DoTake(q);
    assert NodeAt(q, 1);
    forall u ensures ProducerOk(q', u) { assert ProducerOk(q, u); }
    forall x | x in q'.builder ensures BuilderOk(q', x) { assert BuilderOk(q, x); }
    forall x | x in q'.heap ensures Owned(q', x) { assert Owned(q, x); }
  }

  /** The chain without its old tail: every node moves one place towards it. */
  lemma AdvanceKeepsNode<T>(q: Queue<T>, k: nat)
    requires Inv(q) && q.consumer.Taken? && k + 1 < |q.chain|
    ensures Shape(DoAdvance(q)) && NodeAt(DoAdvance(q), k)
  {
    assert NodeAt(q, 0) && NodeAt(q, k + 1);
  }

  lemma AdvanceKeepsChain<T>(q: Queue<T>)
    requires Inv(q) && q.consumer.Taken?
    ensures ChainInv(DoAdvance(q))
  {
    var q' := DoAdvance(q);
    assert NodeAt(q, 0);
    forall k | 0 <= k < |q'.chain| ensures NodeAt(q', k) { AdvanceKeepsNode(q, k); }
    forall x | x in q'.place ensures PlaceOk(q', x) { assert PlaceOk(q, x); }
  }

  lemma AdvanceKeepsOwners<T>(q: Queue<T>)
    requires Inv(q) && q.consumer.Taken?
    ensures OwnerInv(DoAdvance(q))
  {
    var q' := DoAdvance(q);
    assert NodeAt(q, 0);
    forall u ensures ProducerOk(q', u) { assert ProducerOk(q, u); }
    forall x | x in q'.builder ensures BuilderOk(q', x) { assert BuilderOk(q, x); }
    forall x | x in q'.heap ensures Owned(q', x) { assert Owned(q, x); }
  }

  lemma FreeKeepsChain<T>(q: Queue<T>)
    requires Inv(q) && q.consumer.Advanced?
    ensures ChainInv(DoFree(q))
  {
    var q' := DoFree(q);
    forall k | 0 <= k < |q'.chain| ensures NodeAt(q', k) { assert NodeAt(q, k); }
    forall x | x in q'.place ensures PlaceOk(q', x) { assert PlaceOk(q, x); }
  }

  lemma FreeKeepsOwners<T>(q: Queue<T>)
    requires Inv(q) && q.consumer.Advanced?
    ensures OwnerInv(DoFree(q))
  {
    var q' := DoFree(q);
    forall u ensures ProducerOk(q', u) { assert ProducerOk(q, u); if q.At(u).Exchanged? { PrevIsPlaced(q, u); } }
    forall x | x in q'.builder ensures BuilderOk(q', x) { assert BuilderOk(q, x); }
    forall x | x in q'.heap ensures Owned(q', x) { assert Owned(q, x); }
  }

  lemma InitInv<T>()
    ensures Inv(Init<T>())
  {}

  lemma StepExtendsHistory<T>(q: Queue<T>, s: Step<T>)
    requires Apply(q, s).Done?
    ensures q.order <= Apply(q, s).q.order && q.out <= Apply(q, s).q.out
  {}

  /** Under every interleaving no freed or missing memory is touched, what the consumer has
      taken is a prefix of the exchange order, and nothing is leaked. */
  lemma {:induction false} RunIsSafe<T>(q: Queue<T>, steps: seq<Step<T>>)
    requires Inv(q)
    ensures Run(q, steps).Done? && Inv(Run(q, steps).q)
    ensures Run(q, steps).q.out <= Run(q, steps).q.order
    ensures q.order <= Run(q, steps).q.order && q.out <= Run(q, steps).q.out
    decreases |steps|
  {
    if steps != [] {
      StepKeepsInv(q, steps[0]);
      var next := Apply(q, steps[0]);
      if next.Done? { StepExtendsHistory(q, steps[0]); }
      RunIsSafe(if next.Done? then next.q else q, steps[1..]);
    }
  }

  /** The values given to enqueue, in the order of the head exchanges, as the steps of a run say
      it: `given` holds the latest value of each thread, and its exchange sends it. Steps that
      are not enabled do not happen. */
  function Sent<T>(q: Queue<T>, steps: seq<Step<T>>, given: map<Tid, T>): seq<T>
    decreases |steps|
  {
    if steps == [] then []
    else
      match Apply(q, steps[0])
      case Done(q') => SentBy(steps[0], given) + Sent(q', steps[1..], GivenAfter(steps[0], given))
      case _ => Sent(q, steps[1..], given)
  }

  function GivenAfter<T>(s: Step<T>, given: map<Tid, T>): map<Tid, T> {
    if s.Alloc? then given[s.t := s.value] else given
  }

  function SentBy<T>(s: Step<T>, given: map<Tid, T>): seq<T> {
    if s.Exchange? && s.t in given then [given[s.t]] else []
  }

  /** A thread's node holds the value it was given. */
  ghost predicate HoldsGiven<T>(q: Queue<T>, given: map<Tid, T>) {
    forall t :: q.At(t).Allocated? ==> HoldsGivenOf(q, given, t)
  }

  ghost predicate HoldsGivenOf<T>(q: Queue<T>, given: map<Tid, T>, t: Tid)
    requires q.At(t).Allocated?
  {
    t in given && q.At(t).node in q.heap && q.heap[q.At(t).node].data == Live(given[t])
  }

  lemma StepSendsGiven<T>(q: Queue<T>, s: Step<T>, given: map<Tid, T>)
    requires Inv(q) && HoldsGiven(q, given) && Apply(q, s).Done?
    ensures HoldsGiven(Apply(q, s).q, GivenAfter(s, given))
    ensures Apply(q, s).q.order == q.order + SentBy(s, given)
  {
    var q', given' := Apply(q, s).q, GivenAfter(s, given);
    if s.Exchange? { assert HoldsGivenOf(q, given, s.t); }
    forall t | q'.At(t).Allocated? ensures HoldsGivenOf(q', given', t) {
      if !(s.Alloc? && s.t == t) {
        assert HoldsGivenOf(q, given, t);
        NodeStaysPrivate(q, s, t);
      }
    }
  }

  /** No step touches a node that another thread is building. */
  lemma NodeStaysPrivate<T>(q: Queue<T>, s: Step<T>, t: Tid)
    requires Inv(q) && Apply(q, s).Done? && q.At(t).Allocated? && Apply(q, s).q.At(t).Allocated?
    requires !(s.Alloc? && s.t == t)
    ensures var q' := Apply(q, s).q;
            && q'.At(t) == q.At(t) && q.At(t).node in q.heap && q.At(t).node in q'.heap
            && q'.heap[q.At(t).node] == q.heap[q.At(t).node]
  {
    assert ProducerOk(q, t) && BuilderOk(q, q.At(t).node);
    if s.Link? { PrevIsPlaced(q, s.t); }
    if s.Take? { assert NodeAt(q, 1); }
  }

  /** Over every run: what the queue holds and has handed out are the values given to enqueue,
      in the order of the head exchanges. */
  lemma {:induction false} OrderIsWhatWasSent<T>(q: Queue<T>, steps: seq<Step<T>>, given: map<Tid, T>)
    requires Inv(q) && HoldsGiven(q, given)
    ensures Run(q, steps).Done? && Run(q, steps).q.order == q.order + Sent(q, steps, given)
    decreases |steps|
  {
    if steps != [] {
      StepKeepsInv(q, steps[0]);
      match Apply(q, steps[0]) {
        case Done(next) =>
          StepSendsGiven(q, steps[0], given);
          OrderIsWhatWasSent(next, steps[1..], GivenAfter(steps[0], given));
          S.Associative(q.order, SentBy(steps[0], given), Sent(next, steps[1..], GivenAfter(steps[0], given)));
        case Blocked => OrderIsWhatWasSent(q, steps[1..], given);
        case Fault =>
      }
    }
  }

  /** So dequeue hands out what was enqueued, oldest first. */
  lemma DequeuedWasSent<T>(steps: seq<Step<T>>)
    ensures Run<T>(Init(), steps).Done?
    ensures Run<T>(Init(), steps).q.out <= Sent<T>(Init(), steps, map[])
  {
    InitInv<T>();
    RunIsSafe(Init<T>(), steps);
    OrderIsWhatWasSent(Init<T>(), steps, map[]);
  }

  lemma AllocHoldsValue<T>(q: Queue<T>, t: Tid, v: T, a: Addr)
    requires Inv(q) && q.At(t).Idle? && a !in q.heap
    ensures var r := Apply(q, Alloc(t, v, a));
            && r.Done? && Inv(r.q) && r.q.At(t) == Allocated(a)
            && a in r.q.heap && r.q.heap[a].data == Live(v)
            && r.q.order == q.order && r.q.out == q.out
            && forall u :: u != t ==> r.q.At(u) == q.At(u)
  {
    StepKeepsInv(q, Alloc(t, v, a));
  }

  lemma ExchangeAppendsValue<T>(q: Queue<T>, t: Tid)
    requires Inv(q) && q.At(t).Allocated?
    ensures q.At(t).node in q.heap && q.heap[q.At(t).node].data.Live?
    ensures var r := Apply(q, Exchange(t));
            && r.Done? && Inv(r.q) && r.q.At(t).Exchanged?
            && r.q.order == q.order + [q.heap[q.At(t).node].data.value] && r.q.out == q.out
            && forall u :: u != t ==> r.q.At(u) == q.At(u)
  {
    StepKeepsInv(q, Exchange(t));
    assert ProducerOk(q, t) && BuilderOk(q, q.At(t).node);
  }

  lemma LinkEndsEnqueue<T>(q: Queue<T>, t: Tid)
    requires Inv(q) && q.At(t).Exchanged?
    ensures var r := Apply(q, Link(t));
            && r.Done? && Inv(r.q) && r.q.At(t).Idle?
            && r.q.order == q.order && r.q.out == q.out
            && forall u :: u != t ==> r.q.At(u) == q.At(u)
  {
    StepKeepsInv(q, Link(t));
  }

  /** A thread that is not in enqueue can always carry one out, at any free address: its value
      goes to the end, and the thread is idle again. */
  lemma EnqueueAppends<T>(q: Queue<T>, t: Tid, v: T, a: Addr)
    requires Inv(q) && q.At(t).Idle? && a !in q.heap
    ensures Apply(q, Alloc(t, v, a)).Done?
    ensures var q1 := Apply(q, Alloc(t, v, a)).q;
            && Apply(q1, Exchange(t)).Done?
            && var q2 := Apply(q1, Exchange(t)).q;
            && Apply(q2, Link(t)).Done?
            && var q3 := Apply(q2, Link(t)).q;
            && q3.order == q.order + [v] && q3.out == q.out && q3.At(t).Idle?
            && forall u :: u != t ==> q3.At(u) == q.At(u)
  {
    AllocHoldsValue(q, t, v, a);
    var q1 := Apply(q, Alloc(t, v, a)).q;
    ExchangeAppendsValue(q1, t);
    LinkEndsEnqueue(Apply(q1, Exchange(t)).q, t);
  }

  /** dequeue (and empty) see nothing exactly when every exchanged value has been dequeued or
      the producer of the oldest remaining one has not stored its link yet. */
  lemma DequeueFailsIff<T>(q: Queue<T>)
    requires Inv(q) && q.consumer.Ready?
    ensures q.tail in q.heap
    ensures q.heap[q.tail].next.None? <==>
            || q.out == q.order
            || q.At(q.who[|q.out|]) == Exchanged(q.chain[1], q.tail, |q.out|)
  {
    assert NodeAt(q, 0);
    if |q.chain| >= 2 {
      assert ProducerOk(q, q.who[|q.out|]);
      assert |q.out| < |q.order|;
    }
  }

  /** A dequeue that sees a node returns the oldest value not yet dequeued. */
  lemma TakeReturnsOldest<T>(q: Queue<T>)
    requires Inv(q) && Apply(q, Take).Done?
    ensures |q.out| < |q.order| && Apply(q, Take).q.out == q.out + [q.order[|q.out|]]
  {
    assert NodeAt(q, 1);
  }

  /** One call of dequeue that no producer interrupts. */
  function Dequeue<T>(q: Queue<T>): (r: Outcome<T>) {
    var q1 := Apply(q, LoadNext);
    if !q1.Done? || !q1.q.consumer.Loaded? then q1
    else
      var q2 := Apply(q1.q, Take);
      if !q2.Done? then q2
      else
        var q3 := Apply(q2.q, Advance);
        if !q3.Done? then q3 else Apply(q3.q, Free)
  }

  lemma LoadSeesNext<T>(q: Queue<T>)
    requires Inv(q) && q.consumer.Ready?
    ensures q.tail in q.heap
    ensures var r := Apply(q, LoadNext);
            && r.Done? && Inv(r.q)
            && r.q == if q.heap[q.tail].next.None? then q else q.(consumer := Loaded(q.heap[q.tail].next.value))
  {
    StepKeepsInv(q, LoadNext);
    assert NodeAt(q, 0);
  }

  lemma TakeMovesValue<T>(q: Queue<T>)
    requires Inv(q) && q.consumer.Loaded?
    ensures |q.out| < |q.order|
    ensures var r := Apply(q, Take);
            && r.Done? && Inv(r.q) && r.q.consumer.Taken?
            && r.q.producers == q.producers && r.q.order == q.order && r.q.chain == q.chain
            && r.q.out == q.out + [q.order[|q.out|]]
  {
    StepKeepsInv(q, Take);
    TakeReturnsOldest(q);
  }

  lemma AdvanceDropsTail<T>(q: Queue<T>)
    requires Inv(q) && q.consumer.Taken?
    ensures var r := Apply(q, Advance);
            && r.Done? && Inv(r.q) && r.q.consumer.Advanced?
            && r.q.producers == q.producers && r.q.order == q.order && r.q.out == q.out
            && |r.q.chain| < |q.chain|
  {
    StepKeepsInv(q, Advance);
  }

  lemma FreeEndsDequeue<T>(q: Queue<T>)
    requires Inv(q) && q.consumer.Advanced?
    ensures var r := Apply(q, Free);
            && r.Done? && Inv(r.q) && r.q.consumer.Ready?
            && r.q.producers == q.producers && r.q.order == q.order && r.q.out == q.out && r.q.chain == q.chain
  {
    StepKeepsInv(q, Free);
  }

  lemma DequeueTakesOldest<T>(q: Queue<T>)
    requires Inv(q) && q.consumer.Ready?
    ensures q.tail in q.heap
    ensures var r := Dequeue(q);
            && r.Done? && Inv(r.q) && r.q.consumer.Ready?
            && r.q.producers == q.producers && r.q.order == q.order
            && (q.heap[q.tail].next.None? ==> r.q == q)
            && (q.heap[q.tail].next.Some? ==>
                  |q.out| < |q.order| && r.q.out == q.out + [q.order[|q.out|]] && |r.q.chain| < |q.chain|)
  {
    LoadSeesNext(q);
    if q.heap[q.tail].next.Some? {
      var q1 := Apply(q, LoadNext).q;
      TakeMovesValue(q1);
      var q2 := Apply(q1, Take).q;
      AdvanceDropsTail(q2);
      FreeEndsDequeue(Apply(q2, Advance).q);
    }
  }

  /** The destructor's loop: with no thread in enqueue, dequeuing until it fails takes every
      value, and deleting the node that is left frees the last of the memory. */
  method Destroy<T>(q0: Queue<T>) returns (q: Queue<T>, heap: map<Addr, Node<T>>)
    requires Inv(q0) && q0.consumer.Ready? && forall t :: q0.At(t).Idle?
    ensures Inv(q) && q.order == q0.order && q.out == q.order
    ensures heap == map[]
  {
    q := q0;
    DequeueFailsIff(q);
    while q.heap[q.tail].next.Some?
      invariant Inv(q) && q.consumer.Ready? && q.producers == q0.producers && q.order == q0.order
      invariant q.tail in q.heap
      decreases |q.chain|
    {
      DequeueTakesOldest(q);
      q := Dequeue(q).q;
      DequeueFailsIff(q);
    }
    assert forall t :: q.At(t) == q0.At(t);
    DequeueFailsIff(q);
    OnlyHeadIsLeft(q);
    heap := q.heap - {q.head};
  }

  lemma BuildersAreBusy<T>(q: Queue<T>)
    requires Inv(q)
    ensures forall a :: a in q.builder ==> q.At(q.builder[a]).Allocated?
  {
    forall a | a in q.builder ensures q.At(q.builder[a]).Allocated? { assert BuilderOk(q, a); }
  }

  lemma OnlyHeadIsLeft<T>(q: Queue<T>)
    requires Inv(q) && q.consumer.Ready? && q.out == q.order && forall t :: q.At(t).Idle?
    ensures forall a :: a in q.heap ==> a == q.head
  {
    forall a | a in q.heap ensures a == q.head {
      assert Owned(q, a);
      BuildersAreBusy(q);
      if a in q.place { assert PlaceOk(q, a); }
    }
  }
}
