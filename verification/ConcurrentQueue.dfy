// A queue with one consumer and any number of producers.  Producers add to one list and
// the consumer removes from another; when that is empty it swaps the two.  Elements are
// counted apart from the lists, and a flush state decides who wakes the consumer up.
// One step is one access to something shared; steps are interleaved in any order.
module ConcurrentQueue {
  import opened Counting

  datatype Flush = Pending | Auto | Explicit

  // What a producer does next.
  datatype Producer =
    | Ready
    | GotTail(list: nat, e: int)
    | WantsHead(e: int)
    | HasHead(e: int)
    | GotHead(list: nat, e: int)
    | Added
    | Counted(c: int)
    | SetPeek(c: int)
    | SetTry(c: int, assumed: Flush)
    | StatePeek(c: int)
    | SwapPeek(to: Flush)
    | SwapTry(to: Flush, assumed: Flush)
    | Reset
    | Notify

  datatype Why = CounterZero | HeadRefilled | TailEmpty

  // What the consumer does next.
  datatype Consumer =
    | Calling
    | WantsLock
    | CheckHead
    | SwapCheckHead
    | SwapCheckTail
    | SwapSetTail
    | SwapSetHead(list: nat)
    | Removing
    | Counting(e: int)
    | Returned(e: int)
    | NoEntry(why: Why)
    | WaitLock
    | WaitCheck
    | AboutToWait
    | Waiting
    | Failed

  datatype Owner = Nobody | TheConsumer | TheProducer(i: nat)

  // `added` is what producers have put into a list, `taken` what the consumer has taken out,
  // and `got` what it has come back with, in that order.
  datatype Machine = Machine(
    lists: seq<seq<int>>, tail: nat, head: nat, headLock: Owner, counter: int, flush: Flush, batch: nat,
    consumer: Consumer, producers: seq<Producer>, added: multiset<int>, taken: multiset<int>, got: seq<int>)
  {
    function To(i: nat, p: Producer): Machine
      requires i < |producers|
    {
      this.(producers := producers[i := p])
    }

    function C(c: Consumer): Machine {
      this.(consumer := c)
    }
  }

  // What a producer that is free to choose does next.
  datatype Action = Add(e: int) | AddHead(e: int) | FlushNow | Go

  // ----- the steps -----------------------------------------------------------

  // Done, or on the way through the flush state.
  predicate InFlush(p: Producer) {
    p.Ready? || p.SetPeek? || p.SetTry? || p.StatePeek? || p.SwapPeek? || p.SwapTry? || p.Reset? || p.Notify?
  }

  // After the counter has been raised to `c`.
  function StepFlush(m: Machine, i: nat): (n: Machine)
    requires i < |m.producers| && m.batch > 0
    ensures |n.producers| == |m.producers| && n == m.(flush := n.flush, producers := m.producers[i := n.producers[i]])
    ensures n.producers[i] == m.producers[i] || InFlush(n.producers[i])
  {
    match m.producers[i]
    case Counted(c) => m.To(i, if c == 1 then SetPeek(c) else StatePeek(c))
    case SetPeek(c) => m.To(i, SetTry(c, m.flush))
    case SetTry(c, assumed) =>
      if m.flush != assumed then m.To(i, SetTry(c, m.flush))
      else m.(flush := Pending).To(i, if c % m.batch == 0 then SwapPeek(Auto) else Ready)
    case StatePeek(c) =>
      m.To(i, match m.flush
              case Pending => if c % m.batch == 0 then SwapPeek(Auto) else Ready
              case Explicit => Reset
              case Auto => Ready)
    case SwapPeek(to) => m.To(i, SwapTry(to, m.flush))
    case SwapTry(to, assumed) =>
      if m.flush != assumed then m.To(i, SwapTry(to, m.flush))
      else m.(flush := to).To(i, if assumed.Pending? then Notify else Ready)
    case Reset => (if m.flush.Explicit? then m.(flush := Auto) else m).To(i, Ready)
    case _ => m
  }

  // The consumer holds the notifier's lock while it looks at the counter before it waits.
  predicate HoldsNotifier(c: Consumer) {
    c.WaitCheck? || c.AboutToWait?
  }

  // `e` becomes part of a list.
  function Put(m: Machine, list: nat, s: seq<int>, e: int): Machine
    requires list < |m.lists|
  {
    m.(lists := m.lists[list := s], added := m.added + multiset{e})
  }

  function StepProducer(m: Machine, i: nat, a: Action): (n: Machine)
    requires i < |m.producers| && m.batch > 0
    ensures |n.producers| == |m.producers| && n.producers == m.producers[i := n.producers[i]]
  {
    match m.producers[i]
    case Ready => (
      match a
      case Add(e) => m.To(i, GotTail(m.tail, e))
      case AddHead(e) => m.To(i, WantsHead(e))
      case FlushNow => m.To(i, SwapPeek(Explicit))
      case Go => m
    )
    case GotTail(list, e) => if list < |m.lists| then Put(m, list, m.lists[list] + [e], e).To(i, Added) else m
    case WantsHead(e) => if m.headLock.Nobody? then m.(headLock := TheProducer(i)).To(i, HasHead(e)) else m
    case HasHead(e) => m.To(i, GotHead(m.head, e))
    case GotHead(list, e) =>
      if list < |m.lists| then Put(m, list, [e] + m.lists[list], e).(headLock := Nobody).To(i, Added) else m
    case Added => m.(counter := m.counter + 1).To(i, Counted(m.counter + 1))
    case Notify =>
      if HoldsNotifier(m.consumer) then m
      else m.(consumer := if m.consumer.Waiting? then Calling else m.consumer).To(i, Ready)
    case _ => StepFlush(m, i)
  }

  // `wait` says whether the consumer waits for an element when it has got none.
  function StepConsumer(m: Machine, wait: bool): Machine
    requires |m.lists| == 2 && m.head < 2 && m.tail < 2
  {
    match m.consumer
    case Calling => m.C(if m.counter == 0 then NoEntry(CounterZero) else WantsLock)
    case WantsLock => if m.headLock.Nobody? then m.(headLock := TheConsumer).C(CheckHead) else m
    case CheckHead => m.C(if m.lists[m.head] == [] then SwapCheckHead else Removing)
    case SwapCheckHead =>
      if m.lists[m.head] == [] then m.C(SwapCheckTail) else m.(headLock := Nobody).C(NoEntry(HeadRefilled))
    case SwapCheckTail =>
      if m.lists[m.tail] == [] then m.(headLock := Nobody).C(NoEntry(TailEmpty)) else m.C(SwapSetTail)
    case SwapSetTail => m.(tail := m.head).C(SwapSetHead(m.tail))
    case SwapSetHead(list) => m.(head := list).C(Removing)
    case Removing =>
      if m.lists[m.head] == [] then m.C(Failed)
      else
        var e := m.lists[m.head][0];
        m.(lists := m.lists[m.head := m.lists[m.head][1..]], taken := m.taken + multiset{e}, headLock := Nobody)
        .C(Counting(e))
    case Counting(e) => m.(counter := m.counter - 1).C(Returned(e))
    case Returned(e) => m.(got := m.got + [e]).C(Calling)
    case NoEntry(_) => m.C(if !wait || m.counter != 0 then Calling else WaitLock)
    case WaitLock => m.C(WaitCheck)
    case WaitCheck => m.C(if m.counter == 0 then AboutToWait else Calling)
    case AboutToWait => m.C(Waiting)
    case Waiting => m
    case Failed => m
  }

  // ----- runs ----------------------------------------------------------------

  datatype Move = P(i: nat, action: Action) | C(wait: bool)

  // A step of a producer that does not exist changes nothing.
  function Next(m: Machine, move: Move): Machine
    requires |m.lists| == 2 && m.head < 2 && m.tail < 2 && m.batch > 0
  {
    match move
    case P(i, action) => if i < |m.producers| then StepProducer(m, i, action) else m
    case C(wait) => StepConsumer(m, wait)
  }

  ghost predicate Initial(m: Machine) {
    && m.lists == [[], []] && m.tail == 0 && m.head == 1 && m.headLock.Nobody? && m.counter == 0 && m.flush.Pending?
    && m.batch > 0 && m.consumer.Calling? && m.added == m.taken == multiset{} && m.got == []
    && forall i :: 0 <= i < |m.producers| ==> m.producers[i].Ready?
  }

  // ----- what holds after every step -----------------------------------------

  predicate IsAdded(p: Producer) {
    p.Added?
  }

  // The consumer is between reading the counter and lowering it.
  predicate Taking(c: Consumer) {
    Locked(c) || c.WantsLock? || c.Counting?
  }

  predicate Locked(c: Consumer) {
    c.CheckHead? || c.SwapCheckHead? || c.SwapCheckTail? || c.SwapSetTail? || c.SwapSetHead? || c.Removing?
  }

  ghost predicate Lists(m: Machine) {
    && |m.lists| == 2 && m.head < 2 && m.tail < 2 && m.batch > 0
    && (if m.consumer.SwapSetHead? then m.tail == m.head && m.consumer.list == 1 - m.head else m.tail != m.head)
  }

  // What the consumer has taken and not yet come back with.
  function InHand(c: Consumer): multiset<int> {
    match c
    case Counting(e) => multiset{e}
    case Returned(e) => multiset{e}
    case _ => multiset{}
  }

  // Nothing is lost, and nothing appears twice.
  ghost predicate Conserved(m: Machine)
    requires |m.lists| == 2
  {
    m.added == m.taken + multiset(m.lists[0]) + multiset(m.lists[1])
  }

  // The consumer comes back with what it has taken.
  ghost predicate Handed(m: Machine) {
    m.taken == multiset(m.got) + InHand(m.consumer)
  }

  // The counter runs behind the lists: an element is counted after it has been added, and
  // discounted after it has been taken.
  ghost predicate Counters(m: Machine)
    requires |m.lists| == 2
  {
    && m.counter + Count(m.producers, IsAdded) == |m.lists[0]| + |m.lists[1]| + Bit(m.consumer.Counting?)
    && m.counter >= Bit(Taking(m.consumer))
  }

  ghost predicate ConsumerInv(m: Machine)
    requires Lists(m)
  {
    && (m.headLock.TheConsumer? <==> Locked(m.consumer))
    && !m.consumer.Failed? && m.consumer != NoEntry(TailEmpty)
    && (m.consumer.SwapCheckTail? || m.consumer.SwapSetTail? ==> m.lists[m.tail] != [])
    && (m.consumer.SwapSetHead? ==> m.lists[m.consumer.list] != [])
    && (m.consumer.Removing? ==> m.lists[m.head] != [])
  }

  ghost predicate ProducerInv(m: Machine, i: nat, p: Producer) {
    && (p.GotTail? ==> p.list < 2)
    && (p.HasHead? || p.GotHead? <==> m.headLock == TheProducer(i))
    && (p.GotHead? ==> p.list == m.head)
  }

  ghost predicate Inv(m: Machine) {
    && Lists(m) && Conserved(m) && Handed(m) && Counters(m) && ConsumerInv(m)
    && forall i :: 0 <= i < |m.producers| ==> ProducerInv(m, i, m.producers[i])
  }

  lemma InitialInv(m: Machine)
    requires Initial(m)
    ensures Inv(m)
  {
    CountNone(m.producers, IsAdded);
  }

  lemma StepConsumerInv(m: Machine, wait: bool)
    requires Inv(m)
    ensures Inv(StepConsumer(m, wait))
  {
    ConsumerConserves(m, wait);
    ConsumerHands(m, wait);
    ConsumerCounts(m, wait);
    ConsumerGoesOn(m, wait);
    ConsumerLeavesProducers(m, wait);
    hide StepConsumer, Conserved, Handed, Counters, ConsumerInv;
  }

  lemma ConsumerConserves(m: Machine, wait: bool)
    requires Lists(m) && Conserved(m)
    ensures |StepConsumer(m, wait).lists| == 2 && Conserved(StepConsumer(m, wait))
  {
    if m.consumer.Removing? && m.lists[m.head] != [] {
      TakeConserves(m);
    } else {
      assert StepConsumer(m, wait).lists == m.lists;
    }
  }

  lemma ConsumerHands(m: Machine, wait: bool)
    requires |m.lists| == 2 && m.head < 2 && m.tail < 2 && Handed(m)
    ensures Handed(StepConsumer(m, wait))
  {
    hide Handed, InHand, StepConsumer;
    var m' := StepConsumer(m, wait);
    HandMoves(m, wait);
    if m.consumer.Removing? && m.lists[m.head] != [] {
      HandIs(m.consumer);
      HandIs(m'.consumer);
      TakenHands(m, m', m.lists[m.head][0]);
    } else if m.consumer.Returned? {
      HandIs(m.consumer);
      HandIs(m'.consumer);
      ReturnHands(m, m', m.consumer.e);
    } else {
      HandIs(m.consumer);
      HandIs(m'.consumer);
      SameHands(m, m');
    }
  }

  lemma HandMoves(m: Machine, wait: bool)
    requires |m.lists| == 2 && m.head < 2 && m.tail < 2
    ensures var m', c := StepConsumer(m, wait), StepConsumer(m, wait).consumer;
            if m.consumer.Removing? && m.lists[m.head] != [] then
              var e := m.lists[m.head][0];
              c == Counting(e) && m'.taken == m.taken + multiset{e} && m'.got == m.got
            else
              && m'.taken == m.taken && !c.Counting?
              && m'.got == (if m.consumer.Returned? then m.got + [m.consumer.e] else m.got)
              && (if m.consumer.Counting? then c == Returned(m.consumer.e) else !c.Returned?)
  {
  }

  lemma HandIs(c: Consumer)
    ensures InHand(c) == if c.Counting? || c.Returned? then multiset{c.e} else multiset{}
  {
  }

  lemma TakenHands(m: Machine, m': Machine, e: int)
    requires Handed(m) && m'.taken == m.taken + multiset{e} && m'.got == m.got
    requires InHand(m.consumer) == multiset{} && InHand(m'.consumer) == multiset{e}
    ensures Handed(m')
  {
  }

  lemma ReturnHands(m: Machine, m': Machine, e: int)
    requires Handed(m) && m'.taken == m.taken && m'.got == m.got + [e]
    requires InHand(m.consumer) == multiset{e} && InHand(m'.consumer) == multiset{}
    ensures Handed(m')
  {
    assert multiset(m.got + [e]) == multiset(m.got) + multiset{e};
  }

  lemma ProducerHands(m: Machine, i: nat, a: Action)
    requires i < |m.producers| && m.batch > 0 && Handed(m)
    ensures Handed(StepProducer(m, i, a))
  {
    hide StepFlush, Handed;
    var m' := StepProducer(m, i, a);
    assert m'.taken == m.taken && m'.got == m.got && InHand(m'.consumer) == InHand(m.consumer);
    SameHands(m, m');
  }

  lemma SameHands(m: Machine, m': Machine)
    requires Handed(m) && m'.taken == m.taken && m'.got == m.got && InHand(m'.consumer) == InHand(m.consumer)
    ensures Handed(m')
  {
  }

  lemma TakeConserves(m: Machine)
    requires |m.lists| == 2 && m.head < 2 && m.lists[m.head] != [] && Conserved(m)
    ensures var s := m.lists[m.head];
            var lists := m.lists[m.head := s[1..]];
            m.added == m.taken + multiset{s[0]} + multiset(lists[0]) + multiset(lists[1])
  {
    var s := m.lists[m.head];
    assert s == [s[0]] + s[1..];
    assert multiset(s) == multiset{s[0]} + multiset(s[1..]);
  }

  // Adding at either end of a list.
  lemma PutConserves(m: Machine, list: nat, s: seq<int>, e: int)
    requires |m.lists| == 2 && list < 2 && Conserved(m) && (s == m.lists[list] + [e] || s == [e] + m.lists[list])
    ensures Conserved(Put(m, list, s, e))
  {
    assert multiset(s) == multiset(m.lists[list]) + multiset{e};
  }

  lemma ConsumerCounts(m: Machine, wait: bool)
    requires Lists(m) && Counters(m) && ConsumerInv(m)
    ensures |StepConsumer(m, wait).lists| == 2 && Counters(StepConsumer(m, wait))
  {
    hide Count;
  }

  // When the counter is not zero and the head list is empty, the tail list is not.
  lemma ConsumerGoesOn(m: Machine, wait: bool)
    requires Lists(m) && Counters(m) && ConsumerInv(m)
    ensures Lists(StepConsumer(m, wait)) && ConsumerInv(StepConsumer(m, wait))
  {
    hide Count;
  }

  lemma ConsumerLeavesProducers(m: Machine, wait: bool)
    requires Lists(m) && ConsumerInv(m) && forall i :: 0 <= i < |m.producers| ==> ProducerInv(m, i, m.producers[i])
    ensures var m' := StepConsumer(m, wait);
            m'.producers == m.producers && forall i :: 0 <= i < |m'.producers| ==> ProducerInv(m', i, m'.producers[i])
  {
    var m' := StepConsumer(m, wait);
    assert m'.producers == m.producers && (m'.headLock == m.headLock || (m'.headLock.TheConsumer? && m.headLock.Nobody?)
                                           || (m.headLock.TheConsumer? && m'.headLock.Nobody?));
    assert m'.head != m.head ==> m.headLock.TheConsumer? && m'.headLock.TheConsumer?;
    hide StepConsumer;
    forall i | 0 <= i < |m'.producers|
      ensures ProducerInv(m', i, m'.producers[i])
    {
      assert ProducerInv(m, i, m.producers[i]);
    }
  }

  lemma StepProducerInv(m: Machine, i: nat, a: Action)
    requires Inv(m) && i < |m.producers|
    ensures Inv(StepProducer(m, i, a))
  {
    assert ProducerInv(m, i, m.producers[i]);
    ProducerConserves(m, i, a);
    ProducerHands(m, i, a);
    ProducerCounts(m, i, a);
    ProducerLeavesConsumer(m, i, a);
    ProducerLeavesProducers(m, i, a);
    hide StepProducer, Conserved, Handed, Counters, ConsumerInv;
  }

  lemma ProducerConserves(m: Machine, i: nat, a: Action)
    requires Lists(m) && Conserved(m) && i < |m.producers| && ProducerInv(m, i, m.producers[i])
    ensures |StepProducer(m, i, a).lists| == 2 && Conserved(StepProducer(m, i, a))
  {
    var p := m.producers[i];
    hide StepFlush;
    if p.GotTail? {
      PutConserves(m, p.list, m.lists[p.list] + [p.e], p.e);
    } else if p.GotHead? {
      PutConserves(m, p.list, [p.e] + m.lists[p.list], p.e);
    }
  }

  // Adding makes one list longer by one, and counting comes after that.
  lemma ProducerCounts(m: Machine, i: nat, a: Action)
    requires Lists(m) && Counters(m) && i < |m.producers| && ProducerInv(m, i, m.producers[i])
    ensures |StepProducer(m, i, a).lists| == 2 && Counters(StepProducer(m, i, a))
  {
    var p, m' := m.producers[i], StepProducer(m, i, a);
    CountUpdate(m.producers, i, m'.producers[i], IsAdded);
    ProducerCounters(m, i, a);
    if IsAdded(p) {
      CountSome(m.producers, i, IsAdded);
    }
    hide Count, StepProducer;
  }

  lemma ProducerCounters(m: Machine, i: nat, a: Action)
    requires Lists(m) && i < |m.producers| && ProducerInv(m, i, m.producers[i])
    ensures var p, m' := m.producers[i], StepProducer(m, i, a);
            && |m'.lists| == 2 && Taking(m'.consumer) == Taking(m.consumer)
            && m'.consumer.Counting? == m.consumer.Counting?
            && m'.counter == m.counter + Bit(IsAdded(p)) && !(IsAdded(p) && IsAdded(m'.producers[i]))
            && |m'.lists[0]| + |m'.lists[1]|
               == |m.lists[0]| + |m.lists[1]| + Bit(IsAdded(m'.producers[i]))
  {
    hide StepFlush;
  }

  lemma ProducerLeavesConsumer(m: Machine, i: nat, a: Action)
    requires Lists(m) && ConsumerInv(m) && i < |m.producers| && ProducerInv(m, i, m.producers[i])
    ensures Lists(StepProducer(m, i, a)) && ConsumerInv(StepProducer(m, i, a))
  {
    hide StepFlush;
  }

  lemma ProducerLeavesProducers(m: Machine, i: nat, a: Action)
    requires Lists(m) && i < |m.producers| && forall j :: 0 <= j < |m.producers| ==> ProducerInv(m, j, m.producers[j])
    ensures var m' := StepProducer(m, i, a); forall j :: 0 <= j < |m'.producers| ==> ProducerInv(m', j, m'.producers[j])
  {
    var m' := StepProducer(m, i, a);
    assert ProducerInv(m, i, m.producers[i]);
    ProducerGoesOn(m, i, a);
    hide StepProducer;
    forall j | 0 <= j < |m'.producers|
      ensures ProducerInv(m', j, m'.producers[j])
    {
      assert ProducerInv(m, j, m.producers[j]);
    }
  }

  lemma ProducerGoesOn(m: Machine, i: nat, a: Action)
    requires Lists(m) && i < |m.producers| && ProducerInv(m, i, m.producers[i])
    ensures var m' := StepProducer(m, i, a);
            && ProducerInv(m', i, m'.producers[i]) && m'.head == m.head
            && (m'.headLock == m.headLock || (m.headLock.Nobody? && m'.headLock == TheProducer(i))
                || (m.headLock == TheProducer(i) && m'.headLock.Nobody?))
  {
    hide StepFlush;
  }

  lemma NextInv(m: Machine, move: Move)
    requires Inv(m)
    ensures Inv(Next(m, move)) && Next(m, move).batch == m.batch
  {
    hide Conserved, Handed, Counters, ConsumerInv, ProducerInv, StepProducer, StepConsumer;
    match move
    case P(i, action) =>
      if i < |m.producers| {
        StepProducerInv(m, i, action);
        SameBatch(m, i, action, false);
      }
    case C(wait) =>
      StepConsumerInv(m, wait);
      SameBatch(m, 0, Go, wait);
  }

  lemma SameBatch(m: Machine, i: nat, a: Action, wait: bool)
    requires Lists(m)
    ensures StepConsumer(m, wait).batch == m.batch
    ensures i < |m.producers| ==> StepProducer(m, i, a).batch == m.batch
  {
    hide StepFlush;
  }

  // The machine after some moves; those that come after a malformed one are ignored.
  ghost function Run(m: Machine, moves: seq<Move>): Machine
    requires Inv(m)
    decreases |moves|
  {
    if moves == [] then m
    else
      NextInv(m, moves[0]);
      Run(Next(m, moves[0]), moves[1..])
  }

  lemma {:induction false} RunInv(m: Machine, moves: seq<Move>)
    requires Inv(m)
    ensures Inv(Run(m, moves)) && Run(m, moves).batch == m.batch
    decreases |moves|
  {
    hide Conserved, Handed, Counters, ConsumerInv, ProducerInv, Next;
    if moves != [] {
      NextInv(m, moves[0]);
      RunInv(Next(m, moves[0]), moves[1..]);
    }
  }

  // ----- nothing is lost -----------------------------------------------------

  // In every run what has been added is in a list, or in the hand of the consumer, or it has
  // come back with it, each as often as it was added; and the counter never goes below zero.
  lemma NothingLost(m: Machine, moves: seq<Move>)
    requires Initial(m)
    ensures Inv(m)
    ensures var r := Run(m, moves);
            && |r.lists| == 2
            && r.added == multiset(r.got) + InHand(r.consumer) + multiset(r.lists[0]) + multiset(r.lists[1])
            && r.counter >= 0 && !r.consumer.Failed?
  {
    InitialInv(m);
    RunInv(m, moves);
  }

  // ----- when there is no entry ----------------------------------------------

  // `removeNoWait` gives up exactly when it reads a zero counter, or when the head list, which
  // it has found empty, is not empty any more.
  lemma NoEntryExactly(m: Machine, wait: bool)
    requires Inv(m) && !m.consumer.NoEntry?
    ensures StepConsumer(m, wait).consumer.NoEntry? <==>
            (m.consumer.Calling? && m.counter == 0) || (m.consumer.SwapCheckHead? && m.lists[m.head] != [])
    ensures m.consumer.SwapCheckHead? ==> m.counter > 0
  {
    hide Count;
  }

  // While the consumer has the lock, the head list grows only by a producer that has got hold
  // of it when it was still the tail list.
  lemma OnlyStaleProducersRefill(m: Machine, i: nat, a: Action)
    requires Inv(m) && Locked(m.consumer) && !m.consumer.SwapSetHead? && i < |m.producers|
    ensures var m' := StepProducer(m, i, a);
            && |m'.lists| == 2 && m'.head == m.head && m'.consumer == m.consumer
            && (m'.lists[m.head] != m.lists[m.head] ==> m.producers[i].GotTail? && m.producers[i].list == m.head)
  {
    assert ProducerInv(m, i, m.producers[i]);
    hide Count, Conserved, Handed, Counters, StepFlush;
  }

  predicate HoldsHead(m: Machine, p: Producer) {
    p.GotTail? && p.list == m.head
  }

  ghost predicate NoneHoldsHead(m: Machine) {
    forall i :: 0 <= i < |m.producers| ==> !HoldsHead(m, m.producers[i])
  }

  // The consumer has found an element, or it has found the head list empty and nobody is
  // about to change that.
  ghost predicate WillGet(m: Machine) {
    match m.consumer
    case CheckHead => m.head < |m.lists| && (m.lists[m.head] != [] || NoneHoldsHead(m))
    case SwapCheckHead => m.head < |m.lists| && m.lists[m.head] == [] && NoneHoldsHead(m)
    case SwapCheckTail => true
    case SwapSetTail => true
    case SwapSetHead(_) => true
    case Removing => true
    case Counting(_) => true
    case _ => false
  }

  lemma WillGetNext(m: Machine, move: Move)
    requires Inv(m) && WillGet(m)
    ensures var m' := Next(m, move); Inv(m') && (WillGet(m') || m'.consumer.Returned?)
  {
    hide Count, Conserved, Handed, Counters;
    NextInv(m, move);
    match move
    case C(wait) =>
    case P(i, a) =>
      if i < |m.producers| {
        ProducerLetsGet(m, i, a);
      }
  }

  lemma ProducerLetsGet(m: Machine, i: nat, a: Action)
    requires Inv(m) && WillGet(m) && i < |m.producers|
    ensures var m' := StepProducer(m, i, a); Lists(m') && WillGet(m')
  {
    NextInv(m, P(i, a));
    if Locked(m.consumer) && !m.consumer.SwapSetHead? {
      OnlyStaleProducersRefill(m, i, a);
      HoldsLater(m, i, a);
    }
    StaysTaking(m, i, a);
    hide StepProducer, Count, Conserved, Handed, Counters, ProducerInv;
  }

  lemma StaysTaking(m: Machine, i: nat, a: Action)
    requires Inv(m) && WillGet(m) && i < |m.producers|
    ensures var m' := StepProducer(m, i, a); m'.consumer == m.consumer
    ensures var m' := StepProducer(m, i, a);
            |m'.lists| == 2 && m'.head == m.head && (m.lists[m.head] != [] ==> m'.lists[m.head] != [])
  {
    hide StepFlush, Count, Handed, Conserved, Counters, NoneHoldsHead;
  }

  // A producer that takes a list for the tail list does not take the head list.
  lemma HoldsLater(m: Machine, i: nat, a: Action)
    requires Lists(m) && i < |m.producers| && m.tail != m.head
    ensures var m' := StepProducer(m, i, a);
            m'.head == m.head && (NoneHoldsHead(m) ==> NoneHoldsHead(m'))
  {
    hide StepFlush;
    var m' := StepProducer(m, i, a);
    assert HoldsHead(m', m'.producers[i]) ==> HoldsHead(m, m.producers[i]);
    hide StepProducer, HoldsHead;
  }

  // The consumer comes back after `n` of the moves.
  ghost predicate ReturnsAfter(m: Machine, moves: seq<Move>, n: nat)
    requires Inv(m)
  {
    n <= |moves| && Run(m, moves[..n]).consumer.Returned?
  }

  lemma ReturnsLater(m: Machine, moves: seq<Move>, n: nat)
    requires Inv(m) && moves != []
    ensures Inv(Next(m, moves[0])) && Run(m, moves) == Run(Next(m, moves[0]), moves[1..])
    ensures ReturnsAfter(m, moves, n + 1) <==> ReturnsAfter(Next(m, moves[0]), moves[1..], n)
    ensures ReturnsAfter(m, moves, 0) <==> m.consumer.Returned?
  {
    NextInv(m, moves[0]);
    hide Inv, Next;
    assert moves[..0] == [];
    if n < |moves| {
      assert moves[..n + 1][1..] == moves[1..][..n] && moves[..n + 1][0] == moves[0];
    }
  }

  // In every run from there, whatever producers do, the consumer comes back with an
  // element or is still on its way to it.
  lemma {:induction false} RemovalSucceeds(m: Machine, moves: seq<Move>)
    requires Inv(m) && WillGet(m)
    ensures WillGet(Run(m, moves)) || exists n: nat :: ReturnsAfter(m, moves, n)
    decreases |moves|
  {
    hide Handed, Conserved, Counters;
    if moves != [] {
      var next, rest := Next(m, moves[0]), moves[1..];
      WillGetNext(m, moves[0]);
      ReturnsLater(m, moves, 0);
      assert Run(next, []) == next;
      hide Inv, WillGet, Next, Run;
      if next.consumer.Returned? {
        assert rest[..0] == [];
        assert ReturnsAfter(m, moves, 1);
      } else {
        RemovalSucceeds(next, rest);
        if !WillGet(Run(next, rest)) {
          var n: nat :| ReturnsAfter(next, rest, n);
          ReturnsLater(m, moves, n);
          assert ReturnsAfter(m, moves, n + 1);
        }
      }
    }
  }

  // The removal gives up, not having come back before.
  ghost predicate GivesUp(m: Machine, moves: seq<Move>)
    requires Inv(m)
  {
    Run(m, moves).consumer.NoEntry? && forall n: nat :: !ReturnsAfter(m, moves, n)
  }

  lemma GivesUpLater(m: Machine, moves: seq<Move>)
    requires Inv(m) && moves != [] && !m.consumer.Returned?
    ensures Inv(Next(m, moves[0]))
    ensures GivesUp(Next(m, moves[0]), moves[1..]) ==> GivesUp(m, moves)
  {
    ReturnsLater(m, moves, 0);
    hide Inv, Next, Run;
    forall n: nat
      ensures ReturnsAfter(m, moves, n) ==> n > 0 && ReturnsAfter(Next(m, moves[0]), moves[1..], n - 1)
    {
      if n > 0 {
        ReturnsLater(m, moves, n - 1);
      }
    }
    hide ReturnsAfter;
  }

  // A consumer that has found the head list empty may be made to give up if and only if
  // some producer still has that list, from when it was the tail list.
  lemma GivesUpExactly(m: Machine)
    requires Inv(m) && m.consumer.CheckHead? && m.lists[m.head] == []
    ensures (exists moves :: GivesUp(m, moves)) <==> !NoneHoldsHead(m)
  {
    if NoneHoldsHead(m) {
      forall moves
        ensures !GivesUp(m, moves)
      {
        RemovalSucceeds(m, moves);
      }
    } else {
      hide Inv, Next, Run, ReturnsAfter, GivesUp;
      var i :| 0 <= i < |m.producers| && HoldsHead(m, m.producers[i]);
      Missed(m, i);
      assert GivesUp(m, [C(false), P(i, Go), C(false)]);
    }
  }

  lemma Missed(m: Machine, i: nat)
    requires Inv(m) && m.consumer.CheckHead? && m.lists[m.head] == []
    requires i < |m.producers| && HoldsHead(m, m.producers[i])
    ensures GivesUp(m, [C(false), P(i, Go), C(false)])
  {
    hide Handed, Conserved;
    var a, b := C(false), P(i, Go);
    NextInv(m, a);
    var one := Next(m, a);
    NextInv(one, b);
    var two := Next(one, b);
    NextInv(two, a);
    var three := Next(two, a);
    assert one.consumer == two.consumer == SwapCheckHead && three.consumer == NoEntry(HeadRefilled);
    assert Run(three, []) == three;
    hide Inv, Next, Run;
    assert [a, b, a][1..] == [b, a] && [b, a][1..] == [a] && [a][1..] == [];
    assert GivesUp(three, []);
    hide GivesUp;
    GivesUpLater(two, [a]);
    GivesUpLater(one, [b, a]);
    GivesUpLater(m, [a, b, a]);
  }

  // ----- no wakeup is lost ---------------------------------------------------

  // Has seen an empty queue, and will not look again before it is woken.
  predicate Sleeps(c: Consumer) {
    c.AboutToWait? || c.Waiting?
  }

  // A producer that will wake the consumer, or make another one do so.
  predicate WillWake(m: Machine, p: Producer) {
    match p
    case Counted(c) => c == 1
    case SetPeek(_) => true
    case SetTry(_, _) => true
    case SwapPeek(_) => m.flush.Pending?
    case SwapTry(_, _) => m.flush.Pending?
    case Notify => true
    case _ => false
  }

  ghost predicate WakeInv(m: Machine) {
    && m.batch == 1
    && (Sleeps(m.consumer) && m.counter > 0 ==> exists i :: 0 <= i < |m.producers| && WillWake(m, m.producers[i]))
  }

  lemma StepWake(m: Machine, move: Move)
    requires Inv(m) && WakeInv(m)
    ensures WakeInv(Next(m, move))
  {
    hide Handed, Conserved;
    NextInv(m, move);
    match move
    case C(wait) => hide Count, Inv;
    case P(i, action) =>
      if i < |m.producers| {
        ProducerWakes(m, i, action);
      }
  }

  lemma ProducerWakes(m: Machine, i: nat, a: Action)
    requires Inv(m) && WakeInv(m) && i < |m.producers|
    ensures WakeInv(StepProducer(m, i, a))
  {
    var m' := StepProducer(m, i, a);
    SameBatch(m, i, a, false);
    if Sleeps(m'.consumer) && m'.counter > 0 {
      StaysAsleep(m, i, a);
      if m.counter > 0 {
        var j :| 0 <= j < |m.producers| && WillWake(m, m.producers[j]);
        if j == i {
          StillWakes(m, i, a);
          assert WillWake(m', m'.producers[i]);
        } else {
          OtherStillWakes(m, i, a, j);
          assert WillWake(m', m'.producers[j]) || WillWake(m', m'.producers[i]);
        }
      } else {
        assert WillWake(m', m'.producers[i]);
      }
    }
  }

  lemma StaysAsleep(m: Machine, i: nat, a: Action)
    requires Inv(m) && i < |m.producers| && Sleeps(StepProducer(m, i, a).consumer) && StepProducer(m, i, a).counter > 0
    ensures Sleeps(m.consumer) && (m.producers[i].Notify? ==> m.consumer.AboutToWait?)
    ensures m.counter <= 0 ==> StepProducer(m, i, a).producers[i] == Counted(1)
  {
    hide StepFlush, Count, Handed, Conserved;
  }

  // A producer that will wake the consumer goes on to do so.
  lemma StillWakes(m: Machine, i: nat, a: Action)
    requires i < |m.producers| && m.batch == 1 && WillWake(m, m.producers[i])
    requires m.producers[i].Notify? ==> m.consumer.AboutToWait?
    ensures WillWake(StepProducer(m, i, a), StepProducer(m, i, a).producers[i])
  {
  }

  // If another one gets in its way, that one will.
  lemma OtherStillWakes(m: Machine, i: nat, a: Action, j: nat)
    requires i < |m.producers| && j < |m.producers| && i != j && m.batch == 1 && WillWake(m, m.producers[j])
    ensures var m' := StepProducer(m, i, a);
            |m'.producers| == |m.producers| && (WillWake(m', m'.producers[j]) || WillWake(m', m'.producers[i]))
  {
  }

  lemma {:induction false} RunWake(m: Machine, moves: seq<Move>)
    requires Inv(m) && WakeInv(m)
    ensures WakeInv(Run(m, moves))
    decreases |moves|
  {
    hide Conserved, Handed, Counters, ConsumerInv, ProducerInv, WakeInv, Next;
    if moves != [] {
      NextInv(m, moves[0]);
      StepWake(m, moves[0]);
      RunWake(Next(m, moves[0]), moves[1..]);
    }
  }

  ghost function Distance(m: Machine, p: Producer): nat {
    match p
    case Counted(_) => 7
    case SetPeek(_) => 6
    case SetTry(_, assumed) => if assumed == m.flush then 4 else 5
    case SwapPeek(_) => 3
    case SwapTry(_, assumed) => if assumed == m.flush then 1 else 2
    case _ => 0
  }

  // Whenever the consumer waits although there is an element, one producer has only to go on
  // for the consumer to be woken.
  lemma {:induction false} WakesUp(m: Machine, i: nat) returns (moves: seq<Move>)
    requires Inv(m) && m.batch == 1 && m.consumer.Waiting? && i < |m.producers| && WillWake(m, m.producers[i])
    ensures |moves| <= Distance(m, m.producers[i]) + 1
    ensures forall k :: 0 <= k < |moves| ==> moves[k] == P(i, Go)
    ensures Run(m, moves).consumer.Calling?
    decreases Distance(m, m.producers[i])
  {
    hide Conserved, Handed, Counters;
    var go := P(i, Go);
    var next := Next(m, go);
    NextInv(m, go);
    if m.producers[i].Notify? {
      moves := [go];
      assert Run(next, []) == next;
    } else {
      StillWakes(m, i, Go);
      Nearer(m, i);
      var rest := WakesUp(next, i);
      moves := [go] + rest;
      assert moves[1..] == rest;
    }
  }

  lemma Nearer(m: Machine, i: nat)
    requires Lists(m) && m.batch == 1 && m.consumer.Waiting? && i < |m.producers| && WillWake(m, m.producers[i])
    requires !m.producers[i].Notify?
    ensures var next := StepProducer(m, i, Go);
            next.consumer == m.consumer && Distance(next, next.producers[i]) < Distance(m, m.producers[i])
  {
  }

  lemma NoLostWakeup(m: Machine, moves: seq<Move>) returns (more: seq<Move>)
    requires Initial(m) && m.batch == 1
    ensures Inv(m)
    ensures var r := Run(m, moves);
            Inv(r) && (r.consumer.Waiting? && r.counter > 0 ==> |more| <= 8 && Run(r, more).consumer.Calling?)
  {
    InitialInv(m);
    RunInv(m, moves);
    RunWake(m, moves);
    var r := Run(m, moves);
    hide Run, Inv;
    more := [];
    if r.consumer.Waiting? && r.counter > 0 {
      var i :| 0 <= i < |r.producers| && WillWake(r, r.producers[i]);
      more := WakesUp(r, i);
    }
  }

  // ----- an entry that is not seen -------------------------------------------

  lemma {:induction false} Then(start: Machine, moves: seq<Move>, m: Machine, move: Move)
    returns (moves': seq<Move>, m': Machine)
    requires Inv(start) && Run(start, moves) == m && Inv(m)
    ensures moves' == moves + [move] && m' == Next(m, move) && Inv(m') && Run(start, moves') == m'
    decreases |moves|
  {
    hide Next, Handed, Conserved, Counters;
    moves', m' := moves + [move], Next(m, move);
    NextInv(m, move);
    if moves == [] {
      assert Run(m', []) == m';
    } else {
      NextInv(start, moves[0]);
      assert moves'[0] == moves[0] && moves'[1..] == moves[1..] + [move];
      var _, _ := Then(Next(start, moves[0]), moves[1..], m, move);
    }
  }

  // An empty queue with three producers.
  function Empty(): Machine {
    Machine([[], []], 0, 1, Nobody, 0, Pending, 1,
            Calling, [Ready, Ready, Ready], multiset{}, multiset{}, [])
  }

  // `removeNoWait` finds no entry although the counter says that there is one: a producer
  // that still has the old tail list adds to what is now the head list.
  lemma EntryNotSeen() returns (moves: seq<Move>)
    ensures Initial(Empty()) && Inv(Empty())
    ensures var r := Run(Empty(), moves);
            r.consumer == NoEntry(HeadRefilled) && r.counter == 1 && r.lists == [[10], [30]]
  {
    InitialInv(Empty());
    moves := [];
    assert Run(Empty(), moves) == Empty();
    hide Run, Inv, Next;
    moves := Fill(moves);
    moves := TakeLock(moves);
    moves := TakeFirst(moves);
    moves := FillAgain(moves);
    moves := CountAgain(moves);
    moves := FindNothing(moves);
  }

  // The queue with its batches of one before the flush state changes.
  function Scene(lists: seq<seq<int>>, tail: nat, counter: int, consumer: Consumer, producers: seq<Producer>,
                 added: multiset<int>, got: seq<int>): Machine {
    var head := if consumer.SwapSetHead? then tail else if tail == 0 then 1 else 0;
    var lock := if Locked(consumer) then TheConsumer else Nobody;
    var taken := multiset(got) + InHand(consumer);
    Machine(lists, tail, head, lock, counter, Pending, 1, consumer, producers, added, taken, got)
  }

  lemma Fill(moves: seq<Move>) returns (moves': seq<Move>)
    requires Inv(Empty()) && Run(Empty(), moves) == Empty()
    ensures Run(Empty(), moves') ==
            Scene([[20], []], 0, 1, Calling, [GotTail(0, 10), Counted(1), Ready], multiset{20}, [])
  {
    hide Run, Inv, Count;
    RunInv(Empty(), moves);
    var m;
    moves', m := Then(Empty(), moves, Run(Empty(), moves), P(0, Add(10)));
    assert m == Scene([[], []], 0, 0, Calling, [GotTail(0, 10), Ready, Ready], multiset{}, []);
    moves', m := Then(Empty(), moves', m, P(1, Add(20)));
    assert m == Scene([[], []], 0, 0, Calling, [GotTail(0, 10), GotTail(0, 20), Ready], multiset{}, []);
    moves', m := Then(Empty(), moves', m, P(1, Go));
    assert [] + [20] == [20] && [[], []][0 := [20]] == [[20], []] && multiset{} + multiset{20} == multiset{20};
    assert m == Scene([[20], []], 0, 0, Calling, [GotTail(0, 10), Added, Ready], multiset{20}, []);
    moves', m := Then(Empty(), moves', m, P(1, Go));
  }

  lemma TakeLock(moves: seq<Move>) returns (moves': seq<Move>)
    requires Inv(Empty())
    requires Run(Empty(), moves) ==
             Scene([[20], []], 0, 1, Calling, [GotTail(0, 10), Counted(1), Ready], multiset{20}, [])
    ensures Run(Empty(), moves') ==
            Scene([[20], []], 0, 1, SwapSetTail, [GotTail(0, 10), Counted(1), Ready], multiset{20}, [])
  {
    hide Run, Inv, Count;
    RunInv(Empty(), moves);
    var m;
    moves', m := Then(Empty(), moves, Run(Empty(), moves), C(false));
    assert m == Scene([[20], []], 0, 1, WantsLock, [GotTail(0, 10), Counted(1), Ready], multiset{20}, []);
    moves', m := Then(Empty(), moves', m, C(false));
    assert m == Scene([[20], []], 0, 1, CheckHead, [GotTail(0, 10), Counted(1), Ready], multiset{20}, []);
    moves', m := Then(Empty(), moves', m, C(false));
    assert m == Scene([[20], []], 0, 1, SwapCheckHead, [GotTail(0, 10), Counted(1), Ready], multiset{20}, []);
    moves', m := Then(Empty(), moves', m, C(false));
    assert m == Scene([[20], []], 0, 1, SwapCheckTail, [GotTail(0, 10), Counted(1), Ready], multiset{20}, []);
    moves', m := Then(Empty(), moves', m, C(false));
  }

  lemma TakeFirst(moves: seq<Move>) returns (moves': seq<Move>)
    requires Inv(Empty())
    requires Run(Empty(), moves) ==
             Scene([[20], []], 0, 1, SwapSetTail, [GotTail(0, 10), Counted(1), Ready], multiset{20}, [])
    ensures Run(Empty(), moves') ==
            Scene([[], []], 1, 0, Calling, [GotTail(0, 10), Counted(1), Ready], multiset{20}, [20])
  {
    hide Run, Inv, Count;
    RunInv(Empty(), moves);
    var m;
    moves', m := Then(Empty(), moves, Run(Empty(), moves), C(false));
    assert m == Scene([[20], []], 1, 1, SwapSetHead(0), [GotTail(0, 10), Counted(1), Ready], multiset{20}, []);
    moves', m := Then(Empty(), moves', m, C(false));
    assert m == Scene([[20], []], 1, 1, Removing, [GotTail(0, 10), Counted(1), Ready], multiset{20}, []);
    moves', m := Then(Empty(), moves', m, C(false));
    assert [20][1..] == [] && [[20], []][0 := []] == [[], []] && multiset{} + multiset{20} == multiset{20};
    assert m == Scene([[], []], 1, 1, Counting(20), [GotTail(0, 10), Counted(1), Ready], multiset{20}, []);
    moves', m := Then(Empty(), moves', m, C(false));
    assert m == Scene([[], []], 1, 0, Returned(20), [GotTail(0, 10), Counted(1), Ready], multiset{20}, []);
    moves', m := Then(Empty(), moves', m, C(false));
  }

  lemma FillAgain(moves: seq<Move>) returns (moves': seq<Move>)
    requires Inv(Empty())
    requires Run(Empty(), moves) ==
             Scene([[], []], 1, 0, Calling, [GotTail(0, 10), Counted(1), Ready], multiset{20}, [20])
    ensures Run(Empty(), moves') ==
            Scene([[], [30]], 1, 0, Calling, [GotTail(0, 10), Counted(1), Added], multiset{20, 30}, [20])
  {
    hide Run, Inv, Count;
    RunInv(Empty(), moves);
    var m;
    moves', m := Then(Empty(), moves, Run(Empty(), moves), P(2, Add(30)));
    assert m == Scene([[], []], 1, 0, Calling, [GotTail(0, 10), Counted(1), GotTail(1, 30)],
                      multiset{20}, [20]);
    moves', m := Then(Empty(), moves', m, P(2, Go));
    assert [] + [30] == [30] && [[], []][1 := [30]] == [[], [30]] && multiset{20} + multiset{30} == multiset{20, 30};
  }

  lemma CountAgain(moves: seq<Move>) returns (moves': seq<Move>)
    requires Inv(Empty())
    requires Run(Empty(), moves) ==
             Scene([[], [30]], 1, 0, Calling, [GotTail(0, 10), Counted(1), Added], multiset{20, 30}, [20])
    ensures Run(Empty(), moves') ==
            Scene([[], [30]], 1, 1, WantsLock, [GotTail(0, 10), Counted(1), Counted(1)], multiset{20, 30}, [20])
  {
    hide Run, Inv, Count;
    RunInv(Empty(), moves);
    var m;
    moves', m := Then(Empty(), moves, Run(Empty(), moves), P(2, Go));
    assert m == Scene([[], [30]], 1, 1, Calling, [GotTail(0, 10), Counted(1), Counted(1)],
                      multiset{20, 30}, [20]);
    moves', m := Then(Empty(), moves', m, C(false));
  }

  lemma FindNothing(moves: seq<Move>) returns (moves': seq<Move>)
    requires Inv(Empty())
    requires Run(Empty(), moves) ==
             Scene([[], [30]], 1, 1, WantsLock, [GotTail(0, 10), Counted(1), Counted(1)],
                   multiset{20, 30}, [20])
    ensures Run(Empty(), moves') ==
            Scene([[10], [30]], 1, 1, NoEntry(HeadRefilled), [Added, Counted(1), Counted(1)],
                  multiset{20, 30, 10}, [20])
  {
    hide Run, Inv, Count;
    RunInv(Empty(), moves);
    var m;
    moves', m := Then(Empty(), moves, Run(Empty(), moves), C(false));
    assert m == Scene([[], [30]], 1, 1, CheckHead, [GotTail(0, 10), Counted(1), Counted(1)],
                      multiset{20, 30}, [20]);
    moves', m := Then(Empty(), moves', m, C(false));
    assert m == Scene([[], [30]], 1, 1, SwapCheckHead, [GotTail(0, 10), Counted(1), Counted(1)],
                      multiset{20, 30}, [20]);
    moves', m := Then(Empty(), moves', m, P(0, Go));
    assert [] + [10] == [10] && [[], [30]][0 := [10]] == [[10], [30]];
    assert multiset{20, 30} + multiset{10} == multiset{20, 30, 10};
    assert m == Scene([[10], [30]], 1, 1, SwapCheckHead, [Added, Counted(1), Counted(1)],
                      multiset{20, 30, 10}, [20]);
    moves', m := Then(Empty(), moves', m, C(false));
  }
}
