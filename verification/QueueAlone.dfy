// One operation of the queue at a time: what a thread does that moves alone, whatever the
// others have been doing.  Moved one after the other they make a plain sequence.
module QueueAlone {
  import opened Counting
  import opened ConcurrentQueue

  // The elements in the order in which they will be taken, as long as nobody swaps the lists.
  ghost function Contents(m: Machine): seq<int>
    requires |m.lists| == 2 && m.head < 2 && m.tail < 2
  {
    m.lists[m.head] + m.lists[m.tail]
  }

  // What else is as it was, but for the lists and what follows from counting.
  ghost predicate OnlyAdded(m: Machine, r: Machine, i: nat) {
    && i < |m.producers| && r.producers == m.producers
    && r.tail == m.tail && r.head == m.head && r.headLock == m.headLock && r.batch == m.batch
    && r.taken == m.taken && r.got == m.got && |r.lists| == |m.lists|
  }

  // An element has been counted: the consumer is woken exactly if that completes a batch while
  // a flush is pending, or while there was nothing counted; otherwise the flush is pending.
  ghost predicate Announced(m: Machine, r: Machine)
    requires m.batch > 0
  {
    var pending, complete := r.counter == 1 || m.flush.Pending?, r.counter % m.batch == 0;
    && r.counter == m.counter + 1
    && r.flush == (if pending && !complete then Pending else Auto)
    && r.consumer == if pending && complete && m.consumer.Waiting? then Calling else m.consumer
  }

  lemma Facts(m: Machine)
    requires Inv(m)
    ensures |m.lists| == 2 && m.head < 2 && m.tail < 2 && m.batch > 0
    ensures !m.consumer.SwapSetHead? || m.headLock.Nobody? ==> m.tail != m.head
  {
  }

  lemma RunNone(m: Machine)
    requires Inv(m)
    ensures Run(m, []) == m
  {
    hide Inv;
  }

  predicate Moves(moves: seq<Move>, moves': seq<Move>, i: nat, n: nat) {
    && |moves| <= |moves'| <= |moves| + n && moves'[..|moves|] == moves
    && forall k :: |moves| <= k < |moves'| ==> moves'[k] == P(i, Go)
  }

  // The flush state changes, and if a flush was pending the consumer is notified.
  lemma Swaps(start: Machine, moves: seq<Move>, m: Machine, i: nat, to: Flush)
    returns (moves': seq<Move>, r: Machine)
    requires Inv(start) && Run(start, moves) == m && Inv(m)
    requires i < |m.producers| && m.producers[i] == SwapPeek(to) && !HoldsNotifier(m.consumer)
    ensures Moves(moves, moves', i, 3) && Inv(r) && Run(start, moves') == r
    ensures var wake := m.flush.Pending? && m.consumer.Waiting?;
            r == m.(flush := to, consumer := if wake then Calling else m.consumer).To(i, Ready)
  {
    hide Run, Inv;
    Facts(m);
    var go, was := P(i, Go), m.flush;
    moves', r := Then(start, moves, m, go);
    assert r == m.To(i, SwapTry(to, was));
    moves', r := Then(start, moves', r, go);
    assert r == m.(flush := to).To(i, if was.Pending? then Notify else Ready);
    if was.Pending? {
      moves', r := Then(start, moves', r, go);
    }
    assert r.producers == m.producers[i := Ready];
  }

  // From counting on.
  lemma Announces(start: Machine, moves: seq<Move>, m: Machine, i: nat) returns (moves': seq<Move>, r: Machine)
    requires Inv(start) && Run(start, moves) == m && Inv(m)
    requires i < |m.producers| && m.producers[i].Added? && !HoldsNotifier(m.consumer)
    ensures Moves(moves, moves', i, 7) && Inv(r) && Run(start, moves') == r
    ensures |m.lists| == 2 && m.batch > 0 && Announced(m, r)
    ensures r == m.(counter := r.counter, flush := r.flush, consumer := r.consumer).To(i, Ready)
  {
    hide Run, Inv;
    Facts(m);
    moves', r := Decides(start, moves, m, i);
    var go, c := P(i, Go), m.counter + 1;
    if r.producers[i].SwapPeek? {
      moves', r := Swaps(start, moves', r, i, Auto);
    } else if r.producers[i].Reset? {
      moves', r := Then(start, moves', r, go);
    }
    assert r.producers == m.producers[i := Ready];
  }

  // Count, and look at the flush state.
  lemma Decides(start: Machine, moves: seq<Move>, m: Machine, i: nat) returns (moves': seq<Move>, r: Machine)
    requires Inv(start) && Run(start, moves) == m && Inv(m) && m.batch > 0
    requires i < |m.producers| && m.producers[i].Added?
    ensures Moves(moves, moves', i, 4) && Inv(r) && Run(start, moves') == r
    ensures var c := m.counter + 1;
            var pending, complete := c == 1 || m.flush.Pending?, c % m.batch == 0;
            var counted := m.(counter := c, flush := if pending then Pending else m.flush);
            r == counted.To(i, if pending && complete then SwapPeek(Auto)
                            else if !pending && m.flush.Explicit? then Reset else Ready)
  {
    hide Run, Inv;
    Facts(m);
    var go, c := P(i, Go), m.counter + 1;
    var counted := m.(counter := c);
    moves', r := Then(start, moves, m, go);
    assert r == counted.To(i, Counted(c));
    moves', r := Then(start, moves', r, go);
    if c == 1 {
      assert r == counted.To(i, SetPeek(c));
      moves', r := Then(start, moves', r, go);
      assert r == counted.To(i, SetTry(c, m.flush));
      moves', r := Then(start, moves', r, go);
    } else {
      assert r == counted.To(i, StatePeek(c));
      moves', r := Then(start, moves', r, go);
    }
    assert r.producers == m.producers[i := r.producers[i]];
  }

  // One that has seen another flush state looks again, and changes it all the same.
  lemma SwapsAnyway(m: Machine, i: nat) returns (moves: seq<Move>)
    requires Inv(m) && i < |m.producers| && m.producers[i].SwapTry?
    ensures |moves| <= 2 && forall k :: 0 <= k < |moves| ==> moves[k] == P(i, Go)
    ensures var to := m.producers[i].to;
            Run(m, moves) == m.(flush := to).To(i, if m.flush.Pending? then Notify else Ready)
  {
    hide Run, Inv;
    Facts(m);
    RunNone(m);
    var go, r := P(i, Go), m;
    moves := [];
    if m.producers[i].assumed != m.flush {
      moves, r := Then(m, moves, r, go);
    }
    moves, r := Then(m, moves, r, go);
    assert r.producers == m.producers[i := r.producers[i]];
  }

  lemma SetsAnyway(m: Machine, i: nat) returns (moves: seq<Move>)
    requires Inv(m) && i < |m.producers| && m.producers[i].SetTry?
    ensures |moves| <= 2 && forall k :: 0 <= k < |moves| ==> moves[k] == P(i, Go)
    ensures m.batch > 0
            && Run(m, moves) ==
               m.(flush := Pending).To(i, if m.producers[i].c % m.batch == 0 then SwapPeek(Auto) else Ready)
  {
    hide Run, Inv;
    Facts(m);
    RunNone(m);
    var go, r := P(i, Go), m;
    moves := [];
    if m.producers[i].assumed != m.flush {
      moves, r := Then(m, moves, r, go);
    }
    moves, r := Then(m, moves, r, go);
    assert r.producers == m.producers[i := r.producers[i]];
  }

  // Adding an element puts it behind all others.
  lemma AddAlone(m: Machine, i: nat, e: int) returns (moves: seq<Move>)
    requires Inv(m) && i < |m.producers| && m.producers[i].Ready? && !HoldsNotifier(m.consumer)
    requires !m.consumer.SwapSetHead?
    ensures |moves| <= 9
    ensures var r := Run(m, moves);
            && OnlyAdded(m, r, i) && m.batch > 0 && Announced(m, r) && r.added == m.added + multiset{e}
            && Contents(r) == Contents(m) + [e]
  {
    hide Run, Inv;
    Facts(m);
    RunNone(m);
    var r;
    moves, r := Then(m, [], m, P(i, Add(e)));
    assert r == m.To(i, GotTail(m.tail, e));
    moves, r := Then(m, moves, r, P(i, Go));
    var put := Put(m, m.tail, m.lists[m.tail] + [e], e);
    assert r == put.To(i, Added);
    moves, r := Announces(m, moves, r, i);
    assert r.producers == m.producers;
    assert m.lists[m.head] + (m.lists[m.tail] + [e]) == Contents(m) + [e];
  }

  // Adding at the head puts it before all others.
  lemma AddHeadAlone(m: Machine, i: nat, e: int) returns (moves: seq<Move>)
    requires Inv(m) && i < |m.producers| && m.producers[i].Ready? && !HoldsNotifier(m.consumer)
    requires m.headLock.Nobody?
    ensures |moves| <= 11
    ensures var r := Run(m, moves);
            && OnlyAdded(m, r, i) && m.batch > 0 && Announced(m, r) && r.added == m.added + multiset{e}
            && Contents(r) == [e] + Contents(m)
  {
    hide Run, Inv;
    Facts(m);
    RunNone(m);
    var r;
    moves, r := Then(m, [], m, P(i, AddHead(e)));
    assert r == m.To(i, WantsHead(e));
    moves, r := Then(m, moves, r, P(i, Go));
    assert r == m.(headLock := TheProducer(i)).To(i, HasHead(e));
    moves, r := Then(m, moves, r, P(i, Go));
    assert r == m.(headLock := TheProducer(i)).To(i, GotHead(m.head, e));
    moves, r := Then(m, moves, r, P(i, Go));
    var put := Put(m, m.head, [e] + m.lists[m.head], e);
    assert r == put.To(i, Added);
    moves, r := Announces(m, moves, r, i);
    assert r.producers == m.producers;
    assert ([e] + m.lists[m.head]) + m.lists[m.tail] == [e] + Contents(m);
  }

  // Flushing wakes the consumer exactly if a flush was pending.
  lemma FlushAlone(m: Machine, i: nat) returns (moves: seq<Move>)
    requires Inv(m) && i < |m.producers| && m.producers[i].Ready? && !HoldsNotifier(m.consumer)
    ensures |moves| <= 4
    ensures var wake := m.flush.Pending? && m.consumer.Waiting?;
            Run(m, moves) == m.(flush := Explicit, consumer := if wake then Calling else m.consumer)
  {
    hide Run, Inv;
    Facts(m);
    RunNone(m);
    var r;
    moves, r := Then(m, [], m, P(i, FlushNow));
    assert r == m.To(i, SwapPeek(Explicit));
    moves, r := Swaps(m, moves, r, i, Explicit);
    assert r.producers == m.producers;
  }

  // ----- the consumer --------------------------------------------------------

  // The consumer takes the first element of the head list, and holds just that.
  lemma TakesFirst(m: Machine, wait: bool)
    requires Inv(m) && m.consumer.Removing?
    ensures var r := StepConsumer(m, wait);
            && r.consumer.Counting? && |r.lists| == 2
            && m.lists[m.head] == [r.consumer.e] + r.lists[m.head] && r.lists[1 - m.head] == m.lists[1 - m.head]
            && r.taken == m.taken + multiset{r.consumer.e}
  {
    hide Count, Conserved, Handed, Counters;
  }

  // It comes back with the element that it holds.
  lemma ComesBack(m: Machine, wait: bool)
    requires Inv(m) && m.consumer.Counting?
    ensures var e, r := m.consumer.e, StepConsumer(m, wait);
            && r == m.(counter := m.counter - 1, consumer := Returned(e))
            && StepConsumer(r, wait) == r.(got := m.got + [e], consumer := Calling)
  {
  }

  // A removal that moves alone, when something has been counted, gives the first element of
  // all.
  lemma RemoveAlone(m: Machine, wait: bool) returns (moves: seq<Move>)
    requires Inv(m) && m.consumer.Calling? && m.headLock.Nobody? && m.counter > 0
    ensures |moves| <= 10 && forall k :: 0 <= k < |moves| ==> moves[k] == C(wait)
    ensures var r := Run(m, moves);
            && |m.lists| == |r.lists| == 2 && m.head < 2 && m.tail < 2 && r.head < 2 && r.tail < 2
            && Contents(m) != [] && var e := Contents(m)[0];
                                 && Contents(r) == Contents(m)[1..] && r.got == m.got + [e]
                                 && r == m.(lists := r.lists, tail := r.tail, head := r.head, counter := m.counter - 1,
                                         taken := m.taken + multiset{e}, got := r.got)
  {
    hide Run, Inv;
    Facts(m);
    RunNone(m);
    var go, r, t := C(wait), m, m.(headLock := TheConsumer);
    moves, r := Then(m, [], m, go);
    assert r == m.C(WantsLock);
    moves, r := Then(m, moves, r, go);
    assert r == t.C(CheckHead);
    if m.lists[m.head] != [] {
      moves, r := Then(m, moves, r, go);
      assert r == t.C(Removing);
      moves, r := RemovesFirst(m, moves, r, wait);
      assert (m.lists[m.head] + m.lists[m.tail])[1..] == m.lists[m.head][1..] + m.lists[m.tail];
    } else {
      moves, r := SwapsLists(m, moves, r, wait);
      moves, r := RemovesFirst(m, moves, r, wait);
      assert m.lists[m.head] + m.lists[m.tail] == m.lists[m.tail] && m.lists[m.tail][1..] + [] == m.lists[m.tail][1..];
    }
  }

  lemma SwapsLists(start: Machine, moves: seq<Move>, m: Machine, wait: bool)
    returns (moves': seq<Move>, r: Machine)
    requires Inv(start) && Run(start, moves) == m && Inv(m) && m.consumer.CheckHead?
    requires |m.lists| == 2 && m.head < 2 && m.lists[m.head] == []
    ensures |moves'| == |moves| + 5 && moves'[..|moves|] == moves
    ensures forall k :: |moves| <= k < |moves'| ==> moves'[k] == C(wait)
    ensures Inv(r) && Run(start, moves') == r
    ensures r == m.(tail := m.head, head := m.tail, consumer := Removing)
    ensures m.tail < 2 && m.tail != m.head && m.lists[m.tail] != []
  {
    hide Run, Inv;
    Facts(m);
    var go := C(wait);
    moves', r := Then(start, moves, m, go);
    assert r == m.C(SwapCheckHead);
    moves', r := Then(start, moves', r, go);
    assert r == m.C(SwapCheckTail);
    NotBothEmpty(r);
    moves', r := Then(start, moves', r, go);
    assert r == m.C(SwapSetTail);
    moves', r := Then(start, moves', r, go);
    assert r == m.(tail := m.head).C(SwapSetHead(m.tail));
    moves', r := Then(start, moves', r, go);
  }

  lemma NotBothEmpty(m: Machine)
    requires Inv(m) && m.consumer.SwapCheckTail?
    ensures |m.lists| == 2 && m.tail < 2 && m.lists[m.tail] != []
  {
    hide Conserved, Handed, Counters;
  }

  lemma RemovesFirst(start: Machine, moves: seq<Move>, m: Machine, wait: bool)
    returns (moves': seq<Move>, r: Machine)
    requires Inv(start) && Run(start, moves) == m && Inv(m) && m.consumer.Removing?
    requires |m.lists| == 2 && m.head < 2 && m.lists[m.head] != []
    ensures |moves'| == |moves| + 3 && moves'[..|moves|] == moves
    ensures forall k :: |moves| <= k < |moves'| ==> moves'[k] == C(wait)
    ensures Inv(r) && Run(start, moves') == r
    ensures var e := m.lists[m.head][0];
            r == m.(lists := m.lists[m.head := m.lists[m.head][1..]], counter := m.counter - 1, headLock := Nobody,
            taken := m.taken + multiset{e}, got := m.got + [e], consumer := Calling)
  {
    hide Run, Inv;
    Facts(m);
    var go := C(wait);
    moves', r := Then(start, moves, m, go);
    moves', r := Then(start, moves', r, go);
    moves', r := Then(start, moves', r, go);
  }

  // With nothing counted it does not get one; and if it may, it waits to be woken.
  lemma WaitAlone(m: Machine, wait: bool) returns (moves: seq<Move>)
    requires Inv(m) && m.consumer.Calling? && m.counter == 0
    ensures |moves| <= 5 && forall k :: 0 <= k < |moves| ==> moves[k] == C(wait)
    ensures Run(m, moves) == if wait then m.C(Waiting) else m
  {
    hide Run, Inv;
    Facts(m);
    RunNone(m);
    var go, r := C(wait), m;
    moves, r := Then(m, [], m, go);
    assert r == m.C(NoEntry(CounterZero));
    moves, r := Then(m, moves, r, go);
    if wait {
      assert r == m.C(WaitLock);
      moves, r := Then(m, moves, r, go);
      assert r == m.C(WaitCheck);
      moves, r := Then(m, moves, r, go);
      assert r == m.C(AboutToWait);
      moves, r := Then(m, moves, r, go);
    }
  }
}
