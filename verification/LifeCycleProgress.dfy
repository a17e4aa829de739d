// What threads achieve by moving alone: several may read at once, a writer closes the gate,
// one that cannot get in yields, and everybody on the way to the monitor gets there.
module LifeCycleProgress {
  import opened Counting
  import opened LifeCycleState

  lemma {:induction false} Then(start: Machine, moves: seq<Move>, m: Machine, move: Move, spinMax: int)
    returns (moves': seq<Move>, m': Machine)
    requires Run(start, moves, spinMax) == m && move.thread < |m.threads|
    ensures moves' == moves + [move] && m' == Step(m, move.thread, move.action, spinMax)
    ensures Run(start, moves', spinMax) == m'
  {
    hide Step, Run;
    moves', m' := moves + [move], Step(m, move.thread, move.action, spinMax);
    RunOn(start, moves, [move], spinMax);
    One(m, move, spinMax);
  }

  // ----- reading together ----------------------------------------------------

  // An idle thread that asks to read does so, whoever else reads.
  lemma Reads(m: Machine, i: nat, setting: Setting) returns (moves: seq<Move>)
    requires Inv(m) && i < |m.threads| && m.threads[i].Idle? && setting != Spins(-1)
    requires m.word.gate.Open? && m.word.readers < MaxReadLocks
    ensures |moves| <= 4
    ensures var r := Run(m, moves, SpinLimit(setting));
            && Inv(r) && OnlyMoved(m, r, i) && HoldsRead(r.threads[i])
            && r.word == m.word.(readers := m.word.readers + 1)
  {
    var limit := SpinLimit(setting);
    var ask := Move(i, AcquireRead);
    One(m, ask, limit);
    StepInv(m, i, AcquireRead, limit);
    var one := Step(m, i, AcquireRead, limit);
    assert one == m.To(i, ReadTry(m.word, limit));
    hide Run, Step, Inv;
    var rest := GetsIn(one, i, setting);
    moves := [ask] + rest;
    RunOn(m, [ask], rest, limit);
    RunInv(m, moves, limit);
  }

  // So does one that asks to write, if nobody is in.
  lemma Writes(m: Machine, i: nat, setting: Setting) returns (moves: seq<Move>)
    requires Inv(m) && i < |m.threads| && m.threads[i].Idle? && m.word.gate.Open? && m.word.readers == 0
    ensures |moves| <= 4
    ensures var r := Run(m, moves, SpinLimit(setting));
            Inv(r) && OnlyMoved(m, r, i) && HoldsWrite(r.threads[i]) && r.word == m.word.(gate := Closed)
  {
    var limit := SpinLimit(setting);
    var ask := Move(i, AcquireWrite);
    One(m, ask, limit);
    StepInv(m, i, AcquireWrite, limit);
    var one := Step(m, i, AcquireWrite, limit);
    assert one == m.To(i, WriteTry(m.word, limit, false));
    hide Run, Step, Inv;
    var rest := GetsIn(one, i, setting);
    moves := [ask] + rest;
    RunOn(m, [ask], rest, limit);
    RunInv(m, moves, limit);
  }

  // Getting the lock and giving it back leaves no trace.
  lemma NoTrace(m: Machine, i: nat, setting: Setting, toRead: bool) returns (moves: seq<Move>)
    requires Inv(m) && i < |m.threads| && m.threads[i].Idle? && m.word.gate.Open?
    requires if toRead then m.word.readers < MaxReadLocks && setting != Spins(-1) else m.word.readers == 0
    ensures Run(m, moves, SpinLimit(setting)) == m
    ensures exists k: nat :: k <= |moves| && InAfter(m, i, setting, toRead, moves[..k])
  {
    hide Run, Inv;
    var limit := SpinLimit(setting);
    var a;
    if toRead {
      a := Reads(m, i, setting);
    } else {
      a := Writes(m, i, setting);
    }
    var r := Run(m, a, limit);
    var b := GivesBack(r, i, limit);
    moves := a + b;
    RunOn(m, a, b, limit);
    var s := Run(r, b, limit);
    assert s.threads == m.threads[i := Idle] == m.threads;
    assert moves[..|a|] == a && InAfter(m, i, setting, toRead, moves[..|a|]);
  }

  ghost predicate InAfter(m: Machine, i: nat, setting: Setting, toRead: bool, moves: seq<Move>) {
    var r := Run(m, moves, SpinLimit(setting));
    i < |r.threads| && if toRead then HoldsRead(r.threads[i]) else HoldsWrite(r.threads[i])
  }

  // Two threads may read at once.
  lemma TwoReaders(m: Machine, i: nat, j: nat, setting: Setting) returns (moves: seq<Move>)
    requires Inv(m) && i < |m.threads| && j < |m.threads| && i != j && m.threads[i].Idle? && m.threads[j].Idle?
    requires m.word.gate.Open? && m.word.readers + 2 <= MaxReadLocks && setting != Spins(-1)
    ensures var r := Run(m, moves, SpinLimit(setting));
            && |r.threads| == |m.threads| && HoldsRead(r.threads[i]) && HoldsRead(r.threads[j])
            && r.word == m.word.(readers := m.word.readers + 2)
  {
    hide Run, Inv;
    var limit := SpinLimit(setting);
    var a := Reads(m, i, setting);
    var r := Run(m, a, limit);
    var b := Reads(r, j, setting);
    moves := a + b;
    RunOn(m, a, b, limit);
  }

  // A reader that finds the gate shut, or too many readers, does not get in by itself.
  lemma {:induction false} StaysOut(m: Machine, i: nat, spinMax: int, n: nat)
    requires i < |m.threads| && WantsRead(m.threads[i])
    requires !m.word.gate.Open? || m.word.readers == MaxReadLocks
    ensures var r := Run(m, Alone(i, n), spinMax);
            |r.threads| == |m.threads| && WantsRead(r.threads[i]) && r.word == m.word
    decreases n
  {
    var moves := Alone(i, n);
    if n > 0 {
      assert moves[1..] == Alone(i, n - 1);
      StaysOut(Step(m, i, Release, spinMax), i, spinMax, n - 1);
    }
  }

  // So a thread that wants to read gets in by itself if and only if the gate is open, there is
  // room for one more reader, and the number of spins is not configured as -1.
  lemma ReadsExactly(m: Machine, i: nat, setting: Setting)
    requires Inv(m) && i < |m.threads| && m.threads[i].ReadYield?
    ensures (exists n: nat :: ReadsAfter(m, i, setting, n)) <==>
            m.word.gate.Open? && m.word.readers < MaxReadLocks && setting != Spins(-1)
  {
    if m.word.gate.Open? && m.word.readers < MaxReadLocks {
      SpinsExactly(m, i, setting);
    } else {
      assert m.word.readers <= MaxReadLocks by {
        assert GateInv(m);
      }
      forall n: nat
        ensures !ReadsAfter(m, i, setting, n)
      {
        StaysOut(m, i, SpinLimit(setting), n);
      }
    }
  }

  // ----- closing the gate ----------------------------------------------------

  // A writer that finds readers in closes the gate, so that nobody else gets in.
  lemma ClosesGate(m: Machine, i: nat, spinMax: int) returns (moves: seq<Move>)
    requires Inv(m) && i < |m.threads| && (m.threads[i].WriteTry? || m.threads[i].WriteYield?)
    requires !Keeps(m.threads[i]) && m.word.gate.Open? && m.word.readers > 0
    ensures |moves| <= 3 && moves == Alone(i, |moves|)
    ensures var r := Run(m, moves, spinMax);
            && OnlyMoved(m, r, i) && Keeps(r.threads[i]) && r.word == m.word.(gate := Closing)
  {
    RunNone(m, spinMax);
    hide Run, Inv;
    var go := Move(i, Release);
    moves := [];
    var r := m;
    if r.threads[i].WriteTry? && r.threads[i].seen != m.word {
      moves, r := Then(m, moves, r, go, spinMax);
    }
    if r.threads[i].WriteYield? {
      moves, r := Then(m, moves, r, go, spinMax);
    }
    if !Keeps(r.threads[i]) {
      moves, r := Then(m, moves, r, go, spinMax);
    }
  }

  // ----- yielding ------------------------------------------------------------

  // Somebody is in the way of thread `i`, which has just looked.
  predicate Blocked(m: Machine, t: Thread) {
    match t
    case ReadTry(seen, spin) => seen == m.word && spin > 0 && !seen.gate.Open? && seen.readers < MaxReadLocks
    case WriteTry(seen, spin, keeper) =>
      seen == m.word && spin > 0 && if keeper then m.word.gate.Closing? && m.word.readers > 0 else !m.word.gate.Open?
    case _ => false
  }

  // It tries as often as it may, and then yields.
  lemma {:induction false} Yields(m: Machine, i: nat, spinMax: int)
    requires i < |m.threads| && Blocked(m, m.threads[i])
    ensures var t := m.threads[i];
            var y := if t.ReadTry? then ReadYield else WriteYield(t.keeper);
            Run(m, Alone(i, t.spin), spinMax) == m.To(i, y)
    decreases m.threads[i].spin
  {
    var t := m.threads[i];
    var moves := Alone(i, t.spin);
    var next := Step(m, i, Release, spinMax);
    assert moves[1..] == Alone(i, t.spin - 1);
    if t.spin > 1 {
      Yields(next, i, spinMax);
      assert next.threads[i := ReadYield] == m.threads[i := ReadYield];
      assert t.WriteTry? ==> next.threads[i := WriteYield(t.keeper)] == m.threads[i := WriteYield(t.keeper)];
    } else {
      assert moves[1..] == [];
    }
  }

  // And then it tries as often again: as long as somebody is in the way it yields after every
  // so many tries as are configured.
  lemma YieldsAgain(m: Machine, i: nat, setting: Setting)
    requires i < |m.threads| && SpinLimit(setting) > 0
    requires m.threads[i].ReadYield? || m.threads[i].WriteYield?
    requires Blocked(m, Step(m, i, Release, SpinLimit(setting)).threads[i])
    ensures Run(m, Alone(i, 1 + SpinLimit(setting)), SpinLimit(setting)) == m
  {
    var limit := SpinLimit(setting);
    var moves := Alone(i, 1 + limit);
    var next := Step(m, i, Release, limit);
    assert moves[1..] == Alone(i, limit);
    Yields(next, i, limit);
    assert next.threads[i := m.threads[i]] == m.threads;
  }

  // ----- the monitor ---------------------------------------------------------

  // Between asking for the monitor and having it.
  predicate OnTheWay(t: Thread) {
    t.MonitorPeek? || t.MonitorTry? || t.MonitorCreate? || t.MonitorPublish?
  }

  // From `m` to `r` only thread `i` has moved, and only the monitor has changed.
  ghost predicate OnlyMonitor(m: Machine, r: Machine, i: nat) {
    && i < |m.threads| == |r.threads| && r.threads == m.threads[i := r.threads[i]]
    && r.word == m.word.(monitor := r.word.monitor)
  }

  // A thread that moves alone on an object that has no monitor creates it, and has it.
  lemma MonitorAlone(m: Machine, i: nat, spinMax: int) returns (moves: seq<Move>)
    requires Inv(m) && i < |m.threads| && m.threads[i].Idle? && m.word.monitor.Flat?
    ensures moves == [Move(i, UseMonitor)] + Alone(i, 6)
    ensures var r := Run(m, moves, spinMax);
            && OnlyMonitor(m, r, i) && r.word.monitor.Inflated?
            && r.threads[i] == MonitorUsed(1) && r.condition == r.created == 1
  {
    assert m.created == 0 by {
      assert MonitorInv(m);
    }
    RunNone(m, spinMax);
    hide Run, Inv;
    var go, r := Move(i, Release), m;
    var mine, done := m.word.(monitor := Inflating), m.word.(monitor := Inflated);
    moves, r := Then(m, [], r, Move(i, UseMonitor), spinMax);
    assert r == m.To(i, MonitorPeek);
    moves, r := Then(m, moves, r, go, spinMax);
    assert r == m.To(i, MonitorTry(m.word));
    moves, r := Then(m, moves, r, go, spinMax);
    assert r == m.(word := mine).To(i, MonitorCreate(mine));
    moves, r := Then(m, moves, r, go, spinMax);
    assert r == m.(word := mine, condition := 1, created := 1).To(i, MonitorPublish(mine));
    moves, r := Then(m, moves, r, go, spinMax);
    assert r == m.(word := done, condition := 1, created := 1).To(i, MonitorPublish(mine));
    moves, r := Then(m, moves, r, go, spinMax);
    assert r == m.(word := done, condition := 1, created := 1).To(i, MonitorPublish(done));
    moves, r := Then(m, moves, r, go, spinMax);
    assert r == m.(word := done, condition := 1, created := 1).To(i, MonitorUsed(1));
    assert moves == [Move(i, UseMonitor)] + Alone(i, 6);
  }

  // Once it is there, one move is enough.
  lemma MonitorThere(m: Machine, i: nat, spinMax: int)
    requires i < |m.threads| && m.threads[i].Idle? && m.word.monitor.Inflated?
    ensures Step(m, i, UseMonitor, spinMax) == m.To(i, MonitorUsed(m.condition))
  {
  }

  // The thread that inflates the monitor gets to the end of it by itself.
  lemma Inflates(m: Machine, k: nat, spinMax: int) returns (moves: seq<Move>)
    requires Inv(m) && k < |m.threads| && (Creates(m.threads[k]) || Publishes(m.threads[k]))
             && m.word.monitor.Inflating?
    ensures |moves| <= 3 && moves == Alone(k, |moves|)
    ensures var r := Run(m, moves, spinMax);
            Inv(r) && OnlyMonitor(m, r, k) && r.word.monitor.Inflated? && OnTheWay(r.threads[k])
  {
    RunNone(m, spinMax);
    var t := m.threads[k];
    assert t.MonitorCreate? ==> t.mine.monitor == Inflating by {
      assert Sees(m, t);
    }
    hide Run, Inv;
    var go, r := Move(k, Release), m;
    moves := [];
    if t.MonitorCreate? {
      moves, r := Then(m, moves, r, go, spinMax);
      assert r.threads == m.threads[k := MonitorPublish(t.mine)] && r.word == m.word;
    }
    assert r.threads[k].MonitorPublish? && r.threads[k].seen.monitor.Inflating?
           && r.threads == m.threads[k := r.threads[k]];
    if r.threads[k].seen != m.word {
      moves, r := Then(m, moves, r, go, spinMax);
      assert r.threads == m.threads[k := MonitorPublish(m.word)] && r.word == m.word;
    }
    moves, r := Then(m, moves, r, go, spinMax);
    assert r.threads == m.threads[k := MonitorPublish(m.word)];
    RunInv(m, moves, spinMax);
  }

  // Once there is a monitor everybody who asks for it has it.
  lemma HasMonitor(m: Machine, i: nat, spinMax: int) returns (moves: seq<Move>)
    requires Inv(m) && i < |m.threads| && OnTheWay(m.threads[i]) && m.word.monitor.Inflated?
    ensures |moves| <= 3 && moves == Alone(i, |moves|)
    ensures var r := Run(m, moves, spinMax);
            && OnlyMonitor(m, r, i) && r.threads[i] == MonitorUsed(m.condition)
            && r.word == m.word && r.condition == m.condition && r.created == m.created
  {
    RunNone(m, spinMax);
    BeforeStep(m, i, Idle);
    hide Run, Inv;
    var go, r, t := Move(i, Release), m, m.threads[i];
    assert !t.MonitorCreate? && (t.MonitorPublish? ==> !t.seen.monitor.Flat?);
    moves := [];
    if t.MonitorPeek? || (!t.seen.monitor.Inflated?) {
      moves, r := Then(m, moves, r, go, spinMax);
    }
    assert r == m.To(i, r.threads[i]);
    assert (r.threads[i].MonitorTry? || r.threads[i].MonitorPublish?) && r.threads[i].seen.monitor.Inflated?;
    moves, r := Then(m, moves, r, go, spinMax);
    assert r == m.To(i, MonitorUsed(m.condition));
  }

  // Before anybody has begun to inflate it, whoever is on the way does.
  lemma Begins(m: Machine, i: nat, spinMax: int) returns (moves: seq<Move>)
    requires Inv(m) && i < |m.threads| && OnTheWay(m.threads[i]) && m.word.monitor.Flat?
    ensures |moves| <= 3 && moves == Alone(i, |moves|)
    ensures var r := Run(m, moves, spinMax);
            Inv(r) && OnlyMonitor(m, r, i) && r.word.monitor.Inflating? && Creates(r.threads[i])
  {
    RunNone(m, spinMax);
    BeforeStep(m, i, Idle);
    hide Run, Inv;
    var go, r, t := Move(i, Release), m, m.threads[i];
    assert t.MonitorPeek? || (t.MonitorTry? && t.seen.monitor.Flat?);
    moves := [];
    if t.MonitorPeek? || t.seen != m.word {
      moves, r := Then(m, moves, r, go, spinMax);
      assert r.threads[i] == MonitorTry(m.word);
    }
    assert r == m.To(i, MonitorTry(m.word));
    moves, r := Then(m, moves, r, go, spinMax);
    RunInv(m, moves, spinMax);
  }

  // From every reachable state, every thread that is on the way gets the one condition, by
  // moves of its own and of the thread that inflates the monitor.
  lemma GetsMonitor(start: Machine, before: seq<Move>, i: nat, spinMax: int) returns (moves: seq<Move>, k: nat)
    requires Initial(start) && i < |Run(start, before, spinMax).threads|
    requires OnTheWay(Run(start, before, spinMax).threads[i])
    ensures |moves| <= 9 && forall n :: 0 <= n < |moves| ==> moves[n].thread == i || moves[n].thread == k
    ensures var m := Run(start, before, spinMax);
            k < |m.threads| && (k == i || Creates(m.threads[k]) || Publishes(m.threads[k]))
    ensures var r := Run(Run(start, before, spinMax), moves, spinMax);
            && i < |r.threads| && r.threads[i] == MonitorUsed(r.condition) && r.created == 1
            && r.word.monitor.Inflated?
  {
    InitialInv(start);
    RunInv(start, before, spinMax);
    moves, k := GetsOne(Run(start, before, spinMax), i, spinMax);
  }

  lemma GetsOne(m: Machine, i: nat, spinMax: int) returns (moves: seq<Move>, k: nat)
    requires Inv(m) && i < |m.threads| && OnTheWay(m.threads[i])
    ensures |moves| <= 9 && forall n :: 0 <= n < |moves| ==> moves[n].thread == i || moves[n].thread == k
    ensures k < |m.threads| && (k == i || Creates(m.threads[k]) || Publishes(m.threads[k]))
    ensures var r := Run(m, moves, spinMax);
            && i < |r.threads| && r.threads[i] == MonitorUsed(r.condition) && r.created == 1
            && r.word.monitor.Inflated?
  {
    var a, b: seq<Move> := [], [];
    k := i;
    RunNone(m, spinMax);
    var r := m;
    if m.word.monitor.Flat? {
      a := Begins(m, i, spinMax);
      r := Run(m, a, spinMax);
    } else if m.word.monitor.Inflating? {
      k := SomeInflator(m);
    }
    RunNone(r, spinMax);
    hide Run, Inv;
    var s := r;
    if r.word.monitor.Inflating? {
      b := Inflates(r, k, spinMax);
      s := Run(r, b, spinMax);
    }
    RunOn(m, a, b, spinMax);
    var c := HasMonitor(s, i, spinMax);
    RunOn(m, a + b, c, spinMax);
    moves := a + b + c;
    CreatedOne(s);
  }

  lemma CreatedOne(m: Machine)
    requires Inv(m) && m.word.monitor.Inflated?
    ensures m.created == 1
  {
    assert MonitorInv(m);
  }

  lemma SomeInflator(m: Machine) returns (k: nat)
    requires Inv(m) && m.word.monitor.Inflating?
    ensures k < |m.threads| && (Creates(m.threads[k]) || Publishes(m.threads[k]))
  {
    CountNone(m.threads, Creates);
    CountNone(m.threads, Publishes);
    assert MonitorInv(m);
    hide Inv, Count;
    var n :| 0 <= n < |m.threads| && (Creates(m.threads[n]) || Publishes(m.threads[n]));
    k := n;
  }
}
