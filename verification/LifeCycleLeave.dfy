// What happens when a reference leaves, and that it can.
module LifeCycleLeave {
  import opened Counting
  import opened LifeCycleRefs
  import opened LifeCycleWeak
  import opened LifeCycleRuns
  import opened LifeCycleAttach

  // The count of kind `kind` has been lowered by `weight`.
  ghost predicate Lowers(w: Word, now: Word, kind: Kind, weight: nat) {
    && now.weak == w.weak && now.Of(kind) + weight == w.Of(kind)
    && (if kind.Handle? then now.views == w.views else now.handles == w.handles)
  }

  // A reference of kind `kind` has left, and the counts are `r.word` now: the last one destroys
  // the object, the last handle makes it immutable, and the last but that of the weak reference
  // flips or clears that.
  ghost predicate LeftAs(m: Machine, r: Machine, kind: Kind) {
    var now := r.word;
    && r.consts == m.consts + Bit(kind.Handle? && now.handles == 0 && now.views > 0)
    && r.destroyed == m.destroyed + Bit(now.handles == 0 && now.views == 0)
    && r.flip == (m.flip || (kind.Handle? && now.handles == EscapedIncrement && now.weak.Inflated?))
    && r.clear == (m.clear
                   || (kind.View? && now.handles == 0 && now.views == EscapedIncrement && now.weak.Inflated?))
    && r.destructing == (m.destructing || (now.handles == 0 && now.views == 0))
    && r.captured == m.captured && r.revived == m.revived && r.caller == m.caller && r.missed == m.missed
  }

  // The update of a detach that need not wait for a view, and what follows it.
  lemma DetachWins(m: Machine, i: nat)
    requires i < |m.refs| && m.refs[i].Detach? && m.refs[i].seen == m.word && !m.captured
    requires var x := m.refs[i];
             && 0 < x.weight <= m.word.Of(x.kind) < MaxCount
             && (x.kind.Handle? && m.word.handles <= 2 && m.word.views > 0 ==> x.temp.Some?)
    ensures var x, r := m.refs[i], Next(m, Move(i, Go));
            && Lowers(m.word, r.word, x.kind, x.weight) && r == m.(word := r.word, refs := r.refs)
            && r.refs == m.refs[i := r.refs[i]] && r.refs[i].After? && LeftAs(m, Next(r, Move(i, Go)), x.kind)
            && Next(r, Move(i, Go)).refs == m.refs[i := Gone] && Next(r, Move(i, Go)).word == r.word
  {
    var x := m.refs[i];
    var now := m.word.With(x.kind, m.word.Of(x.kind) - x.weight);
    hide StepTemp;
    assert Next(m, Move(i, Go)) == m.(word := now).To(i, After(TaskAfter(x.kind, now), x.temp));
  }

  // It has to wait for a view that keeps the object alive.
  predicate Waits(m: Machine, i: nat) {
    i < |m.refs| && m.refs[i].Live? && m.refs[i].kind.Handle? && m.word.handles <= 2 && m.word.views > 0
  }

  lemma LiveKnown(m: Machine, i: nat)
    requires Inv(m) && i < |m.refs| && m.refs[i].Live?
    ensures var x := m.refs[i];
            && 1 <= x.weight <= 2 && !m.destructing && m.word.handles <= MaxCount && m.word.views <= MaxCount
            && x.weight <= m.word.Of(x.kind)
  {
    Knows(m, i);
    SomethingStays(m, i);
    LiveWeight(m.refs[i]);
    hide Inv;
  }

  lemma LeaveStarts(m: Machine, i: nat) returns (moves: seq<Move>)
    requires i < |m.refs| && m.refs[i].Live? && MayLeave(m, i) && !m.captured
    ensures moves == [Move(i, Leave), Move(i, Go)]
    ensures Run(m, moves) == m.To(i, Detach(m.refs[i].kind, m.refs[i].weight, m.word, None))
  {
    var x := m.refs[i];
    RunNothing(m);
    hide Run, MayLeave;
    var r;
    moves, r := Then(m, [], m, Move(i, Leave));
    assert r == m.To(i, Leaving(x.kind, x.weight));
    moves, r := Then(m, moves, r, Move(i, Go));
    assert r.refs == m.refs[i := Detach(x.kind, x.weight, m.word, None)];
  }

  // A reference that nobody needs leaves within four moves of its own.
  lemma Leaves(m: Machine, i: nat) returns (moves: seq<Move>)
    requires Inv(m) && i < |m.refs| && m.refs[i].Live? && MayLeave(m, i) && !m.captured
    requires m.word.Of(m.refs[i].kind) != MaxCount && !Waits(m, i)
    ensures |moves| == 4 && forall n :: 0 <= n < |moves| ==> moves[n].ref == i
    ensures var x, r := m.refs[i], Run(m, moves);
            Lowers(m.word, r.word, x.kind, x.weight) && LeftAs(m, r, x.kind) && r.refs == m.refs[i := Gone]
  {
    var x := m.refs[i];
    LiveKnown(m, i);
    moves := LeaveStarts(m, i);
    var d := m.To(i, Detach(x.kind, x.weight, m.word, None));
    DetachWins(d, i);
    hide Run, Next, Inv, LeftAs;
    var r;
    moves, r := Then(m, moves, d, Move(i, Go));
    moves, r := Then(m, moves, r, Move(i, Go));
    SameLeft(m, d, r, x.kind);
    assert r.refs == m.refs[i := Gone];
  }

  lemma SameLeft(m: Machine, d: Machine, r: Machine, kind: Kind)
    requires d == m.(word := d.word, refs := d.refs) && LeftAs(d, r, kind)
    ensures LeftAs(m, r, kind)
  {
  }

  // A detach that has begun, whatever it has seen, ends within three moves of its own, if it need
  // not wait for a view.
  lemma DetachAlone(m: Machine, i: nat) returns (moves: seq<Move>)
    requires Inv(m) && i < |m.refs| && m.refs[i].Detach? && !m.captured
    requires var x := m.refs[i];
             && m.word.Of(x.kind) != MaxCount
             && (x.kind.Handle? && x.temp.None? ==>
                   !(m.word.handles <= 2 && m.word.views > 0) && !(x.seen.handles <= 2 && x.seen.views > 0))
    ensures |moves| <= 3 && forall n :: 0 <= n < |moves| ==> moves[n] == Move(i, Go)
    ensures var x, r := m.refs[i], Run(m, moves);
            Lowers(m.word, r.word, x.kind, x.weight) && LeftAs(m, r, x.kind) && r.refs == m.refs[i := Gone]
  {
    var x, go := m.refs[i], Move(i, Go);
    DetachKnown(m, i);
    RunNothing(m);
    hide Run, Inv, LeftAs;
    var d, r := m, m;
    moves := [];
    if x.seen != m.word {
      LooksAgain(m, i);
      hide Next;
      moves, d := Then(m, [], m, go);
    }
    DetachWins(d, i);
    hide Next;
    moves, r := Then(m, moves, d, go);
    moves, r := Then(m, moves, r, go);
    SameLeft(m, d, r, x.kind);
    assert r.refs == m.refs[i := Gone];
  }

  lemma DetachKnown(m: Machine, i: nat)
    requires Inv(m) && i < |m.refs| && m.refs[i].Detach?
    ensures var x := m.refs[i];
            && 1 <= x.weight <= 2 && x.weight <= x.seen.Of(x.kind) && Seen(m, x.seen)
            && m.word.handles <= MaxCount && m.word.views <= MaxCount && x.weight <= m.word.Of(x.kind)
  {
    Knows(m, i);
    SomethingStays(m, i);
    hide Inv, TempStays;
    assert Weight(m.refs[i], m.refs[i].kind) == m.refs[i].weight;
  }

  lemma LooksAgain(m: Machine, i: nat)
    requires i < |m.refs| && m.refs[i].Detach? && m.refs[i].seen != m.word && !m.captured
    requires var x := m.refs[i];
             && 0 < x.weight <= x.seen.Of(x.kind) < MaxCount
             && (x.kind.Handle? && x.temp.None? ==> !(x.seen.handles <= 2 && x.seen.views > 0))
    ensures var x := m.refs[i]; Next(m, Move(i, Go)) == m.To(i, Detach(x.kind, x.weight, m.word, x.temp))
  {
  }

  // One that is immortal just goes.
  lemma LeavesImmortal(m: Machine, i: nat) returns (moves: seq<Move>)
    requires Inv(m) && i < |m.refs| && m.refs[i].Live? && MayLeave(m, i) && !m.captured
    requires m.word.Of(m.refs[i].kind) == MaxCount
    ensures |moves| == 3 && forall n :: 0 <= n < |moves| ==> moves[n].ref == i
    ensures Run(m, moves) == m.To(i, Gone)
  {
    var x := m.refs[i];
    moves := LeaveStarts(m, i);
    var d := m.To(i, Detach(x.kind, x.weight, m.word, None));
    assert Next(d, Move(i, Go)) == d.To(i, Gone);
    hide Run, Next, Inv;
    var r;
    moves, r := Then(m, moves, d, Move(i, Go));
    assert r.refs == m.refs[i := Gone];
  }

  // With the view there the detach goes on.
  lemma DetachEnds(m: Machine, i: nat, seen: Word, t: nat) returns (moves: seq<Move>)
    requires i < |m.refs| && m.refs[i].Detach? && m.refs[i] == Detach(Handle, m.refs[i].weight, seen, Some(t))
    requires 0 < m.refs[i].weight <= seen.handles == m.word.handles <= 2 && m.word.views > 0 && !m.captured
    ensures forall n :: 0 <= n < |moves| ==> moves[n].ref == i
    ensures var w, r := m.refs[i].weight, Run(m, moves);
            Lowers(m.word, r.word, Handle, w) && LeftAs(m, r, Handle) && r.refs == m.refs[i := Gone]
  {
    var w := m.refs[i].weight;
    RunNothing(m);
    moves := [];
    var d, r := m, m;
    if m.word != seen {
      Again(m, i, w, seen, t);
      hide Run, Next, LeftAs;
      moves, d := Then(m, [], m, Move(i, Go));
      assert d == m.To(i, Detach(Handle, w, m.word, Some(t)));
    }
    DetachWins(d, i);
    hide Run, Next, LeftAs;
    moves, r := Then(m, moves, d, Move(i, Go));
    moves, r := Then(m, moves, r, Move(i, Go));
    SameLeft(m, d, r, Handle);
    assert r.refs == m.refs[i := Gone];
  }

  // The last handles leave with a view that keeps the object alive while it is made immutable;
  // that view is there afterwards, and may leave in turn.
  lemma LeavesWithView(m: Machine, i: nat, t: nat) returns (moves: seq<Move>)
    requires Inv(m) && i < |m.refs| && m.refs[i].Live? && MayLeave(m, i) && !m.captured
    requires Waits(m, i) && Spare(m, t) && (m.word.weak.Inflated? ==> m.word.handles + m.word.views != EscapedIncrement)
    ensures forall n :: 0 <= n < |moves| ==> moves[n].ref == i || moves[n].ref == t
    ensures var x, r := m.refs[i], Run(m, moves);
            && r.word.handles + x.weight == m.word.handles && r.word.weak == m.word.weak
            && r.word.views == (if m.word.views + 1 > MaxCount then MaxCount else m.word.views + 1)
            && LeftAs(m, r, Handle) && r.refs == m.refs[t := Live(View, 1)][i := Gone]
  {
    var x := m.refs[i];
    LiveKnown(m, i);
    moves := LeaveStarts(m, i);
    var d := m.To(i, Detach(Handle, x.weight, m.word, None));
    assert t != i && Spare(d, t);
    var more := ViewComes(d, i, x.weight, t);
    RunOn(m, moves, more);
    moves := moves + more;
    AttachedOne(m.word);
    var v := Run(d, more);
    hide Run, Inv, LeftAs, Attached;
    var end := DetachEnds(v, i, m.word, t);
    RunOn(m, moves, end);
    moves := moves + end;
    SameLeft(m, v, Run(m, moves), Handle);
    assert Run(m, moves).refs == m.refs[t := Live(View, 1)][i := Gone];
  }

  // ----- the weak reference comes and goes -----------------------------------

  // Whoever asks for the weak reference gets it: with a handle if there are any, and else with
  // a view.
  lemma WeakComes(m: Machine, c: nat) returns (moves: seq<Move>)
    requires Good(m) && 2 <= c < |m.refs| && m.refs[c].Live? && !m.captured && m.word.weak.Flat?
    ensures |moves| <= 8 && forall n :: 0 <= n < |moves| ==> moves[n].ref == c || moves[n].ref == 0
    ensures var kind, r := if m.word.handles > 0 then Handle else View, Run(m, moves);
            && Raises(m.word.(weak := Inflated), r.word, kind, EscapedIncrement)
            && r == m.(word := r.word, caller := c, missed := r.word.handles == EscapedIncrement)
                    .To(0, Live(kind, EscapedIncrement))
  {
    LiveKnown(m, c);
    var kind := if m.word.handles > 0 then Handle else View;
    var asked := m.(word := m.word.(weak := Inflating), caller := c);
    moves := WeakLooks(m, c);
    var r, kept := Run(m, moves), Live(kind, EscapedIncrement);
    AttachesNow(r, 0);
    NotBlocked(r, 0);
    hide Run, Inv, WeakInv, AllLooked, Next;
    moves, r := Then(m, moves, r, Move(0, Go));
    assert r.refs == asked.To(0, kept).refs;
    WeakReady(m, asked, r, c, kept);
    moves, r := Then(m, moves, r, Move(c, Publish));
  }

  lemma WeakLooks(m: Machine, c: nat) returns (moves: seq<Move>)
    requires Good(m) && 2 <= c < |m.refs| && m.refs[c].Live? && !m.captured && m.word.weak.Flat?
    ensures |moves| <= 6 && forall n :: 0 <= n < |moves| ==> moves[n].ref == c || moves[n].ref == 0
    ensures var kind := if m.word.handles > 0 then Handle else View;
            var asked := m.(word := m.word.(weak := Inflating), caller := c);
            Run(m, moves) == asked.To(0, Attach(kind, EscapedIncrement, c, asked.word))
  {
    LiveKnown(m, c);
    assert m.refs[0].Unborn? by {
      assert Stages(m.word, StatusOf(m)) && StatusOf(m).r0 == m.refs[0];
    }
    RunNothing(m);
    hide Run, Inv, WeakInv, AllLooked, Good;
    var asked := m.(word := m.word.(weak := Inflating), caller := c);
    var go, r := Move(0, Go), m;
    moves, r := Then(m, [], m, Move(c, Inflate));
    assert r == asked;
    moves, r := Then(m, moves, r, Move(0, Copy(Handle, EscapedIncrement, c)));
    assert r == asked.To(0, Peek(Handle, EscapedIncrement, c));
    moves, r := Then(m, moves, r, go);
    if m.word.handles == 0 {
      assert r == asked.To(0, Refused);
      hide Next;
      var more := ViewInstead(r, c);
      RunOn(m, moves, more);
      moves := moves + more;
      r := Run(m, moves);
    }
    assert r.refs == asked.To(0, r.refs[0]).refs;
  }

  lemma ViewInstead(m: Machine, c: nat) returns (moves: seq<Move>)
    requires |m.refs| >= 2 && m.refs[0].Refused? && 2 <= c < |m.refs| && m.refs[c].Live? && m.word.weak.Inflating?
    requires !m.captured && !m.destructing
    ensures |moves| == 3 && forall n :: 0 <= n < |moves| ==> moves[n].ref == 0
    ensures Run(m, moves) == m.To(0, Attach(View, EscapedIncrement, c, m.word))
  {
    RunNothing(m);
    hide Run;
    var r;
    moves, r := Then(m, [], m, Move(0, Copy(View, EscapedIncrement, c)));
    assert r == m.To(0, Begin(EscapedIncrement, c));
    moves, r := Then(m, moves, r, Move(0, Go));
    assert r == m.To(0, Peek(View, EscapedIncrement, c));
    moves, r := Then(m, moves, r, Move(0, Go));
    assert r.refs == m.refs[0 := Attach(View, EscapedIncrement, c, m.word)];
  }

  lemma NotBlocked(m: Machine, i: nat)
    requires i < |m.refs| && m.refs[i].Attach? && m.refs[i].seen == m.word && !m.captured && !m.word.weak.Inflated?
    requires m.word.handles <= MaxCount && m.word.views <= MaxCount && m.refs[i].weight > 0
    ensures var r := Next(m, Move(i, Go));
            && r.refs[i].Live?
            && (m.refs[i].weight == 2 && m.word.handles + m.word.views > 0 ==> !r.captured)
            && ((m.refs[i].kind.Handle? ==> m.word.handles > 0) ==> r.revived == m.revived)
  {
  }

  lemma WeakReady(m: Machine, asked: Machine, r: Machine, c: nat, kept: Ref)
    requires |m.refs| >= 2 && 2 <= c < |m.refs| && m.refs[c].Live? && kept.Live? && !m.captured
    requires asked == m.(word := m.word.(weak := Inflating), caller := c)
    requires r == asked.(word := r.word).To(0, kept) && r.word.weak.Inflating?
    ensures Next(r, Move(c, Publish)) ==
            m.(word := r.word.(weak := Inflated), caller := c, missed := r.word.handles == EscapedIncrement).To(0, kept)
  {
  }

  // A run in which all goes well: the weak reference gets a handle, which it gives up for a view
  // when the last other handle has left, and that view when the last other one has.
  lemma ObjectDestroyed() returns (moves: seq<Move>)
    ensures Initial(Pair())
    ensures var r := Run(Pair(), moves);
            LeftOver(r) && r.word == Word(Inflated, 0, 0) && r.flip && r.clear && r.consts == 1 && r.destroyed == 1
  {
    PairInitial();
    hide Run, Initial;
    moves := WellMade();
    moves := WellHandleLeaves(moves);
    moves := WellFlips(moves);
    moves := WellOwnLeaves(moves);
    moves := WellTempLeaves(moves);
    moves := WellViewLeaves(moves);
    moves := WellOwnViewLeaves(moves);
  }

  // The references of the pair, and what the weak reference has of them.
  function Scene(handles: nat, views: nat, own: Ref, ownView: Ref, handle: Ref, view: Ref, temp: Ref): Machine {
    Pair().(word := Word(Inflated, handles, views), caller := 3, refs := [own, ownView, handle, view, temp, Unborn])
  }

  lemma QuietMayLeave(m: Machine, i: nat)
    requires forall k :: 0 <= k < |m.refs| ==> m.refs[k].Unborn? || m.refs[k].Live? || m.refs[k].Gone?
    requires m.word.weak.Inflated? && |m.refs| > 1
    requires (i == 0 ==> m.flip && m.refs[1].Live?) && (i == 1 ==> m.clear)
    ensures MayLeave(m, i)
  {
  }

  // Reference `i`, which is not the last handle, leaves.
  lemma WellLeaves(moves: seq<Move>, i: nat) returns (moves': seq<Move>)
    requires Initial(Pair())
    requires var m := Run(Pair(), moves);
             && i < |m.refs| && m.refs[i].Live? && MayLeave(m, i) && !m.captured && !Waits(m, i)
             && m.word.handles < MaxCount && m.word.views < MaxCount
    ensures var m, r := Run(Pair(), moves), Run(Pair(), moves');
            && i < |m.refs| && m.refs[i].Live? && Lowers(m.word, r.word, m.refs[i].kind, m.refs[i].weight)
            && LeftAs(m, r, m.refs[i].kind) && r.refs == m.refs[i := Gone]
  {
    InitialInv(Pair());
    RunInv(Pair(), moves);
    hide Run, Inv, Initial, MayLeave, LeftAs;
    var more := Leaves(Run(Pair(), moves), i);
    RunOn(Pair(), moves, more);
    moves' := moves + more;
  }

  lemma WellMade() returns (moves: seq<Move>)
    requires Initial(Pair())
    ensures Run(Pair(), moves) == Scene(4, 2, Live(Handle, 2), Unborn, Live(Handle, 2), Live(View, 2), Unborn)
  {
    RunNothing(Pair());
    ReachableGood(Pair(), []);
    hide Run, Good, Initial;
    moves := WeakComes(Pair(), 3);
  }

  lemma WellHandleLeaves(moves: seq<Move>) returns (moves': seq<Move>)
    requires Initial(Pair())
    requires Run(Pair(), moves) == Scene(4, 2, Live(Handle, 2), Unborn, Live(Handle, 2), Live(View, 2), Unborn)
    ensures Run(Pair(), moves') ==
            Scene(2, 2, Live(Handle, 2), Unborn, Gone, Live(View, 2), Unborn).(flip := true)
  {
    hide Run, Initial;
    QuietMayLeave(Run(Pair(), moves), 2);
    hide MayLeave;
    moves' := WellLeaves(moves, 2);
  }

  lemma WellFlips(moves: seq<Move>) returns (moves': seq<Move>)
    requires Run(Pair(), moves) ==
             Scene(2, 2, Live(Handle, 2), Unborn, Gone, Live(View, 2), Unborn).(flip := true)
    ensures Run(Pair(), moves') ==
            Scene(2, 4, Live(Handle, 2), Live(View, 2), Gone, Live(View, 2), Unborn).(flip := true)
  {
    var m, own := Run(Pair(), moves), Live(Handle, 2);
    hide Run;
    moves', m := Then(Pair(), moves, m, Move(1, Copy(View, 2, 0)));
    assert m == Scene(2, 2, own, Begin(2, 0), Gone, Live(View, 2), Unborn).(flip := true);
    moves', m := Then(Pair(), moves', m, Move(1, Go));
    assert m == Scene(2, 2, own, Peek(View, 2, 0), Gone, Live(View, 2), Unborn).(flip := true);
    moves', m := Then(Pair(), moves', m, Move(1, Go));
    var look := Attach(View, 2, 0, Word(Inflated, 2, 2));
    assert m == Scene(2, 2, own, look, Gone, Live(View, 2), Unborn).(flip := true);
    moves', m := Then(Pair(), moves', m, Move(1, Go));
  }

  lemma WellOwnLeaves(moves: seq<Move>) returns (moves': seq<Move>)
    requires Initial(Pair())
    requires Run(Pair(), moves) ==
             Scene(2, 4, Live(Handle, 2), Live(View, 2), Gone, Live(View, 2), Unborn).(flip := true)
    ensures Run(Pair(), moves') ==
            Scene(0, 5, Gone, Live(View, 2), Gone, Live(View, 2), Live(View, 1)).(flip := true, consts := 1)
  {
    InitialInv(Pair());
    RunInv(Pair(), moves);
    hide Run, Inv, Initial;
    var m := Run(Pair(), moves);
    QuietMayLeave(m, 0);
    hide MayLeave, LeftAs;
    var more := LeavesWithView(m, 0, 4);
    RunOn(Pair(), moves, more);
    moves' := moves + more;
    OwnLeft(Run(m, more));
  }

  lemma OwnLeft(r: Machine)
    requires var m := Scene(2, 4, Live(Handle, 2), Live(View, 2), Gone, Live(View, 2), Unborn).(flip := true);
             r.word == Word(Inflated, 0, 5) && LeftAs(m, r, Handle) && r.refs == m.refs[4 := Live(View, 1)][0 := Gone]
    ensures r ==
            Scene(0, 5, Gone, Live(View, 2), Gone, Live(View, 2), Live(View, 1)).(flip := true, consts := 1)
  {
  }

  lemma WellTempLeaves(moves: seq<Move>) returns (moves': seq<Move>)
    requires Initial(Pair())
    requires Run(Pair(), moves) ==
             Scene(0, 5, Gone, Live(View, 2), Gone, Live(View, 2), Live(View, 1)).(flip := true, consts := 1)
    ensures Run(Pair(), moves') ==
            Scene(0, 4, Gone, Live(View, 2), Gone, Live(View, 2), Gone).(flip := true, consts := 1)
  {
    hide Run, Initial;
    QuietMayLeave(Run(Pair(), moves), 4);
    hide MayLeave;
    moves' := WellLeaves(moves, 4);
  }

  lemma WellViewLeaves(moves: seq<Move>) returns (moves': seq<Move>)
    requires Initial(Pair())
    requires Run(Pair(), moves) ==
             Scene(0, 4, Gone, Live(View, 2), Gone, Live(View, 2), Gone).(flip := true, consts := 1)
    ensures Run(Pair(), moves') ==
            Scene(0, 2, Gone, Live(View, 2), Gone, Gone, Gone).(flip := true, consts := 1, clear := true)
  {
    hide Run, Initial;
    QuietMayLeave(Run(Pair(), moves), 3);
    hide MayLeave;
    moves' := WellLeaves(moves, 3);
  }

  lemma WellOwnViewLeaves(moves: seq<Move>) returns (moves': seq<Move>)
    requires Initial(Pair())
    requires Run(Pair(), moves) ==
             Scene(0, 2, Gone, Live(View, 2), Gone, Gone, Gone).(flip := true, consts := 1, clear := true)
    ensures Run(Pair(), moves') ==
            Scene(0, 0, Gone, Gone, Gone, Gone, Gone)
            .(flip := true, consts := 1, clear := true, destroyed := 1, destructing := true)
  {
    hide Run, Initial;
    QuietMayLeave(Run(Pair(), moves), 1);
    hide MayLeave;
    moves' := WellLeaves(moves, 1);
  }

  // ----- a handle that cannot be copied --------------------------------------

  // One handle and one view, and room for one more than in `Pair`.
  function Wide(word: Word, own: Ref, handle: Ref, temp: Ref, cast: Ref, copy: Ref): Machine {
    Pair().(word := word, refs := [own, Unborn, handle, Live(View, 2), temp, cast, copy])
  }

  function WidePair(): Machine {
    Wide(Word(Flat, 2, 2), Unborn, Live(Handle, 2), Unborn, Unborn, Unborn)
  }

  lemma WidePairInitial()
    ensures Initial(WidePair())
  {
    PairInitial();
    assert Counts(WidePair()) by {
      assert WidePair().refs == Pair().refs + [Unborn];
      OneMore(Pair().refs, Handle);
      OneMore(Pair().refs, View);
      hide Total;
    }
    hide Total, Counts;
    assert WidePair().refs[2].Live?;
  }

  lemma {:induction false} OneMore(s: seq<Ref>, k: Kind)
    ensures Total(s + [Unborn], k) == Total(s, k)
  {
    if s == [] {
      assert s + [Unborn] == [Unborn];
    } else {
      assert (s + [Unborn])[1..] == s[1..] + [Unborn];
      OneMore(s[1..], k);
    }
  }

  // With a handle that has come back through another view `Copies` does not hold.  A cast has
  // looked, the last handle leaves, and the weak reference is made with a view; then the cast
  // gets its handle, which is taken for that of the weak reference: no copy of it is attached.
  lemma CopyRefused() returns (moves: seq<Move>)
    ensures Initial(WidePair())
    ensures var r := Run(WidePair(), moves);
            && |r.refs| == 7 && r.revived == {5} && r.word == Word(Inflated, 2, 5)
            && r.refs[5] == Live(Handle, 2) && r.refs[0] == Live(View, 2)
            && r.refs[6] == Attach(Handle, 2, 5, r.word) && Next(r, Move(6, Go)) == r.To(6, Refused)
  {
    WidePairInitial();
    hide Run, Initial;
    moves := CastLooks();
    moves := CastLastLeaves(moves);
    moves := CastWeakComes(moves);
    var m := Run(WidePair(), moves);
    moves, m := Then(WidePair(), moves, m, Move(5, Go));
    assert m.refs[5] == Attach(Handle, 2, 3, m.word);
    moves, m := Then(WidePair(), moves, m, Move(5, Go));
    assert m.word == Word(Inflated, 2, 5) && m.refs[5] == Live(Handle, 2);
    moves, m := Then(WidePair(), moves, m, Move(6, Copy(Handle, 2, 5)));
    moves, m := Then(WidePair(), moves, m, Move(6, Go));
  }

  lemma CastLooks() returns (moves: seq<Move>)
    ensures Run(WidePair(), moves) == WidePair().To(5, Attach(Handle, 2, 3, Word(Flat, 2, 2)))
  {
    RunNothing(WidePair());
    hide Run;
    var m;
    moves, m := Then(WidePair(), [], WidePair(), Move(5, Copy(Handle, 2, 3)));
    assert m == WidePair().To(5, Peek(Handle, 2, 3));
    moves, m := Then(WidePair(), moves, m, Move(5, Go));
  }

  lemma CastLastLeaves(moves: seq<Move>) returns (moves': seq<Move>)
    requires Initial(WidePair())
    requires Run(WidePair(), moves) == WidePair().To(5, Attach(Handle, 2, 3, Word(Flat, 2, 2)))
    ensures var looked := Attach(Handle, 2, 3, Word(Flat, 2, 2));
            Run(WidePair(), moves') ==
            Wide(Word(Flat, 0, 3), Unborn, Gone, Live(View, 1), looked, Unborn).(consts := 1)
  {
    InitialInv(WidePair());
    RunInv(WidePair(), moves);
    hide Run, Inv, Initial;
    var m := Run(WidePair(), moves);
    CastMayLeave();
    hide MayLeave, LeftAs;
    var more := LeavesWithView(m, 2, 4);
    RunOn(WidePair(), moves, more);
    moves' := moves + more;
    CastLeft(Run(m, more));
  }

  lemma CastMayLeave()
    ensures MayLeave(WidePair().To(5, Attach(Handle, 2, 3, Word(Flat, 2, 2))), 2)
  {
  }

  lemma CastLeft(r: Machine)
    requires var m := WidePair().To(5, Attach(Handle, 2, 3, Word(Flat, 2, 2)));
             r.word == Word(Flat, 0, 3) && LeftAs(m, r, Handle) && r.refs == m.refs[4 := Live(View, 1)][2 := Gone]
    ensures var looked := Attach(Handle, 2, 3, Word(Flat, 2, 2));
            r == Wide(Word(Flat, 0, 3), Unborn, Gone, Live(View, 1), looked, Unborn).(consts := 1)
  {
  }

  lemma CastWeakComes(moves: seq<Move>) returns (moves': seq<Move>)
    requires Initial(WidePair())
    requires var looked := Attach(Handle, 2, 3, Word(Flat, 2, 2));
             Run(WidePair(), moves) ==
             Wide(Word(Flat, 0, 3), Unborn, Gone, Live(View, 1), looked, Unborn).(consts := 1)
    ensures var looked := Attach(Handle, 2, 3, Word(Flat, 2, 2));
            Run(WidePair(), moves') ==
            Wide(Word(Inflated, 0, 5), Live(View, 2), Gone, Live(View, 1), looked, Unborn)
            .(consts := 1, caller := 3)
  {
    ReachableGood(WidePair(), moves);
    hide Run, Good, Initial;
    var m := Run(WidePair(), moves);
    hide Raises;
    var more := WeakComes(m, 3);
    RunOn(WidePair(), moves, more);
    moves' := moves + more;
    CastReady(m, Run(m, more));
  }

  lemma CastReady(m: Machine, r: Machine)
    requires var looked := Attach(Handle, 2, 3, Word(Flat, 2, 2));
             m == Wide(Word(Flat, 0, 3), Unborn, Gone, Live(View, 1), looked, Unborn).(consts := 1)
    requires Raises(m.word.(weak := Inflated), r.word, View, EscapedIncrement)
    requires r == m.(word := r.word, caller := 3, missed := r.word.handles == EscapedIncrement)
                  .To(0, Live(View, EscapedIncrement))
    ensures var looked := Attach(Handle, 2, 3, Word(Flat, 2, 2));
            r ==
            Wide(Word(Inflated, 0, 5), Live(View, 2), Gone, Live(View, 1), looked, Unborn)
            .(consts := 1, caller := 3)
  {
  }
}
