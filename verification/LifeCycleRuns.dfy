// Runs in which the counting of references does not do what it should: a handle comes back
// after the last one has gone, or an object is never destroyed.
module LifeCycleRuns {
  import opened Counting
  import opened LifeCycleRefs
  import opened LifeCycleWeak

  // ----- one move after the other --------------------------------------------

  lemma {:induction false} Then(start: Machine, moves: seq<Move>, m: Machine, move: Move)
    returns (moves': seq<Move>, m': Machine)
    requires Run(start, moves) == m
    ensures moves' == moves + [move] && m' == Next(m, move) && Run(start, moves') == m'
    decreases |moves|
  {
    hide Next;
    moves', m' := moves + [move], Next(m, move);
    if moves == [] {
      assert Run(m', []) == m';
    } else {
      assert moves'[0] == moves[0] && moves'[1..] == moves[1..] + [move];
      var _, _ := Then(Next(start, moves[0]), moves[1..], m, move);
    }
  }

  lemma {:induction false} RunOn(m: Machine, a: seq<Move>, b: seq<Move>)
    ensures Run(m, a + b) == Run(Run(m, a), b)
    decreases |a|
  {
    hide Next;
    if a == [] {
      assert a + b == b;
    } else {
      assert (a + b)[0] == a[0] && (a + b)[1..] == a[1..] + b;
      RunOn(Next(m, a[0]), a[1..], b);
    }
  }

  lemma RunNothing(m: Machine)
    ensures Run(m, []) == m
  {
  }

  // ----- a handle may come back ----------------------------------------------

  // A reference that can be made to keep the object alive.
  predicate Spare(m: Machine, t: nat) {
    2 <= t < |m.refs| && m.refs[t].Unborn?
  }

  // Reference `i` is attaching a handle through a view, having seen that there were handles;
  // and every handle that there is may leave.
  ghost predicate Poised(m: Machine, i: nat) {
    && Inv(m) && !m.captured && i < |m.refs| && m.refs[i].Attach? && FromView(m, i)
    && !m.word.weak.Inflated? && !m.refs[i].seen.weak.Inflated? && m.refs[1].Unborn?
    && m.word.handles != MaxCount && HandlesMayLeave(m)
  }

  ghost predicate HandlesMayLeave(m: Machine) {
    forall j :: 0 <= j < |m.refs| && Weight(m.refs[j], Handle) > 0 ==> m.refs[j].Live? && MayLeave(m, j)
  }

  // The other way round: nothing keeps such a reference from reviving a handle.
  lemma MayRevive(start: Machine, before: seq<Move>, i: nat, t: nat, u: nat) returns (moves: seq<Move>)
    requires Initial(start)
    requires var m := Run(start, before);
             && m.revived == {} && !m.captured && !m.word.weak.Inflated? && m.word.handles != MaxCount
             && i < |m.refs| && m.refs[i].Attach? && FromView(m, i) && HandlesMayLeave(m)
             && Spare(m, t) && Spare(m, u) && t != u
    ensures i in Run(Run(start, before), moves).revived
  {
    var m := Run(start, before);
    InitialInv(start);
    InitialWeakInv(start);
    RunInv(start, before);
    RunWeak(start, before);
    hide Run, Inv;
    assert Stages(m.word, StatusOf(m)) && StatusOf(m).r1 == m.refs[1] && SeesWeak(m.word, m.refs[i]);
    hide WeakInv, Stages, StatusOf;
    moves := Revives(m, i, t, u);
  }

  lemma {:induction false} Revives(m: Machine, i: nat, t: nat, u: nat) returns (moves: seq<Move>)
    requires Poised(m, i)
    requires (m.word.handles > 0 ==> Spare(m, t)) && (m.word.handles > 1 ==> Spare(m, u) && t != u)
    ensures i in Run(m, moves).revived
    decreases m.word.handles
  {
    hide Run, Inv, Poised;
    if m.word.handles == 0 {
      moves := AttachesLast(m, i);
    } else {
      var j := SomeHandle(m, i);
      var first;
      if m.word.handles > 2 {
        first := OneLeaves(m, i, j);
      } else {
        first := LastLeaves(m, i, j, t);
      }
      var next := Run(m, first);
      var rest := Revives(next, i, if m.word.handles > 2 then t else u, u);
      RunOn(m, first, rest);
      moves := first + rest;
    }
  }

  lemma SomeHandle(m: Machine, i: nat) returns (j: nat)
    requires Poised(m, i) && m.word.handles > 0
    ensures j < |m.refs| && IsHandle(m, j)
  {
    TotalZero(m.refs, Handle);
    assert Counts(m);
    hide Total, Weight, Inv;
    var k :| 0 <= k < |m.refs| && Weight(m.refs[k], Handle) != 0;
    j := k;
    Knows(m, j);
    HandleIs(m.refs[j]);
  }

  lemma HandleIs(r: Ref)
    ensures r.Live? && Weight(r, Handle) > 0 ==> r == Live(Handle, Weight(r, Handle))
  {
  }

  predicate IsHandle(m: Machine, j: nat) {
    j < |m.refs| && m.refs[j].Live? && m.refs[j].kind.Handle?
  }

  // What is known of the handle that leaves.
  lemma HandleKnown(m: Machine, i: nat, j: nat)
    requires Poised(m, i) && IsHandle(m, j)
    ensures 1 <= m.refs[j].weight <= 2 && m.refs[j].weight <= m.word.handles < MaxCount && j != i
    ensures 0 < m.word.views <= MaxCount && MayLeave(m, j) && !m.captured && !m.destructing
  {
    Knows(m, j);
    SomethingStays(m, j);
    var s := m.refs[i].source;
    Knows(m, s);
    SomethingStays(m, s);
    hide Inv, MayLeave;
    assert Weight(m.refs[j], Handle) > 0;
  }

  // It comes back.
  lemma AttachesLast(m: Machine, i: nat) returns (moves: seq<Move>)
    requires Poised(m, i) && m.word.handles == 0
    ensures i in Run(m, moves).revived
  {
    var x, go := m.refs[i], Move(i, Go);
    Knows(m, i);
    RunNothing(m);
    var r := m;
    moves := [];
    if x.seen != m.word {
      Tries(m, i);
      hide Inv, Run, Next;
      moves, r := Then(m, moves, m, go);
    }
    Comes(r, i);
    hide Inv, Run, Next;
    moves, r := Then(m, moves, r, go);
  }

  lemma Tries(m: Machine, i: nat)
    requires Poised(m, i) && m.refs[i].seen != m.word && Seen(m, m.refs[i].seen)
    ensures var x := m.refs[i]; Next(m, Move(i, Go)) == m.To(i, Attach(Handle, x.weight, x.source, m.word))
  {
    hide Inv, MayLeave, Captures;
  }

  lemma Comes(m: Machine, i: nat)
    requires i < |m.refs| && m.refs[i].Attach? && m.refs[i].kind.Handle? && m.refs[i].seen == m.word && !m.captured
    requires m.word.handles == 0 && !m.word.weak.Inflated?
    ensures i in Next(m, Move(i, Go)).revived
  {
    hide Captures;
  }

  // Up to the detach.
  lemma LeaveBegins(m: Machine, j: nat) returns (moves: seq<Move>)
    requires IsHandle(m, j) && MayLeave(m, j) && !m.captured
    ensures Run(m, moves) == m.To(j, Detach(Handle, m.refs[j].weight, m.word, None))
  {
    var w := m.refs[j].weight;
    RunNothing(m);
    hide Run, MayLeave;
    var r;
    moves, r := Then(m, [], m, Move(j, Leave));
    assert r == m.To(j, Leaving(Handle, w));
    moves, r := Then(m, moves, r, Move(j, Go));
    assert r.refs == m.refs[j := Detach(Handle, w, m.word, None)];
  }

  // The update of the detach succeeds.
  lemma Wins(m: Machine, j: nat, w: nat, temp: Option)
    requires j < |m.refs| && m.refs[j] == Detach(Handle, w, m.word, temp) && !m.captured
    requires 0 < w <= m.word.handles < MaxCount && !NeedsTemp(Handle, m.word, temp)
    ensures var now := m.word.With(Handle, m.word.handles - w);
            Next(m, Move(j, Go)) == m.(word := now).To(j, After(TaskAfter(Handle, now), temp))
  {
    hide NeedsTemp, TaskAfter, StepTemp;
  }

  lemma Ends(m: Machine, j: nat)
    requires j < |m.refs| && m.refs[j].After? && !m.captured
    requires m.refs[j].task.Nothing? || m.refs[j].task.BecomeConst?
    ensures var r := Next(m, Move(j, Go)); r == m.(consts := r.consts).To(j, Gone)
  {
  }

  // From `m` to `r` handle `j` has gone, and perhaps a view has come.
  ghost predicate Later(m: Machine, r: Machine, j: nat) {
    && j < |m.refs| == |r.refs| && r.refs[j].Gone?
    && (forall k :: 0 <= k < |m.refs| && k != j ==>
                      r.refs[k] == m.refs[k] || (k >= 2 && m.refs[k].Unborn? && r.refs[k] == Live(View, 1)))
    && !r.captured && r.flip == m.flip && r.clear == m.clear && r.caller == m.caller
    && r.word.weak == m.word.weak && r.word.handles < m.word.handles
  }

  lemma StaysPoised(m: Machine, i: nat, j: nat, r: Machine)
    requires Poised(m, i) && IsHandle(m, j) && Later(m, r, j) && Inv(r)
    ensures Poised(r, i)
  {
    assert m.refs[i].source != j && r.refs[i] == m.refs[i];
    Knows(m, i);
    assert Counts(m);
    hide Inv, Weight;
    forall k | 0 <= k < |r.refs| && Weight(r.refs[k], Handle) > 0
      ensures r.refs[k].Live? && MayLeave(r, k)
    {
      NoHandleIn(Gone);
      NoHandleIn(Live(View, 1));
      assert k != j && r.refs[k] == m.refs[k];
      assert MayLeave(m, k);
    }
  }

  lemma NoHandleIn(r: Ref)
    requires r.Gone? || (r.Live? && r.kind.View?)
    ensures Weight(r, Handle) == 0
  {
  }

  // One of several handles leaves.
  lemma OneLeaves(m: Machine, i: nat, j: nat) returns (moves: seq<Move>)
    requires Poised(m, i) && IsHandle(m, j) && m.word.handles > 2
    ensures var r := Run(m, moves);
            && Poised(r, i) && Later(m, r, j)
            && forall k :: 0 <= k < |m.refs| && k != j ==> r.refs[k] == m.refs[k]
  {
    HandleKnown(m, i, j);
    var w := m.refs[j].weight;
    moves := LeaveBegins(m, j);
    var r := m.To(j, Detach(Handle, w, m.word, None));
    Wins(r, j, w, None);
    NothingLeft(r.word, w);
    Ends(Next(r, Move(j, Go)), j);
    hide Run, Next, Inv, TaskAfter, MayLeave;
    moves, r := Then(m, moves, r, Move(j, Go));
    moves, r := Then(m, moves, r, Move(j, Go));
    RunInv(m, moves);
    StaysPoised(m, i, j, r);
  }

  // Neither destroyed nor flipped.
  lemma NothingLeft(w: Word, weight: nat)
    requires w.weak.Inflated? ==> w.handles - weight != EscapedIncrement
    requires 0 < weight <= w.handles && (weight == w.handles ==> w.views > 0)
    ensures var task := TaskAfter(Handle, w.With(Handle, w.handles - weight)); task.Nothing? || task.BecomeConst?
  {
  }

  // The last handle, or one of the last two, leaves, with a view that keeps the object alive.
  lemma LastLeaves(m: Machine, i: nat, j: nat, t: nat) returns (moves: seq<Move>)
    requires Poised(m, i) && IsHandle(m, j) && 0 < m.word.handles <= 2 && Spare(m, t)
    ensures var r := Run(m, moves);
            && Poised(r, i) && Later(m, r, j)
            && forall k :: 0 <= k < |m.refs| && k != j && k != t ==> r.refs[k] == m.refs[k]
  {
    HandleKnown(m, i, j);
    var w := m.refs[j].weight;
    moves := LeaveBegins(m, j);
    var r := m.To(j, Detach(Handle, w, m.word, None));
    var more := ViewComes(r, j, w, t);
    RunOn(m, moves, more);
    moves := moves + more;
    AttachedOne(m.word);
    r := Run(r, more);
    hide Run, Inv, MayLeave, Attached;
    var end := Goes(r, j, w, m.word, t);
    RunOn(m, moves, end);
    moves := moves + end;
    RunInv(m, moves);
    StaysPoised(m, i, j, Run(m, moves));
  }

  // With the view there the handle goes.
  lemma Goes(m: Machine, j: nat, w: nat, seen: Word, t: nat) returns (moves: seq<Move>)
    requires j < |m.refs| && m.refs[j] == Detach(Handle, w, seen, Some(t)) && !m.captured
    requires 0 < w <= seen.handles == m.word.handles <= 2 && m.word.views > 0
    ensures var r := Run(m, moves);
            && r == m.(word := r.word, consts := r.consts).To(j, Gone)
            && r.word == m.word.With(Handle, m.word.handles - w)
  {
    RunNothing(m);
    moves := [];
    var r := m;
    hide Run, TaskAfter, NeedsTemp;
    if m.word != seen {
      Again(m, j, w, seen, t);
      hide Next;
      moves, r := Then(m, moves, m, Move(j, Go));
    }
    HasTemp(m.word, t);
    Wins(r, j, w, Some(t));
    NothingLeft(m.word, w);
    hide Next;
    moves, r := Then(m, moves, r, Move(j, Go));
    Ends(r, j);
    moves, r := Then(m, moves, r, Move(j, Go));
    assert r.refs == m.refs[j := Gone];
  }

  lemma HasTemp(w: Word, t: nat)
    ensures !NeedsTemp(Handle, w, Some(t))
  {
  }

  lemma AttachedOne(w: Word)
    requires w.views <= MaxCount
    ensures var now := Attached(w, View, 1);
            && now.handles == w.handles && now.weak == w.weak
            && now.views == if w.views < MaxCount then w.views + 1 else w.views
  {
  }

  // The detach goes round the loop again.
  lemma Again(m: Machine, j: nat, w: nat, seen: Word, t: nat)
    requires j < |m.refs| && m.refs[j] == Detach(Handle, w, seen, Some(t)) && m.word != seen && !m.captured
    requires 0 < w <= seen.handles < MaxCount
    ensures Next(m, Move(j, Go)) == m.To(j, Detach(Handle, w, m.word, Some(t)))
  {
  }

  // A view is attached while the handle waits for it.
  lemma ViewComes(m: Machine, j: nat, w: nat, t: nat) returns (moves: seq<Move>)
    requires j < |m.refs| && m.refs[j] == Detach(Handle, w, m.word, None) && Spare(m, t) && t != j
    requires !m.captured && !m.destructing
    requires m.word.weak.Inflated? ==> m.word.handles + m.word.views != EscapedIncrement
    requires 0 < m.word.handles <= 2 && 0 < m.word.views <= MaxCount
    ensures forall n :: 0 <= n < |moves| ==> moves[n].ref == j || moves[n].ref == t
    ensures var word := Attached(m.word, View, 1);
            Run(m, moves) == m.(word := word).To(t, Live(View, 1)).To(j, Detach(Handle, w, m.word, Some(t)))
  {
    var wait := m.To(j, Wait(w, m.word, Some(t)));
    RunNothing(m);
    hide Run;
    var r;
    moves, r := Then(m, [], m, Move(j, Temp(t)));
    assert r == wait.To(t, Begin(1, j));
    hide StepDetach, StepAttach, StepLive, StepAfter;
    moves, r := Then(m, moves, r, Move(t, Go));
    assert r == wait.To(t, Peek(View, 1, j));
    moves, r := Then(m, moves, r, Move(t, Go));
    assert r == wait.To(t, Attach(View, 1, j, m.word));
    ViewAttached(r, j, t);
    hide StepAlone, Step;
    moves, r := Then(m, moves, r, Move(t, Go));
    assert r == wait.(word := Attached(m.word, View, 1)).To(t, Live(View, 1));
    WaitOver(r, j, w, m.word, t);
    moves, r := Then(m, moves, r, Move(j, Go));
    assert r.refs == m.refs[t := Live(View, 1)][j := Detach(Handle, w, m.word, Some(t))];
  }

  lemma ViewAttached(m: Machine, j: nat, t: nat)
    requires t < |m.refs| && m.refs[t] == Attach(View, 1, j, m.word) && !m.captured
    requires m.word.weak.Inflated? ==> m.word.handles + m.word.views != EscapedIncrement
    requires 0 < m.word.handles && 0 < m.word.views <= MaxCount
    ensures Next(m, Move(t, Go)) == m.(word := Attached(m.word, View, 1)).To(t, Live(View, 1))
  {
  }

  lemma WaitOver(m: Machine, j: nat, w: nat, seen: Word, t: nat)
    requires j < |m.refs| && t < |m.refs| && m.refs[j] == Wait(w, seen, Some(t)) && m.refs[t].Live? && !m.captured
    ensures Next(m, Move(j, Go)) == m.To(j, Detach(Handle, w, seen, Some(t)))
  {
  }

  // ----- two runs that go wrong ----------------------------------------------

  // One handle and one view, and room for more.
  function Pair(): Machine {
    Machine(Word(Flat, 2, 2), false, false, false, false, 0, 0, 0, {}, false,
            [Unborn, Unborn, Live(Handle, 2), Live(View, 2), Unborn, Unborn])
  }

  lemma PairInitial()
    ensures Initial(Pair())
  {
    var rs := Pair().refs;
    assert rs[2].Live?;
    assert Total(rs, Handle) == Weight(rs[2], Handle) + Total(rs[3..], Handle) && Total(rs, View) == 2 by {
      assert rs[1..][1..] == rs[2..] && rs[2..][1..] == rs[3..] && rs[3..][1..] == rs[4..];
      TotalZero(rs[4..], Handle);
      TotalZero(rs[4..], View);
      assert Total(rs, View) == Total(rs[1..], View) == Total(rs[2..], View) == Total(rs[3..], View);
    }
  }

  // After the view has asked for the weak reference: what may have changed.
  function Asked(weak: Weak, handles: nat, views: nat, own: Ref, handle: Ref, view: Ref, temp: Ref): Machine {
    Pair().(word := Word(weak, handles, views), caller := 3, refs := [own, Unborn, handle, view, temp, Unborn])
  }

  // A handle comes back after the object has been made immutable: that of the weak reference,
  // which is attached through the view, having looked before the last handle detached.
  lemma HandleRevived() returns (moves: seq<Move>)
    ensures Initial(Pair())
    ensures var r := Run(Pair(), moves);
            |r.refs| == 6 && r.consts == 1 && r.revived == {0} && r.refs[0] == Live(Handle, 2)
  {
    PairInitial();
    hide Run, Initial, Next;
    RunNothing(Pair());
    moves := [];
    moves := RevivedLooks(moves);
    moves := RevivedLastLeaves(moves);
    moves := RevivedViewComes(moves);
    moves := RevivedConst(moves);
    moves := RevivedAttaches(moves);
  }

  lemma RevivedLooks(moves: seq<Move>) returns (moves': seq<Move>)
    requires Run(Pair(), moves) == Pair()
    ensures Run(Pair(), moves') ==
            Asked(Inflating, 2, 2, Attach(Handle, 2, 3, Word(Inflating, 2, 2)), Live(Handle, 2), Live(View, 2), Unborn)
  {
    var m;
    hide Run;
    moves', m := Then(Pair(), moves, Pair(), Move(3, Inflate));
    assert m == Asked(Inflating, 2, 2, Unborn, Live(Handle, 2), Live(View, 2), Unborn);
    moves', m := Then(Pair(), moves', m, Move(0, Copy(Handle, 2, 3)));
    assert m == Asked(Inflating, 2, 2, Peek(Handle, 2, 3), Live(Handle, 2), Live(View, 2), Unborn);
    moves', m := Then(Pair(), moves', m, Move(0, Go));
  }

  lemma RevivedLastLeaves(moves: seq<Move>) returns (moves': seq<Move>)
    requires var own := Attach(Handle, 2, 3, Word(Inflating, 2, 2));
             Run(Pair(), moves) == Asked(Inflating, 2, 2, own, Live(Handle, 2), Live(View, 2), Unborn)
    ensures var own, wait := Attach(Handle, 2, 3, Word(Inflating, 2, 2)), Wait(2, Word(Inflating, 2, 2), Some(4));
            Run(Pair(), moves') == Asked(Inflating, 2, 2, own, wait, Live(View, 2), Begin(1, 2))
  {
    var m := Run(Pair(), moves);
    var word := Word(Inflating, 2, 2);
    var own := Attach(Handle, 2, 3, word);
    hide Run;
    moves', m := Then(Pair(), moves, m, Move(2, Leave));
    assert m == Asked(Inflating, 2, 2, own, Leaving(Handle, 2), Live(View, 2), Unborn);
    moves', m := Then(Pair(), moves', m, Move(2, Go));
    assert m == Asked(Inflating, 2, 2, own, Detach(Handle, 2, word, None), Live(View, 2), Unborn);
    moves', m := Then(Pair(), moves', m, Move(2, Temp(4)));
  }

  lemma RevivedViewComes(moves: seq<Move>) returns (moves': seq<Move>)
    requires var own, wait := Attach(Handle, 2, 3, Word(Inflating, 2, 2)), Wait(2, Word(Inflating, 2, 2), Some(4));
             Run(Pair(), moves) == Asked(Inflating, 2, 2, own, wait, Live(View, 2), Begin(1, 2))
    ensures var own, wait := Attach(Handle, 2, 3, Word(Inflating, 2, 2)), Wait(2, Word(Inflating, 2, 2), Some(4));
            Run(Pair(), moves') == Asked(Inflating, 2, 3, own, wait, Live(View, 2), Live(View, 1))
  {
    var m := Run(Pair(), moves);
    var word := Word(Inflating, 2, 2);
    var own, wait := Attach(Handle, 2, 3, word), Wait(2, word, Some(4));
    hide Run;
    moves', m := Then(Pair(), moves, m, Move(4, Go));
    assert m == Asked(Inflating, 2, 2, own, wait, Live(View, 2), Peek(View, 1, 2));
    moves', m := Then(Pair(), moves', m, Move(4, Go));
    assert m == Asked(Inflating, 2, 2, own, wait, Live(View, 2), Attach(View, 1, 2, word));
    moves', m := Then(Pair(), moves', m, Move(4, Go));
  }

  lemma RevivedConst(moves: seq<Move>) returns (moves': seq<Move>)
    requires var own, wait := Attach(Handle, 2, 3, Word(Inflating, 2, 2)), Wait(2, Word(Inflating, 2, 2), Some(4));
             Run(Pair(), moves) == Asked(Inflating, 2, 3, own, wait, Live(View, 2), Live(View, 1))
    ensures var own := Attach(Handle, 2, 3, Word(Inflating, 2, 2));
            Run(Pair(), moves') == Asked(Inflating, 0, 3, own, Gone, Live(View, 2), Live(View, 1)).(consts := 1)
  {
    var m := Run(Pair(), moves);
    var word, more := Word(Inflating, 2, 2), Word(Inflating, 2, 3);
    var own := Attach(Handle, 2, 3, word);
    hide Run;
    moves', m := Then(Pair(), moves, m, Move(2, Go));
    assert m == Asked(Inflating, 2, 3, own, Detach(Handle, 2, word, Some(4)), Live(View, 2), Live(View, 1));
    moves', m := Then(Pair(), moves', m, Move(2, Go));
    assert m == Asked(Inflating, 2, 3, own, Detach(Handle, 2, more, Some(4)), Live(View, 2), Live(View, 1));
    moves', m := Then(Pair(), moves', m, Move(2, Go));
    assert m == Asked(Inflating, 0, 3, own, After(BecomeConst, Some(4)), Live(View, 2), Live(View, 1));
    moves', m := Then(Pair(), moves', m, Move(2, Go));
  }

  lemma RevivedAttaches(moves: seq<Move>) returns (moves': seq<Move>)
    requires var own := Attach(Handle, 2, 3, Word(Inflating, 2, 2));
             Run(Pair(), moves) == Asked(Inflating, 0, 3, own, Gone, Live(View, 2), Live(View, 1)).(consts := 1)
    ensures Run(Pair(), moves') ==
            Asked(Inflating, 2, 3, Live(Handle, 2), Gone, Live(View, 2), Live(View, 1)).(consts := 1, revived := {0})
  {
    var m := Run(Pair(), moves);
    var own := Attach(Handle, 2, 3, Word(Inflating, 0, 3));
    hide Run;
    moves', m := Then(Pair(), moves, m, Move(0, Go));
    assert m == Asked(Inflating, 0, 3, own, Gone, Live(View, 2), Live(View, 1)).(consts := 1);
    moves', m := Then(Pair(), moves', m, Move(0, Go));
  }

  // The last other handle detaches while the weak reference is still being made: the
  // object is never destroyed, although only the weak reference is left.
  lemma ObjectLeaked() returns (moves: seq<Move>)
    ensures Initial(Pair())
    ensures var r := Run(Pair(), moves);
            LeftOver(r) && r.word.weak.Inflated? && r.revived == {} && r.missed && r.destroyed == 0
  {
    PairInitial();
    hide Run, Initial, Next;
    RunNothing(Pair());
    moves := [];
    moves := LeakedAttaches(moves);
    moves := LeakedLastLeaves(moves);
    moves := LeakedPublishes(moves);
    moves := LeakedViewLeaves(moves);
  }

  lemma LeakedAttaches(moves: seq<Move>) returns (moves': seq<Move>)
    requires Run(Pair(), moves) == Pair()
    ensures Run(Pair(), moves') == Asked(Inflating, 4, 2, Live(Handle, 2), Live(Handle, 2), Live(View, 2), Unborn)
  {
    moves' := RevivedLooks(moves);
    var m := Run(Pair(), moves');
    hide Run;
    moves', m := Then(Pair(), moves', m, Move(0, Go));
  }

  lemma LeakedLastLeaves(moves: seq<Move>) returns (moves': seq<Move>)
    requires Run(Pair(), moves) == Asked(Inflating, 4, 2, Live(Handle, 2), Live(Handle, 2), Live(View, 2), Unborn)
    ensures Run(Pair(), moves') == Asked(Inflating, 2, 2, Live(Handle, 2), Gone, Live(View, 2), Unborn)
  {
    var m, own := Run(Pair(), moves), Live(Handle, 2);
    hide Run;
    moves', m := Then(Pair(), moves, m, Move(2, Leave));
    assert m == Asked(Inflating, 4, 2, own, Leaving(Handle, 2), Live(View, 2), Unborn);
    moves', m := Then(Pair(), moves', m, Move(2, Go));
    assert m == Asked(Inflating, 4, 2, own, Detach(Handle, 2, Word(Inflating, 4, 2), None), Live(View, 2), Unborn);
    moves', m := Then(Pair(), moves', m, Move(2, Go));
    assert m == Asked(Inflating, 2, 2, own, After(Nothing, None), Live(View, 2), Unborn);
    moves', m := Then(Pair(), moves', m, Move(2, Go));
  }

  lemma LeakedPublishes(moves: seq<Move>) returns (moves': seq<Move>)
    requires Run(Pair(), moves) == Asked(Inflating, 2, 2, Live(Handle, 2), Gone, Live(View, 2), Unborn)
    ensures Run(Pair(), moves') ==
            Asked(Inflated, 2, 2, Live(Handle, 2), Gone, Leaving(View, 2), Unborn).(missed := true)
  {
    var m := Run(Pair(), moves);
    hide Run;
    moves', m := Then(Pair(), moves, m, Move(3, Publish));
    assert m == Asked(Inflated, 2, 2, Live(Handle, 2), Gone, Live(View, 2), Unborn).(missed := true);
    moves', m := Then(Pair(), moves', m, Move(3, Leave));
  }

  lemma LeakedViewLeaves(moves: seq<Move>) returns (moves': seq<Move>)
    requires Run(Pair(), moves) ==
             Asked(Inflated, 2, 2, Live(Handle, 2), Gone, Leaving(View, 2), Unborn).(missed := true)
    ensures Run(Pair(), moves') == Asked(Inflated, 2, 0, Live(Handle, 2), Gone, Gone, Unborn).(missed := true)
  {
    var m, own := Run(Pair(), moves), Live(Handle, 2);
    hide Run;
    moves', m := Then(Pair(), moves, m, Move(3, Go));
    assert m == Asked(Inflated, 2, 2, own, Gone, Detach(View, 2, Word(Inflated, 2, 2), None), Unborn).(missed := true);
    moves', m := Then(Pair(), moves', m, Move(3, Go));
    assert m == Asked(Inflated, 2, 0, own, Gone, After(Nothing, None), Unborn).(missed := true);
    moves', m := Then(Pair(), moves', m, Move(3, Go));
  }
}
