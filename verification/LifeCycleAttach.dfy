// When an attach is refused, and that it succeeds otherwise.
module LifeCycleAttach {
  import opened Counting
  import opened LifeCycleRefs
  import opened LifeCycleWeak
  import opened LifeCycleRuns

  // ----- what an attach has seen ---------------------------------------------

  // Once the weak reference is ready: if it copies another reference, it has seen more than
  // the weak reference; and if it has seen only the handle of that, this has been noticed.
  ghost predicate Looked(m: Machine, r: Ref) {
    r.Attach? && r.seen.weak.Inflated? ==>
      && (2 <= r.source < |m.refs| && m.refs[r.source].Live? ==>
            && (r.kind.View? ==> r.seen.handles + r.seen.views > EscapedIncrement)
            && (r.kind.Handle? && m.refs[r.source].kind.Handle? ==> r.seen.handles > EscapedIncrement))
      && (r.seen.handles == EscapedIncrement ==> Flipping(m) || m.missed)
  }

  ghost predicate AllLooked(m: Machine) {
    forall i :: 0 <= i < |m.refs| ==> Looked(m, m.refs[i])
  }

  // Another reference weighs something besides the weak one.
  lemma OthersSum(w: Word, s: Status, kind: Kind, weight: nat)
    requires Stages(w, s) && Sums(w, s) && w.weak.Inflated? && Room(w, s, kind, weight) && weight > 0
    ensures w.handles + w.views > EscapedIncrement
    ensures kind.Handle? ==> w.handles > EscapedIncrement
  {
  }

  lemma HandlesTwo(w: Word, s: Status)
    requires Stages(w, s) && Sums(w, s) && w.weak.Inflated? && w.handles == EscapedIncrement
    ensures s.flipping || s.missed
  {
  }

  lemma LooksNow(m: Machine, i: nat, kind: Kind, weight: nat, source: nat)
    requires Inv(m) && WeakInv(m) && i < |m.refs| && SourceStays(m, i, source)
    ensures Looked(m, Attach(kind, weight, source, m.word))
  {
    if m.word.weak.Inflated? {
      var s := StatusOf(m);
      assert Stages(m.word, s) && Sums(m.word, s);
      if m.word.handles == EscapedIncrement {
        HandlesTwo(m.word, s);
      }
      if source >= 2 && m.refs[source].Live? {
        var x := m.refs[source];
        Knows(m, source);
        RoomBeside(m, source);
        LiveWeight(x);
        hide Inv, WeakInv, Stages, Sums, Room;
        OthersSum(m.word, s, x.kind, x.weight);
      }
    }
  }

  lemma LiveWeight(r: Ref)
    requires r.Live?
    ensures Weight(r, r.kind) == r.weight
  {
  }

  // ----- it stays true -------------------------------------------------------

  lemma FlippingStays(m: Machine, i: nat, a: Action)
    requires i < |m.refs| && (Flipping(m) || m.missed) && m.word.weak.Inflated?
    ensures Flipping(Step(m, i, a)) || Step(m, i, a).missed
  {
    var r := Step(m, i, a);
    StepMissed(m, i, a);
    FlipStays(m, i, a);
    StepOthers(m, i, a);
    hide Step;
    if !m.missed && !r.flip {
      CountNone(m.refs, Flips);
      CountNone(r.refs, Flips);
      var j :| 0 <= j < |m.refs| && Flips(m.refs[j]);
      assert Flips(r.refs[j]);
    }
  }

  lemma FlipStays(m: Machine, i: nat, a: Action)
    requires i < |m.refs|
    ensures m.flip ==> Step(m, i, a).flip
    ensures Flips(m.refs[i]) ==> Step(m, i, a).flip || Step(m, i, a) == m
  {
    hide StepAlone, TaskAfter, NeedsTemp, Captures, Blocks, Immortal, Attached, MayLeave;
  }

  // An attach goes on with what it looks at now.
  lemma AttachFrom(m: Machine, i: nat, a: Action)
    requires i < |m.refs| && Step(m, i, a).refs[i].Attach?
    ensures var x, r := m.refs[i], Step(m, i, a).refs[i];
            r == x || ((x.Peek? || x.Attach?) && r.kind == x.kind && r.source == x.source && r.seen == m.word)
  {
    hide StepAttach, StepDetach, StepAfter, StepLive, StepAlone;
    if !m.captured {
      match m.refs[i]
      case Attach(kind, weight, source, seen) => AttachGoesOn(m, i, kind, weight, source, seen);
      case Detach(_, _, _, _) =>
      case After(_, _) =>
      case Live(_, _) =>
      case _ => AloneAttach(m, i, a);
    }
  }

  lemma AttachGoesOn(m: Machine, i: nat, kind: Kind, weight: nat, source: nat, seen: Word)
    requires i < |m.refs|
    ensures var r := StepAttach(m, i, kind, weight, source, seen).refs[i];
            r.Live? || r.Refused? || r == Attach(kind, weight, source, m.word)
  {
    hide Captures, Blocks, Immortal, Attached;
  }

  lemma AloneAttach(m: Machine, i: nat, a: Action)
    requires i < |m.refs| && StepAlone(m, i, a).Attach? && !m.refs[i].Attach?
    ensures m.refs[i].Peek? && StepAlone(m, i, a) == Attach(m.refs[i].kind, m.refs[i].weight, m.refs[i].source, m.word)
  {
    hide MayCopy;
  }

  lemma LookedStays(m: Machine, i: nat, a: Action, j: nat, x: Ref)
    requires Inv(m) && i < |m.refs| && j < |m.refs| && x.Attach? && Looked(m, x) && SourceStays(m, j, x.source)
    requires x.seen.weak.Inflated? ==> m.word.weak.Inflated?
    ensures Looked(Step(m, i, a), x)
  {
    StepOthers(m, i, a);
    if x.seen.weak.Inflated? && (Flipping(m) || m.missed) {
      FlippingStays(m, i, a);
    }
    hide Step, Inv, Flipping;
  }

  lemma StepLooked(m: Machine, i: nat, a: Action)
    requires Inv(m) && WeakInv(m) && AllLooked(m) && i < |m.refs|
    ensures AllLooked(Step(m, i, a))
  {
    var r := Step(m, i, a);
    StepOthers(m, i, a);
    forall j | 0 <= j < |r.refs| && r.refs[j].Attach?
      ensures Looked(r, r.refs[j])
    {
      var x := r.refs[j];
      if j == i {
        AttachFrom(m, i, a);
      }
      Knows(m, j);
      assert SeesWeak(m.word, m.refs[j]) && Looked(m, m.refs[j]);
      hide Step, Looked;
      assert SourceStays(m, j, x.source);
      if x != m.refs[j] {
        LooksNow(m, i, x.kind, x.weight, x.source);
      }
      LookedStays(m, i, a, j, x);
    }
  }

  // What is known of every reachable state, as long as no other handle than that of the weak
  // reference comes back.
  ghost predicate Good(m: Machine) {
    Inv(m) && WeakInv(m) && AllLooked(m) && m.revived <= {0}
  }

  lemma StepGood(m: Machine, i: nat, a: Action)
    requires Good(m) && i < |m.refs| && Step(m, i, a).revived <= {0}
    ensures Good(Step(m, i, a)) && |Step(m, i, a).refs| == |m.refs|
  {
    hide Inv, WeakInv, Step, AllLooked;
    StepInv(m, i, a);
    StepWeak(m, i, a);
    StepLooked(m, i, a);
  }

  lemma {:induction false} RunGood(m: Machine, moves: seq<Move>)
    requires Good(m) && Run(m, moves).revived <= {0}
    ensures Good(Run(m, moves))
    decreases |moves|
  {
    if moves != [] {
      var i, a, next := moves[0].ref, moves[0].action, Next(m, moves[0]);
      hide Inv, WeakInv, Step, AllLooked;
      RunRevived(next, moves[1..]);
      if i < |m.refs| {
        StepGood(m, i, a);
      }
      RunGood(next, moves[1..]);
    }
  }

  lemma ReachableGood(start: Machine, moves: seq<Move>)
    requires Initial(start) && Run(start, moves).revived <= {0}
    ensures Good(Run(start, moves))
  {
    InitialInv(start);
    InitialWeakInv(start);
    RunGood(start, moves);
  }

  // ----- when it is refused --------------------------------------------------

  // An attach that has begun is refused only if it copies the weak reference, or casts a view;
  // and only if nobody else holds the object, by a handle if that is what is wanted.
  lemma RefusedOnly(m: Machine, i: nat, a: Action)
    requires Good(m) && i < |m.refs| && m.refs[i].Attach? && Step(m, i, a).refs[i].Refused?
    ensures m.refs[i].source < 2 || FromView(m, i)
    ensures forall j :: 2 <= j < |m.refs| ==>
                          if m.refs[i].kind.View? then !Counted(m.refs[j]) else Weight(m.refs[j], Handle) == 0
  {
    var x := m.refs[i];
    RefusedSaw(m, i, a);
    Knows(m, i);
    assert SeesWeak(m.word, x) && Looked(m, x);
    hide Step;
    if x.source >= 2 && m.refs[x.source].Wait? {
      TempSaw(m, x.source, i);
    }
    forall j | 2 <= j < |m.refs|
      ensures if x.kind.View? then !Counted(m.refs[j]) else Weight(m.refs[j], Handle) == 0
    {
      OtherNone(m, j, x);
    }
  }

  lemma RefusedSaw(m: Machine, i: nat, a: Action)
    requires i < |m.refs| && m.refs[i].Attach? && Step(m, i, a).refs[i].Refused?
    ensures var x := m.refs[i];
            x.seen.weak.Inflated? && x.seen.handles + (if x.kind.Handle? then 0 else x.seen.views) == EscapedIncrement
  {
    hide Captures, Immortal, Attached;
  }

  lemma TempSaw(m: Machine, k: nat, i: nat)
    requires Inv(m) && WeakInv(m) && k < |m.refs| && i < |m.refs| && m.refs[k].Wait? && m.refs[k].temp == Some(i)
    requires m.refs[i].Attach?
    ensures var x := m.refs[i];
            !(x.seen.weak.Inflated? &&
              x.seen.handles + (if x.kind.Handle? then 0 else x.seen.views) == EscapedIncrement)
  {
    TempNotRefused(m, k, i);
    hide Inv, WeakInv;
  }

  lemma OtherNone(m: Machine, j: nat, x: Ref)
    requires Inv(m) && WeakInv(m) && 2 <= j < |m.refs| && x.Attach? && SeesWeak(m.word, x) && Looked(m, x)
    requires x.seen.weak.Inflated? && x.seen.handles + (if x.kind.Handle? then 0 else x.seen.views) == EscapedIncrement
    ensures if x.kind.View? then !Counted(m.refs[j]) else Weight(m.refs[j], Handle) == 0
  {
    var s := StatusOf(m);
    assert Stages(m.word, s) && Sums(m.word, s) && s.flipping == Flipping(m) && s.missed == m.missed;
    if Counted(m.refs[j]) {
      Knows(m, j);
      SomethingStays(m, j);
      RoomBeside(m, j);
      var h, v := Weight(m.refs[j], Handle), Weight(m.refs[j], View);
      hide Inv, WeakInv, Weight, Room, Stages, Sums, Flipping, Local;
      if x.kind.Handle? {
        Noticed(m.word, s);
      }
      if h > 0 {
        OthersSum(m.word, s, Handle, h);
      } else {
        OthersSum(m.word, s, View, v);
      }
    } else {
      NoWeight(m.refs[j]);
    }
  }

  lemma NoWeight(r: Ref)
    requires !Counted(r)
    ensures Weight(r, Handle) == 0
  {
  }

  // It has been noticed that the handle of the weak reference is the only one.
  lemma Noticed(w: Word, s: Status)
    requires Stages(w, s) && Sums(w, s) && (s.flipping || s.missed)
    ensures w.handles <= EscapedIncrement
  {
  }

  // ----- when it succeeds ----------------------------------------------------

  // The count of kind `kind` has risen by `weight`, as far as it can.
  ghost predicate Raises(w: Word, now: Word, kind: Kind, weight: nat) {
    && now.weak == w.weak
    && now.Of(kind) == (if w.Of(kind) + weight > MaxCount then MaxCount else w.Of(kind) + weight)
    && (if kind.Handle? then now.views == w.views else now.handles == w.handles)
  }

  // Reference `i` has become one, and nothing else has changed.
  ghost predicate AttachedAs(m: Machine, r: Machine, i: nat, kind: Kind, weight: nat) {
    && i < |m.refs| && Raises(m.word, r.word, kind, weight)
    && r == m.(word := r.word, captured := r.captured, revived := r.revived).To(i, Live(kind, weight))
  }

  // One move of an attach that has seen the word as it is.
  lemma AttachesNow(m: Machine, i: nat)
    requires i < |m.refs| && m.refs[i].Attach? && m.refs[i].seen == m.word && !m.captured
    requires m.word.handles <= MaxCount && m.word.views <= MaxCount
    ensures var x, r := m.refs[i], Next(m, Move(i, Go));
            r == m.To(i, Refused) || AttachedAs(m, r, i, x.kind, x.weight)
  {
    hide Captures, Blocks;
  }

  // And of one that has not.
  lemma AttachesLater(m: Machine, i: nat)
    requires i < |m.refs| && m.refs[i].Attach? && m.refs[i].seen != m.word && !m.captured
    requires Seen(m, m.refs[i].seen) && m.word.handles <= MaxCount && m.word.views <= MaxCount
    ensures var x, r := m.refs[i], Next(m, Move(i, Go));
            || r == m.To(i, Refused) || AttachedAs(m, r, i, x.kind, x.weight)
            || r == m.To(i, Attach(x.kind, x.weight, x.source, m.word))
  {
    hide Captures, Blocks;
  }

  // Nobody but the weak reference holds the object; or has a handle, if that is wanted.
  ghost predicate NobodyElse(m: Machine, kind: Kind) {
    forall j :: 2 <= j < |m.refs| ==> if kind.View? then !Counted(m.refs[j]) else Weight(m.refs[j], Handle) == 0
  }

  lemma NotRefused(m: Machine, i: nat)
    requires Good(m) && i < |m.refs| && m.refs[i].Attach?
    ensures var r := Next(m, Move(i, Go));
            r.refs[i].Refused? ==> (m.refs[i].source < 2 || FromView(m, i)) && NobodyElse(m, m.refs[i].kind)
  {
    if Next(m, Move(i, Go)).refs[i].Refused? {
      RefusedOnly(m, i, Go);
    }
  }

  // The attach of reference `i` has come to an end: it has succeeded, or has been refused for
  // want of anybody else.
  ghost predicate Ended(m: Machine, r: Machine, i: nat)
    requires i < |m.refs| && m.refs[i].Attach?
  {
    var x := m.refs[i];
    && (r == m.To(i, Refused) || AttachedAs(m, r, i, x.kind, x.weight))
    && (r == m.To(i, Refused) ==> (x.source < 2 || FromView(m, i)) && NobodyElse(m, x.kind))
  }

  lemma EndsNow(m: Machine, i: nat)
    requires Good(m) && i < |m.refs| && m.refs[i].Attach? && !m.captured && m.refs[i].seen == m.word
    ensures Ended(m, Next(m, Move(i, Go)), i)
  {
    Knows(m, i);
    AttachesNow(m, i);
    NotRefused(m, i);
  }

  lemma EndsLater(m: Machine, i: nat)
    requires Good(m) && i < |m.refs| && m.refs[i].Attach? && !m.captured && m.refs[i].seen != m.word
    ensures var x, r := m.refs[i], Next(m, Move(i, Go));
            Ended(m, r, i) || (r == m.To(i, Attach(x.kind, x.weight, x.source, m.word)) && Good(r))
  {
    Knows(m, i);
    AttachesLater(m, i);
    NotRefused(m, i);
    var r := Next(m, Move(i, Go));
    if r.refs[i].Attach? {
      assert r.revived == m.revived;
      hide Inv, WeakInv, AllLooked;
      StepGood(m, i, Go);
    }
  }

  lemma SameElse(m: Machine, again: Machine, i: nat, x: Ref)
    requires i < |m.refs| && (m.refs[i].Attach? || m.refs[i].Unborn?) && x.Attach? && again == m.To(i, x)
    ensures NobodyElse(again, x.kind) ==> NobodyElse(m, x.kind)
  {
    NoWeight(m.refs[i]);
    hide Weight;
    forall j | 2 <= j < |m.refs| && NobodyElse(again, x.kind)
      ensures if x.kind.View? then !Counted(m.refs[j]) else Weight(m.refs[j], Handle) == 0
    {
      assert j != i ==> again.refs[j] == m.refs[j];
    }
  }

  lemma EndsAgain(m: Machine, again: Machine, r: Machine, i: nat)
    requires i < |m.refs| && m.refs[i].Attach? && m.refs[i].source != i
    requires var x := m.refs[i]; again == m.To(i, Attach(x.kind, x.weight, x.source, m.word)) && Ended(again, r, i)
    ensures Ended(m, r, i)
  {
    var x := m.refs[i];
    SameElse(m, again, i, again.refs[i]);
    hide NobodyElse, Raises;
    assert again.To(i, Refused).refs == m.To(i, Refused).refs;
    assert again.To(i, Live(x.kind, x.weight)).refs == m.To(i, Live(x.kind, x.weight)).refs;
  }

  // An attach that moves alone ends within two moves; one that copies another reference than
  // the weak one, and does not cast a view, succeeds.
  lemma AttachEnds(m: Machine, i: nat) returns (moves: seq<Move>)
    requires Good(m) && i < |m.refs| && m.refs[i].Attach? && !m.captured
    ensures |moves| <= 2 && forall n :: 0 <= n < |moves| ==> moves[n] == Move(i, Go)
    ensures m.refs[i].seen == m.word ==> moves == [Move(i, Go)]
    ensures Ended(m, Run(m, moves), i)
  {
    var go := Move(i, Go);
    Knows(m, i);
    RunNothing(m);
    hide Inv, WeakInv, AllLooked, Run, Next, Ended;
    if m.refs[i].seen == m.word {
      EndsNow(m, i);
    } else {
      EndsLater(m, i);
    }
    var r;
    moves, r := Then(m, [], m, go);
    if !Ended(m, r, i) {
      EndsNow(r, i);
      var again := r;
      moves, r := Then(m, moves, again, go);
      EndsAgain(m, again, r, i);
    }
  }

  // How a copy begins, up to the first look.
  lemma CopyBegins(m: Machine, i: nat, kind: Kind, weight: nat, source: nat) returns (moves: seq<Move>)
    requires Inv(m) && 2 <= i < |m.refs| && m.refs[i].Unborn? && !m.captured
    requires source < |m.refs| && source != i && m.refs[source].Live? && 1 <= weight <= EscapedIncrement
    requires kind.Handle? ==> m.refs[source].kind.Handle?
    ensures |moves| <= 3 && forall n :: 0 <= n < |moves| ==> moves[n].ref == i
    ensures Run(m, moves) == m.To(i, Attach(kind, weight, source, m.word))
    ensures Inv(Run(m, moves)) && (Good(m) ==> Good(Run(m, moves)))
  {
    RunNothing(m);
    SomethingStays(m, source);
    SourceWeight(m.refs[source], m.word);
    Knows(m, source);
    hide Inv, WeakInv, AllLooked, Run;
    var r := m;
    moves, r := Then(m, [], m, Move(i, Copy(kind, weight, source)));
    assert r == m.To(i, Start(kind, weight, source));
    if kind.View? {
      moves, r := Then(m, moves, r, Move(i, Go));
      assert r == m.To(i, Peek(kind, weight, source));
    }
    assert r == m.To(i, Peek(kind, weight, source));
    moves, r := Then(m, moves, r, Move(i, Go));
    assert r == m.To(i, Attach(kind, weight, source, m.word));
    hide Next;
    RunInv(m, moves);
    if Good(m) {
      RunGood(m, moves);
    }
  }

  lemma SourceWeight(r: Ref, w: Word)
    requires r.Live? && (w.handles == MaxCount || w.handles >= Weight(r, Handle)) && r.weight > 0
    ensures r.kind.Handle? ==> w.handles > 0
  {
  }

  // Whatever has come back: a copy that moves alone is refused exactly if the weight of the weak
  // reference is all that there is, whoever has it, and else there is one more reference.
  lemma CopiesExactly(m: Machine, i: nat, kind: Kind, weight: nat, source: nat) returns (moves: seq<Move>)
    requires Inv(m) && 2 <= i < |m.refs| && m.refs[i].Unborn? && !m.captured
    requires source < |m.refs| && source != i && m.refs[source].Live? && 1 <= weight <= EscapedIncrement
    requires kind.Handle? ==> m.refs[source].kind.Handle?
    ensures |moves| <= 4 && forall n :: 0 <= n < |moves| ==> moves[n].ref == i
    ensures var only := m.word.weak.Inflated? &&
                        m.word.handles + (if kind.Handle? then 0 else m.word.views) == EscapedIncrement;
            if only then Run(m, moves) == m.To(i, Refused) else AttachedAs(m, Run(m, moves), i, kind, weight)
  {
    var a := CopyBegins(m, i, kind, weight, source);
    var r := Run(m, a);
    Knows(m, source);
    hide Inv, Run;
    AttachesNow(r, i);
    RefusedNow(r, i);
    hide Next, Raises;
    var s;
    moves, s := Then(m, a, r, Move(i, Go));
    assert r.To(i, Live(kind, weight)).refs == m.To(i, Live(kind, weight)).refs;
    assert r.To(i, Refused).refs == m.To(i, Refused).refs;
  }

  lemma RefusedNow(m: Machine, i: nat)
    requires i < |m.refs| && m.refs[i].Attach? && !m.captured
    ensures var seen, kind := m.refs[i].seen, m.refs[i].kind;
            Next(m, Move(i, Go)).refs[i].Refused? <==>
            seen.weak.Inflated? && seen.handles + (if kind.Handle? then 0 else seen.views) == EscapedIncrement
  {
    hide Captures;
  }

  // Copying another reference than the weak one: within five moves there is one more.
  lemma Copies(m: Machine, i: nat, kind: Kind, weight: nat, source: nat) returns (moves: seq<Move>)
    requires Good(m) && 2 <= i < |m.refs| && m.refs[i].Unborn? && !m.captured
    requires 2 <= source < |m.refs| && source != i && m.refs[source].Live? && 1 <= weight <= EscapedIncrement
    requires kind.Handle? ==> m.refs[source].kind.Handle?
    ensures |moves| <= 5 && forall n :: 0 <= n < |moves| ==> moves[n].ref == i
    ensures AttachedAs(m, Run(m, moves), i, kind, weight)
  {
    var a := CopyBegins(m, i, kind, weight, source);
    hide Run, Good;
    var r := Run(m, a);
    var b := AttachEnds(r, i);
    RunOn(m, a, b);
    moves := a + b;
    CopyEnds(m, r, Run(m, moves), i);
  }

  lemma CopyEnds(m: Machine, r: Machine, s: Machine, i: nat)
    requires i < |m.refs| == |r.refs| && m.refs[i].Unborn? && r == m.To(i, r.refs[i]) && r.refs[i].Attach?
             && Ended(r, s, i)
    ensures var x := r.refs[i];
            && (s == m.To(i, Refused) || AttachedAs(m, s, i, x.kind, x.weight))
            && (s == m.To(i, Refused) ==> (x.source < 2 || FromView(r, i)) && NobodyElse(m, x.kind))
  {
    var x := r.refs[i];
    SameElse(m, r, i, x);
    hide NobodyElse, Raises;
    assert r.To(i, Live(x.kind, x.weight)).refs == m.To(i, Live(x.kind, x.weight)).refs;
    assert r.To(i, Refused).refs == m.To(i, Refused).refs;
  }

  // Copying the weak reference: there is one more, or nobody else holds the object; of
  // handles it is exactly one of the two.
  lemma CopiesWeak(m: Machine, i: nat, kind: Kind, weight: nat, source: nat) returns (moves: seq<Move>)
    requires Good(m) && 2 <= i < |m.refs| && m.refs[i].Unborn? && !m.captured && m.word.weak.Inflated?
    requires source < 2 && m.refs[source].Live? && 1 <= weight <= EscapedIncrement
    requires kind.Handle? ==> m.refs[source].kind.Handle?
    ensures |moves| <= 5 && forall n :: 0 <= n < |moves| ==> moves[n].ref == i
    ensures var r := Run(m, moves);
            && (r == m.To(i, Refused) || AttachedAs(m, r, i, kind, weight))
            && (r == m.To(i, Refused) ==> NobodyElse(m, kind))
            && (kind.Handle? && m.word.handles != MaxCount && NobodyElse(m, kind) ==> r == m.To(i, Refused))
  {
    var a := CopyBegins(m, i, kind, weight, source);
    var r := Run(m, a);
    RunNothing(Next(r, Move(i, Go)));
    if kind.Handle? && NobodyElse(m, kind) && m.word.handles != MaxCount {
      OwnHandle(m, source);
      HandleRefused(r, i);
    }
    OneGo(r, i);
    hide Run, Good, Next;
    var b := AttachEnds(r, i);
    RunOn(m, a, b);
    moves := a + b;
    CopyEnds(m, r, Run(m, moves), i);
    assert r.To(i, Refused).refs == m.To(i, Refused).refs;
  }

  lemma OneGo(m: Machine, i: nat)
    ensures Run(m, [Move(i, Go)]) == Next(m, Move(i, Go))
  {
    hide Next;
    assert Run(Next(m, Move(i, Go)), []) == Next(m, Move(i, Go));
  }

  lemma HandleRefused(m: Machine, i: nat)
    requires i < |m.refs| && m.refs[i].Attach? && m.refs[i].kind.Handle? && m.refs[i].seen == m.word && !m.captured
    requires m.word.weak.Inflated? && m.word.handles == EscapedIncrement
    ensures Next(m, Move(i, Go)) == m.To(i, Refused)
  {
  }

  // The only handle is that of the weak reference.
  lemma OwnHandle(m: Machine, source: nat)
    requires Good(m) && source < 2 && m.refs[source].Live? && m.refs[source].kind.Handle?
    requires NobodyElse(m, Handle) && m.word.handles != MaxCount
    ensures m.word.handles == EscapedIncrement
  {
    var s := StatusOf(m);
    assert Stages(m.word, s) && s.r0 == m.refs[0] && s.r1 == m.refs[1];
    assert source == 0 && Weight(m.refs[1], Handle) == 0 && Weight(m.refs[0], Handle) == 2;
    assert Counts(m);
    hide Inv, WeakInv, AllLooked, Stages, Weight, Total;
    OnlyWeight(m.refs, 0, Handle);
  }

  lemma OnlyWeight(s: seq<Ref>, i: nat, k: Kind)
    requires i < |s| && forall j :: 0 <= j < |s| && j != i ==> Weight(s[j], k) == 0
    ensures Total(s, k) == Weight(s[i], k)
  {
    TotalUpdate(s, i, Gone, k);
    TotalZero(s[i := Gone], k);
    NoWeightOf(k);
    hide Total, Weight;
    assert forall j :: 0 <= j < |s| ==> s[i := Gone][j] == if j == i then Gone else s[j];
  }

  lemma NoWeightOf(k: Kind)
    ensures Weight(Gone, k) == 0
  {
  }
}
