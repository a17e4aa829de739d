// What the weak reference adds to the counting of references: it holds an attachment of
// its own, which must not keep the object alive, nor be lost.
module LifeCycleWeak {
  import opened Counting
  import opened LifeCycleRefs

  predicate Flips(r: Ref) {
    r.After? && r.task.Flip?
  }

  predicate Clears(r: Ref) {
    r.After? && r.task.Clear?
  }

  // A flip, or a clearing, has been decided on.
  ghost predicate Flipping(m: Machine) {
    m.flip || Count(m.refs, Flips) > 0
  }

  ghost predicate Clearing(m: Machine) {
    m.clear || Count(m.refs, Clears) > 0
  }

  predicate Early(r: Ref) {
    r.Unborn? || r.Begin? || r.Peek? || r.Attach? || r.Live? || r.Refused?
  }

  predicate Late(r: Ref) {
    r.Live? || r.Leaving? || r.Detach? || r.Wait? || r.After? || r.Gone?
  }

  // The weak reference could have no handle.
  predicate Viewish(r: Ref) {
    match r
    case Begin(_, _) => true
    case Peek(kind, _, _) => kind.View?
    case Attach(kind, _, _, _) => kind.View?
    case Live(kind, _) => kind.View?
    case Leaving(kind, _) => kind.View?
    case Detach(kind, _, _, _) => kind.View?
    case Refused => true
    case _ => false
  }

  predicate WeighsTwo(r: Ref) {
    match r
    case Begin(weight, _) => weight == EscapedIncrement
    case Peek(_, weight, _) => weight == EscapedIncrement
    case Attach(_, weight, _, _) => weight == EscapedIncrement
    case Live(_, weight) => weight == EscapedIncrement
    case Leaving(_, weight) => weight == EscapedIncrement
    case Detach(_, weight, _, _) => weight == EscapedIncrement
    case Wait(weight, _, _) => weight == EscapedIncrement
    case _ => true
  }

  // What the weak reference itself adds to the counts.
  ghost function Own(r0: Ref, r1: Ref): nat {
    Weight(r0, Handle) + Weight(r0, View) + Weight(r1, View)
  }

  // The weak reference and what has been decided about it.
  datatype Status = Status(r0: Ref, r1: Ref, flip: bool, clear: bool, flipping: bool, clearing: bool, missed: bool)

  ghost function StatusOf(m: Machine): Status
    requires |m.refs| >= 2
  {
    Status(m.refs[0], m.refs[1], m.flip, m.clear, Flipping(m), Clearing(m), m.missed)
  }

  // Who may be in which state.
  ghost predicate Stages(w: Word, s: Status) {
    && (s.flip ==> s.flipping) && (s.clear ==> s.clearing)
    && WeighsTwo(s.r0) && WeighsTwo(s.r1)
    && (Viewish(s.r0) ==> w.handles == 0)
    && (Viewish(s.r1) || s.r1.Unborn? || s.r1.After? || s.r1.Gone?)
    && (s.r1.Begin? || s.r1.Peek? || s.r1.Attach? ==> s.r1.source == 0)
    && (w.weak.Flat? ==> s.r0.Unborn?)
    && (!w.weak.Inflated? ==> !s.flipping && !s.clearing && s.r1.Unborn? && Early(s.r0))
    && (w.weak.Inflated? ==> Late(s.r0))
    && (w.weak.Inflated? && !s.flipping && !s.clearing ==> s.r0.Live? && s.r1.Unborn?)
    && (!s.r1.Unborn? ==> s.flip)
    && (w.weak.Inflated? && !s.r0.Live? ==>
          s.clear || (s.flip && !(s.r1.Unborn? || s.r1.Begin? || s.r1.Peek? || s.r1.Attach?)))
    && (s.r1.Leaving? || s.r1.Detach? || s.r1.After? || s.r1.Gone? ==> s.clear)
  }

  // How the counts go with it.
  ghost predicate Sums(w: Word, s: Status) {
    && (s.flipping ==> w.handles == Weight(s.r0, Handle) && !Viewish(s.r0))
    && (s.r1.Refused? ==> w.views == 0 && !s.r0.Wait? && (s.r0.Detach? ==> s.r0.seen.views == 0))
    && (w.weak.Inflated? && Own(s.r0, s.r1) == 0 ==> w.handles == 0 && w.views == 0)
    && (s.clearing ==> w.handles == 0 && w.views == Own(s.r0, s.r1))
    && (w.weak.Inflated? && Weight(s.r0, Handle) > 0 && w.handles == EscapedIncrement ==> s.flipping || s.missed)
    && (w.weak.Inflated? && w.handles == 0 && w.views == EscapedIncrement ==> s.clearing)
    && (s.missed ==> w.weak.Inflated? && w.handles == EscapedIncrement && !s.flipping && !s.clearing)
  }

  // Beside those of the weak reference there is one of weight `weight`.
  ghost predicate Room(w: Word, s: Status, kind: Kind, weight: nat) {
    && (w.handles == MaxCount || w.handles >= Weight(s.r0, Handle) + (if kind.Handle? then weight else 0))
    && (w.views == MaxCount
        || w.views >= Weight(s.r0, View) + Weight(s.r1, View) + (if kind.Handle? then 0 else weight))
  }

  // Another reference attaches.
  lemma OtherAttaches(w: Word, s: Status, kind: Kind, weight: nat)
    requires Stages(w, s) && Sums(w, s) && Room(w, s, kind, 0) && !Nobody(w)
    requires 1 <= weight <= 2 && !Blocks(w, kind) && (kind.Handle? ==> w.handles > 0)
    requires w.handles <= MaxCount && w.views <= MaxCount
    ensures var now := Attached(w, kind, weight);
            && Stages(now, s) && Sums(now, s)
            && (w.weak.Inflated? ==> w.handles + w.views > EscapedIncrement)
  {
  }

  // The first attachment of the weak reference.
  lemma WeakAttaches(w: Word, s: Status)
    requires Stages(w, s) && Sums(w, s) && s.r0.Attach?
    requires w.handles <= MaxCount && w.views <= MaxCount
    ensures var now := Attached(w, s.r0.kind, s.r0.weight);
            var s' := s.(r0 := Live(s.r0.kind, s.r0.weight));
            Stages(now, s') && Sums(now, s')
  {
  }

  // The view that replaces it.
  lemma ViewAttaches(w: Word, s: Status)
    requires Stages(w, s) && Sums(w, s) && s.r1.Attach? && s.r0.Live? && !Blocks(w, View)
    requires Room(w, s, View, 0) && w.handles <= MaxCount && w.views <= MaxCount
    ensures var now := Attached(w, View, s.r1.weight);
            var s' := s.(r1 := Live(s.r1.kind, s.r1.weight));
            Stages(now, s') && Sums(now, s') && w.handles + w.views > EscapedIncrement
  {
    assert s.flip && s.flipping && w.weak.Inflated? && s.r0 == Live(Handle, 2) && w.handles == 2;
  }

  // Another reference detaches.
  lemma OtherDetaches(w: Word, s: Status, kind: Kind, weight: nat, temp: bool)
    requires Stages(w, s) && Sums(w, s) && 1 <= weight <= 2 && Room(w, s, kind, weight) && w.Of(kind) != MaxCount
    requires temp ==> w.views == MaxCount || w.views >= Weight(s.r0, View) + Weight(s.r1, View) + 1
    requires kind.Handle? && w.handles == weight && w.views > 0 ==> temp
    requires w.handles <= MaxCount && w.views <= MaxCount
    ensures var now := w.With(kind, w.Of(kind) - weight);
            var task := TaskAfter(kind, now);
            var s' := s.(flipping := s.flipping || task.Flip?, clearing := s.clearing || task.Clear?);
            Stages(now, s') && Sums(now, s')
  {
  }

  // The first attachment of the weak reference is given up.
  lemma WeakDetaches(w: Word, s: Status)
    requires Stages(w, s) && Sums(w, s) && s.r0.Detach? && w.weak.Inflated? && w == s.r0.seen
    requires w.Of(s.r0.kind) != MaxCount && w.handles <= MaxCount && w.views <= MaxCount
    requires Room(w, s, View, if s.r0.temp.Some? then 1 else 0) && w.Of(s.r0.kind) >= s.r0.weight
    requires !NeedsTemp(s.r0.kind, w, s.r0.temp)
    ensures var now := w.With(s.r0.kind, w.Of(s.r0.kind) - s.r0.weight);
            var task := TaskAfter(s.r0.kind, now);
            var s' := s.(r0 := After(task, s.r0.temp),
                      flipping := s.flipping || task.Flip?, clearing := s.clearing || task.Clear?);
            Stages(now, s') && Sums(now, s')
  {
  }

  lemma ViewDetaches(w: Word, s: Status)
    requires Stages(w, s) && Sums(w, s) && s.r1.Detach? && w == s.r1.seen
    requires w.handles <= MaxCount && w.views <= MaxCount && w.views >= s.r1.weight
    ensures var now := w.With(s.r1.kind, w.Of(s.r1.kind) - s.r1.weight);
            var task := TaskAfter(s.r1.kind, now);
            var s' := s.(r1 := After(task, s.r1.temp),
                      flipping := s.flipping || task.Flip?, clearing := s.clearing || task.Clear?);
            Stages(now, s') && Sums(now, s')
  {
  }

  // ----- the machine ---------------------------------------------------------

  // Once only the attachment of the weak reference was left, no more than that can be.
  ghost predicate SeesWeak(w: Word, r: Ref) {
    (r.Attach? || r.Detach? || r.Wait?) && r.seen.weak.Inflated? ==>
      && w.weak.Inflated?
      && (r.seen.handles + r.seen.views == EscapedIncrement ==> w.handles + w.views <= EscapedIncrement)
  }

  // No detach fails, and no view that is to keep the object alive is refused.
  ghost predicate Fine(m: Machine, r: Ref) {
    !r.Failed? && (r.Wait? && r.temp.Some? && r.temp.index < |m.refs| ==> !m.refs[r.temp.index].Refused?)
  }

  ghost predicate WeakInv(m: Machine) {
    && |m.refs| >= 2
    && Stages(m.word, StatusOf(m)) && Sums(m.word, StatusOf(m))
    && (m.word.weak.Inflating? ==> 2 <= m.caller < |m.refs| && m.refs[m.caller].Live?)
    && (forall i :: 0 <= i < |m.refs| ==> SeesWeak(m.word, m.refs[i]))
    && (forall i :: 0 <= i < |m.refs| ==> Fine(m, m.refs[i]))
  }

  lemma InitialWeakInv(m: Machine)
    requires Initial(m)
    ensures WeakInv(m)
  {
    CountNone(m.refs, Flips);
    CountNone(m.refs, Clears);
    hide Total;
  }

  // What reference `i` leaves of the counts to the weak reference.
  lemma RoomBeside(m: Machine, i: nat)
    requires Inv(m) && i < |m.refs| && Counted(m.refs[i])
    ensures i >= 2 ==> Room(m.word, StatusOf(m), Handle, Weight(m.refs[i], Handle))
    ensures i >= 2 ==> Room(m.word, StatusOf(m), View, Weight(m.refs[i], View))
    ensures Room(m.word, StatusOf(m), Handle, 0)
  {
    ThreeIn(m.refs, Handle, i);
    ThreeIn(m.refs, View, i);
    assert Weight(m.refs[1], Handle) >= 0;
    hide Total, Flipping, Clearing;
  }

  lemma ThreeIn(s: seq<Ref>, k: Kind, i: nat)
    requires |s| >= 2 && i < |s|
    ensures Total(s, k) >= Weight(s[0], k) + Weight(s[1], k) + if i >= 2 then Weight(s[i], k) else 0
  {
    assert Total(s, k) == Weight(s[0], k) + Total(s[1..], k);
    assert s[1..][0] == s[1] && s[1..][1..] == s[2..];
    assert Total(s[1..], k) == Weight(s[1], k) + Total(s[2..], k);
    if i >= 2 {
      TotalOne(s[2..], i - 2, k);
    }
  }

  lemma StatusAfter(m: Machine, i: nat, m': Machine)
    requires |m.refs| == |m'.refs| >= 2 && i < |m.refs| && m'.refs == m.refs[i := m'.refs[i]]
    requires m'.flip == m.flip && m'.clear == m.clear && m'.missed == m.missed && !m.refs[i].After?
    ensures var r := m'.refs[i];
            StatusOf(m') == StatusOf(m).(r0 := m'.refs[0], r1 := m'.refs[1],
            flipping := StatusOf(m).flipping || Flips(r),
                        clearing := StatusOf(m).clearing || Clears(r))
            && StatusOf(m).r0 == m.refs[0] && StatusOf(m).r1 == m.refs[1]
  {
    CountUpdate(m.refs, i, m'.refs[i], Flips);
    CountUpdate(m.refs, i, m'.refs[i], Clears);
    hide Count;
  }

  // A reference moves, and the others go on as before.
  lemma WeakKept(m: Machine, i: nat, m': Machine)
    requires WeakInv(m) && i < |m.refs| == |m'.refs| && m'.refs == m.refs[i := m'.refs[i]]
    requires Stages(m'.word, StatusOf(m')) && Sums(m'.word, StatusOf(m'))
    requires m'.word.weak.Inflating? ==> 2 <= m'.caller < |m.refs| && m'.refs[m'.caller].Live?
    requires m.word.weak.Inflated? ==> m'.word.weak.Inflated?
    requires m.word.weak.Inflated? && m.word.handles + m.word.views <= EscapedIncrement ==>
               m'.word.handles + m'.word.views <= EscapedIncrement
    requires SeesWeak(m'.word, m'.refs[i]) && Fine(m', m'.refs[i])
    requires m'.refs[i].Refused? && !m.refs[i].Refused? ==>
               forall k :: 0 <= k < |m.refs| && m.refs[k].Wait? ==> m.refs[k].temp != Some(i)
    ensures WeakInv(m')
  {
    forall j | 0 <= j < |m'.refs|
      ensures SeesWeak(m'.word, m'.refs[j]) && Fine(m', m'.refs[j])
    {
      if j != i {
        assert SeesWeak(m.word, m.refs[j]) && Fine(m, m.refs[j]);
      }
    }
    hide Stages, Sums, SeesWeak, Fine, StatusOf;
  }

  // The update of an attach succeeds.
  lemma AttachWinsWeak(m: Machine, i: nat, kind: Kind, weight: nat, source: nat, seen: Word)
    requires Inv(m) && WeakInv(m) && i < |m.refs| && m.refs[i] == Attach(kind, weight, source, seen) && m.word == seen
    requires !Blocks(seen, kind) && !Immortal(seen, kind, weight) && (kind.Handle? && i != 0 ==> seen.handles > 0)
    ensures WeakInv(StepAttach(m, i, kind, weight, source, seen))
  {
    var m' := StepAttach(m, i, kind, weight, source, seen);
    Knows(m, i);
    SomethingStays(m, source);
    RoomBeside(m, source);
    StatusAfter(m, i, m');
    assert Stages(m.word, StatusOf(m)) && Sums(m.word, StatusOf(m));
    var s := StatusOf(m);
    AttachedWeak(seen, kind, weight);
    hide Inv, Blocks, Attached, Immortal, Captures, Stages, Sums, Room, StatusOf, Local;
    if i == 0 {
      WeakAttaches(m.word, s);
      NotYet(m.word, s);
    } else if i == 1 {
      ViewShape(m.word, s);
      ViewAttaches(m.word, s);
    } else {
      OtherAttaches(m.word, s, kind, weight);
    }
    WeakKept(m, i, m');
  }

  lemma AttachedWeak(seen: Word, kind: Kind, weight: nat)
    ensures Attached(seen, kind, weight).weak == seen.weak
  {
  }

  // Before the weak reference is ready.
  lemma NotYet(w: Word, s: Status)
    requires Stages(w, s) && !Late(s.r0)
    ensures !w.weak.Inflated?
  {
  }

  lemma ViewShape(w: Word, s: Status)
    requires Stages(w, s) && Sums(w, s) && s.r1.Attach?
    ensures s.r1.kind.View? && s.r1.source == 0 && w.weak.Inflated? && s.flip
  {
  }

  // The view that would replace the weak reference's handle is refused: there is no other.
  lemma ViewRefused(w: Word, s: Status)
    requires Stages(w, s) && Sums(w, s) && s.r1.Attach? && s.r0.Live? && Room(w, s, Handle, 0)
    requires w.handles + w.views <= EscapedIncrement
    ensures Stages(w, s.(r1 := Refused)) && Sums(w, s.(r1 := Refused))
  {
  }

  // Another handle, or the weak reference's own once it has a view, is more than its attachment.
  lemma MoreThanOwn(w: Word, s: Status, weight: nat)
    requires Stages(w, s) && Sums(w, s) && w.weak.Inflated?
    requires Room(w, s, Handle, weight) && (weight > 0 || s.r0.Wait?)
    ensures w.handles + w.views > EscapedIncrement
  {
  }

  // A view that is to keep the object alive is not refused.
  lemma TempNotRefused(m: Machine, k: nat, i: nat)
    requires Inv(m) && WeakInv(m) && k < |m.refs| && i < |m.refs| && m.refs[k].Wait? && m.refs[k].temp == Some(i)
    requires m.refs[i].Attach?
    ensures !Blocks(m.refs[i].seen, m.refs[i].kind)
  {
    Knows(m, k);
    RoomBeside(m, k);
    assert Stages(m.word, StatusOf(m)) && Sums(m.word, StatusOf(m)) && SeesWeak(m.word, m.refs[i]);
    var s := StatusOf(m);
    assert s.r0 == m.refs[0] && s.r1 == m.refs[1];
    if Blocks(m.refs[i].seen, m.refs[i].kind) {
      hide Inv, WeakInv, Sums, Room;
      assert k != 1;
      MoreThanOwn(m.word, s, if k == 0 then 0 else m.refs[k].weight);
      assert false;
    }
  }

  // An attach of the weak reference goes round the loop again.
  lemma WeakTriesAgain(w: Word, s: Status)
    requires Stages(w, s) && Sums(w, s)
    ensures s.r0.Attach? ==>
              var s' := s.(r0 := Attach(s.r0.kind, s.r0.weight, s.r0.source, w)); Stages(w, s') && Sums(w, s')
    ensures s.r1.Attach? ==>
              var s' := s.(r1 := Attach(s.r1.kind, s.r1.weight, s.r1.source, w)); Stages(w, s') && Sums(w, s')
  {
  }

  // It finds the object immortal.
  lemma WeakImmortal(w: Word, s: Status)
    requires Stages(w, s) && Sums(w, s)
    ensures s.r0.Attach? && w.Of(s.r0.kind) == MaxCount ==>
              var s' := s.(r0 := Live(s.r0.kind, s.r0.weight)); Stages(w, s') && Sums(w, s')
    ensures s.r1.Attach? && s.r0.Live? && w.views == MaxCount ==>
              var s' := s.(r1 := Live(s.r1.kind, s.r1.weight)); Stages(w, s') && Sums(w, s')
  {
  }

  lemma AttachAgainWeak(m: Machine, i: nat, kind: Kind, weight: nat, source: nat, seen: Word)
    requires Inv(m) && WeakInv(m) && i < |m.refs| && m.refs[i] == Attach(kind, weight, source, seen)
    ensures WeakInv(m.To(i, Attach(kind, weight, source, m.word)))
  {
    var m' := m.To(i, Attach(kind, weight, source, m.word));
    StatusAfter(m, i, m');
    assert Stages(m.word, StatusOf(m)) && Sums(m.word, StatusOf(m));
    WeakTriesAgain(m.word, StatusOf(m));
    hide Inv, Stages, Sums, StatusOf;
    WeakKept(m, i, m');
  }

  lemma AttachImmortalWeak(m: Machine, i: nat, kind: Kind, weight: nat, source: nat, seen: Word)
    requires Inv(m) && WeakInv(m) && i < |m.refs| && m.refs[i] == Attach(kind, weight, source, seen)
    requires Immortal(seen, kind, weight)
    ensures WeakInv(m.To(i, Live(kind, weight)))
  {
    var m' := m.To(i, Live(kind, weight));
    Knows(m, i);
    Knows(m, 0);
    StatusAfter(m, i, m');
    assert Stages(m.word, StatusOf(m)) && Sums(m.word, StatusOf(m));
    if i == 1 {
      ViewShape(m.word, StatusOf(m));
    }
    WeakImmortal(m.word, StatusOf(m));
    hide Inv, Stages, Sums, StatusOf;
    WeakKept(m, i, m');
  }

  lemma AttachRefusedWeak(m: Machine, i: nat, kind: Kind, weight: nat, source: nat, seen: Word)
    requires Inv(m) && WeakInv(m) && i < |m.refs| && m.refs[i] == Attach(kind, weight, source, seen)
    requires Blocks(seen, kind)
    ensures WeakInv(m.To(i, Refused))
  {
    var m' := m.To(i, Refused);
    StatusAfter(m, i, m');
    assert Stages(m.word, StatusOf(m)) && Sums(m.word, StatusOf(m)) && SeesWeak(m.word, m.refs[i]);
    forall k | 0 <= k < |m.refs| && m.refs[k].Wait?
      ensures m.refs[k].temp != Some(i)
    {
      if m.refs[k].temp == Some(i) {
        TempNotRefused(m, k, i);
        assert false;
      }
    }
    if i == 0 {
      assert false;
    } else if i == 1 {
      ViewShape(m.word, StatusOf(m));
      Knows(m, 1);
      Knows(m, 0);
      RoomBeside(m, 0);
      ViewRefused(m.word, StatusOf(m));
    }
    hide Inv, Stages, Sums, StatusOf;
    WeakKept(m, i, m');
  }

  lemma AttachWeak(m: Machine, i: nat, kind: Kind, weight: nat, source: nat, seen: Word)
    requires Inv(m) && WeakInv(m) && i < |m.refs| && m.refs[i] == Attach(kind, weight, source, seen)
    requires StepAttach(m, i, kind, weight, source, seen).revived <= {0}
    ensures WeakInv(StepAttach(m, i, kind, weight, source, seen))
  {
    hide Inv, WeakInv, Blocks, Immortal, Attached, Captures;
    if Blocks(seen, kind) {
      AttachRefusedWeak(m, i, kind, weight, source, seen);
    } else if Immortal(seen, kind, weight) {
      AttachImmortalWeak(m, i, kind, weight, source, seen);
    } else if m.word == seen {
      AttachWinsWeak(m, i, kind, weight, source, seen);
    } else {
      AttachAgainWeak(m, i, kind, weight, source, seen);
    }
  }

  // How the first reference of the weak reference may go on by itself.
  predicate WeakGoesOn(w: Word, r0: Ref, r: Ref) {
    match r0
    case Unborn => r == r0 || (w.weak.Inflating? && r.Peek? && r.kind.Handle? && r.weight == EscapedIncrement)
    case Begin(weight, source) => r == Peek(View, weight, source)
    case Peek(kind, weight, source) =>
      if kind.Handle? && w.handles == 0 then r == Refused else r == Attach(kind, weight, source, w)
    case Refused => r == r0 || (w.weak.Inflating? && r.Begin? && r.weight == EscapedIncrement)
    case Leaving(kind, weight) => r == Detach(kind, weight, w, None)
    case Wait(weight, seen, temp) => r == r0 || (temp.Some? && r == Detach(Handle, weight, seen, temp))
    case _ => r == r0
  }

  // How its view may go on by itself.
  predicate ViewGoesOn(w: Word, s: Status, r: Ref) {
    match s.r1
    case Unborn => r == s.r1 || (s.flip && r == Begin(EscapedIncrement, 0))
    case Begin(weight, source) => r == Peek(View, weight, source)
    case Peek(kind, weight, source) => kind.View? ==> r == Attach(kind, weight, source, w)
    case Leaving(kind, weight) => r == Detach(kind, weight, w, None)
    case Wait(weight, seen, temp) => true
    case _ => r == s.r1
  }

  lemma WeakGoes(w: Word, s: Status, r: Ref)
    requires Stages(w, s) && Sums(w, s) && WeakGoesOn(w, s.r0, r)
    ensures Stages(w, s.(r0 := r)) && Sums(w, s.(r0 := r))
  {
    assert Weight(r, Handle) == Weight(s.r0, Handle) && Weight(r, View) == Weight(s.r0, View);
    hide Weight;
    match s.r0
    case Unborn =>
    case Begin(weight, source) =>
    case Peek(kind, weight, source) =>
    case Refused =>
    case Leaving(kind, weight) =>
    case Wait(weight, seen, temp) =>
    case _ =>
  }

  lemma ViewGoes(w: Word, s: Status, r: Ref)
    requires Stages(w, s) && Sums(w, s) && ViewGoesOn(w, s, r)
    ensures Stages(w, s.(r1 := r)) && Sums(w, s.(r1 := r))
  {
    ViewGoesStages(w, s, r);
    hide Stages;
  }

  lemma ViewGoesStages(w: Word, s: Status, r: Ref)
    requires Stages(w, s) && ViewGoesOn(w, s, r) && (s.flipping ==> w.weak.Inflated?)
    ensures Stages(w, s.(r1 := r)) && Weight(r, View) == Weight(s.r1, View) && (r.Refused? ==> s.r1.Refused?)
  {
    match s.r1
    case Unborn =>
    case Begin(weight, source) =>
    case Peek(kind, weight, source) =>
    case Leaving(kind, weight) =>
    case _ =>
  }

  lemma AloneGoesOn(m: Machine, i: nat, a: Action)
    requires Inv(m) && WeakInv(m) && i < |m.refs|
    requires var r := m.refs[i]; !r.Attach? && !r.Detach? && !r.After? && !r.Live?
    ensures var r := StepAlone(m, i, a);
            && (i == 0 ==> WeakGoesOn(m.word, m.refs[0], r))
            && (i == 1 ==> ViewGoesOn(m.word, StatusOf(m), r))
            && !r.After? && SeesWeak(m.word, r) && !r.Failed? && (r.Wait? ==> r == m.refs[i])
            && (r.Refused? && !m.refs[i].Refused? ==> m.refs[i].Peek? && m.refs[i].kind.Handle?)
  {
    Knows(m, i);
    if m.refs[i].Begin? {
      SomethingStays(m, m.refs[i].source);
    }
    assert Fine(m, m.refs[i]) && SeesWeak(m.word, m.refs[i]);
    hide Inv, WeakInv, Free, Flipping, Clearing;
    if m.refs[i].Unborn? || m.refs[i].Refused? {
      hide Local, Fine, SeesWeak;
    } else {
      hide MayCopy;
    }
  }

  lemma AloneWeak(m: Machine, i: nat, a: Action)
    requires Inv(m) && WeakInv(m) && i < |m.refs|
    requires var r := m.refs[i]; !r.Attach? && !r.Detach? && !r.After? && !r.Live?
    ensures WeakInv(m.To(i, StepAlone(m, i, a)))
  {
    var r := StepAlone(m, i, a);
    var m' := m.To(i, r);
    StatusAfter(m, i, m');
    assert Stages(m.word, StatusOf(m)) && Sums(m.word, StatusOf(m));
    AloneGoesOn(m, i, a);
    if i == 0 {
      WeakGoes(m.word, StatusOf(m), r);
    } else if i == 1 {
      ViewGoes(m.word, StatusOf(m), r);
    }
    forall k | 0 <= k < |m.refs| && m.refs[k].Wait?
      ensures r.Refused? && !m.refs[i].Refused? ==> m.refs[k].temp != Some(i)
    {
      Knows(m, k);
    }
    hide Inv, StepAlone, StatusOf, Stages, Sums;
    WeakKept(m, i, m');
  }

  lemma DetachWinsWeak(m: Machine, i: nat, kind: Kind, weight: nat, temp: Option)
    requires Inv(m) && WeakInv(m) && i < |m.refs| && m.refs[i] == Detach(kind, weight, m.word, temp)
    requires !NeedsTemp(kind, m.word, temp) && m.word.Of(kind) != MaxCount && m.word.Of(kind) >= weight
    ensures var now := m.word.With(kind, m.word.Of(kind) - weight);
            WeakInv(m.(word := now).To(i, After(TaskAfter(kind, now), temp)))
  {
    var now := m.word.With(kind, m.word.Of(kind) - weight);
    var m' := m.(word := now).To(i, After(TaskAfter(kind, now), temp));
    DetachWinsStatus(m, i, kind, weight, temp);
    hide Inv, StatusOf, TaskAfter, Stages, Sums, NeedsTemp;
    WeakKept(m, i, m');
  }

  lemma DetachWinsStatus(m: Machine, i: nat, kind: Kind, weight: nat, temp: Option)
    requires Inv(m) && WeakInv(m) && i < |m.refs| && m.refs[i] == Detach(kind, weight, m.word, temp)
    requires !NeedsTemp(kind, m.word, temp) && m.word.Of(kind) != MaxCount && m.word.Of(kind) >= weight
    ensures var now := m.word.With(kind, m.word.Of(kind) - weight);
            var m' := m.(word := now).To(i, After(TaskAfter(kind, now), temp));
            Stages(now, StatusOf(m')) && Sums(now, StatusOf(m'))
  {
    var now, s := m.word.With(kind, m.word.Of(kind) - weight), StatusOf(m);
    var r := After(TaskAfter(kind, now), temp);
    StatusAfter(m, i, m.(word := now).To(i, r));
    DetachWinsRoom(m, i, kind, weight, temp);
    assert Stages(m.word, s) && Sums(m.word, s);
    hide Inv, WeakInv, StatusOf, TaskAfter, NeedsTemp, Room, Stages, Sums;
    if i == 0 {
      assert s.r0 == m.refs[0];
      LateOnly(m.word, s);
      WeakDetaches(m.word, s);
    } else if i == 1 {
      assert s.r1 == m.refs[1];
      ViewDetaches(m.word, s);
    } else {
      OtherDetaches(m.word, s, kind, weight, temp.Some?);
    }
  }

  lemma DetachWinsRoom(m: Machine, i: nat, kind: Kind, weight: nat, temp: Option)
    requires Inv(m) && i < |m.refs| && m.refs[i] == Detach(kind, weight, m.word, temp) && !NeedsTemp(kind, m.word, temp)
    ensures var s := StatusOf(m);
            && 1 <= weight <= 2 && m.word.handles <= MaxCount && m.word.views <= MaxCount
            && (i >= 2 ==> Room(m.word, s, kind, weight))
            && Room(m.word, s, View, if temp.Some? then 1 else 0)
            && (temp.Some? ==> m.word.views == MaxCount || m.word.views >= Weight(s.r0, View) + Weight(s.r1, View) + 1)
            && (kind.Handle? && m.word.handles == weight && m.word.views > 0 ==> temp.Some?)
  {
    Knows(m, i);
    RoomBeside(m, i);
    if temp.Some? {
      RoomBeside(m, temp.index);
    }
    RoomForTemp(m.word, StatusOf(m), temp);
    TempForLast(kind, weight, m.word, temp);
    hide Inv, StatusOf, NeedsTemp, Room;
  }

  lemma TempForLast(kind: Kind, weight: nat, w: Word, temp: Option)
    requires !NeedsTemp(kind, w, temp) && 1 <= weight <= 2
    ensures kind.Handle? && w.handles == weight && w.views > 0 ==> temp.Some?
  {
  }

  lemma RoomForTemp(w: Word, s: Status, temp: Option)
    requires temp.Some? ==> Room(w, s, View, 1)
    requires temp.None? ==> Room(w, s, Handle, 0)
    ensures Room(w, s, View, if temp.Some? then 1 else 0)
    ensures temp.Some? ==> w.views == MaxCount || w.views >= Weight(s.r0, View) + Weight(s.r1, View) + 1
  {
  }

  lemma LateOnly(w: Word, s: Status)
    requires Stages(w, s) && !Early(s.r0)
    ensures w.weak.Inflated?
  {
  }

  // The attachments of the weak reference that are given up are not immortal, and their
  // detach may go round the loop again, or wait for a view.
  lemma WeakLeaves(w: Word, s: Status)
    requires Stages(w, s) && Sums(w, s)
    ensures s.r0.Detach? ==>
              && w.Of(s.r0.kind) != MaxCount
              && var s' := s.(r0 := Detach(s.r0.kind, s.r0.weight, w, s.r0.temp)); Stages(w, s') && Sums(w, s')
    ensures s.r1.Detach? ==>
              && w.Of(s.r1.kind) != MaxCount
              && var s' := s.(r1 := Detach(s.r1.kind, s.r1.weight, w, s.r1.temp)); Stages(w, s') && Sums(w, s')
    ensures s.r1.Detach? ==> s.r1.kind.View?
  {
  }

  lemma WeakWaits(w: Word, s: Status, j: nat)
    requires Stages(w, s) && Sums(w, s) && s.r0.Detach? && s.r0.kind.Handle? && s.r0.seen.views > 0
    ensures var s' := s.(r0 := Wait(s.r0.weight, s.r0.seen, Some(j))); Stages(w, s') && Sums(w, s')
  {
  }

  lemma DetachAgainWeak(m: Machine, i: nat, kind: Kind, weight: nat, seen: Word, temp: Option)
    requires Inv(m) && WeakInv(m) && i < |m.refs| && m.refs[i] == Detach(kind, weight, seen, temp)
    ensures WeakInv(m.To(i, Detach(kind, weight, m.word, temp)))
  {
    var m' := m.To(i, Detach(kind, weight, m.word, temp));
    StatusAfter(m, i, m');
    assert Stages(m.word, StatusOf(m)) && Sums(m.word, StatusOf(m));
    WeakLeaves(m.word, StatusOf(m));
    hide Inv, Stages, Sums, StatusOf;
    WeakKept(m, i, m');
  }

  lemma DetachImmortalWeak(m: Machine, i: nat, kind: Kind, weight: nat, seen: Word, temp: Option)
    requires Inv(m) && WeakInv(m) && i < |m.refs| && m.refs[i] == Detach(kind, weight, seen, temp)
    requires seen.Of(kind) == MaxCount
    ensures WeakInv(m.To(i, Gone))
  {
    var m' := m.To(i, Gone);
    Knows(m, i);
    StatusAfter(m, i, m');
    assert Stages(m.word, StatusOf(m)) && Sums(m.word, StatusOf(m));
    WeakLeaves(m.word, StatusOf(m));
    hide Inv, Stages, Sums, StatusOf;
    WeakKept(m, i, m');
  }

  lemma StartTempWeak(m: Machine, i: nat, weight: nat, seen: Word, j: nat)
    requires Inv(m) && WeakInv(m) && i < |m.refs| && m.refs[i] == Detach(Handle, weight, seen, None) && seen.views > 0
    requires 2 <= j < |m.refs| && m.refs[j].Unborn? && j != i
    ensures WeakInv(m.To(i, Wait(weight, seen, Some(j))).To(j, Begin(1, i)))
  {
    var m' := m.To(i, Wait(weight, seen, Some(j)));
    var m'' := m'.To(j, Begin(1, i));
    StatusAfter(m, i, m');
    assert Stages(m.word, StatusOf(m)) && Sums(m.word, StatusOf(m)) && SeesWeak(m.word, m.refs[i]);
    if i == 0 {
      WeakWaits(m.word, StatusOf(m), j);
    } else if i == 1 {
      assert false;
    }
    hide Inv, Stages, Sums, StatusOf;
    WeakKept(m, i, m');
    StatusAfter(m', j, m'');
    WeakKept(m', j, m'');
  }

  lemma TempWeak(m: Machine, i: nat, weight: nat, seen: Word, a: Action)
    requires Inv(m) && WeakInv(m) && i < |m.refs| && m.refs[i] == Detach(Handle, weight, seen, None) && seen.views > 0
    ensures WeakInv(StepTemp(m, i, weight, seen, a))
  {
    hide Inv, WeakInv;
    if a.Temp? && 2 <= a.index < |m.refs| && m.refs[a.index].Unborn? && a.index != i {
      StartTempWeak(m, i, weight, seen, a.index);
    }
  }

  lemma DetachWeak(m: Machine, i: nat, kind: Kind, weight: nat, seen: Word, temp: Option, a: Action)
    requires Inv(m) && WeakInv(m) && i < |m.refs| && m.refs[i] == Detach(kind, weight, seen, temp)
    ensures WeakInv(StepDetach(m, i, kind, weight, seen, temp, a))
  {
    Knows(m, i);
    assert seen.Of(kind) >= weight > 0;
    DetachCases(m, i, kind, weight, seen, temp, a);
    hide Inv, WeakInv, Local, StepDetach, StepTemp, TaskAfter;
    if NeedsTemp(kind, seen, temp) {
      TempWeak(m, i, weight, seen, a);
    } else if seen.Of(kind) == MaxCount {
      DetachImmortalWeak(m, i, kind, weight, seen, temp);
    } else if m.word == seen {
      hide NeedsTemp;
      DetachWinsWeak(m, i, kind, weight, temp);
    } else {
      DetachAgainWeak(m, i, kind, weight, seen, temp);
    }
  }

  // A detach whose count is at least its weight does not fail.
  lemma DetachCases(m: Machine, i: nat, kind: Kind, weight: nat, seen: Word, temp: Option, a: Action)
    requires i < |m.refs| && seen.Of(kind) >= weight > 0
    ensures StepDetach(m, i, kind, weight, seen, temp, a) ==
            if NeedsTemp(kind, seen, temp) then StepTemp(m, i, weight, seen, a)
            else if seen.Of(kind) == MaxCount then m.To(i, Gone)
            else if m.word == seen then
              var now := m.word.With(kind, m.word.Of(kind) - weight);
              m.(word := now).To(i, After(TaskAfter(kind, now), temp))
            else m.To(i, Detach(kind, weight, m.word, temp))
  {
    hide NeedsTemp, StepTemp, TaskAfter;
  }

  lemma AfterWeak(m: Machine, i: nat, task: Task, temp: Option)
    requires WeakInv(m) && i < |m.refs| && m.refs[i] == After(task, temp)
    ensures WeakInv(StepAfter(m, i, task))
  {
    hide StepAfter;
    var m' := StepAfter(m, i, task);
    StatusDone(m, i, task, temp);
    assert Stages(m.word, StatusOf(m)) && Sums(m.word, StatusOf(m));
    assert StatusOf(m).r0 == m.refs[0] && StatusOf(m).r1 == m.refs[1] && StatusOf(m).flip == m.flip
           && StatusOf(m).clear == m.clear;
    hide Stages, Sums, StatusOf, Count;
    Done(m.word, StatusOf(m), m'.refs[0], m'.refs[1], m'.flip, m'.clear);
    WeakKept(m, i, m');
  }

  lemma StatusDone(m: Machine, i: nat, task: Task, temp: Option)
    requires |m.refs| >= 2 && i < |m.refs| && m.refs[i] == After(task, temp)
    ensures var m' := StepAfter(m, i, task);
            && StatusOf(m') == StatusOf(m).(r0 := m'.refs[0], r1 := m'.refs[1], flip := m'.flip, clear := m'.clear)
            && (m'.flip ==> StatusOf(m).flipping) && (m'.clear ==> StatusOf(m).clearing)
  {
    CountUpdate(m.refs, i, Gone, Flips);
    CountUpdate(m.refs, i, Gone, Clears);
    if Flips(m.refs[i]) {
      CountSome(m.refs, i, Flips);
    }
    if Clears(m.refs[i]) {
      CountSome(m.refs, i, Clears);
    }
    hide Count, StepAfter;
  }

  lemma Done(w: Word, s: Status, r0: Ref, r1: Ref, flip: bool, clear: bool)
    requires Stages(w, s) && Sums(w, s)
    requires r0 == s.r0 || (s.r0.After? && r0.Gone?)
    requires r1 == s.r1 || (s.r1.After? && r1.Gone?)
    requires (s.flip ==> flip) && (flip ==> s.flipping) && (s.clear ==> clear) && (clear ==> s.clearing)
    ensures var s' := s.(r0 := r0, r1 := r1, flip := flip, clear := clear); Stages(w, s') && Sums(w, s')
  {
  }

  lemma LiveWeak(m: Machine, i: nat, a: Action)
    requires Inv(m) && WeakInv(m) && i < |m.refs| && m.refs[i].Live?
    ensures WeakInv(StepLive(m, i, a))
  {
    hide Inv, WeakInv, Free;
    if a.Leave? && MayLeave(m, i) {
      LeaveWeak(m, i);
    } else if a.Inflate? && m.word.weak.Flat? {
      InflateWeak(m, i);
    } else if a.Publish? && m.word.weak.Inflating? && m.caller == i && m.refs[0].Live? {
      PublishWeak(m, i);
    }
  }

  lemma LeaveWeak(m: Machine, i: nat)
    requires Inv(m) && WeakInv(m) && i < |m.refs| && m.refs[i].Live? && MayLeave(m, i)
    ensures WeakInv(m.To(i, Leaving(m.refs[i].kind, m.refs[i].weight)))
  {
    var m' := m.To(i, Leaving(m.refs[i].kind, m.refs[i].weight));
    StatusAfter(m, i, m');
    assert Stages(m.word, StatusOf(m)) && Sums(m.word, StatusOf(m));
    assert Free(m, i);
    MayGo(m.word, StatusOf(m));
    hide Inv, Stages, Sums, StatusOf, Free;
    assert m.word.weak.Inflating? ==> m.caller != i by {
      assert Free(m, i);
    }
    WeakKept(m, i, m');
  }

  lemma MayGo(w: Word, s: Status)
    requires Stages(w, s) && Sums(w, s)
    ensures s.r0.Live? && (s.clear || (s.flip && (s.r1.Live? || s.r1.Refused?))) ==>
              var s' := s.(r0 := Leaving(s.r0.kind, s.r0.weight)); Stages(w, s') && Sums(w, s')
    ensures s.r1.Live? && s.clear ==>
              var s' := s.(r1 := Leaving(s.r1.kind, s.r1.weight)); Stages(w, s') && Sums(w, s')
  {
  }

  lemma InflateWeak(m: Machine, i: nat)
    requires Inv(m) && WeakInv(m) && i < |m.refs| && m.refs[i].Live? && m.word.weak.Flat?
    ensures WeakInv(m.(word := m.word.(weak := Inflating), caller := i))
  {
    var m' := m.(word := m.word.(weak := Inflating), caller := i);
    assert StatusOf(m') == StatusOf(m) && m'.refs == m.refs[i := m'.refs[i]];
    assert Stages(m.word, StatusOf(m)) && Sums(m.word, StatusOf(m)) && SeesWeak(m.word, m.refs[i])
           && Fine(m, m.refs[i]);
    hide Inv, StatusOf;
    WeakKept(m, i, m');
  }

  lemma PublishWeak(m: Machine, i: nat)
    requires Inv(m) && WeakInv(m) && i == m.caller < |m.refs| && m.refs[i].Live?
    requires m.word.weak.Inflating? && m.refs[0].Live?
    ensures WeakInv(m.(word := m.word.(weak := Inflated), missed := m.word.handles == EscapedIncrement))
  {
    var m' := m.(word := m.word.(weak := Inflated), missed := m.word.handles == EscapedIncrement);
    assert StatusOf(m') == StatusOf(m).(missed := m'.missed) && m'.refs == m.refs[i := m'.refs[i]];
    var s := StatusOf(m);
    assert Stages(m.word, s) && Sums(m.word, s) && SeesWeak(m.word, m.refs[i]) && Fine(m, m.refs[i]);
    Knows(m, i);
    RoomBeside(m, i);
    assert s.r0 == m.refs[0];
    Published(m.word, s, m.refs[i].kind, m.refs[i].weight);
    hide Inv, StatusOf, Room, Sums, Stages;
    WeakKept(m, i, m');
  }

  // The weak reference becomes ready, with its caller still attached.
  lemma Published(w: Word, s: Status, kind: Kind, weight: nat)
    requires Stages(w, s) && Sums(w, s) && w.weak.Inflating? && s.r0.Live? && weight > 0 && Room(w, s, kind, weight)
    ensures var w', s' := w.(weak := Inflated), s.(missed := w.handles == EscapedIncrement);
            Stages(w', s') && Sums(w', s')
  {
  }

  // Every step keeps what is true of the weak reference, unless it revives a handle of
  // somebody else.
  lemma StepWeak(m: Machine, i: nat, a: Action)
    requires Inv(m) && WeakInv(m) && i < |m.refs| && Step(m, i, a).revived <= {0}
    ensures WeakInv(Step(m, i, a))
  {
    hide StepAttach, StepDetach, StepAfter, StepLive, StepAlone, Inv, WeakInv;
    if m.captured {
      return;
    }
    match m.refs[i]
    case Attach(kind, weight, source, seen) => AttachWeak(m, i, kind, weight, source, seen);
    case Detach(kind, weight, seen, temp) => DetachWeak(m, i, kind, weight, seen, temp, a);
    case After(task, temp) => AfterWeak(m, i, task, temp);
    case Live(_, _) => LiveWeak(m, i, a);
    case _ => AloneWeak(m, i, a);
  }

  lemma {:induction false} RunRevived(m: Machine, moves: seq<Move>)
    ensures m.revived <= Run(m, moves).revived
    decreases |moves|
  {
    hide Step;
    if moves != [] {
      if moves[0].ref < |m.refs| {
        RevivesOnly(m, moves[0].ref, moves[0].action);
      }
      RunRevived(Next(m, moves[0]), moves[1..]);
    }
  }

  lemma {:induction false} RunWeak(m: Machine, moves: seq<Move>)
    requires Inv(m) && WeakInv(m) && Run(m, moves).revived <= {0}
    ensures WeakInv(Run(m, moves))
    decreases |moves|
  {
    if moves != [] {
      var i, a, next := moves[0].ref, moves[0].action, Next(m, moves[0]);
      hide Inv, WeakInv, Step;
      RunRevived(next, moves[1..]);
      if i < |m.refs| {
        StepInv(m, i, a);
        StepWeak(m, i, a);
      }
      RunWeak(next, moves[1..]);
    }
  }

  // ----- what it is for ------------------------------------------------------

  // Handles are copied from handles, but for the one that the weak reference is given.
  lemma OnlyOwnRevived(m: Machine, moves: seq<Move>)
    requires Initial(m) && HandlesFromHandles(m, moves, {0})
    ensures Run(m, moves).revived <= {0} && NoneFromView(Run(m, moves), {0})
  {
    InitialInv(m);
    NoRevival(m, moves, {0});
  }

  // In every run in which no handle comes back, but for that of the weak reference, no detach
  // fails, and no view is refused that is to keep the object alive.
  lemma NoFailure(m: Machine, moves: seq<Move>)
    requires Initial(m) && Run(m, moves).revived <= {0}
    ensures var r := Run(m, moves);
            forall i :: 0 <= i < |r.refs| ==>
                          && !r.refs[i].Failed?
                          && (r.refs[i].Wait? && r.refs[i].temp.Some? ==>
                                var j := r.refs[i].temp.index; j < |r.refs| && !r.refs[j].Refused?)
  {
    InitialInv(m);
    InitialWeakInv(m);
    RunInv(m, moves);
    RunWeak(m, moves);
    var r := Run(m, moves);
    hide Run;
    forall i | 0 <= i < |r.refs|
      ensures Fine(r, r.refs[i]) && (r.refs[i].Wait? && r.refs[i].temp.Some? ==> r.refs[i].temp.index < |r.refs|)
    {
      assert Fine(r, r.refs[i]);
      Knows(r, i);
    }
  }

  // Everything but the weak reference has come and gone, and nothing is left to be done.
  ghost predicate LeftOver(m: Machine) {
    && |m.refs| >= 2
    && (forall i :: 2 <= i < |m.refs| ==> m.refs[i].Unborn? || m.refs[i].Refused? || m.refs[i].Gone?)
    && (m.refs[0].Live? || m.refs[0].Gone?)
    && (m.refs[1].Unborn? || m.refs[1].Live? || m.refs[1].Refused? || m.refs[1].Gone?)
    && !(m.refs[0].Live? && (m.clear || m.flip))
    && !(m.refs[1].Live? && m.clear)
  }

  // The weak reference does not keep the object alive: once all others have gone, the object
  // is destroyed, if and only if, when the weak reference was ready, the handles that were
  // left were not just its own.
  lemma NoLeak(m: Machine, before: seq<Move>, publish: Move, after: seq<Move>)
    requires Initial(m)
    requires var p := Run(m, before); p.word.weak.Inflating? && Next(p, publish).word.weak.Inflated?
    requires var r := Run(Next(Run(m, before), publish), after);
             && r.revived <= {0} && LeftOver(r) && r.word.handles != MaxCount && r.word.views != MaxCount
    ensures Run(Next(Run(m, before), publish), after).destroyed == 1 <==>
            Run(m, before).word.handles != EscapedIncrement
  {
    var p := Run(m, before);
    var q := Next(p, publish);
    var r := Run(q, after);
    InitialInv(m);
    InitialWeakInv(m);
    RunRevived(q, after);
    RunInv(m, before);
    hide Run, Inv, WeakInv;
    if publish.ref < |p.refs| {
      RevivesOnly(p, publish.ref, publish.action);
      RunWeak(m, before);
      StepInv(p, publish.ref, publish.action);
      StepWeak(p, publish.ref, publish.action);
      Publishes(p, publish.ref, publish.action);
    }
    RunInv(q, after);
    RunWeak(q, after);
    StaysMissed(q, after);
    DestroyedUnlessMissed(r);
  }

  lemma Publishes(m: Machine, i: nat, a: Action)
    requires i < |m.refs| && m.word.weak.Inflating? && Step(m, i, a).word.weak.Inflated?
    ensures Step(m, i, a).missed == (m.word.handles == EscapedIncrement)
  {
    hide StepAlone, StepAfter, StepDetach, StepAttach, MayLeave;
  }

  lemma {:induction false} StaysMissed(m: Machine, moves: seq<Move>)
    requires m.word.weak.Inflated?
    ensures Run(m, moves).word.weak.Inflated? && Run(m, moves).missed == m.missed
    decreases |moves|
  {
    if moves != [] {
      var i, a := moves[0].ref, moves[0].action;
      if i < |m.refs| {
        StepMissed(m, i, a);
      }
      hide Step;
      StaysMissed(Next(m, moves[0]), moves[1..]);
    }
  }

  lemma StepMissed(m: Machine, i: nat, a: Action)
    requires i < |m.refs| && m.word.weak.Inflated?
    ensures Step(m, i, a).word.weak.Inflated? && Step(m, i, a).missed == m.missed
  {
    hide StepAlone, StepDetach, StepAttach, StepAfter, StepLive;
  }

  lemma DestroyedUnlessMissed(m: Machine)
    requires Inv(m) && WeakInv(m) && LeftOver(m) && m.word.weak.Inflated?
    requires m.word.handles != MaxCount && m.word.views != MaxCount
    ensures m.destroyed == 1 <==> !m.missed
  {
    CountNone(m.refs, Destroys);
    CountNone(m.refs, Flips);
    CountNone(m.refs, Clears);
    OnlyTwo(m.refs, Handle);
    OnlyTwo(m.refs, View);
    var s := StatusOf(m);
    assert Stages(m.word, s) && Sums(m.word, s) && Counts(m) && DestroyInv(m);
    hide Total, Count, Inv, WeakInv;
    WeakAlone(m.word, s);
  }

  // The weak reference alone, with nothing left to be done.
  lemma WeakAlone(w: Word, s: Status)
    requires Stages(w, s) && Sums(w, s) && w.weak.Inflated?
    requires w.handles == Weight(s.r0, Handle) + Weight(s.r1, Handle)
             && w.views == Weight(s.r0, View) + Weight(s.r1, View)
    requires s.flipping == s.flip && s.clearing == s.clear
    requires (s.r0.Live? || s.r0.Gone?) && (s.r1.Unborn? || s.r1.Live? || s.r1.Refused? || s.r1.Gone?)
    requires !(s.r0.Live? && (s.clear || s.flip)) && !(s.r1.Live? && s.clear)
    ensures Nobody(w) <==> !s.missed
  {
  }

  lemma OnlyTwo(s: seq<Ref>, k: Kind)
    requires |s| >= 2 && forall i :: 2 <= i < |s| ==> s[i].Unborn? || s[i].Refused? || s[i].Gone?
    ensures Total(s, k) == Weight(s[0], k) + Weight(s[1], k)
  {
    assert s[1..][0] == s[1] && s[1..][1..] == s[2..];
    TotalZero(s[2..], k);
  }

  lemma OnlyOne(s: seq<Ref>, i: nat, k: Kind)
    requires i < |s| && forall j :: 0 <= j < |s| && j != i ==> !Counted(s[j])
    ensures Total(s, k) == Weight(s[i], k)
  {
    TotalUpdate(s, i, Gone, k);
    TotalZero(s[i := Gone], k);
  }

  // With one reference left, of the weight that the weak reference has, no attach succeeds
  // any more, unless it attaches a handle through a view.
  lemma OnlyWeakLeft(m: Machine, s: nat, i: nat, a: Action)
    requires Inv(m) && OnlyOneLeft(m, s)
    requires i < |m.refs| && !m.refs[i].Live? && Step(m, i, a).refs[i].Live?
    ensures FromView(m, i) && m.refs[i].source == s
  {
    BecomesLive(m, i, a);
    var r := m.refs[i];
    Knows(m, i);
    OnlyOne(m.refs, s, Handle);
    OnlyOne(m.refs, s, View);
    assert Counted(m.refs[r.source]) && Counts(m);
    hide Inv, Total, Step;
    AttachBlocked(m, i, r.kind, r.weight, r.source, r.seen);
  }

  ghost predicate OnlyOneLeft(m: Machine, s: nat) {
    && m.word.weak.Inflated? && m.word.handles != MaxCount && m.word.views != MaxCount
    && s < |m.refs| && Weight(m.refs[s], Handle) + Weight(m.refs[s], View) == EscapedIncrement
    && forall j :: 0 <= j < |m.refs| && j != s ==> !Counted(m.refs[j])
  }

  // So in every run, once only the weak reference is left, none succeeds at all.
  lemma NothingAttaches(start: Machine, moves: seq<Move>, s: nat, i: nat, a: Action)
    requires Initial(start) && OnlyOneLeft(Run(start, moves), s) && s < 2
    requires i < |Run(start, moves).refs| && !Run(start, moves).refs[i].Live?
    ensures !Step(Run(start, moves), i, a).refs[i].Live?
  {
    var m := Run(start, moves);
    InitialInv(start);
    RunInv(start, moves);
    RunNoneFromWeak(start, moves);
    hide Run, Inv, Step;
    if Step(m, i, a).refs[i].Live? {
      OnlyWeakLeft(m, s, i, a);
      assert false;
    }
  }

  // If it is another reference that is left, one that has looked when there were handles does
  // succeed, by itself.
  lemma HandleThroughView(m: Machine, s: nat, i: nat)
    requires Inv(m) && OnlyOneLeft(m, s) && !m.captured && FromView(m, i) && m.refs[i].source == s
    requires m.refs[i].Attach? && !Blocks(m.refs[i].seen, Handle)
    ensures var r := Step(m, i, Go); i < |r.refs| && (r.refs[i].Live? || Step(r, i, Go).refs[i].Live?)
  {
    var x := m.refs[i];
    Knows(m, i);
    OnlyOne(m.refs, s, Handle);
    assert Counts(m) && m.refs[s].kind.View?;
    hide Inv, Total, Captures;
    if m.word != x.seen {
      var r := Step(m, i, Go);
      assert r == m.To(i, Attach(Handle, x.weight, s, m.word));
    }
  }

  lemma AttachBlocked(m: Machine, i: nat, kind: Kind, weight: nat, source: nat, seen: Word)
    requires i < |m.refs| && m.word.weak.Inflated? && Seen(m, seen)
    requires m.word.handles != MaxCount && m.word.views != MaxCount
    requires m.word.handles + m.word.views == EscapedIncrement
    requires StepAttach(m, i, kind, weight, source, seen).refs[i].Live?
    ensures kind.Handle? && m.word.handles != EscapedIncrement
  {
    hide Captures;
  }

  lemma BecomesLive(m: Machine, i: nat, a: Action)
    requires i < |m.refs| && !m.refs[i].Live? && Step(m, i, a).refs[i].Live?
    ensures var r := m.refs[i];
            r.Attach? && Step(m, i, a) == StepAttach(m, i, r.kind, r.weight, r.source, r.seen)
  {
    hide StepAttach, StepDetach, StepAfter, StepLive, StepAlone;
    match m.refs[i]
    case Detach(_, _, _, _) =>
    case Attach(_, _, _, _) =>
    case _ => AloneNotLive(m, i, a);
  }

  lemma AloneNotLive(m: Machine, i: nat, a: Action)
    requires i < |m.refs| && !m.refs[i].Live?
    ensures !StepAlone(m, i, a).Live?
  {
    hide MayCopy;
  }
}
