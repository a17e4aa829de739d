// The word that counts the handles and the views of an object that several threads can
// see.  Every reference is a process: it attaches, lives, and detaches, in a loop that
// replaces the word if it is still what was last seen.  One step is one access to the
// word; the steps of different references are interleaved in any order.
module LifeCycleRefs {
  import opened Counting

  const EscapedIncrement: nat := 2
  const MaxCount: nat := 0x7FFF

  datatype Kind = Handle | View

  datatype Weak = Flat | Inflating | Inflated

  datatype Word = Word(weak: Weak, handles: nat, views: nat) {
    function Of(k: Kind): nat {
      if k.Handle? then handles else views
    }

    function With(k: Kind, n: nat): Word {
      if k.Handle? then this.(handles := n) else this.(views := n)
    }
  }

  // What is left to do for the one that has detached.
  datatype Task = Nothing | Destroy | BecomeConst | Flip | Clear

  datatype Option = None | Some(index: nat)

  // The state of one reference.  `weight` is what it adds to the count, `source` the
  // reference that it is copied from, `temp` the view that keeps the object alive while
  // its last handle detaches.
  datatype Ref =
    | Unborn
    | Begin(weight: nat, source: nat)
    | Peek(kind: Kind, weight: nat, source: nat)
    | Attach(kind: Kind, weight: nat, source: nat, seen: Word)
    | Live(kind: Kind, weight: nat)
    | Refused
    | Leaving(kind: Kind, weight: nat)
    | Detach(kind: Kind, weight: nat, seen: Word, temp: Option)
    | Wait(weight: nat, seen: Word, temp: Option)
    | After(task: Task, temp: Option)
    | Gone
    | Failed(kind: Kind, weight: nat)

  // References 0 and 1 are those of the weak reference: the one that it is created with,
  // and the view that a flip replaces it by.  `caller` is the reference through which the
  // weak reference was asked for.  `revived` are those that have attached a handle when
  // there was none, `missed` that the weak reference was ready only after the last other handle
  // had gone.
  datatype Machine = Machine(
    word: Word, destructing: bool, captured: bool, flip: bool, clear: bool, caller: nat,
    destroyed: nat, consts: nat, revived: set<nat>, missed: bool, refs: seq<Ref>)
  {
    function To(i: nat, r: Ref): Machine
      requires i < |refs|
    {
      this.(refs := refs[i := r])
    }
  }

  // What a reference that is free to choose does next.
  datatype Action = Copy(kind: Kind, weight: nat, source: nat) | Leave | Temp(index: nat) | Inflate | Publish | Go

  // ----- the steps -----------------------------------------------------------

  predicate Uses(r: Ref, s: nat) {
    (r.Begin? || r.Peek? || r.Attach?) && r.source == s
  }

  predicate Keeps(r: Ref, s: nat) {
    (r.Detach? || r.Wait? || r.After?) && r.temp == Some(s)
  }

  // Nobody needs reference `s` to stay.
  predicate Free(m: Machine, s: nat) {
    && (forall k :: 0 <= k < |m.refs| ==> !Uses(m.refs[k], s) && !Keeps(m.refs[k], s))
    && !(m.word.weak.Inflating? && m.caller == s)
  }

  // The weak reference lets go only as part of a flip, once it has a view or has been
  // refused one, or when it is cleared.
  predicate MayLeave(m: Machine, i: nat) {
    && Free(m, i)
    && (i == 0 && |m.refs| > 1 ==> m.clear || (m.flip && (m.refs[1].Live? || m.refs[1].Refused?)))
    && (i == 1 ==> m.clear)
  }

  // The weak reference is created while it inflates, with a handle if it can have one; a
  // flip copies its view from it, and of a view it gives out only views.
  predicate MayCopy(m: Machine, i: nat, kind: Kind, weight: nat, source: nat)
    requires i < |m.refs|
  {
    && source < |m.refs| && source != i && m.refs[source].Live? && 1 <= weight <= EscapedIncrement
    && (i == 0 ==> m.word.weak.Inflating? && weight == EscapedIncrement && (m.refs[0].Refused? || kind.Handle?))
    && (i == 1 ==> m.flip && source == 0 && kind.View? && weight == EscapedIncrement)
    && (source < 2 && kind.Handle? ==> m.refs[source].kind.Handle?)
  }

  function Start(kind: Kind, weight: nat, source: nat): Ref {
    if kind.Handle? then Peek(Handle, weight, source) else Begin(weight, source)
  }

  // Only the attachment of the weak reference is left.
  predicate Blocks(seen: Word, kind: Kind) {
    seen.weak.Inflated? && seen.handles + (if kind.Handle? then 0 else seen.views) == EscapedIncrement
  }

  // The object has become immortal, and is no longer counted.
  predicate Immortal(seen: Word, kind: Kind, weight: nat) {
    seen.Of(kind) + weight > MaxCount && seen.Of(kind) == MaxCount
  }

  function Attached(seen: Word, kind: Kind, weight: nat): Word {
    seen.With(kind, if seen.Of(kind) + weight > MaxCount then MaxCount else seen.Of(kind) + weight)
  }

  // Only two references are left: the new one, and the one that it is copied from.
  predicate Captures(kind: Kind, seen: Word, now: Word) {
    if kind.Handle? then now.handles == 2 && seen.views == 0 else now.views <= 2 && now.views + seen.handles == 2
  }

  function StepAttach(m: Machine, i: nat, kind: Kind, weight: nat, source: nat, seen: Word): (n: Machine)
    requires i < |m.refs|
    ensures |n.refs| == |m.refs|
    ensures n.refs == m.refs[i := n.refs[i]] && n.word.weak == m.word.weak && n.missed == m.missed
  {
    if Blocks(seen, kind) then
      m.To(i, Refused)
    else if Immortal(seen, kind, weight) then
      m.To(i, Live(kind, weight))
    else if m.word == seen then
      var now := Attached(seen, kind, weight);
      var revived := if kind.Handle? && seen.handles == 0 then m.revived + {i} else m.revived;
      m.(word := now, captured := Captures(kind, seen, now), revived := revived).To(i, Live(kind, weight))
    else
      m.To(i, Attach(kind, weight, source, m.word))
  }

  function TaskAfter(kind: Kind, now: Word): Task {
    if kind.Handle? then
      if now.handles == 0 then (if now.views == 0 then Destroy else BecomeConst)
      else if now.handles == EscapedIncrement && now.weak.Inflated? then Flip
      else Nothing
    else if now.handles == 0 then
      if now.views == 0 then Destroy
      else if now.views == EscapedIncrement && now.weak.Inflated? then Clear
      else Nothing
    else Nothing
  }

  predicate NeedsTemp(kind: Kind, seen: Word, temp: Option) {
    kind.Handle? && seen.handles in {1, EscapedIncrement} && temp.None? && seen.views > 0
  }

  // A view is attached to keep the object alive while its last handle detaches.
  function StepTemp(m: Machine, i: nat, weight: nat, seen: Word, a: Action): (n: Machine)
    requires i < |m.refs|
    ensures |n.refs| == |m.refs|
    ensures n.captured == m.captured && n.revived == m.revived && n.word == m.word && n.missed == m.missed
    ensures n.consts == m.consts
    ensures forall j :: 0 <= j < |m.refs| && j != i ==>
                          n.refs[j] == m.refs[j] || (m.refs[j].Unborn? && n.refs[j].Begin?)
    ensures n.refs[i] == m.refs[i] || n.refs[i].Wait?
  {
    if a.Temp? && 2 <= a.index < |m.refs| && m.refs[a.index].Unborn? && a.index != i then
      m.To(i, Wait(weight, seen, Some(a.index))).To(a.index, Begin(1, i))
    else
      m
  }

  function StepDetach(m: Machine, i: nat, kind: Kind, weight: nat, seen: Word, temp: Option, a: Action): (n: Machine)
    requires i < |m.refs|
    ensures |n.refs| == |m.refs|
    ensures m.refs[i].Detach? ==> !n.refs[i].Live? && !n.refs[i].Peek? && !n.refs[i].Attach?
    ensures forall j :: 0 <= j < |m.refs| && j != i ==>
                          n.refs[j] == m.refs[j] || (m.refs[j].Unborn? && n.refs[j].Begin?)
    ensures n.captured == m.captured && n.revived == m.revived && n.missed == m.missed && n.word.weak == m.word.weak
  {
    var count := seen.Of(kind);
    if count == 0 then
      m.To(i, Failed(kind, weight))
    else if NeedsTemp(kind, seen, temp) then
      StepTemp(m, i, weight, seen, a)
    else if count == MaxCount then
      m.To(i, Gone)
    else if count < weight then
      m.To(i, Failed(kind, weight))
    else if m.word == seen then
      var now := seen.With(kind, count - weight);
      m.(word := now).To(i, After(TaskAfter(kind, now), temp))
    else
      m.To(i, Detach(kind, weight, m.word, temp))
  }

  function StepAfter(m: Machine, i: nat, task: Task): (n: Machine)
    requires i < |m.refs|
    ensures n.refs == m.refs[i := Gone] && n.word == m.word && n.caller == m.caller && n.missed == m.missed
    ensures n.flip == (m.flip || task.Flip?) && n.clear == (m.clear || task.Clear?)
    ensures n.captured == m.captured && n.revived == m.revived
  {
    var done := m.To(i, Gone);
    match task
    case Nothing => done
    case Destroy => done.(destructing := true, destroyed := m.destroyed + 1)
    case BecomeConst => done.(consts := m.consts + 1)
    case Flip => done.(flip := true)
    case Clear => done.(clear := true)
  }

  function StepLive(m: Machine, i: nat, a: Action): (n: Machine)
    requires i < |m.refs| && m.refs[i].Live?
    ensures |n.refs| == |m.refs|
    ensures n.refs == m.refs[i := n.refs[i]] && (n.refs[i] == m.refs[i] || n.refs[i].Leaving?)
    ensures n.word.handles == m.word.handles && n.word.views == m.word.views
    ensures m.word.weak.Inflated? ==> n.word == m.word && n.missed == m.missed
    ensures n.captured == m.captured && n.revived == m.revived
  {
    if a.Leave? && MayLeave(m, i) then
      m.To(i, Leaving(m.refs[i].kind, m.refs[i].weight))
    else if a.Inflate? && m.word.weak.Flat? then
      m.(word := m.word.(weak := Inflating), caller := i)
    else if a.Publish? && m.word.weak.Inflating? && m.caller == i && m.refs[0].Live? then
      m.(word := m.word.(weak := Inflated), missed := m.word.handles == EscapedIncrement)
    else
      m
  }

  // The steps that look at the machine, but change only the reference itself.
  function StepAlone(m: Machine, i: nat, a: Action): Ref
    requires i < |m.refs|
  {
    match m.refs[i]
    case Unborn =>
      if a.Copy? && MayCopy(m, i, a.kind, a.weight, a.source) then Start(a.kind, a.weight, a.source) else Unborn
    case Begin(weight, source) => if m.destructing then Refused else Peek(View, weight, source)
    case Peek(kind, weight, source) =>
      if kind.Handle? && m.word.handles == 0 then Refused else Attach(kind, weight, source, m.word)
    case Refused =>
      // The weak reference holds a view if it cannot have a handle.
      if i == 0 && a.Copy? && MayCopy(m, i, View, a.weight, a.source) then Start(View, a.weight, a.source) else Refused
    case Leaving(kind, weight) => Detach(kind, weight, m.word, None)
    case Wait(weight, seen, temp) =>
      if temp.None? || temp.index >= |m.refs| || m.refs[temp.index].Refused? then Failed(Handle, weight)
      else if m.refs[temp.index].Live? then Detach(Handle, weight, seen, temp)
      else m.refs[i]
    case r => r
  }

  // Once captured, the object is no longer shared, and other rules apply.
  function Step(m: Machine, i: nat, a: Action): (n: Machine)
    requires i < |m.refs|
    ensures |n.refs| == |m.refs|
  {
    if m.captured then m else
    match m.refs[i]
    case Attach(kind, weight, source, seen) => StepAttach(m, i, kind, weight, source, seen)
    case Detach(kind, weight, seen, temp) => StepDetach(m, i, kind, weight, seen, temp, a)
    case After(task, _) => StepAfter(m, i, task)
    case Live(_, _) => StepLive(m, i, a)
    case _ => m.To(i, StepAlone(m, i, a))
  }

  // ----- runs ----------------------------------------------------------------

  datatype Move = Move(ref: nat, action: Action)

  // A step of a reference that does not exist changes nothing.
  function Next(m: Machine, move: Move): Machine {
    if move.ref < |m.refs| then Step(m, move.ref, move.action) else m
  }

  function Run(m: Machine, moves: seq<Move>): Machine
    decreases |moves|
  {
    if moves == [] then m else Run(Next(m, moves[0]), moves[1..])
  }

  // ----- counting ------------------------------------------------------------

  // What a reference adds to the count of kind `k`.
  ghost function Weight(r: Ref, k: Kind): nat {
    match r
    case Live(kind, weight) => if kind == k then weight else 0
    case Leaving(kind, weight) => if kind == k then weight else 0
    case Detach(kind, weight, _, _) => if kind == k then weight else 0
    case Wait(weight, _, _) => if k.Handle? then weight else 0
    case Failed(kind, weight) => if kind == k then weight else 0
    case _ => 0
  }

  ghost predicate Counted(r: Ref) {
    r.Live? || r.Leaving? || r.Detach? || r.Wait? || r.Failed?
  }

  ghost function Total(s: seq<Ref>, k: Kind): nat {
    if s == [] then 0 else Weight(s[0], k) + Total(s[1..], k)
  }

  lemma {:induction false} TotalUpdate(s: seq<Ref>, i: nat, r: Ref, k: Kind)
    requires i < |s|
    ensures Total(s[i := r], k) + Weight(s[i], k) == Total(s, k) + Weight(r, k)
  {
    if i == 0 {
      assert s[i := r][1..] == s[1..];
    } else {
      TotalUpdate(s[1..], i - 1, r, k);
      assert s[i := r][1..] == s[1..][i - 1 := r];
    }
  }

  lemma {:induction false} TotalOne(s: seq<Ref>, i: nat, k: Kind)
    requires i < |s|
    ensures Total(s, k) >= Weight(s[i], k)
  {
    if i > 0 {
      TotalOne(s[1..], i - 1, k);
    }
  }

  lemma {:induction false} TotalTwo(s: seq<Ref>, i: nat, j: nat, k: Kind)
    requires i < j < |s|
    ensures Total(s, k) >= Weight(s[i], k) + Weight(s[j], k)
  {
    if i > 0 {
      TotalTwo(s[1..], i - 1, j - 1, k);
    } else {
      TotalOne(s[1..], j - 1, k);
    }
  }

  lemma {:induction false} TotalZero(s: seq<Ref>, k: Kind)
    ensures Total(s, k) == 0 <==> forall i :: 0 <= i < |s| ==> Weight(s[i], k) == 0
  {
    if s != [] {
      TotalZero(s[1..], k);
      if Total(s, k) == 0 {
        forall i | 0 <= i < |s|
          ensures Weight(s[i], k) == 0
        {
          assert i > 0 ==> s[i] == s[1..][i - 1];
        }
      } else if Weight(s[0], k) == 0 {
        var i :| 0 <= i < |s[1..]| && Weight(s[1..][i], k) != 0;
        assert Weight(s[i + 1], k) != 0;
      }
    }
  }

  // ----- what holds after every step -----------------------------------------

  // While `i` attaches, its source stays.
  ghost predicate SourceStays(m: Machine, i: nat, s: nat) {
    s < |m.refs| && s != i && (m.refs[s].Live? || (m.refs[s].Wait? && m.refs[s].temp == Some(i)))
  }

  ghost predicate TempStays(m: Machine, temp: Option) {
    temp.Some? ==> 2 <= temp.index < |m.refs| && m.refs[temp.index] == Live(View, 1)
  }

  ghost predicate TempComes(m: Machine, i: nat, j: nat) {
    && 2 <= j < |m.refs|
    && match m.refs[j]
       case Begin(weight, source) => weight == 1 && source == i
       case Peek(kind, weight, source) => kind.View? && weight == 1 && source == i
       case Attach(kind, weight, source, _) => kind.View? && weight == 1 && source == i
       case r => r == Live(View, 1) || r.Refused?
  }

  // A count that has reached its maximum stays there.
  ghost predicate Seen(m: Machine, seen: Word) {
    && seen.handles <= MaxCount && seen.views <= MaxCount
    && (seen.handles == MaxCount ==> m.word.handles == MaxCount)
    && (seen.views == MaxCount ==> m.word.views == MaxCount)
  }

  ghost predicate Local(m: Machine, i: nat, r: Ref) {
    match r
    case Begin(weight, source) => 1 <= weight <= 2 && SourceStays(m, i, source)
    case Peek(_, weight, source) => 1 <= weight <= 2 && SourceStays(m, i, source)
    case Attach(_, weight, source, seen) => 1 <= weight <= 2 && SourceStays(m, i, source) && Seen(m, seen)
    case Live(_, weight) => 1 <= weight <= 2
    case Leaving(_, weight) => 1 <= weight <= 2
    case Detach(kind, weight, seen, temp) =>
      1 <= weight <= 2 && Seen(m, seen) && seen.Of(kind) >= weight && TempStays(m, temp)
    case Wait(weight, seen, temp) =>
      1 <= weight <= 2 && Seen(m, seen) && seen.handles >= weight && temp.Some? && TempComes(m, i, temp.index)
    case After(task, temp) => TempStays(m, temp) && (task.BecomeConst? ==> temp.Some?)
    case Failed(_, weight) => 1 <= weight <= 2
    case _ => true
  }

  ghost predicate Locals(m: Machine) {
    forall i :: 0 <= i < |m.refs| ==> Local(m, i, m.refs[i])
  }

  // A count is the sum of the weights of the references that have attached and not yet
  // detached, unless it is at its maximum.
  ghost predicate Counts(m: Machine) {
    && (m.word.handles == MaxCount || m.word.handles == Total(m.refs, Handle))
    && (m.word.views == MaxCount || m.word.views == Total(m.refs, View))
    && m.word.handles <= MaxCount && m.word.views <= MaxCount
  }

  ghost predicate Destroys(r: Ref) {
    r.After? && r.task.Destroy?
  }

  // The object is destroyed, or about to be, exactly when nothing is attached.
  ghost predicate DestroyInv(m: Machine) {
    && Count(m.refs, Destroys) + m.destroyed == Bit(m.word.handles == 0 && m.word.views == 0)
    && (m.destructing <==> m.destroyed > 0)
  }

  ghost predicate Inv(m: Machine) {
    |m.refs| >= 2 && Counts(m) && DestroyInv(m) && Locals(m)
  }

  // Several references to an object that is shared, and nobody about to change that.
  ghost predicate Initial(m: Machine) {
    && |m.refs| >= 2 && m.refs[0] == m.refs[1] == Unborn
    && !m.captured && !m.destructing && !m.flip && !m.clear && m.revived == {} && !m.missed
    && m.destroyed == m.consts == 0 && m.word.weak.Flat? && Counts(m)
    && (forall i :: 0 <= i < |m.refs| ==>
                      m.refs[i].Unborn? || (m.refs[i].Live? && 1 <= m.refs[i].weight <= EscapedIncrement))
    && exists i :: 0 <= i < |m.refs| && m.refs[i].Live?
  }

  lemma InitialInv(m: Machine)
    requires Initial(m)
    ensures Inv(m)
  {
    CountNone(m.refs, Destroys);
    TotalZero(m.refs, Handle);
    TotalZero(m.refs, View);
    var i :| 0 <= i < |m.refs| && m.refs[i].Live?;
    assert Weight(m.refs[i], m.refs[i].kind) > 0;
    TotalOne(m.refs, i, m.refs[i].kind);
  }

  // What is known before reference `i` moves, and what its move changes in the counts.
  lemma BeforeStep(m: Machine, i: nat, r: Ref)
    requires Inv(m) && i < |m.refs|
    ensures Counts(m) && DestroyInv(m) && Local(m, i, m.refs[i])
    ensures var rs := m.refs[i := r];
            && Total(rs, Handle) + Weight(m.refs[i], Handle) == Total(m.refs, Handle) + Weight(r, Handle)
            && Total(rs, View) + Weight(m.refs[i], View) == Total(m.refs, View) + Weight(r, View)
            && Count(rs, Destroys) + Bit(Destroys(m.refs[i])) == Count(m.refs, Destroys) + Bit(Destroys(r))
    ensures Total(m.refs, Handle) >= Weight(m.refs[i], Handle) && Total(m.refs, View) >= Weight(m.refs[i], View)
    ensures Destroys(m.refs[i]) ==> Count(m.refs, Destroys) > 0
  {
    TotalUpdate(m.refs, i, r, Handle);
    TotalUpdate(m.refs, i, r, View);
    CountUpdate(m.refs, i, r, Destroys);
    TotalOne(m.refs, i, Handle);
    TotalOne(m.refs, i, View);
    if Destroys(m.refs[i]) {
      CountSome(m.refs, i, Destroys);
    }
  }

  // Reference `i` may go on as `r` without letting the others down.
  ghost predicate Fits(m: Machine, i: nat, r: Ref)
    requires i < |m.refs|
  {
    r == m.refs[i] ||
    match m.refs[i]
    case Live(kind, weight) => r == Leaving(kind, weight) && Free(m, i)
    case Wait(_, _, temp) => temp.Some? && temp.index < |m.refs| && !Uses(m.refs[temp.index], i)
    case Begin(weight, source) => r == Peek(View, weight, source) || r.Refused?
    case Peek(kind, weight, source) =>
      (r.Attach? && r.kind == kind && r.weight == weight && r.source == source) || r.Refused?
    case Attach(kind, weight, source, _) =>
      (r.Attach? && r.kind == kind && r.weight == weight && r.source == source) || r.Refused? || r == Live(kind, weight)
    case Refused => i < 2
    case _ => true
  }

  lemma OthersStay(m: Machine, i: nat, m': Machine)
    requires Inv(m) && i < |m.refs| && |m'.refs| == |m.refs| && m'.refs == m.refs[i := m'.refs[i]]
    requires Fits(m, i, m'.refs[i]) && Local(m', i, m'.refs[i])
    requires m.word.handles == MaxCount ==> m'.word.handles == MaxCount
    requires m.word.views == MaxCount ==> m'.word.views == MaxCount
    ensures Locals(m')
  {
    forall j | 0 <= j < |m'.refs|
      ensures Local(m', j, m'.refs[j])
    {
      if j != i {
        OtherStays(m, i, m', j);
      }
    }
  }

  lemma OtherStays(m: Machine, i: nat, m': Machine, j: nat)
    requires Locals(m) && i < |m.refs| && |m'.refs| == |m.refs| && m'.refs == m.refs[i := m'.refs[i]]
    requires Fits(m, i, m'.refs[i]) && j < |m.refs| && j != i
    requires m.word.handles == MaxCount ==> m'.word.handles == MaxCount
    requires m.word.views == MaxCount ==> m'.word.views == MaxCount
    ensures Local(m', j, m.refs[j])
  {
    assert Local(m, j, m.refs[j]);
  }

  // The word follows the weight of reference `i`, and the object is destroyed when it must.
  ghost predicate Moved(m: Machine, i: nat, m': Machine)
    requires i < |m.refs| == |m'.refs|
  {
    var r, r' := m.refs[i], m'.refs[i];
    && m'.refs == m.refs[i := r']
    && m'.word.handles <= MaxCount && m'.word.views <= MaxCount
    && Follows(m.word.handles, Weight(r, Handle), m'.word.handles, Weight(r', Handle))
    && Follows(m.word.views, Weight(r, View), m'.word.views, Weight(r', View))
    && Bit(Destroys(r')) + m'.destroyed + Bit(Nobody(m.word)) == Bit(Destroys(r)) + m.destroyed + Bit(Nobody(m'.word))
    && (m'.destructing <==> m'.destroyed > 0)
  }

  ghost predicate Nobody(w: Word) {
    w.handles == 0 && w.views == 0
  }

  ghost predicate Follows(count: nat, weight: nat, count': nat, weight': nat) {
    && (count == MaxCount ==> count' == MaxCount)
    && (count' == MaxCount || count' + weight == count + weight')
  }

  lemma KeepsInv(m: Machine, i: nat, m': Machine)
    requires Inv(m) && i < |m.refs| == |m'.refs| && Moved(m, i, m')
    requires Fits(m, i, m'.refs[i]) && Local(m', i, m'.refs[i])
    ensures Inv(m')
  {
    BeforeStep(m, i, m'.refs[i]);
    hide Total, Count, Fits, Local, Weight, Locals;
    OthersStay(m, i, m');
  }

  // While a reference is copied the counts are not both zero.
  lemma SomethingStays(m: Machine, s: nat)
    requires Inv(m) && s < |m.refs| && Counted(m.refs[s])
    ensures !Nobody(m.word) && m.destroyed == 0 && !m.destructing
    ensures m.word.handles == MaxCount || m.word.handles >= Weight(m.refs[s], Handle)
    ensures m.word.views == MaxCount || m.word.views >= Weight(m.refs[s], View)
    ensures Weight(m.refs[s], Handle) + Weight(m.refs[s], View) > 0
  {
    TotalOne(m.refs, s, Handle);
    TotalOne(m.refs, s, View);
    assert Local(m, s, m.refs[s]);
  }

  // What a reference knows of the word and of its own weight.
  lemma Knows(m: Machine, i: nat)
    requires Inv(m) && i < |m.refs|
    ensures Local(m, i, m.refs[i])
    ensures m.word.handles <= MaxCount && m.word.views <= MaxCount
    ensures m.destructing <==> m.destroyed > 0
  {
  }

  lemma StepAttachInv(m: Machine, i: nat, kind: Kind, weight: nat, source: nat, seen: Word)
    requires Inv(m) && i < |m.refs| && m.refs[i] == Attach(kind, weight, source, seen)
    ensures Inv(StepAttach(m, i, kind, weight, source, seen))
  {
    hide Inv;
    Knows(m, i);
    SomethingStays(m, source);
    AttachLocal(m, i, kind, weight, source, seen);
    AttachMoved(m, i, kind, weight, source, seen);
    hide StepAttach, Fits, Moved, Local;
    KeepsInv(m, i, StepAttach(m, i, kind, weight, source, seen));
  }

  lemma AttachLocal(m: Machine, i: nat, kind: Kind, weight: nat, source: nat, seen: Word)
    requires i < |m.refs| && m.refs[i] == Attach(kind, weight, source, seen) && Local(m, i, m.refs[i])
    requires m.word.handles <= MaxCount && m.word.views <= MaxCount
    ensures var m' := StepAttach(m, i, kind, weight, source, seen); Local(m', i, m'.refs[i]) && Fits(m, i, m'.refs[i])
  {
    if Blocks(seen, kind) || Immortal(seen, kind, weight) {
      hide SourceStays;
    } else {
      hide Blocks, Immortal, Captures, Attached;
    }
  }

  lemma AttachMoved(m: Machine, i: nat, kind: Kind, weight: nat, source: nat, seen: Word)
    requires i < |m.refs| && m.refs[i] == Attach(kind, weight, source, seen)
    requires 1 <= weight <= 2 && Seen(m, seen) && m.word.handles <= MaxCount && m.word.views <= MaxCount
    requires !Nobody(m.word) && (m.destructing <==> m.destroyed > 0)
    ensures Moved(m, i, StepAttach(m, i, kind, weight, source, seen))
  {
    AttachedFollows(seen, kind, weight);
    if Blocks(seen, kind) {
      ToMoved(m, i, Refused);
    } else if Immortal(seen, kind, weight) {
      ToMoved(m, i, Live(kind, weight));
    } else if m.word != seen {
      ToMoved(m, i, Attach(kind, weight, source, m.word));
    } else {
      hide Attached, Nobody, Captures, Blocks, Immortal, Follows;
    }
  }

  // A move that changes only the reference.
  lemma ToMoved(m: Machine, i: nat, r: Ref)
    requires i < |m.refs| && m.word.handles <= MaxCount && m.word.views <= MaxCount
    requires m.destructing <==> m.destroyed > 0
    requires m.word.handles == MaxCount || Weight(r, Handle) == Weight(m.refs[i], Handle)
    requires m.word.views == MaxCount || Weight(r, View) == Weight(m.refs[i], View)
    requires Destroys(r) == Destroys(m.refs[i])
    ensures Moved(m, i, m.To(i, r))
  {
  }

  lemma AttachedFollows(seen: Word, kind: Kind, weight: nat)
    requires seen.handles <= MaxCount && seen.views <= MaxCount && 1 <= weight <= 2
    ensures var now := Attached(seen, kind, weight);
            && Follows(seen.handles, 0, now.handles, if kind.Handle? then weight else 0)
            && Follows(seen.views, 0, now.views, if kind.Handle? then 0 else weight)
            && !Nobody(now) && now.handles <= MaxCount && now.views <= MaxCount
  {
  }

  lemma StepDetachInv(m: Machine, i: nat, kind: Kind, weight: nat, seen: Word, temp: Option, a: Action)
    requires Inv(m) && i < |m.refs| && m.refs[i] == Detach(kind, weight, seen, temp)
    ensures Inv(StepDetach(m, i, kind, weight, seen, temp, a))
  {
    hide Inv;
    if NeedsTemp(kind, seen, temp) && seen.Of(kind) != 0 {
      if a.Temp? && 2 <= a.index < |m.refs| && m.refs[a.index].Unborn? && a.index != i {
        StartTempInv(m, i, weight, seen, a.index);
      }
    } else {
      Knows(m, i);
      SomethingStays(m, i);
      DetachLocal(m, i, kind, weight, seen, temp, a);
      DetachMoved(m, i, kind, weight, seen, temp, a);
      hide StepDetach, Moved, Local;
      KeepsInv(m, i, StepDetach(m, i, kind, weight, seen, temp, a));
    }
  }

  lemma DetachLocal(m: Machine, i: nat, kind: Kind, weight: nat, seen: Word, temp: Option, a: Action)
    requires i < |m.refs| && m.refs[i] == Detach(kind, weight, seen, temp) && Local(m, i, m.refs[i])
    requires m.word.handles <= MaxCount && m.word.views <= MaxCount && m.word.Of(kind) >= weight
    requires !NeedsTemp(kind, seen, temp)
    ensures var m' := StepDetach(m, i, kind, weight, seen, temp, a); Local(m', i, m'.refs[i])
  {
    hide TempComes, SourceStays;
    if m.word == seen && seen.Of(kind) != MaxCount {
      TempForConst(kind, weight, seen, temp);
      hide TaskAfter, NeedsTemp;
    } else {
      hide TaskAfter, NeedsTemp;
    }
  }

  // The last handle leaves views behind only with a view to keep the object alive.
  lemma TempForConst(kind: Kind, weight: nat, seen: Word, temp: Option)
    requires 1 <= weight <= 2 && seen.Of(kind) >= weight && !NeedsTemp(kind, seen, temp)
    ensures TaskAfter(kind, seen.With(kind, seen.Of(kind) - weight)).BecomeConst? ==> temp.Some?
  {
  }

  lemma DetachMoved(m: Machine, i: nat, kind: Kind, weight: nat, seen: Word, temp: Option, a: Action)
    requires i < |m.refs| && m.refs[i] == Detach(kind, weight, seen, temp)
    requires Seen(m, seen) && m.word.handles <= MaxCount && m.word.views <= MaxCount && seen.Of(kind) >= weight > 0
    requires !Nobody(m.word) && (m.destructing <==> m.destroyed > 0)
    requires !NeedsTemp(kind, seen, temp)
    ensures Moved(m, i, StepDetach(m, i, kind, weight, seen, temp, a))
  {
    hide NeedsTemp;
    if seen.Of(kind) == MaxCount {
      ToMoved(m, i, Gone);
    } else if m.word != seen {
      ToMoved(m, i, Detach(kind, weight, m.word, temp));
    } else {
      DetachWins(m, i, kind, weight, seen, temp, a);
    }
  }

  lemma DetachWins(m: Machine, i: nat, kind: Kind, weight: nat, seen: Word, temp: Option, a: Action)
    requires i < |m.refs| && m.refs[i] == Detach(kind, weight, seen, temp) && m.word == seen
    requires seen.handles <= MaxCount && seen.views <= MaxCount && MaxCount != seen.Of(kind) >= weight > 0
    requires !Nobody(m.word) && (m.destructing <==> m.destroyed > 0)
    requires !NeedsTemp(kind, seen, temp)
    ensures Moved(m, i, StepDetach(m, i, kind, weight, seen, temp, a))
  {
    var now := seen.With(kind, seen.Of(kind) - weight);
    DetachedFollows(seen, kind, weight);
    var r := After(TaskAfter(kind, now), temp);
    assert StepDetach(m, i, kind, weight, seen, temp, a) == m.(word := now).To(i, r) by {
      hide NeedsTemp, TaskAfter, Nobody, Follows;
    }
    hide StepDetach, TaskAfter, Follows, NeedsTemp;
    WordMoved(m, i, now, After(TaskAfter(kind, now), temp));
  }

  // A move that changes the word with the reference.
  lemma WordMoved(m: Machine, i: nat, now: Word, r: Ref)
    requires i < |m.refs| && now.handles <= MaxCount && now.views <= MaxCount
    requires (m.destructing <==> m.destroyed > 0) && !Nobody(m.word) && !Destroys(m.refs[i])
    requires Follows(m.word.handles, Weight(m.refs[i], Handle), now.handles, Weight(r, Handle))
    requires Follows(m.word.views, Weight(m.refs[i], View), now.views, Weight(r, View))
    requires Destroys(r) <==> Nobody(now)
    ensures Moved(m, i, m.(word := now).To(i, r))
  {
    hide Follows, Weight, Destroys, Nobody;
  }

  lemma DetachedFollows(seen: Word, kind: Kind, weight: nat)
    requires seen.handles <= MaxCount && seen.views <= MaxCount && MaxCount != seen.Of(kind) >= weight
    ensures var now := seen.With(kind, seen.Of(kind) - weight);
            && Follows(seen.handles, if kind.Handle? then weight else 0, now.handles, 0)
            && Follows(seen.views, if kind.Handle? then 0 else weight, now.views, 0)
            && now.handles <= MaxCount && now.views <= MaxCount
            && (TaskAfter(kind, now).Destroy? <==> Nobody(now))
  {
  }

  // A view is attached to keep the object alive while its last handle detaches.
  lemma StartTempInv(m: Machine, i: nat, weight: nat, seen: Word, j: nat)
    requires Inv(m) && i < |m.refs| && m.refs[i] == Detach(Handle, weight, seen, None)
    requires 2 <= j < |m.refs| && m.refs[j].Unborn? && j != i
    ensures Inv(m.To(i, Wait(weight, seen, Some(j))).To(j, Begin(1, i)))
  {
    var m' := m.To(i, Wait(weight, seen, Some(j)));
    var m'' := m'.To(j, Begin(1, i));
    hide Total, Count;
    assert Locals(m'') by {
      hide Counts, DestroyInv;
      forall k | 0 <= k < |m''.refs|
        ensures Local(m'', k, m''.refs[k])
      {
        TempOtherStays(m, i, weight, seen, j, k);
      }
    }
    hide Locals;
    TempCounts(m, i, weight, seen, j);
    assert Counts(m'') && DestroyInv(m'');
  }

  lemma TempCounts(m: Machine, i: nat, weight: nat, seen: Word, j: nat)
    requires i < |m.refs| && m.refs[i] == Detach(Handle, weight, seen, None)
    requires j < |m.refs| && m.refs[j].Unborn? && j != i
    ensures var rs := m.refs[i := Wait(weight, seen, Some(j))][j := Begin(1, i)];
            && Total(rs, Handle) == Total(m.refs, Handle) && Total(rs, View) == Total(m.refs, View)
            && Count(rs, Destroys) == Count(m.refs, Destroys)
  {
    var r, r' := Wait(weight, seen, Some(j)), Begin(1, i);
    var rs := m.refs[i := r];
    hide Total, Count;
    TotalUpdate(m.refs, i, r, Handle);
    TotalUpdate(m.refs, i, r, View);
    CountUpdate(m.refs, i, r, Destroys);
    TotalUpdate(rs, j, r', Handle);
    TotalUpdate(rs, j, r', View);
    CountUpdate(rs, j, r', Destroys);
  }

  lemma TempOtherStays(m: Machine, i: nat, weight: nat, seen: Word, j: nat, k: nat)
    requires Locals(m) && i < |m.refs| && m.refs[i] == Detach(Handle, weight, seen, None)
    requires 2 <= j < |m.refs| && m.refs[j].Unborn? && j != i && k < |m.refs|
    ensures var m' := m.To(i, Wait(weight, seen, Some(j))).To(j, Begin(1, i)); Local(m', k, m'.refs[k])
  {
    assert Local(m, k, m.refs[k]);
  }

  lemma StepAfterInv(m: Machine, i: nat, task: Task, temp: Option)
    requires Inv(m) && i < |m.refs| && m.refs[i] == After(task, temp)
    ensures Inv(StepAfter(m, i, task))
  {
    var m' := StepAfter(m, i, task);
    Knows(m, i);
    hide Inv;
    assert Moved(m, i, m');
    KeepsInv(m, i, m');
  }

  lemma StepLiveInv(m: Machine, i: nat, a: Action)
    requires Inv(m) && i < |m.refs| && m.refs[i].Live?
    ensures Inv(StepLive(m, i, a))
  {
    Knows(m, i);
    LiveMoved(m, i, a);
    LiveLocal(m, i, a);
    hide Inv, Moved, Local, Fits, StepLive;
    KeepsInv(m, i, StepLive(m, i, a));
  }

  lemma LiveLocal(m: Machine, i: nat, a: Action)
    requires i < |m.refs| && m.refs[i].Live? && Local(m, i, m.refs[i])
    ensures var m' := StepLive(m, i, a); Local(m', i, m'.refs[i]) && Fits(m, i, m'.refs[i])
  {
    hide Free;
  }

  lemma LiveMoved(m: Machine, i: nat, a: Action)
    requires i < |m.refs| && m.refs[i].Live? && m.word.handles <= MaxCount && m.word.views <= MaxCount
    requires m.destructing <==> m.destroyed > 0
    ensures Moved(m, i, StepLive(m, i, a))
  {
    if a.Leave? && MayLeave(m, i) {
      ToMoved(m, i, Leaving(m.refs[i].kind, m.refs[i].weight));
    } else {
      var r, m' := m.refs[i], StepLive(m, i, a);
      assert m'.refs == m.refs[i := r];
      assert m'.word.handles == m.word.handles && m'.word.views == m.word.views;
      assert !Destroys(r);
      hide MayLeave, Weight, Destroys, StepLive;
    }
  }

  lemma StepAloneInv(m: Machine, i: nat, a: Action)
    requires Inv(m) && i < |m.refs|
    requires var r := m.refs[i]; !r.Attach? && !r.Detach? && !r.After? && !r.Live?
    ensures Inv(m.To(i, StepAlone(m, i, a)))
  {
    Knows(m, i);
    if Counted(m.refs[i]) {
      SomethingStays(m, i);
    }
    AloneWeight(m, i, a);
    AloneLocal(m, i, a);
    hide Inv, Local, Fits, StepAlone, Weight;
    KeepsInv(m, i, m.To(i, StepAlone(m, i, a)));
  }

  lemma AloneLocal(m: Machine, i: nat, a: Action)
    requires i < |m.refs| && Local(m, i, m.refs[i]) && m.word.handles <= MaxCount && m.word.views <= MaxCount
    requires var r := m.refs[i];
             && !r.Attach? && !r.Detach? && !r.After? && !r.Live?
             && (r.Leaving? ==> m.word.Of(r.kind) >= r.weight)
    ensures var r := StepAlone(m, i, a); Local(m.To(i, r), i, r) && Fits(m, i, r)
  {
    hide Free;
  }

  lemma AloneWeight(m: Machine, i: nat, a: Action)
    requires i < |m.refs|
    requires var r := m.refs[i]; !r.Attach? && !r.Detach? && !r.After? && !r.Live?
    ensures forall k :: Weight(StepAlone(m, i, a), k) == Weight(m.refs[i], k)
    ensures !Destroys(StepAlone(m, i, a))
  {
    hide Free, MayCopy;
  }

  // Every step keeps the invariant.
  lemma StepInv(m: Machine, i: nat, a: Action)
    requires Inv(m) && i < |m.refs|
    ensures Inv(Step(m, i, a)) && |Step(m, i, a).refs| == |m.refs|
  {
    hide StepAttach, StepDetach, StepAfter, StepLive, StepAlone, Inv;
    if m.captured {
      return;
    }
    match m.refs[i]
    case Attach(kind, weight, source, seen) => StepAttachInv(m, i, kind, weight, source, seen);
    case Detach(kind, weight, seen, temp) => StepDetachInv(m, i, kind, weight, seen, temp, a);
    case After(task, temp) => StepAfterInv(m, i, task, temp);
    case Live(_, _) => StepLiveInv(m, i, a);
    case _ => StepAloneInv(m, i, a);
  }

  lemma {:induction false} RunInv(m: Machine, moves: seq<Move>)
    requires Inv(m)
    ensures Inv(Run(m, moves)) && |Run(m, moves).refs| == |m.refs|
    decreases |moves|
  {
    hide Inv, Step;
    if moves != [] {
      if moves[0].ref < |m.refs| {
        StepInv(m, moves[0].ref, moves[0].action);
      }
      RunInv(Next(m, moves[0]), moves[1..]);
    }
  }

  // ----- what it is for ------------------------------------------------------

  // In every run the counts are the weights of what is attached, until one of them reaches
  // its maximum.
  lemma CountsExact(m: Machine, moves: seq<Move>)
    requires Initial(m)
    ensures var r := Run(m, moves);
            && (r.word.handles == MaxCount || r.word.handles == Total(r.refs, Handle))
            && (r.word.views == MaxCount || r.word.views == Total(r.refs, View))
  {
    InitialInv(m);
    RunInv(m, moves);
  }

  // In every run the object is destroyed at most once, and not while anything is attached,
  // attaching or waiting; a count at its maximum keeps it from being destroyed.
  lemma DestroyedOnce(m: Machine, moves: seq<Move>)
    requires Initial(m)
    ensures var r := Run(m, moves);
            && r.destroyed <= 1
            && (r.word.handles == MaxCount || r.word.views == MaxCount ==> r.destroyed == 0)
            && (r.destroyed > 0 || Count(r.refs, Destroys) > 0 ==>
                  forall i :: 0 <= i < |r.refs| ==>
                                !Counted(r.refs[i]) && !r.refs[i].Begin? && !r.refs[i].Peek? && !r.refs[i].Attach?)
            && (r.destroyed > 0 ==> Count(r.refs, Destroys) == 0)
  {
    InitialInv(m);
    RunInv(m, moves);
    var r := Run(m, moves);
    hide Run, Total, Count;
    if r.destroyed > 0 || Count(r.refs, Destroys) > 0 {
      forall i | 0 <= i < |r.refs|
        ensures !Counted(r.refs[i]) && !r.refs[i].Begin? && !r.refs[i].Peek? && !r.refs[i].Attach?
      {
        NobodyIn(r, i);
      }
    }
  }

  lemma NobodyIn(m: Machine, i: nat)
    requires Inv(m) && i < |m.refs| && Nobody(m.word)
    ensures !Counted(m.refs[i]) && !m.refs[i].Begin? && !m.refs[i].Peek? && !m.refs[i].Attach?
  {
    Knows(m, i);
    if Counted(m.refs[i]) {
      SomethingStays(m, i);
    } else if m.refs[i].Begin? || m.refs[i].Peek? || m.refs[i].Attach? {
      SomethingStays(m, m.refs[i].source);
    }
  }

  // While the last handle makes the object immutable, the object is there.
  lemma AliveWhileConst(m: Machine, i: nat)
    requires Inv(m) && i < |m.refs| && m.refs[i].After? && m.refs[i].task.BecomeConst?
    ensures m.destroyed == 0 && Count(m.refs, Destroys) == 0
  {
    Knows(m, i);
    SomethingStays(m, m.refs[i].temp.index);
  }

  // A count that has reached its maximum never leaves it.
  lemma {:induction false} ImmortalStays(m: Machine, moves: seq<Move>, k: Kind)
    requires Inv(m) && m.word.Of(k) == MaxCount
    ensures Run(m, moves).word.Of(k) == MaxCount && Run(m, moves).destroyed == 0
    decreases |moves|
  {
    if moves != [] {
      var i, a := moves[0].ref, moves[0].action;
      if i < |m.refs| {
        MaxStays(m, i, a, k);
        StepInv(m, i, a);
      }
      hide Inv, Step;
      ImmortalStays(Next(m, moves[0]), moves[1..], k);
    }
  }

  lemma MaxStays(m: Machine, i: nat, a: Action, k: Kind)
    requires Inv(m) && i < |m.refs| && m.word.Of(k) == MaxCount
    ensures Step(m, i, a).word.Of(k) == MaxCount
  {
    Knows(m, i);
    hide Inv, StepAttach, StepDetach, StepLive, StepAfter, StepAlone, NeedsTemp;
    match m.refs[i]
    case Attach(kind, weight, source, seen) => AttachMaxStays(m, i, kind, weight, source, seen, k);
    case Detach(kind, weight, seen, temp) =>
      DetachMaxStays(m, i, kind, weight, seen, temp, a, k);
    case _ => hide Local;
  }

  lemma AttachMaxStays(m: Machine, i: nat, kind: Kind, weight: nat, source: nat, seen: Word, k: Kind)
    requires Inv(m) && i < |m.refs| && m.word.Of(k) == MaxCount && m.refs[i] == Attach(kind, weight, source, seen)
    ensures StepAttach(m, i, kind, weight, source, seen).word.Of(k) == MaxCount
  {
    Knows(m, i);
    hide Inv, StepAttach;
    SomethingStays(m, source);
    AttachMoved(m, i, kind, weight, source, seen);
  }

  lemma DetachMaxStays(m: Machine, i: nat, kind: Kind, weight: nat, seen: Word, temp: Option, a: Action, k: Kind)
    requires Inv(m) && i < |m.refs| && m.word.Of(k) == MaxCount && m.refs[i] == Detach(kind, weight, seen, temp)
    ensures StepDetach(m, i, kind, weight, seen, temp, a).word.Of(k) == MaxCount
  {
    Knows(m, i);
    SomethingStays(m, i);
    hide Inv, StepDetach, TempComes, TempStays;
    if NeedsTemp(kind, seen, temp) {
      TempKeepsWord(m, i, kind, weight, seen, temp, a);
    } else {
      DetachMoved(m, i, kind, weight, seen, temp, a);
    }
  }

  lemma TempKeepsWord(m: Machine, i: nat, kind: Kind, weight: nat, seen: Word, temp: Option, a: Action)
    requires i < |m.refs| && NeedsTemp(kind, seen, temp)
    ensures StepDetach(m, i, kind, weight, seen, temp, a).word == m.word
  {
  }

  // Two references with a total weight of two are all there is.
  lemma TwoLeft(m: Machine, i: nat, s: nat)
    requires Inv(m) && i < |m.refs| && s < |m.refs| && i != s && Counted(m.refs[i]) && Counted(m.refs[s])
    requires Total(m.refs, Handle) + Total(m.refs, View) == 2
    ensures Weight(m.refs[i], Handle) + Weight(m.refs[i], View) == 1
    ensures Weight(m.refs[s], Handle) + Weight(m.refs[s], View) == 1
    ensures forall j :: 0 <= j < |m.refs| && j != i && j != s ==> !Counted(m.refs[j])
  {
    Knows(m, i);
    Knows(m, s);
    var one := m.refs[i := Gone];
    var none := one[s := Gone];
    TotalUpdate(m.refs, i, Gone, Handle);
    TotalUpdate(m.refs, i, Gone, View);
    TotalUpdate(one, s, Gone, Handle);
    TotalUpdate(one, s, Gone, View);
    TotalZero(none, Handle);
    TotalZero(none, View);
    hide Total;
    forall j | 0 <= j < |m.refs| && j != i && j != s
      ensures !Counted(m.refs[j])
    {
      Knows(m, j);
      assert none[j] == m.refs[j];
    }
  }

  // The object is captured only when two references are left, each of weight one: the new
  // one and the one it was copied from.
  lemma CaptureExact(m: Machine, i: nat, a: Action)
    requires Inv(m) && i < |m.refs| && !m.captured && Step(m, i, a).captured
    ensures m.refs[i].Attach?
    ensures var r, s := Step(m, i, a), m.refs[i].source;
            && s < |r.refs| == |m.refs| && s != i && Counted(r.refs[i]) && Counted(r.refs[s])
            && Weight(r.refs[i], Handle) + Weight(r.refs[i], View) == 1
            && Weight(r.refs[s], Handle) + Weight(r.refs[s], View) == 1
            && forall j :: 0 <= j < |r.refs| && j != i && j != s ==> !Counted(r.refs[j])
  {
    OnlyAttachCaptures(m, i, a);
    var s, kind, weight, seen := m.refs[i].source, m.refs[i].kind, m.refs[i].weight, m.refs[i].seen;
    Knows(m, i);
    StepInv(m, i, a);
    var r := Step(m, i, a);
    assert Counts(r);
    CapturedWord(m, i, kind, weight, s, seen);
    hide Inv, Total, StepAttach;
    TwoLeft(r, i, s);
  }

  lemma CapturedWord(m: Machine, i: nat, kind: Kind, weight: nat, source: nat, seen: Word)
    requires i < |m.refs| && source != i && source < |m.refs| && !m.captured
    ensures var r := StepAttach(m, i, kind, weight, source, seen);
            r.captured ==> r.word.handles + r.word.views == 2 && r.refs[source] == m.refs[source]
  {
  }

  lemma OnlyAttachCaptures(m: Machine, i: nat, a: Action)
    requires i < |m.refs| && !m.captured && Step(m, i, a).captured
    ensures m.refs[i].Attach? && Step(m, i, a).refs[i].Live?
  {
    hide StepAlone, StepDetach, StepAfter, StepLive, Blocks, Captures, Attached, Immortal;
  }

  // In no run is a count smaller than what a detach takes from it: one fails only if the view
  // that is to keep the object alive is refused.
  lemma NoUnderflow(m: Machine, i: nat, a: Action)
    requires Inv(m) && i < |m.refs| && !m.refs[i].Failed? && Step(m, i, a).refs[i].Failed?
    ensures m.refs[i].Wait? && m.refs[i].temp.Some?
    ensures var j := m.refs[i].temp.index; j < |m.refs| && m.refs[j].Refused?
  {
    Knows(m, i);
    hide Inv, Step, Local;
    FailsHere(m, i, a);
  }

  lemma FailsHere(m: Machine, i: nat, a: Action)
    requires i < |m.refs| && !m.refs[i].Failed? && Step(m, i, a).refs[i].Failed? && Local(m, i, m.refs[i])
    ensures m.refs[i].Wait? && m.refs[i].temp.Some?
    ensures var j := m.refs[i].temp.index; j < |m.refs| && m.refs[j].Refused?
  {
    hide StepAttach, StepDetach, StepAfter, StepLive, StepAlone, Seen, SourceStays, TempStays;
    match m.refs[i]
    case Attach(kind, weight, source, seen) => AttachNotFailed(m, i, kind, weight, source, seen);
    case Detach(kind, weight, seen, temp) => DetachNotFailed(m, i, kind, weight, seen, temp, a);
    case After(_, _) =>
    case Live(_, _) =>
    case _ => AloneFails(m, i, a);
  }

  lemma AttachNotFailed(m: Machine, i: nat, kind: Kind, weight: nat, source: nat, seen: Word)
    requires i < |m.refs|
    ensures !StepAttach(m, i, kind, weight, source, seen).refs[i].Failed?
  {
    hide Captures, Blocks, Immortal, Attached;
  }

  lemma DetachNotFailed(m: Machine, i: nat, kind: Kind, weight: nat, seen: Word, temp: Option, a: Action)
    requires i < |m.refs| && seen.Of(kind) >= weight > 0 && !m.refs[i].Failed?
    ensures !StepDetach(m, i, kind, weight, seen, temp, a).refs[i].Failed?
  {
    hide StepTemp, TaskAfter, NeedsTemp;
  }

  lemma AloneFails(m: Machine, i: nat, a: Action)
    requires i < |m.refs| && !m.refs[i].Failed? && StepAlone(m, i, a).Failed?
    ensures m.refs[i].Wait?
    ensures var temp := m.refs[i].temp; temp.None? || temp.index >= |m.refs| || m.refs[temp.index].Refused?
  {
    hide MayCopy;
  }

  // It is captured exactly when an attach leaves a weight of two, but for a handle that is
  // copied from a view.
  lemma CapturedExactly(m: Machine, i: nat, a: Action)
    requires Inv(m) && i < |m.refs| && !m.captured
    ensures var r := Step(m, i, a);
            r.captured <==>
            && m.refs[i].Attach? && r.refs[i].Live? && r.word.handles + r.word.views == 2
            && (m.refs[i].kind.Handle? ==> r.word.views == 0)
  {
    Knows(m, i);
    hide StepDetach, StepAfter, StepLive, StepAlone, StepAttach, Inv;
    if m.refs[i].Attach? {
      CapturedHere(m, i, m.refs[i].kind, m.refs[i].weight, m.refs[i].source, m.refs[i].seen);
    }
  }

  lemma CapturedHere(m: Machine, i: nat, kind: Kind, weight: nat, source: nat, seen: Word)
    requires i < |m.refs| && !m.captured && Seen(m, seen) && weight > 0
    ensures var r := StepAttach(m, i, kind, weight, source, seen);
            r.captured <==>
            r.refs[i].Live? && r.word.handles + r.word.views == 2 && (kind.Handle? ==> r.word.views == 0)
  {
    hide Blocks;
  }

  // The object is made immutable exactly by a detach after which there are no handles any
  // more, but views.
  lemma ConstExactly(m: Machine, i: nat, a: Action)
    requires Inv(m) && i < |m.refs| && !m.captured
    ensures ConstOnly(m, Step(m, i, a), i)
  {
    Knows(m, i);
    hide Inv, StepAttach, StepDetach, StepAfter, StepLive, StepAlone, ConstOnly, SourceStays, TempStays, TempComes;
    match m.refs[i]
    case Attach(kind, weight, source, seen) => AttachNotConst(m, i, kind, weight, source, seen);
    case Detach(kind, weight, seen, temp) => DetachConst(m, i, kind, weight, seen, temp, a);
    case After(task, temp) => AfterConst(m, i, task, temp);
    case Live(_, _) => LiveConst(m, i, a);
    case _ => AloneNotAfter(m, i, a);
  }

  ghost predicate ConstOnly(m: Machine, r: Machine, i: nat) {
    && i < |m.refs| == |r.refs|
    && (r.refs[i].After? && r.refs[i].task.BecomeConst? && !m.refs[i].After? <==>
        m.word.handles > 0 && r.word.handles == 0 && r.word.views > 0)
    && r.consts == m.consts + Bit(m.refs[i].After? && m.refs[i].task.BecomeConst?)
  }

  lemma AttachNotConst(m: Machine, i: nat, kind: Kind, weight: nat, source: nat, seen: Word)
    requires i < |m.refs| && m.refs[i].Attach? && Seen(m, seen) && m.word.handles <= MaxCount
    ensures ConstOnly(m, StepAttach(m, i, kind, weight, source, seen), i)
  {
    hide Captures, Blocks;
  }

  lemma DetachConst(m: Machine, i: nat, kind: Kind, weight: nat, seen: Word, temp: Option, a: Action)
    requires i < |m.refs| && m.refs[i] == Detach(kind, weight, seen, temp) && seen.Of(kind) >= weight > 0
    requires m.word.handles <= MaxCount
    ensures ConstOnly(m, StepDetach(m, i, kind, weight, seen, temp, a), i)
  {
    hide NeedsTemp, StepTemp;
  }

  lemma AloneNotAfter(m: Machine, i: nat, a: Action)
    requires i < |m.refs| && !m.refs[i].After?
    ensures ConstOnly(m, m.To(i, StepAlone(m, i, a)), i)
  {
    hide MayCopy;
  }

  lemma AfterConst(m: Machine, i: nat, task: Task, temp: Option)
    requires i < |m.refs| && m.refs[i] == After(task, temp)
    ensures ConstOnly(m, StepAfter(m, i, task), i)
  {
  }

  lemma LiveConst(m: Machine, i: nat, a: Action)
    requires i < |m.refs| && m.refs[i].Live?
    ensures ConstOnly(m, StepLive(m, i, a), i)
  {
    hide MayLeave;
  }

  // ----- handles that come back ----------------------------------------------

  // A step revives a handle exactly when it is the last of an attach that began while there
  // were handles, and finds that there are none any more; the attach is then through a view.
  lemma Revival(m: Machine, i: nat, a: Action)
    requires Inv(m) && i < |m.refs| && i !in m.revived
    ensures i in Step(m, i, a).revived <==>
            && !m.captured && m.refs[i].Attach? && m.refs[i].kind.Handle?
            && m.refs[i].seen == m.word && m.word.handles == 0
    ensures i in Step(m, i, a).revived ==> Step(m, i, a).word.handles > 0 && FromView(m, i)
  {
    hide StepAttach, StepDetach, StepAfter, StepLive, StepAlone, Inv;
    if m.refs[i].Attach? {
      RevivalHere(m, i, m.refs[i].kind, m.refs[i].weight, m.refs[i].source, m.refs[i].seen);
    }
  }

  lemma RevivalHere(m: Machine, i: nat, kind: Kind, weight: nat, source: nat, seen: Word)
    requires Inv(m) && i < |m.refs| && i !in m.revived && m.refs[i] == Attach(kind, weight, source, seen)
    ensures var r := StepAttach(m, i, kind, weight, source, seen);
            && (i in r.revived <==> kind.Handle? && seen == m.word && m.word.handles == 0)
            && (i in r.revived ==> r.word.handles > 0 && FromView(m, i))
  {
    Knows(m, i);
    SomethingStays(m, source);
    Knows(m, source);
    hide Inv, Captures;
  }

  // Nobody else is revived.
  lemma RevivesOnly(m: Machine, i: nat, a: Action)
    requires i < |m.refs|
    ensures m.revived <= Step(m, i, a).revived <= m.revived + {i}
  {
    hide StepDetach, StepAfter, StepLive, StepAlone, Blocks, Immortal, Attached, Captures;
  }

  // Attaching a handle through a reference that is a view.
  predicate FromView(m: Machine, i: nat) {
    && i < |m.refs| && (m.refs[i].Peek? || m.refs[i].Attach?) && m.refs[i].kind.Handle?
    && m.refs[i].source < |m.refs| && m.refs[m.refs[i].source].Live? && m.refs[m.refs[i].source].kind.View?
  }

  // Nobody does; the weak reference may, if it is `allowed` to.
  ghost predicate NoneFromView(m: Machine, allowed: set<nat>) {
    forall i :: 0 <= i < |m.refs| && i !in allowed ==> !FromView(m, i)
  }

  // No move of the run starts to attach a handle through a view, but for those `allowed` to.
  ghost predicate HandlesFromHandles(m: Machine, moves: seq<Move>, allowed: set<nat>)
    decreases |moves|
  {
    moves != [] ==>
      var i := moves[0].ref;
      && (i < |m.refs| && i !in allowed ==> !FromView(Next(m, moves[0]), i) || FromView(m, i))
      && HandlesFromHandles(Next(m, moves[0]), moves[1..], allowed)
  }

  // As long as handles are copied from handles, none comes back once they have all gone.
  lemma {:induction false} NoRevival(m: Machine, moves: seq<Move>, allowed: set<nat>)
    requires Inv(m) && NoneFromView(m, allowed) && HandlesFromHandles(m, moves, allowed)
    ensures Run(m, moves).revived <= m.revived + allowed && NoneFromView(Run(m, moves), allowed)
    ensures allowed == {} && m.word.handles == 0 ==> Run(m, moves).word.handles == 0
    decreases |moves|
  {
    if moves != [] {
      var i, a, next := moves[0].ref, moves[0].action, Next(m, moves[0]);
      if i < |m.refs| {
        StepInv(m, i, a);
        hide Inv, Step;
        RevivesOnly(m, i, a);
        if i !in m.revived {
          Revival(m, i, a);
        }
        if m.word.handles == 0 && !FromView(m, i) {
          NoHandles(m, i, a);
        }
        OthersNotFromView(m, i, a, allowed);
      }
      NoRevival(next, moves[1..], allowed);
    }
  }

  // A step from no handles to some is a revival.
  lemma NoHandles(m: Machine, i: nat, a: Action)
    requires Inv(m) && i < |m.refs| && m.word.handles == 0 && !FromView(m, i)
    ensures Step(m, i, a).word.handles == 0
  {
    hide StepAlone, StepDetach, StepAttach, StepLive, StepAfter, Inv;
    match m.refs[i]
    case Attach(kind, weight, source, seen) => NoHandlesAttach(m, i, kind, weight, source, seen);
    case Detach(kind, weight, seen, temp) => NoHandlesDetach(m, i, kind, weight, seen, temp, a);
    case _ =>
  }

  lemma NoHandlesAttach(m: Machine, i: nat, kind: Kind, weight: nat, source: nat, seen: Word)
    requires Inv(m) && i < |m.refs| && m.word.handles == 0 && !FromView(m, i)
    requires m.refs[i] == Attach(kind, weight, source, seen)
    ensures StepAttach(m, i, kind, weight, source, seen).word.handles == 0
  {
    Knows(m, i);
    SomethingStays(m, source);
    Knows(m, source);
    hide Captures, Blocks, Immortal, Inv;
  }

  lemma NoHandlesDetach(m: Machine, i: nat, kind: Kind, weight: nat, seen: Word, temp: Option, a: Action)
    requires i < |m.refs| && m.word.handles == 0
    ensures StepDetach(m, i, kind, weight, seen, temp, a).word.handles == 0
  {
    hide TaskAfter, NeedsTemp, StepTemp;
    if seen.handles == 0 && kind.Handle? {
      return;
    }
  }

  lemma OthersNotFromView(m: Machine, i: nat, a: Action, allowed: set<nat>)
    requires Inv(m) && i < |m.refs| && NoneFromView(m, allowed) && (i in allowed || !FromView(Step(m, i, a), i))
    ensures NoneFromView(Step(m, i, a), allowed)
  {
    var r := Step(m, i, a);
    forall j | 0 <= j < |r.refs| && j !in allowed
      ensures !FromView(r, j)
    {
      if j != i {
        OtherNotFromView(m, i, a, j);
      }
    }
  }

  // The source of an attach that is going on does not change its kind.
  lemma OtherNotFromView(m: Machine, i: nat, a: Action, j: nat)
    requires Inv(m) && i < |m.refs| && j < |m.refs| && j != i && !FromView(m, j)
    ensures !FromView(Step(m, i, a), j)
  {
    StepOthers(m, i, a);
    Knows(m, j);
    if m.refs[i].Wait? {
      Knows(m, i);
    }
    hide Inv, Step;
  }

  lemma StepOthers(m: Machine, i: nat, a: Action)
    requires i < |m.refs|
    ensures var r := Step(m, i, a);
            && (forall j :: 0 <= j < |m.refs| && j != i ==>
                              r.refs[j] == m.refs[j] || (m.refs[j].Unborn? && r.refs[j].Begin?))
            && (m.refs[i].Live? ==> r.refs[i] == m.refs[i] || r.refs[i].Leaving?)
            && (m.refs[i].Wait? ==> !r.refs[i].Live?)
  {
    hide StepAttach, StepDetach, StepLive, StepAfter, StepAlone;
    if m.refs[i].Wait? {
      WaitGoesOn(m, i, a);
    }
  }

  lemma WaitGoesOn(m: Machine, i: nat, a: Action)
    requires i < |m.refs| && m.refs[i].Wait?
    ensures !StepAlone(m, i, a).Live?
  {
  }

  // Nobody attaches a handle through a view of the weak reference.
  ghost predicate NoneFromWeak(m: Machine) {
    forall i :: 0 <= i < |m.refs| && FromView(m, i) ==> m.refs[i].source >= 2
  }

  lemma StepNoneFromWeak(m: Machine, i: nat, a: Action)
    requires Inv(m) && i < |m.refs| && NoneFromWeak(m)
    ensures NoneFromWeak(Step(m, i, a))
  {
    var r := Step(m, i, a);
    StepOthers(m, i, a);
    forall j | 0 <= j < |r.refs| && FromView(r, j)
      ensures r.refs[j].source >= 2
    {
      if j == i {
        HereNotFromWeak(m, i, a);
      } else {
        if !FromView(m, j) {
          OtherNotFromView(m, i, a, j);
        }
        assert r.refs[j] == m.refs[j];
      }
    }
  }

  lemma HereNotFromWeak(m: Machine, i: nat, a: Action)
    requires Inv(m) && i < |m.refs| && NoneFromWeak(m) && FromView(Step(m, i, a), i)
    ensures Step(m, i, a).refs[i].source >= 2
  {
    var r := Step(m, i, a);
    StepOthers(m, i, a);
    Knows(m, i);
    HereSource(m, i, a);
    hide Inv, Step, Local;
    var s := r.refs[i].source;
    assert s != i && r.refs[s] == m.refs[s];
    if m.refs[i].Peek? || m.refs[i].Attach? {
      assert FromView(m, i);
    }
  }

  lemma HereSource(m: Machine, i: nat, a: Action)
    requires i < |m.refs| && FromView(Step(m, i, a), i) && Local(m, i, m.refs[i])
    ensures var r := Step(m, i, a).refs[i];
            && r.source != i
            && if m.refs[i].Peek? || m.refs[i].Attach? then m.refs[i].kind.Handle? && m.refs[i].source == r.source
               else r.source < |m.refs| && (r.source < 2 ==> m.refs[r.source].kind == Handle)
  {
    hide StepAttach, StepDetach, StepAfter, StepLive, StepAlone;
    if !m.captured {
      match m.refs[i]
      case Attach(kind, weight, source, seen) => AttachKeepsSource(m, i, kind, weight, source, seen);
      case Detach(_, _, _, _) =>
      case After(_, _) =>
      case Live(_, _) =>
      case _ => AloneSource(m, i, a);
    }
  }

  lemma AttachKeepsSource(m: Machine, i: nat, kind: Kind, weight: nat, source: nat, seen: Word)
    requires i < |m.refs|
    ensures var r := StepAttach(m, i, kind, weight, source, seen).refs[i];
            r.Live? || r.Refused? || (r.Attach? && r.kind == kind && r.source == source)
  {
    hide Captures, Blocks, Immortal, Attached;
  }

  lemma AloneSource(m: Machine, i: nat, a: Action)
    requires i < |m.refs| && (StepAlone(m, i, a).Peek? || StepAlone(m, i, a).Attach?)
    requires !m.refs[i].Attach? && StepAlone(m, i, a).kind.Handle?
    ensures var r := StepAlone(m, i, a);
            if m.refs[i].Peek? then m.refs[i].kind.Handle? && m.refs[i].source == r.source
            else r.source < |m.refs| && r.source != i && (r.source < 2 ==> m.refs[r.source].kind == Handle)
  {
    hide Free;
  }

  lemma {:induction false} RunNoneFromWeak(m: Machine, moves: seq<Move>)
    requires Inv(m) && NoneFromWeak(m)
    ensures NoneFromWeak(Run(m, moves))
    decreases |moves|
  {
    hide Inv, Step, NoneFromWeak;
    if moves != [] {
      if moves[0].ref < |m.refs| {
        StepInv(m, moves[0].ref, moves[0].action);
        StepNoneFromWeak(m, moves[0].ref, moves[0].action);
      }
      RunNoneFromWeak(Next(m, moves[0]), moves[1..]);
    }
  }
}
