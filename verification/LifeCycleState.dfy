// The word that an object shares between its member lock and its monitor.  Every
// thread goes round a loop that looks at the word, assumes what it should be, and
// replaces it if it is.  One step is one access to the word; the steps of different
// threads are interleaved in any order.
module LifeCycleState {
  import opened Counting

  const MaxReadLocks: nat := 0xFF

  datatype Gate = Open | Closing | Closed

  datatype Monitor = Flat | Inflating | Inflated

  datatype Word = Word(stage: int, escaped: bool, monitor: Monitor, gate: Gate, readers: nat)

  // Where a thread is.  `seen` is what it last saw of the word, `spin` how often it may
  // still assume another value before it yields.
  datatype Thread =
    | Idle
    | ReadTry(seen: Word, spin: int)
    | ReadYield
    | Reading
    | ReadRelease(seen: Word)
    | WriteTry(seen: Word, spin: int, keeper: bool)
    | WriteYield(keeper: bool)
    | Writing
    | WriteRelease(seen: Word)
    | MonitorPeek
    | MonitorTry(seen: Word)
    | MonitorCreate(mine: Word)
    | MonitorPublish(seen: Word)
    | MonitorUsed(condition: nat)
    | Failed

  // What a thread that is free to choose does next.
  datatype Action = AcquireRead | AcquireWrite | UseMonitor | Release | Touch(stage: int, escaped: bool)

  // `condition` is 0 until one has been created; `created` counts the creations.
  datatype Machine = Machine(word: Word, condition: nat, created: nat, threads: seq<Thread>) {
    function To(i: nat, t: Thread): Machine
      requires i < |threads|
    {
      this.(threads := threads[i := t])
    }

    // Replace the word, if it is `assumed`, and go to `won`; otherwise go to `lost`.
    function Update(i: nat, assumed: Word, new': Word, won: Thread, lost: Thread): Machine
      requires i < |threads|
    {
      if word == assumed then this.(word := new').To(i, won) else To(i, lost)
    }
  }

  // ----- the steps -----------------------------------------------------------

  function StepReadTry(m: Machine, i: nat, seen: Word, spin: int): Machine
    requires i < |m.threads|
  {
    var open := seen.gate.Open?;
    var assumed := if open then seen else seen.(gate := Open, readers := 0);
    var spin' := if open then spin else spin - 1;
    if spin' == 0 || seen.readers == MaxReadLocks then
      m.To(i, ReadYield)
    else
      m.Update(i, assumed, assumed.(readers := assumed.readers + 1), Reading, ReadTry(m.word, spin'))
  }

  function StepReadRelease(m: Machine, i: nat, seen: Word): Machine
    requires i < |m.threads|
  {
    if seen.readers == 0 then
      m.To(i, Failed)
    else
      m.Update(i, seen, seen.(readers := seen.readers - 1), Idle, ReadRelease(m.word))
  }

  function StepWriteTry(m: Machine, i: nat, seen: Word, spin: int, keeper: bool): Machine
    requires i < |m.threads|
  {
    if keeper && seen.gate != Closing then
      m.To(i, Failed)
    else
      var assumed := if keeper then seen.(readers := 0) else seen.(gate := Open);
      var new' := assumed.(gate := if keeper || seen.readers == 0 then Closed else Closing);
      var spin' := if assumed != seen then spin - 1 else spin;
      if assumed != seen && spin' == 0 then
        m.To(i, WriteYield(keeper))
      else
        m.Update(i, assumed, new', if new'.gate.Closed? then Writing else WriteTry(new', spin', true),
                 WriteTry(m.word, spin', keeper))
  }

  function StepWriteRelease(m: Machine, i: nat, seen: Word): Machine
    requires i < |m.threads|
  {
    if seen.readers == 0 && seen.gate.Closed? then
      m.Update(i, seen, seen.(gate := Open), Idle, WriteRelease(m.word))
    else
      m.To(i, Failed)
  }

  // After a successful publication `seen` still says "inflating", so the loop goes round
  // once more, with an update that fails.
  function StepMonitor(m: Machine, i: nat, seen: Word, inflator: bool): Machine
    requires i < |m.threads|
  {
    match seen.monitor
    case Flat =>
      var mine := seen.(monitor := Inflating);
      m.Update(i, seen, mine, MonitorCreate(mine), if inflator then MonitorPublish(m.word) else MonitorTry(m.word))
    case Inflating =>
      if inflator then
        m.Update(i, seen, seen.(monitor := Inflated), MonitorPublish(m.word), MonitorPublish(m.word))
      else
        m.To(i, MonitorTry(m.word))
    case Inflated =>
      m.To(i, MonitorUsed(m.condition))
  }

  function Step(m: Machine, i: nat, a: Action, spinMax: int): Machine
    requires i < |m.threads|
  {
    match m.threads[i]
    case Idle => (
      match a
      case AcquireRead => m.To(i, ReadTry(m.word, spinMax))
      case AcquireWrite => m.To(i, WriteTry(m.word, spinMax, false))
      case UseMonitor => m.To(i, if m.word.monitor.Inflated? then MonitorUsed(m.condition) else MonitorPeek)
      case Release => m
      case Touch(stage, escaped) => m.(word := m.word.(stage := stage, escaped := escaped))
    )
    case ReadTry(seen, spin) => StepReadTry(m, i, seen, spin)
    case ReadYield => m.To(i, ReadTry(m.word, spinMax))
    case Reading => if a.Release? then m.To(i, ReadRelease(m.word)) else m
    case ReadRelease(seen) => StepReadRelease(m, i, seen)
    case WriteTry(seen, spin, keeper) => StepWriteTry(m, i, seen, spin, keeper)
    case WriteYield(keeper) => m.To(i, WriteTry(m.word, spinMax, keeper))
    case Writing => if a.Release? then m.To(i, WriteRelease(m.word)) else m
    case WriteRelease(seen) => StepWriteRelease(m, i, seen)
    case MonitorPeek => m.To(i, MonitorTry(m.word))
    case MonitorTry(seen) => StepMonitor(m, i, seen, false)
    case MonitorCreate(mine) =>
      m.(condition := m.created + 1, created := m.created + 1).To(i, MonitorPublish(mine))
    case MonitorPublish(seen) => StepMonitor(m, i, seen, true)
    case MonitorUsed(_) => if a.Release? then m.To(i, Idle) else m
    case Failed => m
  }

  // ----- runs ----------------------------------------------------------------

  datatype Move = Move(thread: nat, action: Action)

  // A step of a thread that does not exist changes nothing.
  function Run(m: Machine, moves: seq<Move>, spinMax: int): Machine
    decreases |moves|
  {
    if moves == [] then m
    else
      var next := if moves[0].thread < |m.threads| then Step(m, moves[0].thread, moves[0].action, spinMax) else m;
      Run(next, moves[1..], spinMax)
  }

  predicate Initial(m: Machine) {
    && m.word.monitor == Flat && m.word.gate == Open && m.word.readers == 0
    && m.condition == 0 && m.created == 0
    && forall i :: 0 <= i < |m.threads| ==> m.threads[i] == Idle
  }

  // ----- what holds after every step -----------------------------------------

  // Having got the lock to read, and not yet given it back.
  predicate HoldsRead(t: Thread) {
    t.Reading? || t.ReadRelease?
  }

  predicate HoldsWrite(t: Thread) {
    t.Writing? || t.WriteRelease?
  }

  // The thread that is closing the gate, and waits for the readers to leave.
  predicate Keeps(t: Thread) {
    (t.WriteTry? && t.keeper) || (t.WriteYield? && t.keeper)
  }

  predicate Creates(t: Thread) {
    t.MonitorCreate?
  }

  predicate Publishes(t: Thread) {
    t.MonitorPublish? && t.seen.monitor.Inflating?
  }

  ghost function Rank(w: Monitor): nat {
    match w case Flat => 0 case Inflating => 1 case Inflated => 2
  }

  // What a thread has seen of the word is still true in the part that it relies on.
  ghost predicate Sees(m: Machine, t: Thread) {
    match t
    case ReadRelease(seen) => seen.readers > 0
    case WriteTry(seen, _, true) => seen.gate.Closing?
    case WriteRelease(seen) => seen.gate.Closed? && seen.readers == 0
    case MonitorTry(seen) => Rank(seen.monitor) <= Rank(m.word.monitor)
    case MonitorCreate(mine) => mine.monitor == Inflating
    case MonitorPublish(seen) => 1 <= Rank(seen.monitor) <= Rank(m.word.monitor)
    case MonitorUsed(c) => m.word.monitor == Inflated && c == m.condition
    case Failed => false
    case _ => true
  }

  ghost predicate GateInv(m: Machine) {
    && m.word.readers == Count(m.threads, HoldsRead) <= MaxReadLocks
    && Count(m.threads, HoldsWrite) == Bit(m.word.gate.Closed?)
    && Count(m.threads, Keeps) == Bit(m.word.gate.Closing?)
    && (m.word.gate.Closed? ==> m.word.readers == 0)
  }

  ghost predicate MonitorInv(m: Machine) {
    && Count(m.threads, Creates) <= 1
    && (m.word.monitor.Flat? ==> Count(m.threads, Creates) == Count(m.threads, Publishes) == 0)
    && (m.word.monitor.Inflating? ==> Count(m.threads, Creates) + Count(m.threads, Publishes) == 1)
    && (m.word.monitor.Inflated? ==> Count(m.threads, Creates) == 0)
    && m.created == m.condition ==
       Bit(!m.word.monitor.Flat? && !(m.word.monitor.Inflating? && Count(m.threads, Creates) == 1))
  }

  ghost predicate Inv(m: Machine) {
    GateInv(m) && MonitorInv(m) && forall i :: 0 <= i < |m.threads| ==> Sees(m, m.threads[i])
  }

  lemma InitialInv(m: Machine)
    requires Initial(m)
    ensures Inv(m)
  {
    CountNone(m.threads, HoldsRead);
    CountNone(m.threads, HoldsWrite);
    CountNone(m.threads, Keeps);
    CountNone(m.threads, Creates);
    CountNone(m.threads, Publishes);
  }

  lemma CountsAt(m: Machine, i: nat, t: Thread)
    requires i < |m.threads|
    ensures var ts := m.threads[i := t];
            && Count(ts, HoldsRead) + Bit(HoldsRead(m.threads[i])) == Count(m.threads, HoldsRead) + Bit(HoldsRead(t))
            && Count(ts, HoldsWrite) + Bit(HoldsWrite(m.threads[i]))
               == Count(m.threads, HoldsWrite) + Bit(HoldsWrite(t))
            && Count(ts, Keeps) + Bit(Keeps(m.threads[i])) == Count(m.threads, Keeps) + Bit(Keeps(t))
            && Count(ts, Creates) + Bit(Creates(m.threads[i])) == Count(m.threads, Creates) + Bit(Creates(t))
            && Count(ts, Publishes) + Bit(Publishes(m.threads[i])) == Count(m.threads, Publishes) + Bit(Publishes(t))
  {
    CountUpdate(m.threads, i, t, HoldsRead);
    CountUpdate(m.threads, i, t, HoldsWrite);
    CountUpdate(m.threads, i, t, Keeps);
    CountUpdate(m.threads, i, t, Creates);
    CountUpdate(m.threads, i, t, Publishes);
  }

  // The counts include each thread that is counted.
  lemma CountsIn(m: Machine, i: nat)
    requires i < |m.threads|
    ensures HoldsRead(m.threads[i]) ==> Count(m.threads, HoldsRead) > 0
    ensures HoldsWrite(m.threads[i]) ==> Count(m.threads, HoldsWrite) > 0
    ensures Keeps(m.threads[i]) ==> Count(m.threads, Keeps) > 0
    ensures Creates(m.threads[i]) ==> Count(m.threads, Creates) > 0
    ensures Publishes(m.threads[i]) ==> Count(m.threads, Publishes) > 0
  {
    if HoldsRead(m.threads[i]) { CountSome(m.threads, i, HoldsRead); }
    if HoldsWrite(m.threads[i]) { CountSome(m.threads, i, HoldsWrite); }
    if Keeps(m.threads[i]) { CountSome(m.threads, i, Keeps); }
    if Creates(m.threads[i]) { CountSome(m.threads, i, Creates); }
    if Publishes(m.threads[i]) { CountSome(m.threads, i, Publishes); }
  }

  // The threads that do not move still see what they rely on.
  lemma OthersSee(m: Machine, i: nat, m': Machine)
    requires Inv(m) && i < |m.threads| && |m'.threads| == |m.threads|
    requires m'.threads == m.threads[i := m'.threads[i]] && Sees(m', m'.threads[i])
    requires Rank(m.word.monitor) <= Rank(m'.word.monitor)
    requires m.word.monitor.Inflated? ==> m'.condition == m.condition
    ensures forall j :: 0 <= j < |m'.threads| ==> Sees(m', m'.threads[j])
  {
    hide GateInv, MonitorInv;
    forall j | 0 <= j < |m'.threads|
      ensures Sees(m', m'.threads[j])
    {
      assert j != i ==> Sees(m, m.threads[j]);
    }
  }

  // What is known before thread `i` moves, and what its move changes in the counts.
  lemma BeforeStep(m: Machine, i: nat, t: Thread)
    requires Inv(m) && i < |m.threads|
    ensures GateInv(m) && MonitorInv(m) && Sees(m, m.threads[i])
    ensures var ts := m.threads[i := t];
            && Count(ts, HoldsRead) + Bit(HoldsRead(m.threads[i])) == Count(m.threads, HoldsRead) + Bit(HoldsRead(t))
            && Count(ts, HoldsWrite) + Bit(HoldsWrite(m.threads[i]))
               == Count(m.threads, HoldsWrite) + Bit(HoldsWrite(t))
            && Count(ts, Keeps) + Bit(Keeps(m.threads[i])) == Count(m.threads, Keeps) + Bit(Keeps(t))
            && Count(ts, Creates) + Bit(Creates(m.threads[i])) == Count(m.threads, Creates) + Bit(Creates(t))
            && Count(ts, Publishes) + Bit(Publishes(m.threads[i])) == Count(m.threads, Publishes) + Bit(Publishes(t))
    ensures HoldsRead(m.threads[i]) ==> Count(m.threads, HoldsRead) > 0
    ensures HoldsWrite(m.threads[i]) ==> Count(m.threads, HoldsWrite) > 0
    ensures Keeps(m.threads[i]) ==> Count(m.threads, Keeps) > 0
    ensures Creates(m.threads[i]) ==> Count(m.threads, Creates) > 0
    ensures Publishes(m.threads[i]) ==> Count(m.threads, Publishes) > 0
  {
    hide Count;
    CountsAt(m, i, t);
    CountsIn(m, i);
  }

  lemma StepReadTryInv(m: Machine, i: nat, seen: Word, spin: int)
    requires Inv(m) && i < |m.threads| && m.threads[i] == ReadTry(seen, spin)
    ensures Inv(StepReadTry(m, i, seen, spin))
  {
    hide Count, Inv;
    var m' := StepReadTry(m, i, seen, spin);
    BeforeStep(m, i, m'.threads[i]);
    OthersSee(m, i, m');
    Together(m');
  }

  lemma StepReadReleaseInv(m: Machine, i: nat, seen: Word)
    requires Inv(m) && i < |m.threads| && m.threads[i] == ReadRelease(seen)
    ensures Inv(StepReadRelease(m, i, seen))
  {
    hide Count, Inv;
    var m' := StepReadRelease(m, i, seen);
    BeforeStep(m, i, m'.threads[i]);
    OthersSee(m, i, m');
    Together(m');
  }

  lemma StepWriteTryInv(m: Machine, i: nat, seen: Word, spin: int, keeper: bool)
    requires Inv(m) && i < |m.threads| && m.threads[i] == WriteTry(seen, spin, keeper)
    ensures Inv(StepWriteTry(m, i, seen, spin, keeper))
  {
    hide Count, Inv;
    var m' := StepWriteTry(m, i, seen, spin, keeper);
    BeforeStep(m, i, m'.threads[i]);
    OthersSee(m, i, m');
    Together(m');
  }

  lemma StepWriteReleaseInv(m: Machine, i: nat, seen: Word)
    requires Inv(m) && i < |m.threads| && m.threads[i] == WriteRelease(seen)
    ensures Inv(StepWriteRelease(m, i, seen))
  {
    hide Count, Inv;
    var m' := StepWriteRelease(m, i, seen);
    BeforeStep(m, i, m'.threads[i]);
    OthersSee(m, i, m');
    Together(m');
  }

  lemma StepMonitorInv(m: Machine, i: nat, seen: Word, inflator: bool)
    requires Inv(m) && i < |m.threads|
    requires m.threads[i] == if inflator then MonitorPublish(seen) else MonitorTry(seen)
    ensures Inv(StepMonitor(m, i, seen, inflator))
  {
    hide Count, Inv;
    var m' := StepMonitor(m, i, seen, inflator);
    BeforeStep(m, i, m'.threads[i]);
    OthersSee(m, i, m');
    Together(m');
  }

  lemma Together(m: Machine)
    requires GateInv(m) && MonitorInv(m) && forall i :: 0 <= i < |m.threads| ==> Sees(m, m.threads[i])
    ensures Inv(m)
  {
  }

  // Every step keeps the invariant.
  lemma StepInv(m: Machine, i: nat, a: Action, spinMax: int)
    requires Inv(m) && i < |m.threads|
    ensures Inv(Step(m, i, a, spinMax))
  {
    hide StepReadTry, StepReadRelease, StepWriteTry, StepWriteRelease, StepMonitor, Inv, Count;
    match m.threads[i]
    case ReadTry(seen, spin) => StepReadTryInv(m, i, seen, spin);
    case ReadRelease(seen) => StepReadReleaseInv(m, i, seen);
    case WriteTry(seen, spin, keeper) => StepWriteTryInv(m, i, seen, spin, keeper);
    case WriteRelease(seen) => StepWriteReleaseInv(m, i, seen);
    case MonitorTry(seen) => StepMonitorInv(m, i, seen, false);
    case MonitorPublish(seen) => StepMonitorInv(m, i, seen, true);
    case _ => StepOtherInv(m, i, a, spinMax);
  }

  // The steps that only look at the word, and those that touch other parts of it.
  lemma StepOtherInv(m: Machine, i: nat, a: Action, spinMax: int)
    requires Inv(m) && i < |m.threads|
    requires var t := m.threads[i];
             t.Idle? || t.ReadYield? || t.Reading? || t.WriteYield? || t.Writing? || t.MonitorPeek?
             || t.MonitorCreate? || t.MonitorUsed? || t.Failed?
    ensures Inv(Step(m, i, a, spinMax))
  {
    hide Count, Inv, StepReadTry, StepReadRelease, StepWriteTry, StepWriteRelease, StepMonitor;
    var m' := Step(m, i, a, spinMax);
    BeforeStep(m, i, m'.threads[i]);
    assert m'.threads == m.threads[i := m'.threads[i]];
    OthersSee(m, i, m');
    Together(m');
  }

  lemma SameThreads(m: Machine, i: nat, a: Action, spinMax: int)
    requires i < |m.threads|
    ensures |Step(m, i, a, spinMax).threads| == |m.threads|
    ensures forall j :: 0 <= j < |m.threads| && j != i ==> Step(m, i, a, spinMax).threads[j] == m.threads[j]
  {
  }

  lemma {:induction false} RunInv(m: Machine, moves: seq<Move>, spinMax: int)
    requires Inv(m)
    ensures Inv(Run(m, moves, spinMax)) && |Run(m, moves, spinMax).threads| == |m.threads|
    decreases |moves|
  {
    hide Inv, Step;
    if moves != [] {
      if moves[0].thread < |m.threads| {
        StepInv(m, moves[0].thread, moves[0].action, spinMax);
        SameThreads(m, moves[0].thread, moves[0].action, spinMax);
        RunInv(Step(m, moves[0].thread, moves[0].action, spinMax), moves[1..], spinMax);
      } else {
        RunInv(m, moves[1..], spinMax);
      }
    }
  }

  // ----- the lock ------------------------------------------------------------

  // In every run: a writer is alone, the word says who is there, and no check fails.
  lemma Exclusion(m: Machine, moves: seq<Move>, spinMax: int)
    requires Initial(m)
    ensures var r := Run(m, moves, spinMax);
            && (forall i :: 0 <= i < |r.threads| ==> r.threads[i] != Failed)
            && (forall i, j :: 0 <= i < |r.threads| && 0 <= j < |r.threads| && i != j && HoldsWrite(r.threads[i]) ==>
                                 !HoldsWrite(r.threads[j]) && !HoldsRead(r.threads[j]))
            && (forall i, j :: 0 <= i < j < |r.threads| ==> !(Keeps(r.threads[i]) && Keeps(r.threads[j])))
            && (r.word.gate.Closed? <==> exists i :: 0 <= i < |r.threads| && HoldsWrite(r.threads[i]))
            && (r.word.gate.Closing? <==> exists i :: 0 <= i < |r.threads| && Keeps(r.threads[i]))
            && r.word.readers == Count(r.threads, HoldsRead) <= MaxReadLocks
  {
    InitialInv(m);
    RunInv(m, moves, spinMax);
    var r := Run(m, moves, spinMax);
    hide Count, Run;
    CountNone(r.threads, HoldsRead);
    CountNone(r.threads, HoldsWrite);
    CountNone(r.threads, Keeps);
    forall i, j | 0 <= i < j < |r.threads|
      ensures !(Keeps(r.threads[i]) && Keeps(r.threads[j])) && !(HoldsWrite(r.threads[i]) && HoldsWrite(r.threads[j]))
    {
      if Keeps(r.threads[i]) && Keeps(r.threads[j]) {
        CountTwo(r.threads, i, j, Keeps);
      }
      if HoldsWrite(r.threads[i]) && HoldsWrite(r.threads[j]) {
        CountTwo(r.threads, i, j, HoldsWrite);
      }
    }
    forall i | 0 <= i < |r.threads|
      ensures r.threads[i] != Failed
    {
      assert Sees(r, r.threads[i]);
    }
  }

  // While the gate is not open nobody gets in to read, and nobody gets in to write while
  // anyone else is in.
  lemma Entry(m: Machine, i: nat, a: Action, spinMax: int, j: nat)
    requires Inv(m) && i < |m.threads| && j < |m.threads|
    ensures var r := Step(m, i, a, spinMax);
            && |r.threads| == |m.threads|
            && (HoldsRead(r.threads[j]) && !HoldsRead(m.threads[j]) ==>
                  m.word.gate.Open? && m.word.readers < MaxReadLocks)
            && (HoldsWrite(r.threads[j]) && !HoldsWrite(m.threads[j]) ==>
                  forall k :: 0 <= k < |m.threads| ==> !HoldsRead(m.threads[k]) && !HoldsWrite(m.threads[k]))
  {
    SameThreads(m, i, a, spinMax);
    if j == i {
      EnterHere(m, i, a, spinMax);
      hide Step, Count;
      CountNone(m.threads, HoldsRead);
      CountNone(m.threads, HoldsWrite);
    }
  }

  // Going from `m` to `r`, thread `i` gets in only if it may.
  ghost predicate MayEnter(m: Machine, r: Machine, i: nat) {
    && i < |m.threads| == |r.threads|
    && (HoldsRead(r.threads[i]) && !HoldsRead(m.threads[i]) ==> m.word.gate.Open? && m.word.readers < MaxReadLocks)
    && (HoldsWrite(r.threads[i]) && !HoldsWrite(m.threads[i]) ==>
          m.word.readers == 0 && Count(m.threads, HoldsWrite) == 0)
  }

  lemma EnterRead(m: Machine, i: nat, seen: Word, spin: int)
    requires Inv(m) && i < |m.threads| && m.threads[i] == ReadTry(seen, spin)
    ensures MayEnter(m, StepReadTry(m, i, seen, spin), i)
  {
    BeforeStep(m, i, Idle);
    hide Count, Inv, MonitorInv;
  }

  lemma EnterWrite(m: Machine, i: nat, seen: Word, spin: int, keeper: bool)
    requires Inv(m) && i < |m.threads| && m.threads[i] == WriteTry(seen, spin, keeper)
    ensures MayEnter(m, StepWriteTry(m, i, seen, spin, keeper), i)
  {
    BeforeStep(m, i, Idle);
    hide Count, Inv, MonitorInv;
  }

  lemma EnterHere(m: Machine, i: nat, a: Action, spinMax: int)
    requires Inv(m) && i < |m.threads|
    ensures MayEnter(m, Step(m, i, a, spinMax), i)
  {
    hide Count, Inv, StepReadTry, StepWriteTry;
    match m.threads[i]
    case ReadTry(seen, spin) => EnterRead(m, i, seen, spin);
    case WriteTry(seen, spin, keeper) => EnterWrite(m, i, seen, spin, keeper);
    case _ =>
  }

  // ----- the monitor ---------------------------------------------------------

  // The monitor only goes forward, one stage at a time.
  lemma Forward(m: Machine, i: nat, a: Action, spinMax: int)
    requires Inv(m) && i < |m.threads|
    ensures var r := Step(m, i, a, spinMax);
            && Rank(m.word.monitor) <= Rank(r.word.monitor) <= Rank(m.word.monitor) + 1
            && (m.word.monitor.Inflated? ==> r.condition == m.condition)
  {
    hide Count;
    BeforeStep(m, i, m.threads[i]);
  }

  lemma {:induction false} RunForward(m: Machine, moves: seq<Move>, spinMax: int)
    requires Inv(m)
    ensures var r := Run(m, moves, spinMax);
            && Rank(m.word.monitor) <= Rank(r.word.monitor)
            && (m.word.monitor.Inflated? ==> r.condition == m.condition)
    decreases |moves|
  {
    hide Inv, Step;
    if moves != [] {
      if moves[0].thread < |m.threads| {
        StepInv(m, moves[0].thread, moves[0].action, spinMax);
        Forward(m, moves[0].thread, moves[0].action, spinMax);
        RunForward(Step(m, moves[0].thread, moves[0].action, spinMax), moves[1..], spinMax);
      } else {
        RunForward(m, moves[1..], spinMax);
      }
    }
  }

  lemma {:induction false} RunOn(m: Machine, a: seq<Move>, b: seq<Move>, spinMax: int)
    ensures Run(m, a + b, spinMax) == Run(Run(m, a, spinMax), b, spinMax)
    decreases |a|
  {
    hide Step;
    if a == [] {
      assert a + b == b;
    } else {
      assert (a + b)[0] == a[0] && (a + b)[1..] == a[1..] + b;
      var next := if a[0].thread < |m.threads| then Step(m, a[0].thread, a[0].action, spinMax) else m;
      RunOn(next, a[1..], b, spinMax);
    }
  }

  // Whoever uses the monitor, and whenever, uses the same condition, and it is the only
  // one that was ever created.
  lemma OneCondition(m: Machine, before: seq<Move>, between: seq<Move>, spinMax: int, i: nat, j: nat)
    requires Initial(m) && i < |m.threads| && j < |m.threads|
    ensures var r, s := Run(m, before, spinMax), Run(m, before + between, spinMax);
            && |r.threads| == |s.threads| == |m.threads| && s.created <= 1
            && (r.threads[i].MonitorUsed? && s.threads[j].MonitorUsed? ==>
                  s.created == 1 && r.threads[i].condition == s.threads[j].condition == s.condition)
  {
    InitialInv(m);
    RunOn(m, before, between, spinMax);
    RunInv(m, before, spinMax);
    RunInv(m, before + between, spinMax);
    RunForward(Run(m, before, spinMax), between, spinMax);
    var r, s := Run(m, before, spinMax), Run(m, before + between, spinMax);
    assert Sees(r, r.threads[i]) && Sees(s, s.threads[j]);
    hide Run, Count;
  }

  // ----- progress ------------------------------------------------------------

  predicate Wants(t: Thread) {
    t.ReadTry? || t.ReadYield? || t.WriteTry? || t.WriteYield?
  }

  predicate WantsRead(t: Thread) {
    t.ReadTry? || t.ReadYield?
  }

  // The rest of the machine is as it was, but for the lock.
  ghost predicate OnlyMoved(m: Machine, r: Machine, i: nat) {
    && i < |m.threads| == |r.threads|
    && r == m.(word := m.word.(gate := r.word.gate, readers := r.word.readers), threads := m.threads[i := r.threads[i]])
  }

  // A thread that holds the lock can always give it back, by moving alone.
  lemma GivesBack(m: Machine, i: nat, spinMax: int) returns (moves: seq<Move>)
    requires Inv(m) && i < |m.threads| && (HoldsRead(m.threads[i]) || HoldsWrite(m.threads[i]))
    ensures var r := Run(m, moves, spinMax);
            && |r.threads| == |m.threads| && OnlyMoved(m, r, i) && r.threads[i] == Idle
            && (HoldsRead(m.threads[i]) ==> r.word.gate == m.word.gate && r.word.readers == m.word.readers - 1)
            && (HoldsWrite(m.threads[i]) ==> r.word.gate.Open? && r.word.readers == m.word.readers)
  {
    BeforeStep(m, i, Idle);
    hide Count, Inv;
    var go := Move(i, Release);
    if m.threads[i].Reading? || m.threads[i].Writing? {
      moves := [go, go];
      Two(m, go, go, spinMax);
    } else {
      var one := Step(m, i, Release, spinMax);
      if one.threads[i].Idle? {
        moves := [go];
        One(m, go, spinMax);
      } else {
        moves := [go, go];
        Two(m, go, go, spinMax);
      }
    }
  }

  lemma One(m: Machine, a: Move, spinMax: int)
    requires a.thread < |m.threads|
    ensures Run(m, [a], spinMax) == Step(m, a.thread, a.action, spinMax)
  {
    hide Step;
    assert Run(m, [a], spinMax) == Run(Step(m, a.thread, a.action, spinMax), [], spinMax);
  }

  lemma Two(m: Machine, a: Move, b: Move, spinMax: int)
    requires a.thread == b.thread < |m.threads|
    ensures Run(m, [a, b], spinMax) ==
            Step(Step(m, a.thread, a.action, spinMax), b.thread, b.action, spinMax)
  {
    SameThreads(m, a.thread, a.action, spinMax);
    hide Step;
    One(m, a, spinMax);
    One(Step(m, a.thread, a.action, spinMax), b, spinMax);
    RunOn(m, [a], [b], spinMax);
    assert [a] + [b] == [a, b];
  }

  lemma Three(m: Machine, a: Move, spinMax: int)
    requires a.thread < |m.threads|
    ensures Run(m, [a, a, a], spinMax) ==
            Step(Step(Step(m, a.thread, a.action, spinMax), a.thread, a.action, spinMax), a.thread, a.action, spinMax)
  {
    SameThreads(m, a.thread, a.action, spinMax);
    var n := Step(m, a.thread, a.action, spinMax);
    SameThreads(n, a.thread, a.action, spinMax);
    hide Step;
    Two(m, a, a, spinMax);
    One(Step(n, a.thread, a.action, spinMax), a, spinMax);
    RunOn(m, [a, a], [a], spinMax);
    assert [a, a] + [a] == [a, a, a];
  }

  // About to update the word as it is.
  predicate Fresh(m: Machine, t: Thread) {
    (t.ReadTry? && t.seen == m.word && t.spin != 0) || (t.WriteTry? && t.seen == m.word)
  }

  // Nobody is in the way of thread `i`: of a reader only writers are, and too many readers.
  ghost predicate Clear(m: Machine, i: nat) {
    && Inv(m) && i < |m.threads| && Wants(m.threads[i])
    && (if Keeps(m.threads[i]) then m.word.gate.Closing? else m.word.gate.Open?)
    && (if WantsRead(m.threads[i]) then m.word.readers < MaxReadLocks else m.word.readers == 0)
  }

  // Nor the limit of the spins.
  ghost predicate MayGetIn(m: Machine, i: nat, spinMax: int) {
    Clear(m, i) && (WantsRead(m.threads[i]) ==> spinMax != 0)
  }

  // A reader is one more, whoever else reads; a writer has closed the gate.
  predicate GotIn(m: Machine, r: Machine, i: nat) {
    && i < |m.threads| == |r.threads|
    && if WantsRead(m.threads[i]) then
         HoldsRead(r.threads[i]) && r.word == m.word.(readers := m.word.readers + 1)
       else
         HoldsWrite(r.threads[i]) && r.word == m.word.(gate := Closed)
  }

  lemma FromFresh(m: Machine, i: nat, spinMax: int)
    requires MayGetIn(m, i, spinMax) && Fresh(m, m.threads[i])
    ensures var r := Step(m, i, Release, spinMax); OnlyMoved(m, r, i) && GotIn(m, r, i)
  {
    BeforeStep(m, i, Idle);
    hide Count, Inv;
  }

  lemma FromYield(m: Machine, i: nat, spinMax: int)
    requires MayGetIn(m, i, spinMax) && (m.threads[i].ReadYield? || m.threads[i].WriteYield?)
    ensures var r := Step(m, i, Release, spinMax);
            && OnlyMoved(m, r, i) && r.word == m.word && Fresh(r, r.threads[i]) && MayGetIn(r, i, spinMax)
            && WantsRead(r.threads[i]) == WantsRead(m.threads[i])
  {
    StepInv(m, i, Release, spinMax);
    hide Count, Inv;
  }

  // In, or about to get in.
  ghost predicate Closer(m: Machine, r: Machine, i: nat, spinMax: int) {
    && OnlyMoved(m, r, i)
    && (GotIn(m, r, i)
        || (MayGetIn(r, i, spinMax) && r.word == m.word && WantsRead(r.threads[i]) == WantsRead(m.threads[i])
            && (r.threads[i].ReadYield? || r.threads[i].WriteYield? || Fresh(r, r.threads[i]))))
  }

  lemma FromStaleRead(m: Machine, i: nat, seen: Word, spin: int, spinMax: int)
    requires MayGetIn(m, i, spinMax) && m.threads[i] == ReadTry(seen, spin)
    ensures Closer(m, StepReadTry(m, i, seen, spin), i, spinMax)
  {
    StepReadTryInv(m, i, seen, spin);
    BeforeStep(m, i, Idle);
    hide Count, Inv, MonitorInv;
  }

  lemma FromStaleKeeper(m: Machine, i: nat, seen: Word, spin: int, spinMax: int)
    requires MayGetIn(m, i, spinMax) && m.threads[i] == WriteTry(seen, spin, true)
    ensures Closer(m, StepWriteTry(m, i, seen, spin, true), i, spinMax)
  {
    StepWriteTryInv(m, i, seen, spin, true);
    BeforeStep(m, i, Idle);
    hide Count, Inv, MonitorInv;
  }

  lemma FromStaleWriter(m: Machine, i: nat, seen: Word, spin: int, spinMax: int)
    requires MayGetIn(m, i, spinMax) && m.threads[i] == WriteTry(seen, spin, false)
    ensures Closer(m, StepWriteTry(m, i, seen, spin, false), i, spinMax)
  {
    StepWriteTryInv(m, i, seen, spin, false);
    hide Count, Inv, MonitorInv;
  }

  lemma FromStale(m: Machine, i: nat, spinMax: int)
    requires MayGetIn(m, i, spinMax) && (m.threads[i].ReadTry? || m.threads[i].WriteTry?)
    ensures Closer(m, Step(m, i, Release, spinMax), i, spinMax)
  {
    hide StepReadTry, StepWriteTry, Closer, Inv;
    match m.threads[i]
    case ReadTry(seen, spin) => FromStaleRead(m, i, seen, spin, spinMax);
    case WriteTry(seen, spin, keeper) =>
      if keeper {
        FromStaleKeeper(m, i, seen, spin, spinMax);
      } else {
        FromStaleWriter(m, i, seen, spin, spinMax);
      }
  }

  // The configured number of spins, if there is one.
  datatype Setting = Default | Spins(n: int)

  // How often a thread may assume another value before it yields.
  function SpinLimit(setting: Setting): int {
    match setting
    case Default => 32
    case Spins(n) => n + 1
  }

  // Thread `i` moves alone.
  function Alone(i: nat, n: nat): seq<Move> {
    seq(n, _ => Move(i, Release))
  }

  // With nobody in its way a thread that wants the lock gets it in at most three moves of its
  // own: a reader only if the number of spins is not configured as -1.
  lemma GetsIn(m: Machine, i: nat, setting: Setting) returns (moves: seq<Move>)
    requires Clear(m, i) && (WantsRead(m.threads[i]) ==> setting != Spins(-1))
    ensures |moves| <= 3 && moves == Alone(i, |moves|)
    ensures var r := Run(m, moves, SpinLimit(setting));
            |r.threads| == |m.threads| && OnlyMoved(m, r, i) && GotIn(m, r, i)
  {
    hide Step, Run, Inv;
    var go, spinMax := Move(i, Release), SpinLimit(setting);
    if m.threads[i].ReadYield? || m.threads[i].WriteYield? {
      FromYield(m, i, spinMax);
      FromFresh(Step(m, i, Release, spinMax), i, spinMax);
      Two(m, go, go, spinMax);
      return [go, go];
    }
    FromStale(m, i, spinMax);
    var one := Step(m, i, Release, spinMax);
    if GotIn(m, one, i) {
      One(m, go, spinMax);
      moves := [go];
    } else if Fresh(one, one.threads[i]) {
      FromFresh(one, i, spinMax);
      Two(m, go, go, spinMax);
      moves := [go, go];
    } else {
      FromYield(one, i, spinMax);
      FromFresh(Step(one, i, Release, spinMax), i, spinMax);
      Three(m, go, spinMax);
      moves := [go, go, go];
    }
  }

  // From any state the holders can all leave, and then nobody is in.
  lemma {:induction false} Drain(m: Machine, spinMax: int) returns (moves: seq<Move>)
    requires Inv(m)
    ensures var r := Run(m, moves, spinMax);
            && Inv(r) && r.word.readers == 0 && !r.word.gate.Closed? && |r.threads| == |m.threads|
            && forall i :: 0 <= i < |m.threads| && Wants(m.threads[i]) ==> r.threads[i] == m.threads[i]
    decreases m.word.readers, m.word.gate.Closed?
  {
    if m.word.readers == 0 && !m.word.gate.Closed? {
      moves := [];
    } else {
      CountNone(m.threads, HoldsRead);
      CountNone(m.threads, HoldsWrite);
      var i :| 0 <= i < |m.threads| && (HoldsRead(m.threads[i]) || HoldsWrite(m.threads[i]));
      hide Step, Count, Run;
      var first := GivesBack(m, i, spinMax);
      RunInv(m, first, spinMax);
      hide Inv;
      var rest := Drain(Run(m, first, spinMax), spinMax);
      moves := first + rest;
      RunOn(m, first, rest, spinMax);
    }
  }

  // No deadlock: whatever has happened, a thread that wants the lock can still get it.
  lemma NoDeadlock(m: Machine, i: nat, setting: Setting) returns (moves: seq<Move>)
    requires Inv(m) && i < |m.threads| && Wants(m.threads[i]) && (WantsRead(m.threads[i]) ==> setting != Spins(-1))
    ensures var r := Run(m, moves, SpinLimit(setting));
            && |r.threads| == |m.threads|
            && (if WantsRead(m.threads[i]) then HoldsRead(r.threads[i]) else HoldsWrite(r.threads[i]))
  {
    hide Step, Run, Count;
    var spinMax := SpinLimit(setting);
    var a := Drain(m, spinMax);
    var r := Run(m, a, spinMax);
    var b: seq<Move> := [];
    if r.word.gate.Closing? && !Keeps(r.threads[i]) {
      b := KeeperLeaves(r, i, setting);
    }
    RunInv(r, b, spinMax);
    RunNone(r, spinMax);
    var s := Run(r, b, spinMax);
    if Keeps(s.threads[i]) {
      CountSome(s.threads, i, Keeps);
    }
    var c := GetsIn(s, i, setting);
    RunOn(m, a, b, spinMax);
    RunOn(m, a + b, c, spinMax);
    moves := a + b + c;
  }

  lemma RunNone(m: Machine, spinMax: int)
    ensures Run(m, [], spinMax) == m
  {
  }

  // The thread that keeps the gate can get in and leave again.
  lemma KeeperLeaves(m: Machine, i: nat, setting: Setting) returns (moves: seq<Move>)
    requires Inv(m) && i < |m.threads| && !Keeps(m.threads[i]) && m.word.gate.Closing? && m.word.readers == 0
    ensures var r := Run(m, moves, SpinLimit(setting));
            |r.threads| == |m.threads| && r.threads[i] == m.threads[i] && r.word.gate.Open? && r.word.readers == 0
  {
    hide Step, Run, Count;
    var spinMax := SpinLimit(setting);
    CountNone(m.threads, Keeps);
    var k :| 0 <= k < |m.threads| && Keeps(m.threads[k]);
    var a := GetsIn(m, k, setting);
    RunInv(m, a, spinMax);
    var r := Run(m, a, spinMax);
    CountSome(r.threads, k, HoldsWrite);
    var b := GivesBack(r, k, spinMax);
    RunOn(m, a, b, spinMax);
    moves := a + b;
  }

  // With the number of spins configured as -1 a reader that finds the gate open never gets
  // in, however often it moves and although nobody is in its way.
  lemma {:induction false} NoSpins(m: Machine, i: nat, n: nat)
    requires i < |m.threads| && (m.threads[i] == ReadYield || m.threads[i] == ReadTry(m.word, 0))
    requires m.word.gate.Open?
    ensures var r := Run(m, Alone(i, n), SpinLimit(Spins(-1)));
            |r.threads| == |m.threads| && !HoldsRead(r.threads[i]) && r.word == m.word
    decreases n
  {
    var moves := Alone(i, n);
    if n > 0 {
      assert moves[1..] == Alone(i, n - 1);
      NoSpins(Step(m, i, Release, 0), i, n - 1);
    }
  }

  ghost predicate ReadsAfter(m: Machine, i: nat, setting: Setting, n: nat) {
    var r := Run(m, Alone(i, n), SpinLimit(setting));
    i < |r.threads| && HoldsRead(r.threads[i])
  }

  // So a reader with nobody in its way gets in exactly unless that is the configuration.
  lemma SpinsExactly(m: Machine, i: nat, setting: Setting)
    requires Clear(m, i) && m.threads[i].ReadYield?
    ensures (exists n: nat :: ReadsAfter(m, i, setting, n)) <==> setting != Spins(-1)
  {
    if setting == Spins(-1) {
      forall n: nat
        ensures !ReadsAfter(m, i, setting, n)
      {
        NoSpins(m, i, n);
      }
    } else {
      var moves := GetsIn(m, i, setting);
      assert ReadsAfter(m, i, setting, |moves|);
    }
  }
}
