// The queue of `ConcurrentQueue` as one thread sees it: a plain sequence, although it
// is kept in two lists that change places.
module DualQueue {

  class ElementList {
    var elements: seq<object>

    constructor ()
      ensures elements == []
    {
      elements := [];
    }
  }

  datatype FlushState = FlushPending | FlushAuto | FlushExplicit

  datatype Outcome = Done | IllegalArgument

  class DualQueue {
    var tailList: ElementList
    var headList: ElementList
    var counter: int
    var flushState: FlushState
    // How often the ones that wait have been notified.
    var notified: nat

    ghost predicate Valid()
      reads this, tailList, headList
    {
      tailList != headList && counter == |Contents()|
    }

    ghost function Contents(): seq<object>
      reads this, tailList, headList
    {
      headList.elements + tailList.elements
    }

    constructor ()
      ensures Valid() && Contents() == [] && flushState == FlushPending && notified == 0
      ensures fresh(tailList) && fresh(headList)
    {
      tailList := new ElementList();
      headList := new ElementList();
      counter, flushState, notified := 0, FlushPending, 0;
    }

    // The two lists change places when the head list is empty and the other one is not.
    method SwapNoWait() returns (swapped: bool)
      requires Valid()
      modifies this`tailList, this`headList
      ensures Valid() && Contents() == old(Contents())
      ensures {headList, tailList} == old({headList, tailList})
      ensures swapped <==> old(headList.elements) == [] && Contents() != []
      ensures swapped ==> headList.elements == Contents()
      ensures !swapped ==> headList == old(headList)
    {
      var head := headList;
      if head.elements == [] {
        var tail := tailList;
        if tail.elements != [] {
          tailList := head;
          headList := tail;
          return true;
        }
      }
      return false;
    }

    method UpdateFlushState(to: FlushState) returns (was: FlushState)
      modifies this`flushState
      ensures flushState == to && was == old(flushState)
    {
      was := flushState;
      flushState := to;
    }

    method Flush(auto: bool)
      modifies this`flushState, this`notified
      ensures flushState == if auto then FlushAuto else FlushExplicit
      ensures notified == old(notified) + if old(flushState) == FlushPending then 1 else 0
    {
      var was := UpdateFlushState(if auto then FlushAuto else FlushExplicit);
      if was == FlushPending {
        notified := notified + 1;
      }
    }

    // An element that completes a batch is announced while a flush is pending, and one is
    // when the queue was empty.
    method OnAddElement(batch: nat)
      requires batch > 0
      modifies this`counter, this`flushState, this`notified
      ensures counter == old(counter) + 1
      ensures var pending, complete := counter == 1 || old(flushState) == FlushPending, counter % batch == 0;
              && notified == old(notified) + (if pending && complete then 1 else 0)
              && flushState == if pending && !complete then FlushPending else FlushAuto
    {
      counter := counter + 1;
      var state := flushState;
      if counter == 1 {
        state := FlushPending;
        var _ := UpdateFlushState(state);
      }
      match state {
        case FlushPending =>
          if counter % batch == 0 {
            Flush(true);
          }
        case FlushExplicit =>
          flushState := FlushAuto;
        case FlushAuto =>
      }
    }

    method Add(e: object?, batch: nat) returns (outcome: Outcome)
      requires Valid() && batch > 0
      modifies this`counter, this`flushState, this`notified, tailList
      ensures Valid()
      ensures e == null ==>
                && outcome == IllegalArgument && Contents() == old(Contents()) && counter == old(counter)
                && flushState == old(flushState) && notified == old(notified)
      ensures e != null ==> outcome == Done && Contents() == old(Contents()) + [e]
      ensures e != null ==>
                var pending := old(Contents()) == [] || old(flushState) == FlushPending;
                var complete := |Contents()| % batch == 0;
                && notified == old(notified) + (if pending && complete then 1 else 0)
                && flushState == if pending && !complete then FlushPending else FlushAuto
    {
      if e == null {
        return IllegalArgument;
      }
      var list := tailList;
      list.elements := list.elements + [e];
      OnAddElement(batch);
      return Done;
    }

    method AddHead(e: object?, batch: nat) returns (outcome: Outcome)
      requires Valid() && batch > 0
      modifies this`counter, this`flushState, this`notified, headList
      ensures Valid()
      ensures e == null ==>
                && outcome == IllegalArgument && Contents() == old(Contents()) && counter == old(counter)
                && flushState == old(flushState) && notified == old(notified)
      ensures e != null ==> outcome == Done && Contents() == [e] + old(Contents())
      ensures e != null ==>
                var pending := old(Contents()) == [] || old(flushState) == FlushPending;
                var complete := |Contents()| % batch == 0;
                && notified == old(notified) + (if pending && complete then 1 else 0)
                && flushState == if pending && !complete then FlushPending else FlushAuto
    {
      if e == null {
        return IllegalArgument;
      }
      var list := headList;
      list.elements := [e] + list.elements;
      OnAddElement(batch);
      return Done;
    }

    method PeekNoWait() returns (r: object?)
      requires Valid()
      modifies this`tailList, this`headList
      ensures Valid() && Contents() == old(Contents()) && {headList, tailList} == old({headList, tailList})
      ensures r == if Contents() == [] then null else Contents()[0]
    {
      var head := headList;
      if head.elements == [] {
        var swapped := SwapNoWait();
        if !swapped {
          return null;
        }
        head := headList;
      }
      r := head.elements[0];
    }

    // Alone, a consumer gets an element whenever there is one, and always the first.
    method RemoveNoWait() returns (r: object?)
      requires Valid()
      modifies this`tailList, this`headList, this`counter, tailList, headList
      ensures Valid() && {headList, tailList} == old({headList, tailList})
      ensures old(Contents()) == [] ==> r == null && Contents() == []
      ensures old(Contents()) != [] ==> r == old(Contents())[0] && Contents() == old(Contents())[1..]
    {
      if counter == 0 {
        return null;
      }
      ghost var before := Contents();
      var head := headList;
      if head.elements == [] {
        var swapped := SwapNoWait();
        if !swapped {
          return null;
        }
        head := headList;
      }
      assert before == head.elements + tailList.elements;
      r := head.elements[0];
      head.elements := head.elements[1..];
      assert Contents() == before[1..];
      counter := counter - 1;
    }
  }

  // Draining the queue gives back what was added, in the order in which it was added.
  method Drain(q: DualQueue, added: seq<object>) returns (got: seq<object>)
    requires q.Valid()
    modifies q, q.tailList, q.headList
    ensures q.Valid() && q.Contents() == [] && got == old(q.Contents()) + added
  {
    ghost var all := q.Contents() + added;
    ghost var lists := {q.headList, q.tailList};
    for i := 0 to |added|
      invariant q.Valid() && {q.headList, q.tailList} == lists && q.Contents() + added[i..] == all
    {
      ghost var before := q.Contents();
      assert added[i..] == [added[i]] + added[i + 1..];
      var _ := q.Add(added[i], 1);
      assert q.Contents() + added[i + 1..] == before + added[i..];
    }
    got := [];
    var r := q.RemoveNoWait();
    while r != null
      invariant q.Valid() && {q.headList, q.tailList} == lists
      invariant all == got + (if r == null then [] else [r]) + q.Contents()
      invariant r == null ==> q.Contents() == []
      decreases |q.Contents()|, r != null
    {
      got := got + [r];
      r := q.RemoveNoWait();
    }
  }
}
