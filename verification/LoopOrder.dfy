/**
 The steps of the manager's loop by position: which record, cycle event or deletion comes where.

 Every position is computed from the turns alone, by counting what they received.
 */
module LoopOrder {
  import opened FaultProcessing
  import opened DiagnosticEvents
  import opened QueryServer
  import opened DfmLoop

  /** How many of the first `j` messages are faults. */
  function FaultsBefore(received: seq<(DiagnosticEvent, Clock)>, j: nat): nat
    requires j <= |received|
  {
    |set i | 0 <= i < j && received[i].0.Fault?|
  }

  lemma FaultsBeforeNext(received: seq<(DiagnosticEvent, Clock)>, j: nat)
    requires j < |received|
    ensures FaultsBefore(received, j + 1) == FaultsBefore(received, j) + if received[j].0.Fault? then 1 else 0
  {
    var before := set i | 0 <= i < j && received[i].0.Fault?;
    assert (set i | 0 <= i < j + 1 && received[i].0.Fault?) == before + if received[j].0.Fault? then {j} else {};
  }

  lemma NoneBefore(received: seq<(DiagnosticEvent, Clock)>)
    ensures FaultsBefore(received, 0) == 0
  {
  }

  lemma FaultsOfPrefix(received: seq<(DiagnosticEvent, Clock)>, n: nat, j: nat)
    requires j <= n <= |received|
    ensures FaultsBefore(received[..n], j) == FaultsBefore(received, j)
  {
    assert (set i | 0 <= i < j && received[..n][i].0.Fault?) == (set i | 0 <= i < j && received[i].0.Fault?);
  }

  /** The steps of a turn: at most one batch of cycle events, its faults, its deletions. */
  function TurnLength(t: Turn): nat {
    (if t.cycleEvents == [] then 0 else 1) + FaultsBefore(t.received, |t.received|) + |AllRequestSteps(t.queries)|
  }

  /** Where the steps of turn `i` begin. */
  function Offset(turns: seq<Turn>, i: nat): nat
    requires i <= |turns|
  {
    if i == 0 then 0 else TurnLength(turns[0]) + Offset(turns[1..], i - 1)
  }

  /** Where in its turn the `j`-th message stands, if it is a fault. */
  function FaultPlace(t: Turn, j: nat): nat
    requires j <= |t.received|
  {
    (if t.cycleEvents == [] then 0 else 1) + FaultsBefore(t.received, j)
  }

  predicate Reached(turns: seq<Turn>, i: nat) {
    i < |turns| && forall j :: 0 <= j <= i ==> turns[j].alive
  }

  // ---------------------------------------------------------------- one turn

  lemma {:induction false} FaultCount(received: seq<(DiagnosticEvent, Clock)>)
    ensures |FaultSteps(received)| == FaultsBefore(received, |received|)
  {
    if received == [] {
      NoneBefore(received);
    } else {
      var n := |received| - 1;
      FaultCount(received[..n]);
      FaultsBeforeNext(received, n);
      FaultsOfPrefix(received, n, n);
    }
  }

  lemma {:induction false} FaultStepAt(received: seq<(DiagnosticEvent, Clock)>, j: nat)
    requires j < |received| && received[j].0.Fault?
    ensures FaultsBefore(received, j) < |FaultSteps(received)|
    ensures FaultSteps(received)[FaultsBefore(received, j)]
            == Record(received[j].0.path, received[j].0.record, received[j].1)
  {
    var n := |received| - 1;
    FaultsOfPrefix(received, n, j);
    if j < n {
      FaultStepAt(received[..n], j);
    } else {
      FaultCount(received[..n]);
    }
  }

  /** Each of a turn's record steps is one of the faults it received. */
  lemma {:induction false} RecordIsReceived(received: seq<(DiagnosticEvent, Clock)>, p: nat) returns (j: nat)
    requires p < |FaultSteps(received)|
    ensures j < |received| && received[j].0.Fault? && FaultsBefore(received, j) == p
  {
    var n := |received| - 1;
    if p < |FaultSteps(received[..n])| {
      j := RecordIsReceived(received[..n], p);
    } else {
      FaultCount(received[..n]);
      j := n;
    }
    FaultsOfPrefix(received, n, j);
  }

  lemma TurnLengthIsRight(t: Turn)
    ensures |TurnSteps(t)| == TurnLength(t)
  {
    FaultCount(t.received);
  }

  lemma OfThree(a: seq<DfmEvent>, b: seq<DfmEvent>, c: seq<DfmEvent>, p: nat)
    requires p < |a| + |b| + |c|
    ensures (a + b + c)[p] == if p < |a| then a[p] else if p < |a| + |b| then b[p - |a|] else c[p - |a| - |b|]
  {
  }

  lemma FaultByPlace(t: Turn, j: nat)
    requires j < |t.received| && t.received[j].0.Fault?
    ensures FaultPlace(t, j) < |TurnSteps(t)|
    ensures TurnSteps(t)[FaultPlace(t, j)] == Record(t.received[j].0.path, t.received[j].0.record, t.received[j].1)
  {
    FaultStepAt(t.received, j);
    OfThree(CycleSteps(t.cycleEvents), FaultSteps(t.received), AllRequestSteps(t.queries), FaultPlace(t, j));
  }

  /** The cycle events come first, then the faults, then the deletions. */
  lemma TurnByPlace(t: Turn, q: nat)
    requires q < |TurnSteps(t)|
    ensures var first, after := FaultPlace(t, 0), FaultPlace(t, |t.received|);
            && (q < first ==> TurnSteps(t)[q] == Cycles(t.cycleEvents) && t.cycleEvents != [])
            && (first <= q < after ==> q - first < |FaultSteps(t.received)| && TurnSteps(t)[q].Record?)
            && (after <= q ==> TurnSteps(t)[q].DeleteFault? || TurnSteps(t)[q].DeleteAllFaults?)
            && first == |CycleSteps(t.cycleEvents)|
  {
    var cycles, faults, deletions := CycleSteps(t.cycleEvents), FaultSteps(t.received), AllRequestSteps(t.queries);
    NoneBefore(t.received);
    FaultCount(t.received);
    RequestsOnlyDelete(t.queries);
    OfThree(cycles, faults, deletions, q);
    if |cycles| <= q < |cycles| + |faults| {
      var j := RecordIsReceived(t.received, q - |cycles|);
      FaultStepAt(t.received, j);
    }
  }

  // ---------------------------------------------------------------- the loop

  lemma Later(turns: seq<Turn>, i: nat)
    requires 0 < i && Reached(turns, i)
    ensures Reached(turns[1..], i - 1) && turns[1..][i - 1] == turns[i]
  {
    forall j | 0 <= j <= i - 1
      ensures turns[1..][j].alive
    {
      assert turns[1..][j] == turns[j + 1];
    }
  }

  lemma ReachedBefore(turns: seq<Turn>, i: nat)
    requires turns != [] && turns[0].alive && Reached(turns[1..], i)
    ensures Reached(turns, i + 1)
  {
    forall m | 0 <= m <= i + 1
      ensures turns[m].alive
    {
      assert m > 0 ==> turns[m] == turns[1..][m - 1];
    }
  }

  function Flat(parts: seq<seq<DfmEvent>>): seq<DfmEvent> {
    if parts == [] then [] else parts[0] + Flat(parts[1..])
  }

  function Start(parts: seq<seq<DfmEvent>>, i: nat): nat
    requires i <= |parts|
  {
    if i == 0 then 0 else |parts[0]| + Start(parts[1..], i - 1)
  }

  lemma {:induction false} FlatAt(parts: seq<seq<DfmEvent>>, i: nat, q: nat)
    requires i < |parts| && q < |parts[i]|
    ensures Start(parts, i) + q < |Flat(parts)| && Flat(parts)[Start(parts, i) + q] == parts[i][q]
  {
    if i > 0 {
      FlatAt(parts[1..], i - 1, q);
      assert Flat(parts) == parts[0] + Flat(parts[1..]);
    }
  }

  lemma {:induction false} FlatHolds(parts: seq<seq<DfmEvent>>, p: nat) returns (i: nat, q: nat)
    requires p < |Flat(parts)|
    ensures i < |parts| && q < |parts[i]| && p == Start(parts, i) + q
  {
    if p < |parts[0]| {
      i, q := 0, p;
    } else {
      i, q := FlatHolds(parts[1..], p - |parts[0]|);
      i := i + 1;
    }
  }

  lemma {:induction false} FlatLength(parts: seq<seq<DfmEvent>>)
    ensures |Flat(parts)| == Start(parts, |parts|)
  {
    if parts != [] {
      FlatLength(parts[1..]);
    }
  }

  /** The steps of the turns the loop reaches. */
  function Parts(turns: seq<Turn>): seq<seq<DfmEvent>> {
    if turns == [] || !turns[0].alive then [] else [TurnSteps(turns[0])] + Parts(turns[1..])
  }

  lemma {:induction false} LoopIsFlat(turns: seq<Turn>)
    ensures LoopSteps(turns) == Flat(Parts(turns)) && |Parts(turns)| <= |turns|
  {
    if turns != [] && turns[0].alive {
      LoopIsFlat(turns[1..]);
      assert Parts(turns)[1..] == Parts(turns[1..]);
    }
  }

  lemma {:induction false} PartIsTurn(turns: seq<Turn>, i: nat)
    ensures i < |Parts(turns)| <==> Reached(turns, i)
    ensures i < |Parts(turns)| ==> Parts(turns)[i] == TurnSteps(turns[i])
    decreases i
  {
    if turns != [] && turns[0].alive && i > 0 {
      PartIsTurn(turns[1..], i - 1);
      assert |turns| > i ==> turns[1..][i - 1] == turns[i];
      if Reached(turns, i) {
        Later(turns, i);
      }
      if Reached(turns[1..], i - 1) {
        ReachedBefore(turns, i - 1);
      }
    }
  }

  lemma {:induction false} StartIsOffset(turns: seq<Turn>, i: nat)
    requires i <= |Parts(turns)| <= |turns|
    ensures Start(Parts(turns), i) == Offset(turns, i)
    decreases i
  {
    if i > 0 {
      LoopIsFlat(turns[1..]);
      assert Parts(turns)[1..] == Parts(turns[1..]);
      StartIsOffset(turns[1..], i - 1);
      TurnLengthIsRight(turns[0]);
    }
  }

  /** The steps of turn `i` stand at its offset, in their order. */
  lemma StepAt(turns: seq<Turn>, i: nat, q: nat)
    requires Reached(turns, i) && q < |TurnSteps(turns[i])|
    ensures Offset(turns, i) + q < |LoopSteps(turns)|
    ensures LoopSteps(turns)[Offset(turns, i) + q] == TurnSteps(turns[i])[q]
  {
    LoopIsFlat(turns);
    PartIsTurn(turns, i);
    FlatAt(Parts(turns), i, q);
    StartIsOffset(turns, i);
  }

  /** In each turn the loop reaches, a received fault stands where its number among the faults puts it, with its clock. */
  lemma FaultInLoop(turns: seq<Turn>, i: nat, j: nat)
    requires Reached(turns, i) && j < |turns[i].received| && turns[i].received[j].0.Fault?
    ensures var p, message := Offset(turns, i) + FaultPlace(turns[i], j), turns[i].received[j];
            p < |LoopSteps(turns)| && LoopSteps(turns)[p] == Record(message.0.path, message.0.record, message.1)
  {
    FaultByPlace(turns[i], j);
    StepAt(turns, i, FaultPlace(turns[i], j));
  }

  /** The cycle events of a turn stand before its faults, and nothing but deletions after them. */
  lemma AroundTheFaults(turns: seq<Turn>, i: nat, q: nat)
    requires Reached(turns, i) && q < TurnLength(turns[i])
    ensures Offset(turns, i) + q < |LoopSteps(turns)|
    ensures var step, t := LoopSteps(turns)[Offset(turns, i) + q], turns[i];
            && (q < FaultPlace(t, 0) ==> step == Cycles(t.cycleEvents) && t.cycleEvents != [])
            && (FaultPlace(t, 0) <= q < FaultPlace(t, |t.received|) ==> step.Record?)
            && (FaultPlace(t, |t.received|) <= q ==> step.DeleteFault? || step.DeleteAllFaults?)
  {
    TurnLengthIsRight(turns[i]);
    TurnByPlace(turns[i], q);
    StepAt(turns, i, q);
  }

  /** The loop's steps end with the last turn it reaches. */
  lemma LoopEnds(turns: seq<Turn>, n: nat)
    requires n <= |turns| && (forall j :: 0 <= j < n ==> turns[j].alive) && (n == |turns| || !turns[n].alive)
    ensures |LoopSteps(turns)| == Offset(turns, n)
  {
    LoopIsFlat(turns);
    FlatLength(Parts(turns));
    PartIsTurn(turns, n);
    if n > 0 {
      PartIsTurn(turns, n - 1);
    }
    StartIsOffset(turns, n);
  }

  /** Every record step of the loop is a fault that some reached turn received, at that fault's place. */
  lemma RecordsAreReceived(turns: seq<Turn>, p: nat) returns (i: nat, j: nat)
    requires p < |LoopSteps(turns)| && LoopSteps(turns)[p].Record?
    ensures Reached(turns, i) && j < |turns[i].received| && turns[i].received[j].0.Fault?
    ensures p == Offset(turns, i) + FaultPlace(turns[i], j)
  {
    LoopIsFlat(turns);
    var q;
    i, q := FlatHolds(Parts(turns), p);
    PartIsTurn(turns, i);
    FlatAt(Parts(turns), i, q);
    StartIsOffset(turns, i);
    j := RecordOfTurn(turns[i], q);
  }

  lemma RecordOfTurn(t: Turn, q: nat) returns (j: nat)
    requires q < |TurnSteps(t)| && TurnSteps(t)[q].Record?
    ensures j < |t.received| && t.received[j].0.Fault? && q == FaultPlace(t, j)
  {
    TurnByPlace(t, q);
    j := RecordIsReceived(t.received, q - |CycleSteps(t.cycleEvents)|);
  }
}
