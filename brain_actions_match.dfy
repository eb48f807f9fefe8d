/** The match-pairs board: coping actions on the left, instructions on the
    right; dropping one on the other records a pair keyed on the action
    (src/app/question/components/BrainActionsMatch.jsx). */
module BrainActionsMatch {
  import opened Common

  const Actions: seq<string> := [
    "Deep breathing exercises",
    "Progressive muscle relaxation",
    "Exercise",
    "Yoga",
    "Grounding techniques",
    "Using affirmations or positive self-talk",
    "Spending time with friends or family",
    "Listen to music",
    "Engaging in fun activities"]

  const Instructions: seq<string> := [
    "Inhale for 4 seconds, hold for 4, exhale for 4, hold for 4 – box breathing. Count to 10",
    "Open and close your fists three times. Roll your shoulders forward twice and backwards twice.",
    "Do 10 jumping jacks. Run in place for 15 seconds",
    "Hold a tree pose for 10 seconds. Hold a Warrior pose for 10 seconds.",
    "5-4-3-2-1: list 5 things you see, 4 you can touch, 3 you hear, 2 you smell, 1 you taste",
    "\"I've done hard things before; I can do this too.\", \"I choose to focus on what I can control.\"",
    "Call out the name of a family member or friend who you helps you calm down.",
    "Say the name and artist of your favorite song that helps you calm down.",
    "Which would bring you the most joy? Gaming, Baking, or Skateboarding. Call out your answer."]

  /** The column an item belongs to (`'action'` or `'instruction'`). */
  datatype Side = Action | Instruction

  /** What a drag start records: the item's text, column and row. */
  datatype DraggedItem = DraggedItem(item: string, side: Side, index: int)

  /** One recorded match: the action's row and the instruction's row. */
  datatype Pair = Pair(actionIndex: int, instructionIndex: int)

  /** No action occurs in two pairs. */
  predicate UniqueActions(pairs: seq<Pair>)
  {
    forall i, j :: 0 <= i < j < |pairs| ==> pairs[i].actionIndex != pairs[j].actionIndex
  }

  /** Every index names a row of a column of n rows. */
  predicate InRange(pairs: seq<Pair>, n: int)
  {
    forall k :: 0 <= k < |pairs| ==>
      0 <= pairs[k].actionIndex < n && 0 <= pairs[k].instructionIndex < n
  }

  /** `findIndex` on the action index: the first position holding action a, or -1. */
  function FindIndex(pairs: seq<Pair>, a: int): (r: int)
    ensures -1 <= r < |pairs|
    ensures r == -1 <==> forall k :: 0 <= k < |pairs| ==> pairs[k].actionIndex != a
    ensures 0 <= r ==> pairs[r].actionIndex == a &&
                       forall k :: 0 <= k < r ==> pairs[k].actionIndex != a
    decreases |pairs|
  {
    if |pairs| == 0 then -1
    else if pairs[0].actionIndex == a then 0
    else
      var k := FindIndex(pairs[1..], a);
      if k == -1 then -1 else k + 1
  }

  /** The pair a drop forms, the action's row first whichever side was dragged. */
  function MakePair(dragged: DraggedItem, side: Side, index: int): (p: Pair)
    requires dragged.side != side
    ensures side == Action ==> p.actionIndex == index && p.instructionIndex == dragged.index
    ensures side == Instruction ==> p.actionIndex == dragged.index && p.instructionIndex == index
  {
    if side == Action then Pair(index, dragged.index) else Pair(dragged.index, index)
  }

  /** After a drop the two rows it joined are paired: the action column's
      lookup of the pair's action yields the pair's instruction, whichever
      side was dragged. */
  lemma DropPairsRows(pairs: seq<Pair>, dragged: DraggedItem, side: Side, index: int)
    requires UniqueActions(pairs) && dragged.side != side
    ensures side == Action ==>
              GetMatchedIndex(Upsert(pairs, MakePair(dragged, side, index)), index, Action) == Some(dragged.index)
    ensures side == Instruction ==>
              GetMatchedIndex(Upsert(pairs, MakePair(dragged, side, index)), dragged.index, Action) == Some(index)
  {
    var p := MakePair(dragged, side, index);
    MatchedActionLookup(Upsert(pairs, p), p.actionIndex, p.instructionIndex);
  }

  /** The list update of a drop: a pair already recorded for the action is
      replaced where it stands, otherwise the new pair is appended. */
  function Upsert(pairs: seq<Pair>, p: Pair): (r: seq<Pair>)
    ensures UniqueActions(pairs) ==> UniqueActions(r)
    ensures UniqueActions(pairs) ==>
              forall k :: 0 <= k < |pairs| && pairs[k].actionIndex == p.actionIndex ==>
                r == pairs[k := p]
    ensures (forall k :: 0 <= k < |pairs| ==> pairs[k].actionIndex != p.actionIndex) ==>
              r == pairs + [p]
    ensures |pairs| <= |r| <= |pairs| + 1
    ensures p in r
    ensures forall q :: q in pairs && q.actionIndex != p.actionIndex ==> q in r
    ensures forall q :: q in r ==> q == p || q in pairs
    ensures forall n :: InRange(pairs, n) && 0 <= p.actionIndex < n && 0 <= p.instructionIndex < n ==>
              InRange(r, n)
  {
    var k := FindIndex(pairs, p.actionIndex);
    if k != -1 then
      var r := pairs[k := p];
      assert r[k] == p;
      assert forall j :: 0 <= j < |pairs| && j != k ==> r[j] == pairs[j];
      r
    else
      pairs + [p]
  }

  /** The completion test of a drop: one pair per action, each joining an
      action to the instruction of the same row. */
  predicate AllMatched(pairs: seq<Pair>, n: int)
  {
    |pairs| == n &&
    forall k :: 0 <= k < |pairs| ==> pairs[k].actionIndex == pairs[k].instructionIndex
  }

  /** The pairs are exactly the same-row pairs 0-0, 1-1, ..., (n-1)-(n-1). */
  predicate IsIdentityMatching(pairs: seq<Pair>, n: int)
  {
    (forall k :: 0 <= k < n ==> Pair(k, k) in pairs) &&
    (forall q :: q in pairs ==> 0 <= q.actionIndex < n && q.actionIndex == q.instructionIndex)
  }

  /** The action rows named by the pairs, in order. */
  function ActionIndices(pairs: seq<Pair>): (r: seq<int>)
    ensures |r| == |pairs| && forall k :: 0 <= k < |pairs| ==> r[k] == pairs[k].actionIndex
  {
    seq(|pairs|, k requires 0 <= k < |pairs| => pairs[k].actionIndex)
  }

  lemma ActionSetCard(pairs: seq<Pair>)
    requires UniqueActions(pairs)
    ensures |Elems(ActionIndices(pairs))| == |pairs|
  {
    var s := ActionIndices(pairs);
    assert NoDup(s) by {
      forall i, j | 0 <= i < j < |s| ensures s[i] != s[j] {
        assert s[i] == pairs[i].actionIndex && s[j] == pairs[j].actionIndex;
      }
    }
    ElemsCard(s);
  }

  /** With one pair per action at most and every index a row, there are
      never more pairs than actions. */
  lemma PairsBounded(pairs: seq<Pair>, n: nat)
    requires UniqueActions(pairs) && InRange(pairs, n)
    ensures |pairs| <= n
  {
    var e := Elems(ActionIndices(pairs));
    ActionSetCard(pairs);
    assert e <= Range(n);
    SubsetCard(e, Range(n));
  }

  /** The completion test, given the invariants every drop keeps, holds
      exactly when the pairs are the same-row matching. */
  lemma CompletionIsIdentity(pairs: seq<Pair>, n: nat)
    requires UniqueActions(pairs) && InRange(pairs, n)
    ensures AllMatched(pairs, n) <==> IsIdentityMatching(pairs, n)
  {
    var e := Elems(ActionIndices(pairs));
    ActionSetCard(pairs);
    assert e <= Range(n);
    if AllMatched(pairs, n) {
      SubsetCardEq(e, Range(n));
      forall k | 0 <= k < n ensures Pair(k, k) in pairs {
        assert k in e;
        var j :| 0 <= j < |pairs| && ActionIndices(pairs)[j] == k;
        assert pairs[j] == Pair(k, k);
      }
    }
    if IsIdentityMatching(pairs, n) {
      assert Range(n) <= e by {
        forall k | k in Range(n) ensures k in e {
          var j :| 0 <= j < |pairs| && pairs[j] == Pair(k, k);
          assert ActionIndices(pairs)[j] == k;
        }
      }
      assert e == Range(n);
      forall k | 0 <= k < |pairs|
        ensures pairs[k].actionIndex == pairs[k].instructionIndex
      {
        assert pairs[k] in pairs;
      }
    }
  }

  // ---------------------------------------------------------------------------
  // Lookups used to colour the rows

  /** The row a pair occupies in the given column, and in the other one. */
  function SideIndex(p: Pair, side: Side): int
  {
    if side == Action then p.actionIndex else p.instructionIndex
  }

  function OtherIndex(p: Pair, side: Side): int
  {
    if side == Action then p.instructionIndex else p.actionIndex
  }

  /** isCorrectMatch: index equality (a `null` never equals a row). */
  function IsCorrectMatch(actionIndex: Option<int>, instructionIndex: Option<int>): (r: bool)
    ensures r <==> actionIndex.Some? && actionIndex == instructionIndex
  {
    actionIndex.Some? && actionIndex == instructionIndex
  }

  /** isItemMatched: some pair holds the row in that column. */
  function IsItemMatched(pairs: seq<Pair>, index: int, side: Side): (r: bool)
    ensures r <==> exists k :: 0 <= k < |pairs| && SideIndex(pairs[k], side) == index
    decreases |pairs|
  {
    if pairs == [] then false
    else SideIndex(pairs[0], side) == index || IsItemMatched(pairs[1..], index, side)
  }

  /** getMatchedIndex: the other row of the first pair holding the row in
      that column, or `null`. */
  function GetMatchedIndex(pairs: seq<Pair>, index: int, side: Side): (r: Option<int>)
    ensures r.None? <==> !IsItemMatched(pairs, index, side)
    ensures r.Some? ==>
              exists k :: 0 <= k < |pairs| && SideIndex(pairs[k], side) == index &&
                          OtherIndex(pairs[k], side) == r.value &&
                          forall j :: 0 <= j < k ==> SideIndex(pairs[j], side) != index
    decreases |pairs|
  {
    if pairs == [] then None
    else if SideIndex(pairs[0], side) == index then Some(OtherIndex(pairs[0], side))
    else GetMatchedIndex(pairs[1..], index, side)
  }

  /** Since each action is in one pair at most, the action column's lookup
      finds exactly the recorded pair. */
  lemma MatchedActionLookup(pairs: seq<Pair>, a: int, i: int)
    requires UniqueActions(pairs)
    ensures GetMatchedIndex(pairs, a, Action) == Some(i) <==> Pair(a, i) in pairs
  {
    if Pair(a, i) in pairs {
      var m :| 0 <= m < |pairs| && pairs[m] == Pair(a, i);
      var r := GetMatchedIndex(pairs, a, Action);
      assert IsItemMatched(pairs, a, Action) by {
        assert SideIndex(pairs[m], Action) == a;
      }
      var k :| 0 <= k < |pairs| && SideIndex(pairs[k], Action) == a &&
               OtherIndex(pairs[k], Action) == r.value;
      assert k == m;
    }
  }

  // ---------------------------------------------------------------------------
  // The check / cross marks

  datatype Mark = NoMark | Check | Cross

  /** The mark for a row of the given column: none while unmatched, a check
      when `isCorrectMatch` holds of the row and its matched row. */
  function RowMark(pairs: seq<Pair>, index: int, side: Side): Mark
  {
    if !IsItemMatched(pairs, index, side) then NoMark
    else if IsCorrectMatch(Some(index), GetMatchedIndex(pairs, index, side)) then Check
    else Cross
  }

  /** An action row is marked exactly as its own pair says. */
  lemma ActionMarkMeaning(pairs: seq<Pair>, a: int)
    requires UniqueActions(pairs)
    ensures RowMark(pairs, a, Action) == NoMark <==> !IsItemMatched(pairs, a, Action)
    ensures RowMark(pairs, a, Action) == Check <==> Pair(a, a) in pairs
  {
    MatchedActionLookup(pairs, a, a);
  }

  /** The icon of an instruction row as written: it tests the ACTION column
      at that row, not the instruction. */
  function InstructionIconAsWritten(pairs: seq<Pair>, index: int): Mark
  {
    RowMark(pairs, index, Action)
  }

  /** The icon of an instruction row tested on the instruction column, as
      its border colour is. */
  function InstructionIcon(pairs: seq<Pair>, index: int): Mark
  {
    RowMark(pairs, index, Instruction)
  }

  /** The corrected icon describes the instruction row's own match: no mark
      while it is unmatched, a check only when it is matched to its own row. */
  lemma InstructionIconMeaning(pairs: seq<Pair>, index: int)
    ensures InstructionIcon(pairs, index) == NoMark <==> !IsItemMatched(pairs, index, Instruction)
    ensures InstructionIcon(pairs, index) == Check ==> Pair(index, index) in pairs
  {
    if InstructionIcon(pairs, index) == Check {
      var k :| 0 <= k < |pairs| && SideIndex(pairs[k], Instruction) == index &&
               OtherIndex(pairs[k], Instruction) == index;
      assert pairs[k] == Pair(index, index);
    }
  }

  /** Action row 0 matched to instruction row 1: the unmatched instruction
      row 0 shows a cross, and the wrongly matched instruction row 1 none. */
  lemma InstructionIconMismatch()
    ensures InstructionIconAsWritten([Pair(0, 1)], 0) == Cross
    ensures InstructionIcon([Pair(0, 1)], 0) == NoMark
    ensures InstructionIconAsWritten([Pair(0, 1)], 1) == NoMark
    ensures InstructionIcon([Pair(0, 1)], 1) == Cross
  {
    var ps := [Pair(0, 1)];
    assert IsItemMatched(ps, 0, Action);
    assert !IsItemMatched(ps, 0, Instruction) by {
      assert ps[1..] == [];
    }
    assert !IsItemMatched(ps, 1, Action) by {
      assert ps[1..] == [];
    }
    assert IsItemMatched(ps, 1, Instruction);
  }

  /** The body of handleDrop once the drop is accepted: the list update
      (findIndex, then replace or append) and the completion test. */
  method RecordDrop(pairs: seq<Pair>, dragged: DraggedItem, side: Side, index: int)
    returns (r: seq<Pair>, allCorrect: bool)
    requires dragged.side != side
    ensures r == Upsert(pairs, MakePair(dragged, side, index))
    ensures allCorrect == AllMatched(r, |Actions|)
  {
    var pair := MakePair(dragged, side, index);
    var existing := FindIndex(pairs, pair.actionIndex);
    if existing != -1 {
      r := pairs[existing := pair];
    } else {
      r := pairs + [pair];
    }
    allCorrect := false;
    if |r| == |Actions| {
      allCorrect := forall k :: 0 <= k < |r| ==> r[k].actionIndex == r[k].instructionIndex;
    }
  }

  /** A drop joining two rendered rows keeps the board's invariant, pairs
      the two rows, bounds the pair count, and the completion test then
      means that every action sits on its own row. */
  lemma DropOutcome(pairs: seq<Pair>, dragged: DraggedItem, side: Side, index: int)
    requires UniqueActions(pairs) && InRange(pairs, |Actions|)
    requires 0 <= dragged.index < |Actions| && 0 <= index < |Actions| && dragged.side != side
    ensures UniqueActions(Upsert(pairs, MakePair(dragged, side, index)))
    ensures InRange(Upsert(pairs, MakePair(dragged, side, index)), |Actions|)
    ensures |Upsert(pairs, MakePair(dragged, side, index))| <= |Actions|
    ensures AllMatched(Upsert(pairs, MakePair(dragged, side, index)), |Actions|) <==>
              IsIdentityMatching(Upsert(pairs, MakePair(dragged, side, index)), |Actions|)
    ensures side == Action ==>
              GetMatchedIndex(Upsert(pairs, MakePair(dragged, side, index)), index, Action) == Some(dragged.index)
    ensures side == Instruction ==>
              GetMatchedIndex(Upsert(pairs, MakePair(dragged, side, index)), dragged.index, Action) == Some(index)
  {
    var r := Upsert(pairs, MakePair(dragged, side, index));
    DropPairsRows(pairs, dragged, side, index);
    PairsBounded(r, |Actions|);
    CompletionIsIdentity(r, |Actions|);
  }

  // ---------------------------------------------------------------------------
  // The component with its state hooks

  class MatchBoard {
    var selectedPairs: seq<Pair>
    var completed: bool
    var draggedItem: Option<DraggedItem>

    ghost predicate Valid()
      reads this
    {
      UniqueActions(selectedPairs) && InRange(selectedPairs, |Actions|) &&
      (draggedItem.Some? ==> 0 <= draggedItem.value.index < |Actions|)
    }

    constructor ()
      ensures Valid()
      ensures selectedPairs == [] && !completed && draggedItem == None
    {
      selectedPairs := [];
      completed := false;
      draggedItem := None;
    }

    /** A drag start on row `index` of column `side` (one of the rendered rows). */
    method HandleDragStart(item: string, side: Side, index: int)
      requires Valid() && 0 <= index < |Actions|
      modifies this
      ensures Valid()
      ensures draggedItem == Some(DraggedItem(item, side, index))
      ensures selectedPairs == old(selectedPairs) && completed == old(completed)
    {
      draggedItem := Some(DraggedItem(item, side, index));
    }

    /** A drop on a row of `side`; returns whether `onComplete` was called.
        Without a dragged item, or onto the dragged item's own column, nothing
        happens. Otherwise the two rows are paired, and `onComplete` is called
        exactly when every action sits on the instruction of its own row. */
    method HandleDrop(side: Side, index: int) returns (fired: bool)
      requires Valid() && 0 <= index < |Actions|
      modifies this
      ensures Valid()
      ensures old(draggedItem).None? || old(draggedItem).value.side == side ==>
                selectedPairs == old(selectedPairs) && completed == old(completed) &&
                draggedItem == old(draggedItem) && !fired
      ensures old(draggedItem).Some? && old(draggedItem).value.side != side ==>
                selectedPairs == Upsert(old(selectedPairs), MakePair(old(draggedItem).value, side, index)) &&
                draggedItem == None &&
                (fired <==> AllMatched(selectedPairs, |Actions|)) &&
                completed == (old(completed) || fired)
      ensures old(draggedItem).Some? && old(draggedItem).value.side != side ==>
                |selectedPairs| <= |Actions| &&
                (fired <==> IsIdentityMatching(selectedPairs, |Actions|)) &&
                (side == Action ==> GetMatchedIndex(selectedPairs, index, Action) == Some(old(draggedItem).value.index)) &&
                (side == Instruction ==> GetMatchedIndex(selectedPairs, old(draggedItem).value.index, Action) == Some(index))
    {
      fired := false;
      if draggedItem.None? {
        return;
      }
      var dragged := draggedItem.value;
      if dragged.side == side {
        return;
      }
      var newPairs, allCorrect := RecordDrop(selectedPairs, dragged, side, index);
      DropOutcome(selectedPairs, dragged, side, index);
      selectedPairs := newPairs;
      if allCorrect {
        completed := true;
        fired := true;
      }
      draggedItem := None;
    }

    method HandleDragEnd()
      requires Valid()
      modifies this
      ensures Valid()
      ensures draggedItem == None
      ensures selectedPairs == old(selectedPairs) && completed == old(completed)
    {
      draggedItem := None;
    }
  }
}
