/** The coping-skills trash sort: a shuffled list of skills from which the
    harmful ones are dragged into a bin (src/app/question/CopingSkillsSort.jsx). */
module CopingSkillsSort {
  import opened Common

  const PositiveSkills: seq<string> := [
    "Deep breaths",
    "Exercise",
    "Positive affirmations or self-talk",
    "Listen to Music",
    "Do something fun",
    "Grounding Techniques",
    "Spend time with family or friends",
    "Spend time with pets"
  ]

  const NegativeSkills: seq<string> := [
    "Using marijuana",
    "Using alcohol",
    "Vaping",
    "Eating too much",
    "Eating too little",
    "Hurting one's self on purpose"
  ]

  /** What the shuffle starts from: `[...positiveSkills, ...negativeSkills]`. */
  const AllSkills: seq<string> := PositiveSkills + NegativeSkills

  /** The fourteen skill texts are pairwise different. */
  lemma AllSkillsDistinct()
    ensures NoDup(AllSkills)
  {
  }

  /** Hence the harmful skills are pairwise different too. */
  lemma NegativeSkillsDistinct()
    ensures NoDup(NegativeSkills)
  {
    AllSkillsDistinct();
    NoDupSplit(PositiveSkills, NegativeSkills);
  }

  // ---------------------------------------------------------------------------
  // shuffleArray

  /** The random draws of one shuffle: at step `i` (from the end down to 1)
      the index `picks[i]` stands for `Math.floor(Math.random() * (i + 1))`. */
  predicate ValidPicks(n: nat, picks: seq<int>)
  {
    |picks| == n && forall i :: 0 < i < n ==> 0 <= picks[i] <= i
  }

  /** Fisher–Yates on a copy of the input. The result holds the input's
      elements with their multiplicities; the draw for the last position
      decides which element lands there. The input is a value, so it is left as
      it was. */
  method ShuffleArray<T>(input: seq<T>, picks: seq<int>) returns (r: seq<T>)
    requires ValidPicks(|input|, picks)
    ensures |r| == |input| && multiset(r) == multiset(input)
    ensures |input| > 1 ==> r[|input| - 1] == input[picks[|input| - 1]]
  {
    var n := |input|;
    var a := new T[n](k requires 0 <= k < n => input[k]);
    assert a[..] == input;
    if n == 0 {
      return [];
    }
    var i := n - 1;
    while i > 0
      invariant 0 <= i <= n - 1
      invariant multiset(a[..]) == multiset(input)
      invariant n > 1 && i < n - 1 ==> a[n - 1] == input[picks[n - 1]]
      invariant i == n - 1 ==> a[..] == input
      decreases i
    {
      var j := picks[i];
      ghost var before := a[..];
      SwapKeepsMultiset(before, i, j);
      a[i], a[j] := a[j], a[i];
      assert a[..] == before[i := before[j]][j := before[i]];
      if i == n - 1 {
        assert before == input;
        assert a[n - 1] == input[picks[n - 1]];
      } else {
        assert j <= i < n - 1;
        assert a[n - 1] == before[n - 1];
      }
      i := i - 1;
    }
    r := a[..];
  }

  /** Exchanging two positions keeps the elements and their multiplicities. */
  lemma SwapKeepsMultiset<T>(s: seq<T>, i: nat, j: nat)
    requires i < |s| && j < |s|
    ensures multiset(s[i := s[j]][j := s[i]]) == multiset(s)
  {
  }

  // ---------------------------------------------------------------------------
  // Dropping skills into the bin

  /** `filter(s => s !== skill)`: every occurrence goes, the rest stays in order. */
  function RemoveAll(s: seq<string>, skill: string): (r: seq<string>)
    ensures forall x :: x in r <==> x in s && x != skill
    ensures multiset(r) == multiset(s)[skill := 0]
    decreases |s|
  {
    if s == [] then []
    else
      var rest := RemoveAll(s[1..], skill);
      assert s == [s[0]] + s[1..];
      if s[0] == skill then rest else [s[0]] + rest
  }

  /** The filter keeps the order of what it keeps: it maps a one-element
      list to itself or to nothing, and distributes over concatenation. */
  lemma {:induction false} RemoveAllAppend(a: seq<string>, b: seq<string>, skill: string)
    ensures RemoveAll(a + b, skill) == RemoveAll(a, skill) + RemoveAll(b, skill)
    ensures RemoveAll([skill], skill) == [] && forall x :: x != skill ==> RemoveAll([x], skill) == [x]
    decreases |a|
  {
    if a == [] {
      assert a + b == b;
    } else {
      assert (a + b)[1..] == a[1..] + b;
      RemoveAllAppend(a[1..], b, skill);
    }
    forall x | true ensures RemoveAll([x], skill) == if x == skill then [] else [x] {
      assert [x][1..] == [];
    }
  }

  /** The three state hooks. */
  datatype SortState = SortState(available: seq<string>, removed: seq<string>, isDragging: bool)

  /** handleDrop of the dragged `skill`, for the list `harmful` of skills the
      bin accepts (the component's `negativeSkills`): the new state, and
      whether `onComplete` is called. Other skills stay where they are. */
  function Drop(harmful: seq<string>, st: SortState, skill: string): (r: (SortState, bool))
  {
    if skill in harmful then
      (SortState(RemoveAll(st.available, skill), st.removed + [skill], false),
       |st.removed| + 1 == |harmful|)
    else
      (st.(isDragging := false), false)
  }

  /** A drop always ends the drag; a skill that is not harmful changes
      neither list; a harmful one leaves the list everywhere and is added
      to the bin once, at the end. */
  lemma DropEffect(harmful: seq<string>, st: SortState, skill: string)
    ensures !Drop(harmful, st, skill).0.isDragging
    ensures skill !in harmful ==>
              Drop(harmful, st, skill).0 == st.(isDragging := false) && !Drop(harmful, st, skill).1
    ensures skill in harmful ==>
              skill !in Drop(harmful, st, skill).0.available &&
              (forall x :: x != skill ==> (x in Drop(harmful, st, skill).0.available <==> x in st.available)) &&
              Drop(harmful, st, skill).0.removed == st.removed + [skill]
    ensures Drop(harmful, st, skill).1 <==> skill in harmful && |st.removed| + 1 == |harmful|
  {
  }

  /** Between drops the two lists together are a rearrangement of `all`, and
      only harmful skills are in the bin. */
  predicate Inv(all: seq<string>, harmful: seq<string>, st: SortState)
  {
    multiset(st.available + st.removed) == multiset(all) &&
    forall i :: 0 <= i < |st.removed| ==> st.removed[i] in harmful
  }

  /** A rearrangement of a duplicate-free list is duplicate-free. */
  lemma PermutationNoDup(a: seq<string>, b: seq<string>)
    requires multiset(a) == multiset(b) && NoDup(a)
    ensures NoDup(b)
  {
    assert |a| == |multiset(a)| == |multiset(b)| == |b|;
    assert Elems(a) == Elems(b) by {
      forall x ensures x in a <==> x in b {
        assert x in a <==> x in multiset(a);
        assert x in b <==> x in multiset(b);
      }
    }
    ElemsCard(a);
    ElemsCard(b);
  }

  lemma NoDupSplit(a: seq<string>, b: seq<string>)
    requires NoDup(a + b)
    ensures NoDup(a) && NoDup(b)
    ensures forall x :: x in a ==> x !in b
  {
    forall i, j | 0 <= i < j < |b| ensures b[i] != b[j] {
      assert (a + b)[|a| + i] == b[i] && (a + b)[|a| + j] == b[j];
    }
    forall i, j | 0 <= i < j < |a| ensures a[i] != a[j] {
      assert (a + b)[i] == a[i] && (a + b)[j] == a[j];
    }
    forall i, j | 0 <= i < |a| && 0 <= j < |b| ensures a[i] != b[j] {
      assert (a + b)[i] == a[i] && (a + b)[|a| + j] == b[j];
    }
  }

  /** Under the invariant both lists are duplicate-free and disjoint. */
  lemma InvNoDup(all: seq<string>, harmful: seq<string>, st: SortState)
    requires NoDup(all) && Inv(all, harmful, st)
    ensures NoDup(st.available) && NoDup(st.removed)
    ensures forall x :: x in st.available ==> x !in st.removed
  {
    PermutationNoDup(all, st.available + st.removed);
    NoDupSplit(st.available, st.removed);
  }

  /** A skill occurs once in a duplicate-free list that holds it. */
  lemma CountOne(a: seq<string>, x: string)
    requires NoDup(a) && x in a
    ensures multiset(a)[x] == 1
  {
    var i :| 0 <= i < |a| && a[i] == x;
    assert a == a[..i] + [x] + a[i + 1..];
    NoDupSplit(a[..i] + [x], a[i + 1..]);
    NoDupSplit(a[..i], [x]);
    assert multiset(a) == multiset(a[..i]) + multiset{x} + multiset(a[i + 1..]);
  }

  /** Dropping a skill that is still in the list keeps the invariant. */
  lemma DropKeepsInv(all: seq<string>, harmful: seq<string>, st: SortState, skill: string)
    requires NoDup(all) && Inv(all, harmful, st) && skill in st.available
    ensures Inv(all, harmful, Drop(harmful, st, skill).0)
  {
    if skill in harmful {
      InvNoDup(all, harmful, st);
      CountOne(st.available, skill);
      var m := multiset(st.available);
      assert m[skill := 0] + multiset{skill} == m;
      var st1 := Drop(harmful, st, skill).0;
      assert multiset(st1.available + st1.removed) == multiset(st.available + st.removed);
    }
  }

  /** Every harmful skill is in the bin. */
  predicate AllRemoved(harmful: seq<string>, st: SortState)
  {
    forall i :: 0 <= i < |harmful| ==> harmful[i] in st.removed
  }

  /** Under the invariant the bin holds as many skills as there are harmful
      ones exactly when it holds every harmful one. */
  lemma RemovedCountMeansAll(all: seq<string>, harmful: seq<string>, st: SortState)
    requires NoDup(all) && NoDup(harmful) && Inv(all, harmful, st)
    ensures |st.removed| == |harmful| <==> AllRemoved(harmful, st)
  {
    InvNoDup(all, harmful, st);
    ElemsCard(st.removed);
    ElemsCard(harmful);
    assert Elems(st.removed) <= Elems(harmful);
    if |st.removed| == |harmful| {
      SubsetCardEq(Elems(st.removed), Elems(harmful));
      forall i | 0 <= i < |harmful| ensures harmful[i] in st.removed {
        assert harmful[i] in Elems(harmful);
      }
    }
    if AllRemoved(harmful, st) {
      assert Elems(harmful) <= Elems(st.removed) by {
        forall x | x in Elems(harmful) ensures x in Elems(st.removed) {
          var i :| 0 <= i < |harmful| && harmful[i] == x;
        }
      }
      SubsetCard(Elems(harmful), Elems(st.removed));
      SubsetCard(Elems(st.removed), Elems(harmful));
    }
  }

  /** A genuine drop (of a skill still in the list) calls `onComplete`
      exactly when it puts the last harmful skill into the bin. */
  lemma DropFiresOnCompletion(all: seq<string>, harmful: seq<string>, st: SortState, skill: string)
    requires NoDup(all) && NoDup(harmful) && Inv(all, harmful, st) && skill in st.available
    ensures Drop(harmful, st, skill).1 <==>
              !AllRemoved(harmful, st) && AllRemoved(harmful, Drop(harmful, st, skill).0)
  {
    DropKeepsInv(all, harmful, st, skill);
    RemovedCountMeansAll(all, harmful, st);
    RemovedCountMeansAll(all, harmful, Drop(harmful, st, skill).0);
    InvNoDup(all, harmful, st);
  }

  /** Drops whose skill is still in the list when it is dropped (the only
      skills the list lets one drag). */
  predicate GenuineDrops(harmful: seq<string>, st: SortState, drops: seq<string>)
    decreases |drops|
  {
    drops == [] ||
    (drops[0] in st.available && GenuineDrops(harmful, Drop(harmful, st, drops[0]).0, drops[1..]))
  }

  /** A sequence of drops: the final state and how often `onComplete` was called. */
  function Run(harmful: seq<string>, st: SortState, drops: seq<string>): (SortState, nat)
    decreases |drops|
  {
    if drops == [] then (st, 0)
    else
      var (st1, fired) := Drop(harmful, st, drops[0]);
      var (st2, n) := Run(harmful, st1, drops[1..]);
      (st2, n + if fired then 1 else 0)
  }

  /** Over genuine drops the invariant holds throughout and `onComplete` is
      called once if the run put the last harmful skill into the bin, and
      never otherwise. */
  lemma {:induction false} RunFiresOnce(all: seq<string>, harmful: seq<string>, st: SortState, drops: seq<string>)
    requires NoDup(all) && NoDup(harmful) && Inv(all, harmful, st) && GenuineDrops(harmful, st, drops)
    ensures Inv(all, harmful, Run(harmful, st, drops).0)
    ensures AllRemoved(harmful, st) ==> AllRemoved(harmful, Run(harmful, st, drops).0)
    ensures Run(harmful, st, drops).1 ==
              if !AllRemoved(harmful, st) && AllRemoved(harmful, Run(harmful, st, drops).0) then 1 else 0
    decreases |drops|
  {
    if drops != [] {
      var st1 := Drop(harmful, st, drops[0]).0;
      DropKeepsInv(all, harmful, st, drops[0]);
      DropFiresOnCompletion(all, harmful, st, drops[0]);
      RunFiresOnce(all, harmful, st1, drops[1..]);
    }
  }

  /** The same for the component's own lists: over genuine drops from the
      shuffled start, `onComplete` is called exactly once if every harmful
      skill ends up in the bin, and never otherwise. */
  lemma SortFiresOnce(available: seq<string>, drops: seq<string>)
    requires multiset(available) == multiset(AllSkills)
    requires GenuineDrops(NegativeSkills, SortState(available, [], false), drops)
    ensures Run(NegativeSkills, SortState(available, [], false), drops).1 ==
              if AllRemoved(NegativeSkills, Run(NegativeSkills, SortState(available, [], false), drops).0)
              then 1 else 0
  {
    AllSkillsDistinct();
    NegativeSkillsDistinct();
    var start := SortState(available, [], false);
    assert start.available + start.removed == available;
    assert Inv(AllSkills, NegativeSkills, start);
    RunFiresOnce(AllSkills, NegativeSkills, start, drops);
  }

  /** The handler trusts the dragged text: dropping a harmful skill that is
      already in the bin adds it again, so with six harmful skills, six drops
      of one of them call `onComplete` while another harmful skill is still
      in the list. */
  lemma RedropCountsTwice(harmful: seq<string>, available: seq<string>, v: string, w: string)
    requires |harmful| == 6 && v in harmful && w in available && w != v
    ensures Run(harmful, SortState(available, [], false), [v, v, v, v, v, v]).1 == 1
    ensures w in Run(harmful, SortState(available, [], false), [v, v, v, v, v, v]).0.available
  {
    var s0 := SortState(available, [], false);
    var s1 := Drop(harmful, s0, v).0;
    var s2 := Drop(harmful, s1, v).0;
    var s3 := Drop(harmful, s2, v).0;
    var s4 := Drop(harmful, s3, v).0;
    var s5 := Drop(harmful, s4, v).0;
    var s6 := Drop(harmful, s5, v).0;
    assert |s5.removed| == 5 && w in s6.available;
    assert Run(harmful, s6, []) == (s6, 0);
    assert Run(harmful, s5, [v]) == (s6, 1);
    assert [v, v][1..] == [v];
    assert Run(harmful, s4, [v, v]) == (s6, 1);
    assert [v, v, v][1..] == [v, v];
    assert Run(harmful, s3, [v, v, v]) == (s6, 1);
    assert [v, v, v, v][1..] == [v, v, v];
    assert Run(harmful, s2, [v, v, v, v]) == (s6, 1);
    assert [v, v, v, v, v][1..] == [v, v, v, v];
    assert Run(harmful, s1, [v, v, v, v, v]) == (s6, 1);
    assert [v, v, v, v, v, v][1..] == [v, v, v, v, v];
  }

  // ---------------------------------------------------------------------------
  // The component

  class TrashSort {
    var availableSkills: seq<string>
    var removedSkills: seq<string>
    var isDragging: bool

    function State(): SortState
      reads this
    {
      SortState(availableSkills, removedSkills, isDragging)
    }

    /** Mount: the lazily initialised list is a shuffle of all skills. */
    constructor (picks: seq<int>)
      requires ValidPicks(|AllSkills|, picks)
      ensures Inv(AllSkills, NegativeSkills, State()) && removedSkills == [] && !isDragging
      ensures multiset(availableSkills) == multiset(AllSkills)
    {
      var shuffled := ShuffleArray(AllSkills, picks);
      availableSkills := shuffled;
      removedSkills := [];
      isDragging := false;
    }

    /** A drag starts; the dragged text travels with the later drop. */
    method HandleDragStart()
      modifies this
      ensures State() == old(State()).(isDragging := true)
    {
      isDragging := true;
    }

    /** A drop of the dragged `skill`; returns whether `onComplete` is called. */
    method HandleDrop(skill: string) returns (fired: bool)
      modifies this
      ensures (State(), fired) == Drop(NegativeSkills, old(State()), skill)
    {
      fired := false;
      if skill in NegativeSkills {
        var before := removedSkills;
        availableSkills := RemoveAll(availableSkills, skill);
        removedSkills := removedSkills + [skill];
        if |before| + 1 == |NegativeSkills| {
          fired := true;
        }
      }
      isDragging := false;
    }
  }
}
