/** The categorise board: items are dragged into category buckets and the
    placement is checked against the question's answer key
    (src/app/question/components/DragDropQuestion.jsx). */
module DragDropQuestion {
  import opened Common

  datatype Item = Item(id: string, text: string)
  datatype Category = Category(id: string, title: string)

  /** A categorise question: its items, its buckets and, per bucket id, the
      ids of the items that belong there. */
  datatype Question = Question(
    items: seq<Item>,
    categories: seq<Category>,
    correctAnswers: map<string, seq<string>>)

  /** The `categories` state: bucket id to the items dropped there, in order. */
  type Board = map<string, seq<Item>>

  /** How many items of the list carry the id. */
  function CountId(s: seq<Item>, id: string): nat
    decreases |s|
  {
    if s == [] then 0 else (if s[0].id == id then 1 else 0) + CountId(s[1..], id)
  }

  /** `some(item => item.id === id)`. */
  predicate HasId(s: seq<Item>, id: string)
  {
    CountId(s, id) > 0
  }

  lemma {:induction false} CountIdAppend(a: seq<Item>, b: seq<Item>, id: string)
    ensures CountId(a + b, id) == CountId(a, id) + CountId(b, id)
    decreases |a|
  {
    if a != [] {
      assert (a + b)[0] == a[0];
      assert (a + b)[1..] == a[1..] + b;
      CountIdAppend(a[1..], b, id);
    } else {
      assert a + b == b;
    }
  }

  /** `filter(item => item.id !== id)`: every item with that id goes, every
      other item stays, in order. */
  function WithoutId(s: seq<Item>, id: string): (r: seq<Item>)
    ensures forall x :: x in r <==> x in s && x.id != id
    ensures CountId(r, id) == 0
    ensures forall other :: other != id ==> CountId(r, other) == CountId(s, other)
    ensures |r| <= |s|
    decreases |s|
  {
    if s == [] then []
    else
      var rest := WithoutId(s[1..], id);
      assert s == [s[0]] + s[1..];
      if s[0].id != id then
        assert ([s[0]] + rest)[1..] == rest;
        [s[0]] + rest
      else
        rest
  }

  lemma {:induction false} WithoutIdAppend(a: seq<Item>, b: seq<Item>, id: string)
    ensures WithoutId(a + b, id) == WithoutId(a, id) + WithoutId(b, id)
    decreases |a|
  {
    if a != [] {
      assert (a + b)[1..] == a[1..] + b;
      assert (a + b)[0] == a[0];
      WithoutIdAppend(a[1..], b, id);
      var ra := WithoutId(a[1..], id);
      var rb := WithoutId(b, id);
      if a[0].id != id {
        assert WithoutId(a + b, id) == [a[0]] + (ra + rb);
        assert WithoutId(a, id) == [a[0]] + ra;
        assert [a[0]] + (ra + rb) == ([a[0]] + ra) + rb;
      } else {
        assert WithoutId(a + b, id) == ra + rb;
      }
    } else {
      assert a + b == b;
    }
  }

  lemma {:induction false} WithoutIdIdempotent(s: seq<Item>, id: string)
    ensures WithoutId(WithoutId(s, id), id) == WithoutId(s, id)
    decreases |s|
  {
    if s != [] {
      WithoutIdIdempotent(s[1..], id);
      var rest := WithoutId(s[1..], id);
      if s[0].id != id {
        assert WithoutId(s, id) == [s[0]] + rest;
        WithoutIdAppend([s[0]], rest, id);
        assert WithoutId([s[0]], id) == [s[0]] by {
          assert [s[0]][1..] == [];
        }
      }
    }
  }

  // ---------------------------------------------------------------------------
  // Initialisation and drop

  function CategoryIds(cats: seq<Category>): set<string>
  {
    set c | c in cats :: c.id
  }

  /** The initialisation effect's `reduce`: every bucket id maps to an empty list. */
  method InitialCategories(cats: seq<Category>) returns (m: Board)
    ensures m.Keys == CategoryIds(cats)
    ensures forall k :: k in m ==> m[k] == []
  {
    m := map[];
    var i := 0;
    while i < |cats|
      invariant 0 <= i <= |cats|
      invariant m.Keys == CategoryIds(cats[..i])
      invariant forall k :: k in m ==> m[k] == []
    {
      assert cats[..i + 1] == cats[..i] + [cats[i]];
      assert CategoryIds(cats[..i + 1]) == CategoryIds(cats[..i]) + {cats[i].id};
      m := m[cats[i].id := []];
      i := i + 1;
    }
    assert cats[..i] == cats;
  }

  /** The `forEach` of a drop: the copied board with the item's id filtered
      out of every bucket. */
  method RemoveFromAll(cats: Board, id: string) returns (r: Board)
    ensures r.Keys == cats.Keys
    ensures forall k :: k in r ==> r[k] == WithoutId(cats[k], id)
  {
    r := cats;
    var keys := cats.Keys;
    while keys != {}
      invariant keys <= cats.Keys
      invariant r.Keys == cats.Keys
      invariant forall k :: k in r && k !in keys ==> r[k] == WithoutId(cats[k], id)
      invariant forall k :: k in keys ==> r[k] == cats[k]
      decreases keys
    {
      var k :| k in keys;
      r := r[k := WithoutId(r[k], id)];
      keys := keys - {k};
    }
  }

  /** The board after dropping `item` onto bucket `target`: the item is in
      that bucket once, at the end, and in no other; every other item keeps
      its place. A target that is no bucket (the "Items to Sort" zone) makes
      the handler throw, so there is no new board. */
  function Dropped(cats: Board, item: Item, target: string): (r: Option<Board>)
    ensures r.None? <==> target !in cats
    ensures r.Some? ==> r.value.Keys == cats.Keys
  {
    if target !in cats then None else Some(DropBoard(cats, item, target))
  }

  function DropBoard(cats: Board, item: Item, target: string): Board
    requires target in cats
  {
    var m := map k | k in cats :: WithoutId(cats[k], item.id);
    m[target := m[target] + [item]]
  }

  /** One bucket of the dropped board, one id at a time. */
  lemma DropBoardAt(cats: Board, item: Item, target: string, k: string, id: string)
    requires target in cats && k in cats
    ensures CountId(DropBoard(cats, item, target)[k], id) ==
              if id == item.id then (if k == target then 1 else 0) else CountId(cats[k], id)
    ensures WithoutId(DropBoard(cats, item, target)[k], item.id) == WithoutId(cats[k], item.id)
  {
    var w := WithoutId(cats[k], item.id);
    WithoutIdIdempotent(cats[k], item.id);
    if k == target {
      assert DropBoard(cats, item, target)[k] == w + [item];
      assert [item][1..] == [];
      CountIdAppend(w, [item], id);
      WithoutIdAppend(w, [item], item.id);
      assert WithoutId([item], item.id) == [];
    } else {
      assert DropBoard(cats, item, target)[k] == w;
    }
  }

  /** What a drop onto a bucket does to each bucket and each id. */
  lemma DropMeaning(cats: Board, item: Item, target: string)
    requires target in cats
    ensures item in Dropped(cats, item, target).value[target]
    ensures forall k, id :: k in cats ==>
              CountId(Dropped(cats, item, target).value[k], id) ==
                if id == item.id then (if k == target then 1 else 0) else CountId(cats[k], id)
    ensures forall k :: k in cats ==>
              WithoutId(Dropped(cats, item, target).value[k], item.id) == WithoutId(cats[k], item.id)
  {
    var r := Dropped(cats, item, target).value;
    assert r[target] == WithoutId(cats[target], item.id) + [item];
    forall k, id | k in cats
      ensures CountId(r[k], id) ==
                if id == item.id then (if k == target then 1 else 0) else CountId(cats[k], id)
    {
      DropBoardAt(cats, item, target, k, id);
    }
    forall k | k in cats ensures WithoutId(r[k], item.id) == WithoutId(cats[k], item.id) {
      DropBoardAt(cats, item, target, k, item.id);
    }
  }

  /** The handler's two steps (filter every bucket, then append to the
      target) build the dropped board. */
  lemma RemovedThenAppendedIsDropped(cats: Board, item: Item, target: string, removed: Board)
    requires target in cats && removed.Keys == cats.Keys
    requires forall k :: k in removed ==> removed[k] == WithoutId(cats[k], item.id)
    ensures removed[target := removed[target] + [item]] == Dropped(cats, item, target).value
  {
    var d := DropBoard(cats, item, target);
    var n := removed[target := removed[target] + [item]];
    assert n.Keys == d.Keys;
    forall k | k in d ensures n[k] == d[k] {
    }
  }

  /** The body of handleDrop: filter the item out of every bucket, then
      append it to the target; a target that is no bucket throws. */
  method DropOnto(cats: Board, item: Item, target: string) returns (r: Option<Board>)
    ensures r == Dropped(cats, item, target)
  {
    var removed := RemoveFromAll(cats, item.id);
    if target !in removed {
      return None;
    }
    RemovedThenAppendedIsDropped(cats, item, target, removed);
    r := Some(removed[target := removed[target] + [item]]);
  }

  /** No bucket holds an item id twice. */
  ghost predicate NoRepeats(cats: Board)
  {
    forall k, id :: k in cats ==> CountId(cats[k], id) <= 1
  }

  /** No item id is in two buckets. */
  ghost predicate NoSharing(cats: Board)
  {
    forall k1, k2, id :: k1 in cats && k2 in cats && k1 != k2 && HasId(cats[k1], id) ==>
      !HasId(cats[k2], id)
  }

  /** Every item id is in one bucket at most, and there only once. */
  ghost predicate PlacedOnce(cats: Board)
  {
    NoRepeats(cats) && NoSharing(cats)
  }

  lemma InitialPlacedOnce(cats: Board)
    requires forall k :: k in cats ==> cats[k] == []
    ensures PlacedOnce(cats)
  {
  }

  /** A drop keeps every item in one bucket at most. */
  lemma DropKeepsPlacedOnce(cats: Board, item: Item, target: string)
    requires PlacedOnce(cats) && target in cats
    ensures PlacedOnce(Dropped(cats, item, target).value)
  {
    var r := Dropped(cats, item, target).value;
    DropMeaning(cats, item, target);
    DropKeepsNoRepeats(cats, item, target, r);
    DropKeepsNoSharing(cats, item, target, r);
  }

  lemma DropKeepsNoRepeats(cats: Board, item: Item, target: string, r: Board)
    requires NoRepeats(cats) && target in cats && r == Dropped(cats, item, target).value
    ensures NoRepeats(r)
  {
    DropMeaning(cats, item, target);
    forall k, id | k in r ensures CountId(r[k], id) <= 1 {
      assert CountId(r[k], id) ==
        if id == item.id then (if k == target then 1 else 0) else CountId(cats[k], id);
    }
  }

  lemma DropKeepsNoSharing(cats: Board, item: Item, target: string, r: Board)
    requires NoSharing(cats) && target in cats && r == Dropped(cats, item, target).value
    ensures NoSharing(r)
  {
    forall k1, k2, id | k1 in r && k2 in r && k1 != k2 && HasId(r[k1], id)
      ensures !HasId(r[k2], id)
    {
      SharingAt(cats, item, target, r, k1, k2, id);
    }
  }

  lemma SharingAt(cats: Board, item: Item, target: string, r: Board, k1: string, k2: string, id: string)
    requires NoSharing(cats) && target in cats && r == Dropped(cats, item, target).value
    requires k1 in cats && k2 in cats && k1 != k2 && HasId(r[k1], id)
    ensures !HasId(r[k2], id)
  {
    DropMeaning(cats, item, target);
    if id == item.id {
      assert CountId(r[k1], id) == if k1 == target then 1 else 0;
      assert CountId(r[k2], id) == if k2 == target then 1 else 0;
    } else {
      assert CountId(r[k1], id) == CountId(cats[k1], id);
      assert CountId(r[k2], id) == CountId(cats[k2], id);
      assert HasId(cats[k1], id);
    }
  }

  // ---------------------------------------------------------------------------
  // Placement queries

  /** Dropped into some bucket of the question
      (`question.categories.some(category => categories[category.id]?.some(...))`). */
  predicate IsPlaced(q: Question, cats: Board, item: Item)
  {
    exists i :: 0 <= i < |q.categories| && q.categories[i].id in cats &&
                HasId(cats[q.categories[i].id], item.id)
  }

  /** allItemsPlaced, which enables "Check Answers". */
  predicate AllItemsPlaced(q: Question, cats: Board, items: seq<Item>)
  {
    forall k :: 0 <= k < |items| ==> IsPlaced(q, cats, items[k])
  }

  /** unplacedItems: the items in no bucket, in their original order. */
  function UnplacedItems(q: Question, cats: Board, items: seq<Item>): (r: seq<Item>)
    ensures forall x :: x in r <==> x in items && !IsPlaced(q, cats, x)
    ensures |r| <= |items|
    decreases |items|
  {
    if items == [] then []
    else
      var rest := UnplacedItems(q, cats, items[1..]);
      assert items == [items[0]] + items[1..];
      if IsPlaced(q, cats, items[0]) then rest else [items[0]] + rest
  }

  /** The unplaced list keeps the items' order: it distributes over
      concatenation. */
  lemma {:induction false} UnplacedItemsAppend(q: Question, cats: Board, a: seq<Item>, b: seq<Item>)
    ensures UnplacedItems(q, cats, a + b) == UnplacedItems(q, cats, a) + UnplacedItems(q, cats, b)
    decreases |a|
  {
    if a == [] {
      assert a + b == b;
    } else {
      assert (a + b)[1..] == a[1..] + b;
      UnplacedItemsAppend(q, cats, a[1..], b);
    }
  }

  /** "Check Answers" is enabled exactly when the unplaced list is empty. */
  lemma AllPlacedIffNoneUnplaced(q: Question, cats: Board, items: seq<Item>)
    ensures AllItemsPlaced(q, cats, items) <==> UnplacedItems(q, cats, items) == []
  {
    var r := UnplacedItems(q, cats, items);
    if !AllItemsPlaced(q, cats, items) {
      var k :| 0 <= k < |items| && !IsPlaced(q, cats, items[k]);
      assert items[k] in r;
    }
  }

  /** Right after initialisation nothing is placed. */
  lemma {:induction false} InitiallyAllUnplaced(q: Question, cats: Board, items: seq<Item>)
    requires forall k :: k in cats ==> cats[k] == []
    ensures UnplacedItems(q, cats, items) == items
    decreases |items|
  {
    if items != [] {
      InitiallyAllUnplaced(q, cats, items[1..]);
      assert !IsPlaced(q, cats, items[0]);
      assert items == [items[0]] + items[1..];
    }
  }

  /** A drop onto a bucket of the question places the item. */
  lemma DropPlaces(q: Question, cats: Board, item: Item, i: nat)
    requires i < |q.categories| && q.categories[i].id in cats
    ensures IsPlaced(q, Dropped(cats, item, q.categories[i].id).value, item)
  {
    var r := Dropped(cats, item, q.categories[i].id).value;
    DropMeaning(cats, item, q.categories[i].id);
    assert q.categories[i].id in r && HasId(r[q.categories[i].id], item.id);
  }

  // ---------------------------------------------------------------------------
  // Checking the answers

  /** The ids listed in a bucket (`map(item => item.id)`). */
  function Ids(s: seq<Item>): (r: seq<string>)
    ensures |r| == |s| && forall k :: 0 <= k < |s| ==> r[k] == s[k].id
  {
    seq(|s|, k requires 0 <= k < |s| => s[k].id)
  }

  /** `categories[id]?.map(item => item.id) || []`. */
  function UserIds(cats: Board, categoryId: string): seq<string>
  {
    if categoryId in cats then Ids(cats[categoryId]) else []
  }

  /** The test applied to one bucket: as many ids as the key, and every key
      id among them. */
  predicate BucketCorrect(key: seq<string>, user: seq<string>)
  {
    |key| == |user| && forall id :: id in key ==> id in user
  }

  /** checkAnswers' `every` over the buckets, in order. A bucket id missing from
      the answer key makes the test throw (None) when it is reached. */
  function CheckBuckets(cs: seq<Category>, key: map<string, seq<string>>, cats: Board): (r: Option<bool>)
    ensures r == Some(true) <==>
              forall i :: 0 <= i < |cs| ==>
                cs[i].id in key && BucketCorrect(key[cs[i].id], UserIds(cats, cs[i].id))
    ensures r.None? ==> exists i :: 0 <= i < |cs| && cs[i].id !in key
    ensures (forall i :: 0 <= i < |cs| ==> cs[i].id in key) ==> r.Some?
    decreases |cs|
  {
    if cs == [] then Some(true)
    else if cs[0].id !in key then None
    else if !BucketCorrect(key[cs[0].id], UserIds(cats, cs[0].id)) then Some(false)
    else
      var r := CheckBuckets(cs[1..], key, cats);
      assert forall i :: 1 <= i < |cs| ==> cs[i] == cs[1..][i - 1];
      r
  }

  function CheckAnswers(q: Question, cats: Board): Option<bool>
  {
    CheckBuckets(q.categories, q.correctAnswers, cats)
  }

  /** For duplicate-free lists, the bucket test is set equality. */
  lemma BucketCorrectIsSetEquality(key: seq<string>, user: seq<string>)
    requires NoDup(key) && NoDup(user)
    ensures BucketCorrect(key, user) <==> Elems(key) == Elems(user)
  {
    ElemsCard(key);
    ElemsCard(user);
    if BucketCorrect(key, user) {
      assert Elems(key) <= Elems(user);
      SubsetCardEq(Elems(key), Elems(user));
    }
    if Elems(key) == Elems(user) {
      assert |key| == |user|;
      forall id | id in key ensures id in user {
        assert id in Elems(key);
      }
    }
  }

  /** Without the no-duplicate hypothesis the test is weaker: a key listing
      one id twice accepts a bucket holding a foreign id. */
  lemma DuplicateKeyAccepts()
    ensures BucketCorrect(["a", "a"], ["a", "b"])
    ensures Elems(["a", "a"]) != Elems(["a", "b"])
  {
    assert "b" in Elems(["a", "b"]);
  }

  lemma {:induction false} CountOneNoDup(s: seq<Item>)
    requires forall id :: CountId(s, id) <= 1
    ensures NoDup(Ids(s))
    decreases |s|
  {
    if s != [] {
      forall id ensures CountId(s[1..], id) <= 1 {
        assert CountId(s, id) == (if s[0].id == id then 1 else 0) + CountId(s[1..], id);
      }
      CountOneNoDup(s[1..]);
      forall j | 0 < j < |s| ensures s[j].id != s[0].id {
        CountPositive(s[1..], j - 1);
        assert s[1..][j - 1] == s[j];
        assert CountId(s, s[j].id) == (if s[0].id == s[j].id then 1 else 0) + CountId(s[1..], s[j].id);
      }
      var ids := Ids(s);
      forall i, j | 0 <= i < j < |ids| ensures ids[i] != ids[j] {
        if i > 0 {
          assert Ids(s[1..])[i - 1] == ids[i] && Ids(s[1..])[j - 1] == ids[j];
        }
      }
    }
  }

  lemma {:induction false} CountPositive(s: seq<Item>, j: nat)
    requires j < |s|
    ensures CountId(s, s[j].id) > 0
    decreases j
  {
    if j > 0 {
      CountPositive(s[1..], j - 1);
    }
  }

  /** On a board where no item is placed twice and with a duplicate-free
      answer key, checkAnswers succeeds exactly when every bucket holds
      exactly the key's ids. */
  lemma CheckAnswersMeaning(q: Question, cats: Board)
    requires PlacedOnce(cats)
    requires forall i :: 0 <= i < |q.categories| ==>
               q.categories[i].id in q.correctAnswers &&
               NoDup(q.correctAnswers[q.categories[i].id])
    ensures CheckAnswers(q, cats).Some?
    ensures CheckAnswers(q, cats) == Some(true) <==>
              forall i :: 0 <= i < |q.categories| ==>
                Elems(q.correctAnswers[q.categories[i].id]) == Elems(UserIds(cats, q.categories[i].id))
  {
    forall i | 0 <= i < |q.categories|
      ensures BucketCorrect(q.correctAnswers[q.categories[i].id], UserIds(cats, q.categories[i].id))
          <==> Elems(q.correctAnswers[q.categories[i].id]) == Elems(UserIds(cats, q.categories[i].id))
    {
      var id := q.categories[i].id;
      if id in cats {
        CountOneNoDup(cats[id]);
      }
      BucketCorrectIsSetEquality(q.correctAnswers[id], UserIds(cats, id));
    }
  }

  // ---------------------------------------------------------------------------
  // The component with its state hooks

  class CategoriseBoard {
    var question: Question
    var items: seq<Item>
    var categories: Board
    var showFeedback: bool
    var isCorrect: bool
    var draggedItem: Option<Item>

    ghost predicate Valid()
      reads this
    {
      PlacedOnce(categories)
    }

    /** Mount, with the initialisation effect run for the first question. */
    constructor (q: Question)
      ensures Valid()
      ensures question == q && items == q.items
      ensures categories.Keys == CategoryIds(q.categories)
      ensures forall k :: k in categories ==> categories[k] == []
      ensures UnplacedItems(q, categories, items) == items
      ensures !showFeedback && !isCorrect && draggedItem == None
    {
      question := q;
      items := q.items;
      var initial := InitialCategories(q.categories);
      categories := initial;
      showFeedback := false;
      isCorrect := false;
      draggedItem := None;
      InitialPlacedOnce(initial);
      InitiallyAllUnplaced(q, initial, q.items);
    }

    /** The initialisation effect, run when the question changes: empty
        buckets, the question's items, no feedback, nothing dragged. */
    method OnQuestionChange(q: Question)
      modifies this
      ensures Valid()
      ensures question == q && items == q.items
      ensures categories.Keys == CategoryIds(q.categories)
      ensures forall k :: k in categories ==> categories[k] == []
      ensures UnplacedItems(q, categories, items) == items
      ensures !showFeedback && !isCorrect && draggedItem == None
    {
      question := q;
      var initial := InitialCategories(q.categories);
      categories := initial;
      items := q.items;
      showFeedback := false;
      isCorrect := false;
      draggedItem := None;
      InitialPlacedOnce(initial);
      InitiallyAllUnplaced(q, initial, q.items);
    }

    method HandleDragStart(item: Item)
      requires Valid()
      modifies this
      ensures Valid()
      ensures draggedItem == Some(item)
      ensures categories == old(categories) && items == old(items) && question == old(question)
      ensures showFeedback == old(showFeedback) && isCorrect == old(isCorrect)
    {
      draggedItem := Some(item);
    }

    /** A drop onto `target`. With nothing dragged, or onto a target that is
        not a bucket (where the handler throws), nothing changes. */
    method HandleDrop(target: string)
      requires Valid()
      modifies this
      ensures Valid()
      ensures items == old(items) && question == old(question)
      ensures showFeedback == old(showFeedback) && isCorrect == old(isCorrect)
      ensures old(draggedItem).None? || target !in old(categories) ==>
                categories == old(categories) && draggedItem == old(draggedItem)
      ensures old(draggedItem).Some? && target in old(categories) ==>
                categories == Dropped(old(categories), old(draggedItem).value, target).value &&
                draggedItem == None
    {
      if draggedItem.None? {
        return;
      }
      var item := draggedItem.value;
      var newCategories := DropOnto(categories, item, target);
      if newCategories.None? {
        return;
      }
      DropKeepsPlacedOnce(categories, item, target);
      categories := newCategories.value;
      draggedItem := None;
    }

    /** The "Check Answers" button, which is disabled until every item is
        placed. Returns whether `onComplete` is scheduled. */
    method PressCheckAnswers() returns (fired: bool)
      requires Valid()
      modifies this
      ensures Valid()
      ensures categories == old(categories) && items == old(items) && question == old(question)
      ensures draggedItem == old(draggedItem)
      ensures !AllItemsPlaced(question, categories, items) ==>
                !fired && showFeedback == old(showFeedback) && isCorrect == old(isCorrect)
      ensures AllItemsPlaced(question, categories, items) ==>
                match CheckAnswers(question, categories)
                case None => !fired && showFeedback == old(showFeedback) && isCorrect == old(isCorrect)
                case Some(ok) => fired == ok && isCorrect == ok && showFeedback
    {
      fired := false;
      if !AllItemsPlaced(question, categories, items) {
        return;
      }
      var allCorrect := CheckAnswers(question, categories);
      if allCorrect.None? {
        return;
      }
      isCorrect := allCorrect.value;
      showFeedback := true;
      fired := allCorrect.value;
    }
  }
}
