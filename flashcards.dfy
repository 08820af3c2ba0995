/** The flashcard page: the collections document held in memory, the
    handlers that create and delete collections and cards (each saving the
    whole document afterwards), and the single-card browsing cursor. Only
    the state each handler leaves behind is modelled; the markup it renders
    is not. */
module Flashcards {
  import opened Wrappers
  import opened Documents
  import opened TextUtils
  import opened Storage
  import opened Search

  // ---------------------------------------------------------------------
  // Lookups and filters over the collections
  // ---------------------------------------------------------------------

  function CollectionId(c: Collection): string { c.id }

  /** `collections.find((c) => c.id === id)`, as the position of the first
      collection with that id. */
  function FindCollection(cols: seq<Collection>, id: string): (r: Option<nat>)
    ensures r.Some? ==> r.value < |cols| && cols[r.value].id == id
    ensures r.Some? ==> forall j :: 0 <= j < r.value ==> cols[j].id != id
    ensures r.None? ==> forall j :: 0 <= j < |cols| ==> cols[j].id != id
  {
    FirstIndex(cols, CollectionId, id)
  }

  /** The collection the cursor browses: the first one whose id is the open
      id, if there is an open id and such a collection. */
  function OpenCollection(cols: seq<Collection>, openId: Option<string>): (r: Option<Collection>)
    ensures r.Some? ==> openId.Some? && r.value in cols && r.value.id == openId.value
    ensures r.Some? ==> exists k :: 0 <= k < |cols| && cols[k] == r.value
                          && forall j :: 0 <= j < k ==> cols[j].id != openId.value
    ensures r.None? ==> openId.None? || forall c :: c in cols ==> c.id != openId.value
  {
    if openId.None? then None
    else match FindCollection(cols, openId.value)
      case Some(k) => Some(cols[k])
      case None => None
  }

  /** `collections.filter((c) => c.id !== id)`. */
  function RemoveCollections(cols: seq<Collection>, id: string): (r: seq<Collection>)
  {
    if cols == [] then []
    else (if cols[0].id != id then [cols[0]] else []) + RemoveCollections(cols[1..], id)
  }

  /** Removal drops exactly the collections with the id. */
  lemma {:induction false} RemoveCollectionsMembers(cols: seq<Collection>, id: string)
    ensures forall c :: c in RemoveCollections(cols, id) <==> c in cols && c.id != id
  {
    if cols != [] {
      RemoveCollectionsMembers(cols[1..], id);
      assert cols == [cols[0]] + cols[1..];
    }
  }

  /** Removal keeps the order of what it keeps: removing from a
      concatenation is concatenating the removals. */
  lemma {:induction false} RemoveCollectionsAppend(a: seq<Collection>, b: seq<Collection>, id: string)
    ensures RemoveCollections(a + b, id) == RemoveCollections(a, id) + RemoveCollections(b, id)
  {
    if a == [] {
      assert a + b == b;
    } else {
      assert (a + b)[1..] == a[1..] + b;
      RemoveCollectionsAppend(a[1..], b, id);
    }
  }

  /** Removing an id no collection has changes nothing. */
  lemma {:induction false} RemoveCollectionsAbsent(cols: seq<Collection>, id: string)
    requires forall j :: 0 <= j < |cols| ==> cols[j].id != id
    ensures RemoveCollections(cols, id) == cols
  {
    if cols != [] {
      RemoveCollectionsAbsent(cols[1..], id);
    }
  }

  /** After removing one id, any other id resolves to the same collection as
      before. */
  lemma {:induction false} OpenCollectionAfterRemove(cols: seq<Collection>, id: string, other: string)
    requires other != id
    ensures OpenCollection(RemoveCollections(cols, id), Some(other)) == OpenCollection(cols, Some(other))
  {
    if cols != [] {
      OpenCollectionAfterRemove(cols[1..], id, other);
      var rest := RemoveCollections(cols[1..], id);
      if cols[0].id == other {
        assert RemoveCollections(cols, id) == [cols[0]] + rest;
      } else if cols[0].id == id {
        assert RemoveCollections(cols, id) == rest;
        assert OpenCollection(cols, Some(other)) == OpenCollection(cols[1..], Some(other));
      } else {
        assert RemoveCollections(cols, id) == [cols[0]] + rest;
        assert ([cols[0]] + rest)[1..] == rest;
        assert OpenCollection(cols, Some(other)) == OpenCollection(cols[1..], Some(other));
      }
    }
  }

  /** Appending a collection does not change which collection an id that
      already resolved resolves to; an id that did not resolve resolves to
      the new collection exactly when that collection carries it. */
  lemma {:induction false} FindCollectionAppend(cols: seq<Collection>, c: Collection, id: string)
    ensures FindCollection(cols, id).Some? ==> FindCollection(cols + [c], id) == FindCollection(cols, id)
    ensures FindCollection(cols, id).None? ==>
              FindCollection(cols + [c], id) == if c.id == id then Some(|cols|) else None
  {
    if cols == [] {
      assert cols + [c] == [c];
    } else {
      assert (cols + [c])[0] == cols[0];
      if cols[0].id != id {
        assert (cols + [c])[1..] == cols[1..] + [c];
        FindCollectionAppend(cols[1..], c, id);
      }
    }
  }

  /** Replacing one collection by one with the same id leaves every lookup
      where it was. */
  lemma {:induction false} FindCollectionSameIds(cols: seq<Collection>, k: nat, c: Collection, id: string)
    requires k < |cols| && c.id == cols[k].id
    ensures FindCollection(cols[k := c], id) == FindCollection(cols, id)
  {
    assert cols[k := c][0].id == cols[0].id;
    if cols[0].id != id {
      if k == 0 {
        assert cols[k := c][1..] == cols[1..];
      } else {
        assert cols[k := c][1..] == cols[1..][k - 1 := c];
        FindCollectionSameIds(cols[1..], k - 1, c, id);
      }
    }
  }

  // ---------------------------------------------------------------------
  // Cursor arithmetic
  // ---------------------------------------------------------------------

  /** `(currentIndex + 1) % n`. */
  function NextIndex(i: nat, n: nat): (r: nat)
    requires n > 0
    ensures r < n
  {
    (i + 1) % n
  }

  /** `(currentIndex - 1 + n) % n`. */
  function PrevIndex(i: nat, n: nat): (r: nat)
    requires n > 0
    ensures r < n
  {
    (i - 1 + n) % n
  }

  /** Within range, next moves one card on and wraps from the last card to
      the first. */
  lemma NextIndexSteps(i: nat, n: nat)
    requires i < n
    ensures NextIndex(i, n) == if i + 1 == n then 0 else i + 1
  {
  }

  /** Within range, prev moves one card back and wraps from the first card
      to the last. */
  lemma PrevIndexSteps(i: nat, n: nat)
    requires i < n
    ensures PrevIndex(i, n) == if i == 0 then n - 1 else i - 1
  {
  }

  /** Within range, next and prev undo each other. */
  lemma NextPrevInverse(i: nat, n: nat)
    requires i < n
    ensures PrevIndex(NextIndex(i, n), n) == i
    ensures NextIndex(PrevIndex(i, n), n) == i
  {
    NextIndexSteps(i, n);
    PrevIndexSteps(i, n);
    NextIndexSteps(PrevIndex(i, n), n);
    PrevIndexSteps(NextIndex(i, n), n);
  }

  /** The index after `k` presses of next. */
  function AdvanceBy(i: nat, n: nat, k: nat): (r: nat)
    requires n > 0
    decreases k
  {
    if k == 0 then i else NextIndex(AdvanceBy(i, n, k - 1), n)
  }

  /** Up to `n` presses of next from index `i` land on `i + k`, wrapped once. */
  lemma {:induction false} AdvanceByWraps(i: nat, n: nat, k: nat)
    requires i < n && k <= n
    ensures AdvanceBy(i, n, k) == if i + k < n then i + k else i + k - n
  {
    if k > 0 {
      AdvanceByWraps(i, n, k - 1);
      NextIndexSteps(AdvanceBy(i, n, k - 1), n);
    }
  }

  /** `n` presses of next return the cursor to where it started. */
  lemma NextCycles(i: nat, n: nat)
    requires i < n
    ensures AdvanceBy(i, n, n) == i
  {
    AdvanceByWraps(i, n, n);
  }

  // ---------------------------------------------------------------------
  // The session
  // ---------------------------------------------------------------------

  /** What a handler reports: done, or the rejection it alerts. */
  datatype Outcome = Done | TitleRequired | FieldsRequired | CollectionNotFound

  /** The cursor points at a card whenever the open collection resolves and
      has cards. */
  ghost predicate CursorInRange(cols: seq<Collection>, openId: Option<string>, index: nat) {
    var open := OpenCollection(cols, openId);
    open.None? || |open.value.cards| == 0 || index < |open.value.cards|
  }

  /** Appending a collection without cards keeps the cursor in range. */
  lemma CursorInRangeAppend(cols: seq<Collection>, c: Collection, openId: Option<string>, index: nat)
    requires CursorInRange(cols, openId, index) && c.cards == []
    ensures CursorInRange(cols + [c], openId, index)
  {
    if openId.Some? {
      FindCollectionAppend(cols, c, openId.value);
    }
  }

  /** Replacing a collection that is not the open one, id kept, keeps the
      cursor in range. */
  lemma CursorInRangeReplace(cols: seq<Collection>, k: nat, c: Collection, openId: Option<string>, index: nat)
    requires CursorInRange(cols, openId, index)
    requires k < |cols| && c.id == cols[k].id && openId != Some(c.id)
    ensures CursorInRange(cols[k := c], openId, index)
  {
    if openId.Some? {
      FindCollectionSameIds(cols, k, c, openId.value);
      var found := FindCollection(cols, openId.value);
      if found.Some? {
        var j := found.value;
        assert j != k;
        assert OpenCollection(cols[k := c], openId) == Some(cols[j]);
      }
    }
  }

  /** Removing a collection other than the open one keeps the cursor in
      range. */
  lemma CursorInRangeRemove(cols: seq<Collection>, id: string, openId: Option<string>, index: nat)
    requires CursorInRange(cols, openId, index) && openId != Some(id)
    ensures CursorInRange(RemoveCollections(cols, id), openId, index)
  {
    if openId.Some? {
      OpenCollectionAfterRemove(cols, id, openId.value);
    }
  }

  /** The module state of the flashcard page. */
  class FlashcardSession {
    var collections: seq<Collection>
    var currentCollectionId: Option<string>
    var currentIndex: nat
    var isFlipped: bool
    const store: Store

    ghost predicate Valid()
      reads this
    {
      CursorInRange(collections, currentCollectionId, currentIndex)
    }

    function Open(): (r: Option<Collection>)
      reads this
    {
      OpenCollection(collections, currentCollectionId)
    }

    /** Page start: load the document, nothing open. */
    constructor (store: Store)
      modifies store
      ensures Valid()
      ensures this.store == store
      ensures collections == LoadedCollections(old(store.items)).collections
      ensures store.items == AfterLoadCollections(old(store.items))
      ensures currentCollectionId == None && currentIndex == 0 && !isFlipped
    {
      this.store := store;
      var d := store.LoadCollectionsData();
      collections := d.collections;
      currentCollectionId := None;
      currentIndex := 0;
      isFlipped := false;
    }

    method Save()
      modifies store
      ensures store.items == old(store.items)[CollectionsKey := Doc(CollectionsDoc(CollectionsData(collections)))]
    {
      store.SaveCollectionsData(CollectionsData(collections));
    }

    /** The state part of `renderCard`: an index that has drifted past the
        open collection's cards is reset to the first card. */
    method RenderCard()
      modifies this`currentIndex
      ensures Valid()
      ensures var open := Open();
        if open.Some? && |open.value.cards| > 0 && old(currentIndex) >= |open.value.cards|
        then currentIndex == 0
        else currentIndex == old(currentIndex)
    {
      var open := Open();
      if open.None? {
        return;
      }
      if |open.value.cards| == 0 {
        return;
      }
      if currentIndex >= |open.value.cards| {
        currentIndex := 0;
      }
    }

    /** The state part of `refreshUI`: renders the card only when an open id
        is set (and non-empty, as JavaScript tests it) and resolves. */
    method RefreshUI()
      modifies this`currentIndex
      ensures var open := Open();
        if currentCollectionId.Some? && currentCollectionId.value != [] && open.Some?
           && |open.value.cards| > 0 && old(currentIndex) >= |open.value.cards|
        then currentIndex == 0
        else currentIndex == old(currentIndex)
      ensures old(Valid()) ==> currentIndex == old(currentIndex)
      ensures currentCollectionId.Some? && currentCollectionId.value != [] ==> Valid()
    {
      if currentCollectionId.Some? && currentCollectionId.value != [] {
        if Open().Some? {
          RenderCard();
        }
      }
    }

    /** Submitting the new-collection form. */
    method CreateCollection(titleInput: string, suffix: string) returns (outcome: Outcome)
      requires Valid()
      modifies this, store
      ensures Valid()
      ensures var title := Trim(titleInput);
        if title == [] then
          outcome == TitleRequired && collections == old(collections) && store.items == old(store.items)
        else
          && outcome == Done
          && collections == old(collections) + [Collection(Slugify(title) + "-" + suffix, title, [])]
          && store.items == old(store.items)[CollectionsKey := Doc(CollectionsDoc(CollectionsData(collections)))]
      ensures currentCollectionId == old(currentCollectionId)
      ensures currentIndex == old(currentIndex) && isFlipped == old(isFlipped)
    {
      var title := Trim(titleInput);
      if title == [] {
        return TitleRequired;
      }
      var id := Slugify(title) + "-" + suffix;
      var created := Collection(id, title, []);
      CursorInRangeAppend(collections, created, currentCollectionId, currentIndex);
      collections := collections + [created];
      Save();
      RefreshUI();
      outcome := Done;
    }

    /** Submitting the new-card form for the collection chosen in the
        select. */
    method AddCard(collectionId: string, questionInput: string, answerInput: string, suffix: string)
      returns (outcome: Outcome)
      requires Valid()
      modifies this, store
      ensures Valid()
      ensures currentCollectionId == old(currentCollectionId)
      ensures var q, a := Trim(questionInput), Trim(answerInput);
        if q == [] || a == [] then
          outcome == FieldsRequired && collections == old(collections) && store.items == old(store.items)
          && currentIndex == old(currentIndex) && isFlipped == old(isFlipped)
        else if FindCollection(old(collections), collectionId).None? then
          outcome == CollectionNotFound && collections == old(collections) && store.items == old(store.items)
          && currentIndex == old(currentIndex) && isFlipped == old(isFlipped)
        else
          var k := FindCollection(old(collections), collectionId).value;
          var col := old(collections)[k];
          && outcome == Done
          && collections == old(collections)[k := col.(cards := col.cards + [Card("c-" + suffix, q, a)])]
          && store.items == old(store.items)[CollectionsKey := Doc(CollectionsDoc(CollectionsData(collections)))]
          && (if old(currentCollectionId) == Some(collectionId)
              then currentIndex == |col.cards| && !isFlipped
              else currentIndex == old(currentIndex) && isFlipped == old(isFlipped))
    {
      var q := Trim(questionInput);
      var a := Trim(answerInput);
      if q == [] || a == [] {
        return FieldsRequired;
      }
      var found := FindCollection(collections, collectionId);
      if found.None? {
        return CollectionNotFound;
      }
      var k := found.value;
      var col := collections[k];
      var updated := col.(cards := col.cards + [Card("c-" + suffix, q, a)]);
      if currentCollectionId == Some(collectionId) {
        FindCollectionSameIds(collections, k, updated, collectionId);
      } else {
        CursorInRangeReplace(collections, k, updated, currentCollectionId, currentIndex);
      }
      collections := collections[k := updated];
      Save();
      if currentCollectionId == Some(collectionId) {
        isFlipped := false;
        currentIndex := |updated.cards| - 1;
      }
      RefreshUI();
      outcome := Done;
    }

    /** The delete button (after the user confirms). */
    method DeleteCollection(id: string)
      requires Valid()
      modifies this, store
      ensures Valid()
      ensures collections == RemoveCollections(old(collections), id)
      ensures store.items == old(store.items)[CollectionsKey := Doc(CollectionsDoc(CollectionsData(collections)))]
      ensures currentCollectionId == if old(currentCollectionId) == Some(id) then None else old(currentCollectionId)
      ensures currentIndex == old(currentIndex) && isFlipped == old(isFlipped)
    {
      if currentCollectionId != Some(id) {
        CursorInRangeRemove(collections, id, currentCollectionId, currentIndex);
      }
      collections := RemoveCollections(collections, id);
      Save();
      if currentCollectionId == Some(id) {
        currentCollectionId := None;
      }
      RefreshUI();
    }

    /** `openCollection`. */
    method OpenCollectionById(id: string)
      modifies this
      ensures Valid()
      ensures currentCollectionId == Some(id) && currentIndex == 0 && !isFlipped
      ensures collections == old(collections)
    {
      currentCollectionId := Some(id);
      currentIndex := 0;
      isFlipped := false;
      RefreshUI();
    }

    /** The next-card button. */
    method NextCard()
      requires Valid()
      modifies this
      ensures Valid()
      ensures collections == old(collections) && currentCollectionId == old(currentCollectionId)
      ensures var open := Open();
        if open.None? || |open.value.cards| == 0 then
          currentIndex == old(currentIndex) && isFlipped == old(isFlipped)
        else
          currentIndex == NextIndex(old(currentIndex), |open.value.cards|) && !isFlipped
    {
      var open := Open();
      if open.None? || |open.value.cards| == 0 {
        return;
      }
      currentIndex := NextIndex(currentIndex, |open.value.cards|);
      isFlipped := false;
      RenderCard();
    }

    /** The previous-card button. */
    method PrevCard()
      requires Valid()
      modifies this
      ensures Valid()
      ensures collections == old(collections) && currentCollectionId == old(currentCollectionId)
      ensures var open := Open();
        if open.None? || |open.value.cards| == 0 then
          currentIndex == old(currentIndex) && isFlipped == old(isFlipped)
        else
          currentIndex == PrevIndex(old(currentIndex), |open.value.cards|) && !isFlipped
    {
      var open := Open();
      if open.None? || |open.value.cards| == 0 {
        return;
      }
      currentIndex := PrevIndex(currentIndex, |open.value.cards|);
      isFlipped := false;
      RenderCard();
    }

    /** The flip button, and a click on the card itself. */
    method Flip()
      requires Valid()
      modifies this
      ensures Valid()
      ensures isFlipped == !old(isFlipped)
      ensures collections == old(collections) && currentCollectionId == old(currentCollectionId)
      ensures currentIndex == old(currentIndex)
    {
      isFlipped := !isFlipped;
      RenderCard();
    }
  }

  /** A fresh browser: the seeded collection is loaded; opening it and
      pressing next twice comes back to its first card. */
  method SeededScenario() returns (afterOne: nat, afterTwo: nat)
    ensures afterOne == 1 && afterTwo == 0
  {
    var store := new Store(map[]);
    var session := new FlashcardSession(store);
    assert session.collections == DefaultCollectionsData().collections;
    session.OpenCollectionById("html-basics");
    assert session.Open() == Some(DefaultCollectionsData().collections[0]);
    session.NextCard();
    afterOne := session.currentIndex;
    session.NextCard();
    afterTwo := session.currentIndex;
  }
}
