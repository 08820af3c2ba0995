/** The persistence gateway: two named records in the browser's key-value
    store, read with a "default on absent or corrupt" policy and overwritten
    whole on every save. The text the store holds and its JSON parsing are
    abstracted: a record is either absent, the empty string, text that does
    not parse, or a parsed value classified by what the loaders test of it. */
module Storage {
  import opened Wrappers
  import opened Documents

  const CollectionsKey: string := "cards_collections"
  const BestScoresKey: string := "best_scores"

  /** What `JSON.parse` can yield, as far as the loaders look at it. */
  datatype Value =
    | Falsy                                    // null, false, 0 or ""
    | CollectionsDoc(doc: CollectionsData)     // an object whose `collections` is an array
    | ScoresDoc(scores: map<string, int>)      // an object of quiz ids to numbers
    | OtherTruthy                              // any other truthy value

  /** What `getItem` returns for a key. */
  datatype Stored =
    | Absent            // no item: `getItem` gives null
    | Blank             // the empty string, falsy like an absent item
    | Malformed         // text `JSON.parse` rejects
    | Doc(value: Value) // text that parses to `value`

  /** The parse-and-validate step of `loadCollectionsData`: a document only
      when the record parses to a truthy value whose `collections` is an
      array. */
  function DecodeCollections(s: Stored): (r: Option<CollectionsData>)
    ensures r.Some? <==> s.Doc? && s.value.CollectionsDoc?
    ensures r.Some? ==> s == Doc(CollectionsDoc(r.value))
  {
    match s
    case Doc(CollectionsDoc(doc)) => Some(doc)
    case _ => None
  }

  /** What `loadBestScores` makes of a record: an empty map for an absent,
      blank, unparsable or falsy record. */
  function DecodeBestScores(s: Stored): (r: map<string, int>)
    ensures s.Doc? && s.value.ScoresDoc? ==> r == s.value.scores
    ensures !(s.Doc? && s.value.ScoresDoc?) ==> r == map[]
  {
    match s
    case Doc(ScoresDoc(m)) => m
    case _ => map[]
  }

  /** What `getItem` returns for store contents `items`: a key never
      written reads as absent. */
  function Lookup(items: map<string, Stored>, key: string): (s: Stored)
    ensures key in items ==> s == items[key]
    ensures key !in items ==> s == Absent
  {
    if key in items then items[key] else Absent
  }

  /** The profile-scoped key-value store (`localStorage`). */
  class Store {
    var items: map<string, Stored>

    constructor (items: map<string, Stored>)
      ensures this.items == items
    {
      this.items := items;
    }

    /** `getItem`. */
    function Get(key: string): (s: Stored)
      reads this
    {
      Lookup(items, key)
    }

    /** `loadCollectionsData`: the stored document when it is usable;
        otherwise the default, which is written back first. Either way the
        store afterwards holds exactly the document returned. */
    method LoadCollectionsData() returns (d: CollectionsData)
      modifies this
      ensures old(DecodeCollections(Get(CollectionsKey))).Some? ==>
                d == old(DecodeCollections(Get(CollectionsKey))).value && items == old(items)
      ensures old(DecodeCollections(Get(CollectionsKey))).None? ==>
                d == DefaultCollectionsData() && items == old(items)[CollectionsKey := Doc(CollectionsDoc(d))]
      ensures DecodeCollections(Get(CollectionsKey)) == Some(d)
      ensures d == LoadedCollections(old(items)) && items == AfterLoadCollections(old(items))
    {
      var raw := Get(CollectionsKey);
      if raw == Absent || raw == Blank {
        d := DefaultCollectionsData();
        items := items[CollectionsKey := Doc(CollectionsDoc(d))];
      } else if raw.Doc? && raw.value.CollectionsDoc? {
        d := raw.value.doc;
      } else {
        // the parse failed, or the value is falsy or has no `collections` array
        d := DefaultCollectionsData();
        items := items[CollectionsKey := Doc(CollectionsDoc(d))];
      }
    }

    /** `saveCollectionsData`: overwrites the record, last writer wins. */
    method SaveCollectionsData(d: CollectionsData)
      modifies this
      ensures items == old(items)[CollectionsKey := Doc(CollectionsDoc(d))]
      ensures DecodeCollections(Get(CollectionsKey)) == Some(d)
    {
      items := items[CollectionsKey := Doc(CollectionsDoc(d))];
    }

    /** `loadBestScores`: never writes; an unusable record reads as no
        best scores at all. */
    method LoadBestScores() returns (scores: map<string, int>)
      ensures scores == DecodeBestScores(Get(BestScoresKey))
      ensures Get(BestScoresKey).Doc? && Get(BestScoresKey).value.ScoresDoc? ==> scores == Get(BestScoresKey).value.scores
      ensures Get(BestScoresKey) in {Absent, Blank, Malformed, Doc(Falsy)} ==> scores == map[]
    {
      var raw := Get(BestScoresKey);
      if raw == Absent || raw == Blank {
        scores := map[];
      } else if raw.Doc? && raw.value.ScoresDoc? {
        scores := raw.value.scores;
      } else {
        scores := map[];
      }
    }

    /** `saveBestScores`: overwrites the record. */
    method SaveBestScores(scores: map<string, int>)
      modifies this
      ensures items == old(items)[BestScoresKey := Doc(ScoresDoc(scores))]
      ensures DecodeBestScores(Get(BestScoresKey)) == scores
    {
      items := items[BestScoresKey := Doc(ScoresDoc(scores))];
    }
  }

  // ---------------------------------------------------------------------
  // The recovery policy, stated on the store's contents
  // ---------------------------------------------------------------------

  /** The document `loadCollectionsData` returns for given store contents. */
  function LoadedCollections(items: map<string, Stored>): (d: CollectionsData)
    ensures DecodeCollections(Lookup(items, CollectionsKey)).None? ==> d == DefaultCollectionsData()
    ensures DecodeCollections(Lookup(items, CollectionsKey)).Some? ==> Lookup(items, CollectionsKey) == Doc(CollectionsDoc(d))
  {
    match DecodeCollections(Lookup(items, CollectionsKey))
    case Some(doc) => doc
    case None => DefaultCollectionsData()
  }

  /** The store contents after `loadCollectionsData`. */
  function AfterLoadCollections(items: map<string, Stored>): (after: map<string, Stored>)
    ensures after.Keys == items.Keys + {CollectionsKey}
    ensures forall k :: k in items && k != CollectionsKey ==> after[k] == items[k]
  {
    if DecodeCollections(Lookup(items, CollectionsKey)).Some? then items
    else items[CollectionsKey := Doc(CollectionsDoc(DefaultCollectionsData()))]
  }

  /** A load on an absent, blank, unparsable or wrongly shaped record yields
      the default and stores it, so a second load yields the same default
      and writes nothing. */
  lemma LoadRecoversDefault(items: map<string, Stored>)
    requires Lookup(items, CollectionsKey) in {Absent, Blank, Malformed, Doc(Falsy), Doc(OtherTruthy)}
             || (Lookup(items, CollectionsKey).Doc? && Lookup(items, CollectionsKey).value.ScoresDoc?)
    ensures LoadedCollections(items) == DefaultCollectionsData()
    ensures AfterLoadCollections(items) == items[CollectionsKey := Doc(CollectionsDoc(DefaultCollectionsData()))]
    ensures LoadedCollections(AfterLoadCollections(items)) == DefaultCollectionsData()
    ensures AfterLoadCollections(AfterLoadCollections(items)) == AfterLoadCollections(items)
  {
  }

  /** Loading is stable: whatever the store held, loading again returns the
      same document and leaves the store as the first load left it. */
  lemma LoadIsStable(items: map<string, Stored>)
    ensures LoadedCollections(AfterLoadCollections(items)) == LoadedCollections(items)
    ensures AfterLoadCollections(AfterLoadCollections(items)) == AfterLoadCollections(items)
  {
  }

  /** Saving a document and loading it back returns that document and
      writes nothing more. */
  lemma SaveThenLoad(items: map<string, Stored>, d: CollectionsData)
    ensures LoadedCollections(items[CollectionsKey := Doc(CollectionsDoc(d))]) == d
    ensures AfterLoadCollections(items[CollectionsKey := Doc(CollectionsDoc(d))]) == items[CollectionsKey := Doc(CollectionsDoc(d))]
  {
  }

  /** Saving best scores and loading them back returns the same map. */
  lemma SaveThenLoadBestScores(items: map<string, Stored>, scores: map<string, int>)
    ensures DecodeBestScores(Lookup(items[BestScoresKey := Doc(ScoresDoc(scores))], BestScoresKey)) == scores
  {
  }
}
