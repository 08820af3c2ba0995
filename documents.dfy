/** The flashcard documents the study tool keeps: cards, collections of
    cards, and the collections document that is persisted as one record. */
module Documents {

  datatype Card = Card(id: string, question: string, answer: string)

  datatype Collection = Collection(id: string, title: string, cards: seq<Card>)

  /** `{ collections: [...] }`, the unit of persistence for flashcards. */
  datatype CollectionsData = CollectionsData(collections: seq<Collection>)

  /** The document written when the stored one is absent or unusable: one
      seeded collection, `html-basics`, with two cards. */
  function DefaultCollectionsData(): (d: CollectionsData)
    ensures |d.collections| == 1
    ensures d.collections[0].id == "html-basics" && |d.collections[0].cards| == 2
  {
    CollectionsData([
      Collection("html-basics", "HTML Basics", [
        Card("c1", "Quelle balise pour un paragraphe ?", "<p>"),
        Card("c2", "Balise pour image ?", "<img>")
      ])
    ])
  }
}
