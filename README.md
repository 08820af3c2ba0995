# Flashcards and quiz study tool — a Dafny model

The study tool is two browser pages that share one helper module.

- **Flashcards page.** The user creates named collections of question and
  answer cards. They open a collection and browse it one card at a time.
  They can flip a card, go to the next or previous card (the cursor wraps
  around), add cards and delete collections. The whole collections document
  is saved to the browser's key-value store after every change.
- **Quiz page.** The user picks a quiz from a read-only catalog and answers
  its text and true/false questions in order. A lock stops a question from
  being answered twice. At the end, the best score for that quiz is
  recorded in the store if it beats the previous one.
- **Helper module.** It makes collection ids from titles (`slugify`),
  escapes user text for HTML (`escapeHtml`), and puts free-text answers in
  a normal form (`normalizeTextAnswer`). It also loads and saves the two
  stored records. A missing or corrupt record falls back to a default.

Files:

- `wrappers.dfy`: `Option`.
- `search.dfy`: the first-match search by id that both pages use.
- `documents.dfy`: cards, collections, the collections document and the
  seeded default document.
- `text_utils.dfy`: `slugify`, `escapeHtml` and `normalizeTextAnswer` as
  chains of pure string functions, with shape, idempotence and fixed-point
  lemmas.
- `storage.dfy`: the store as a `Store` class holding a map from keys to
  stored records, the two load/save pairs as methods, and the recovery
  policy stated on the map's contents.
- `flashcards.dfy`: the page's module state as the class
  `FlashcardSession`, with one method per event handler. The cursor
  arithmetic and collection lookups are pure functions with their lemmas.
  The invariant `Valid()` says that when the open id resolves to a
  collection with cards, the cursor is on one of those cards. Every handler
  keeps it, so `renderCard`'s reset never fires after a handler.
- `quiz.dfy`: the answer-correctness rules and the best-score rule as pure
  functions, and the page's module state as the class `QuizSession`. Its
  invariant says the index stays on a question of the running quiz and the
  score never exceeds the questions passed plus the one just answered. It
  also says the best scores in memory are the ones the store holds.

A stored record is abstracted to what the loaders test about it:
absent, the empty string, text that `JSON.parse` rejects, or a parsed value.
A parsed value is classified as falsy, a collections document, a scores
object, or another truthy value.

## Model

| member | source | states |
|---|---|---|
| TextUtils.LowerChar | js/utils.js:10 | `A`-`Z` become `a`-`z` (code point plus 32); every other character is unchanged |
| TextUtils.Lower | js/utils.js:10 | `toLowerCase` maps each character on its own and leaves no upper-case letter behind |
| TextUtils.LowerAppend | js/utils.js:10 | lower-casing distributes over concatenation |
| TextUtils.TrimStart | js/utils.js:11 | the result does not start with white space (what it drops: TrimStartIsSuffix) |
| TextUtils.TrimEnd | js/utils.js:11 | the result does not end with white space, is no longer than the input and keeps its first character |
| TextUtils.Trim | js/utils.js:11 | the trimmed string neither starts nor ends with white space (what it keeps: TrimIsSlice) |
| TextUtils.TrimStartIsSuffix | js/utils.js:11 | the start trim returns a suffix of its input, and everything dropped is white space |
| TextUtils.TrimEndIsPrefix | js/utils.js:11 | the end trim returns a prefix of its input, and everything dropped is white space |
| TextUtils.TrimIsSlice | js/utils.js:11 | `trim` returns a slice `s[i..j]` of its input, with only white space before `i` and from `j` on |
| TextUtils.TrimKeepsChars | js/utils.js:11 | `trim` only removes characters: every character of the result is one of the input's |
| TextUtils.TrimFixesTrimmed | js/utils.js:11 | a string without white space at either end is its own `trim` |
| TextUtils.ReplaceRunsFrom | js/utils.js:12 | the scan behind `replace(/x+/g, rep)`; its properties are the ReplaceRuns lemmas below, with ReplaceRunsOneRun and ReplaceRunsBetween saying each maximal run becomes exactly one `rep` |
| TextUtils.ReplaceRuns | js/utils.js:14 | `replace(/x+/g, rep)` on a whole string, starting outside a run; used for js/utils.js:12, 14 and 27 |
| TextUtils.ReplaceRunsChars | js/utils.js:12 | after replacing runs, every character is either the replacement or an input character outside every run |
| TextUtils.ReplaceRunsNoAdjacent | js/utils.js:12 | when the replacement is itself in the run class, no two neighbouring characters of the result both belong to the class |
| TextUtils.ReplaceRunsRunCharsAreRep | js/utils.js:12 | after replacing runs, every character of the run class left in the result is the replacement |
| TextUtils.ReplaceRunsKeepsLast | js/utils.js:12 | a last character outside the run class stays last |
| TextUtils.ReplaceRunsFixes | js/utils.js:12-14 | a string whose run characters are lone copies of the replacement is unchanged by the replacement |
| TextUtils.ReplaceRunsAppend | js/utils.js:12 | replacing runs in a concatenation replaces them in each part, the second part starting inside a run exactly when the first ends in one |
| TextUtils.ReplaceRunsSplit | js/utils.js:12 | a character outside the run class stays in place and splits the replacement into two independent halves |
| TextUtils.ReplaceRunsOneRun | js/utils.js:12 | a whole maximal run becomes exactly one copy of the replacement (nothing more when it continues a run already replaced) |
| TextUtils.ReplaceRunsBetween | js/utils.js:12 | a non-empty run between two stretches without run characters becomes one replacement, and the stretches are untouched |
| TextUtils.Keep | js/utils.js:13 | `replace(/[^a-z0-9\-]/g, "")` as a filter: only accepted characters remain, nothing grows, and a string of accepted characters is unchanged |
| TextUtils.KeepOne | js/utils.js:13 | one character is kept exactly when it is accepted |
| TextUtils.KeepAppend | js/utils.js:13 | filtering a concatenation filters each part, so every accepted character is kept, in order |
| TextUtils.KeepNone | js/utils.js:13 | a string with no accepted character filters to the empty string |
| TextUtils.KeepKeep | js/utils.js:13 | filtering twice, by a looser and then a stricter class, is filtering once by the stricter class |
| TextUtils.KeepReplaceRuns | js/utils.js:12-14 | replacing runs of rejected characters by a rejected character keeps the accepted characters as they were |
| TextUtils.KeepTrimStart | js/utils.js:11 | dropping leading white space removes no character that a filter rejecting white space keeps |
| TextUtils.KeepTrimEnd | js/utils.js:11 | dropping trailing white space removes no character that a filter rejecting white space keeps |
| TextUtils.KeepTrim | js/utils.js:11 | `trim` removes no character that a filter rejecting white space keeps |
| TextUtils.Slugify | js/utils.js:8-15 | the five-stage chain; its properties are SlugifyIsSlug, SlugifyKeepsContent, SlugifyJoinsWords, SlugifyFixesSlugs and SlugifyIdempotent |
| TextUtils.SlugifyIsSlug | js/utils.js:8-15 | every slug uses only `a-z`, `0-9` and `-`, and never has two hyphens in a row |
| TextUtils.SlugifyKeepsContent | js/utils.js:8-15 | the slug holds exactly the letters and digits of the lower-cased title, in order; only separators change |
| TextUtils.SlugifyFixesSlugs | js/utils.js:8-15 | every stage of `slugify` leaves a string of that shape unchanged |
| TextUtils.WordsAroundRunTrimmed | js/utils.js:10-11 | words with no white space or capitals around a white-space run are unchanged by lower-casing and `trim` |
| TextUtils.HyphenJoinIsSlug | js/utils.js:8-15 | two alphanumeric words joined by one hyphen already have the shape of a slug |
| TextUtils.SlugifyJoinsWords | js/utils.js:8-15 | two lower-case alphanumeric words separated by any white-space run slugify to the words joined by one hyphen (`Hello World` style titles keep their word break) |
| TextUtils.SlugifyIdempotent | js/utils.js:8-15 | slugifying a slug gives the same slug |
| TextUtils.ReplaceChar | js/utils.js:19-23 | one `replaceAll` pass; a string without the character is unchanged |
| TextUtils.ReplaceCharAppend | js/utils.js:19-23 | `replaceAll` of one character distributes over concatenation |
| TextUtils.EscapeChar | js/utils.js:19-23 | each of `& < > " '` becomes an entity starting with `&`; no later character of an entity is `&`; any other character stays as is |
| TextUtils.EscapeHtml | js/utils.js:17-24 | the five passes in the source's order; its properties are EscapeHtmlIsSinglePass, EscapeHtmlIsEscaped and EscapeHtmlFixesPlain |
| TextUtils.EscapeHtmlOneChar | js/utils.js:17-24 | the five passes turn a one-character string into that character's entity and nothing more |
| TextUtils.EscapeHtmlIsSinglePass | js/utils.js:17-24 | because `&` is escaped first, the five sequential passes equal escaping each character once, so no entity is escaped twice |
| TextUtils.EscapeHtmlIsEscaped | js/utils.js:17-24 | the output holds no `<`, `>`, `"` or `'`, and every `&` in it starts one of the five entities |
| TextUtils.EscapeHtmlFixesPlain | js/utils.js:17-24 | a string without the five special characters is returned unchanged |
| TextUtils.NormalizeTextAnswer | js/utils.js:26-28 | the three-stage chain; its properties are NormalizeIsNormalized, NormalizeKeepsContent, NormalizeJoinsWords and NormalizeIdempotent |
| TextUtils.NormalizeIsNormalized | js/utils.js:26-28 | a normalized answer has no upper-case letter, no white space at either end, and its only white space is lone spaces |
| TextUtils.NormalizeFixesNormalized | js/utils.js:26-28 | a string already in that shape is its own normal form |
| TextUtils.KeepLower | js/utils.js:27 | lower-casing commutes with dropping white space |
| TextUtils.NormalizeKeepsContent | js/utils.js:26-28 | the normal form holds exactly the input's characters other than white space, lower-cased and in order, so answers that differ in more than case and spacing stay apart |
| TextUtils.NormalizeJoinsWords | js/utils.js:26-28 | two words without white space or capitals, separated by any white-space run, normalize to the words joined by one space, so `new york` and `newyork` stay apart |
| TextUtils.NormalizeIdempotent | js/utils.js:26-28 | normalizing twice is the same as normalizing once |
| Documents.DefaultCollectionsData | js/utils.js:30-41 | the default document has exactly one collection, `html-basics`, with two cards |
| Storage.DecodeCollections | js/utils.js:49-52 | a document is accepted exactly when the record parses to an object with a `collections` array |
| Storage.DecodeBestScores | js/utils.js:63-67 | a parsed scores object is returned; anything else reads as the empty map |
| Storage.Lookup | js/utils.js:44 | `getItem`: a written key reads as its record, a key never written reads as absent |
| Storage.Store.constructor | js/utils.js:44 | a store starts with the given records |
| Storage.Store.LoadCollectionsData | js/utils.js:43-57 | a usable stored document is returned and nothing is written; otherwise the default is written and returned; afterwards the store holds exactly the returned document; the result and new contents are LoadedCollections and AfterLoadCollections of the old contents |
| Storage.Store.SaveCollectionsData | js/utils.js:59-61 | only the collections record is overwritten, and it then decodes to the saved document |
| Storage.Store.LoadBestScores | js/utils.js:63-67 | returns the stored scores object; an absent, blank, unparsable or falsy record gives the empty map; nothing is written |
| Storage.Store.SaveBestScores | js/utils.js:69-71 | only the best-scores record is overwritten, and it then reads back as the saved map |
| Storage.LoadedCollections | js/utils.js:43-57 | the document a load returns for given store contents: the stored document when usable, the default otherwise |
| Storage.AfterLoadCollections | js/utils.js:43-57 | a load changes no record except the collections record, which exists afterwards |
| Storage.LoadRecoversDefault | js/utils.js:45-56 | an absent, blank, unparsable or wrongly shaped record loads as the default and stores it; a second load returns the same default and writes nothing |
| Storage.LoadIsStable | js/utils.js:43-57 | loading twice returns the same document as loading once, and the second load writes nothing |
| Storage.SaveThenLoad | js/utils.js:43-61 | a saved document loads back unchanged and the load writes nothing |
| Storage.SaveThenLoadBestScores | js/utils.js:63-71 | saved best scores load back unchanged |
| Search.FirstIndex | js/flashcards.js:119 | the position found holds the first element whose key is the id; none means no element has it (the `find` behind js/flashcards.js:119 and js/quiz.js:64) |
| Flashcards.FindCollection | js/flashcards.js:119 | the index found is the first collection with the id; no index means no collection has it |
| Flashcards.OpenCollection | js/flashcards.js:51 | the open collection is the FIRST collection with the open id; none resolves when there is no id or no collection has it |
| Flashcards.RemoveCollections | js/flashcards.js:148 | the `filter`; its properties are RemoveCollectionsMembers, RemoveCollectionsAppend and RemoveCollectionsAbsent |
| Flashcards.RemoveCollectionsMembers | js/flashcards.js:148 | after deletion the document holds exactly the collections it held whose id differs |
| Flashcards.RemoveCollectionsAppend | js/flashcards.js:148 | the filter keeps the order of the collections it keeps |
| Flashcards.RemoveCollectionsAbsent | js/flashcards.js:148 | deleting an id no collection has changes nothing |
| Flashcards.OpenCollectionAfterRemove | js/flashcards.js:148-151 | deleting one id leaves every other open id resolving to the same collection |
| Flashcards.FindCollectionAppend | js/flashcards.js:104 | appending a collection does not change an id that already resolved; an unresolved id resolves to the new collection exactly when it carries that id |
| Flashcards.FindCollectionSameIds | js/flashcards.js:122 | adding a card to a collection changes no lookup by id |
| Flashcards.NextIndex | js/flashcards.js:159 | the next index is within the cards |
| Flashcards.PrevIndex | js/flashcards.js:167 | the previous index is within the cards |
| Flashcards.NextIndexSteps | js/flashcards.js:159 | next moves one card on and wraps from the last card to the first |
| Flashcards.PrevIndexSteps | js/flashcards.js:167 | prev moves one card back and wraps from the first card to the last |
| Flashcards.NextPrevInverse | js/flashcards.js:156-170 | next and prev undo each other |
| Flashcards.AdvanceByWraps | js/flashcards.js:159 | `k <= n` presses of next from `i` land on `i + k`, wrapped at most once |
| Flashcards.NextCycles | js/flashcards.js:159 | `n` presses of next in a collection of `n` cards return to the starting card |
| Flashcards.CursorInRangeAppend | js/flashcards.js:104 | creating a collection keeps the cursor on a card of the open collection |
| Flashcards.CursorInRangeReplace | js/flashcards.js:122 | adding a card to a collection that is not open keeps the cursor on a card of the open collection |
| Flashcards.CursorInRangeRemove | js/flashcards.js:148 | deleting a collection that is not open keeps the cursor on a card of the open collection |
| Flashcards.FlashcardSession.constructor | js/flashcards.js:6-20 | the page starts with the loaded document, the store as the load left it, nothing open, cursor 0, not flipped |
| Flashcards.FlashcardSession.Save | js/flashcards.js:105 | the store's collections record becomes the current document |
| Flashcards.FlashcardSession.RenderCard | js/flashcards.js:71-81 | a cursor past the open collection's cards is reset to 0; otherwise it is kept; afterwards it is in range |
| Flashcards.FlashcardSession.RefreshUI | js/flashcards.js:50-61 | the cursor is reset to 0 exactly when the open id is non-empty, resolves to a collection with cards, and the cursor is past them; otherwise it is unchanged |
| Flashcards.FlashcardSession.CreateCollection | js/flashcards.js:96-109 | an empty trimmed title is rejected with nothing changed; otherwise a collection with id `slugify(title)-suffix`, the trimmed title and no cards is appended and saved; the cursor, flip state and open id are untouched |
| Flashcards.FlashcardSession.AddCard | js/flashcards.js:111-134 | empty trimmed fields or an unknown collection are rejected with nothing changed; otherwise only the chosen collection gains the card and the document is saved; if it is the open collection the cursor moves to the new card, unflipped, else the cursor and flip state are untouched |
| Flashcards.FlashcardSession.DeleteCollection | js/flashcards.js:144-153 | the document keeps exactly the collections with another id and is saved; the open id is cleared when it was the deleted one |
| Flashcards.FlashcardSession.OpenCollectionById | js/flashcards.js:64-69 | opening sets the id, puts the cursor on the first card, unflipped, and keeps the document |
| Flashcards.FlashcardSession.NextCard | js/flashcards.js:156-162 | with no open collection or no cards nothing changes; else the cursor moves to the next index and the card shows its question |
| Flashcards.FlashcardSession.PrevCard | js/flashcards.js:164-170 | with no open collection or no cards nothing changes; else the cursor moves to the previous index and the card shows its question |
| Flashcards.FlashcardSession.Flip | js/flashcards.js:172-183 | flipping toggles the face shown and changes nothing else; the cursor stays in range |
| Flashcards.SeededScenario | js/flashcards.js:6-175 | on a fresh store, opening the seeded collection and pressing next twice visits card 1 and comes back to card 0 |
| Quiz.AnswerText | js/quiz.js:137 | `String(value)`: a typed answer is its own text; a button press reads as `"true"` or `"false"` |
| Quiz.AnswerTruth | js/quiz.js:143 | `Boolean(value)`: a button press is its own value; a typed answer is true when not empty |
| Quiz.IsCorrect | js/quiz.js:133-144 | a question of any other type is never answered correctly; the text and true/false rules are TextAnswerCorrectIff and TrueFalseCorrectIff |
| Quiz.NormalizeAll | js/quiz.js:138 | each accepted answer is put in normal form, position by position |
| Quiz.TextAnswerCorrectIff | js/quiz.js:136-140 | a text answer is correct exactly when some accepted answer has the same normal form; with no accepted answers nothing is correct |
| Quiz.TrueFalseCorrectIff | js/quiz.js:142-144 | a true/false answer is correct exactly when its truth value equals the question's |
| Quiz.CorrectnessIgnoresForm | js/quiz.js:136-140 | for a text question, typing the normal form of an answer is judged the same as typing the answer |
| Quiz.RecordBest | js/quiz.js:174-178 | the quiz's best becomes the score when there was none or the score beats it; other quizzes are untouched; no best ever decreases |
| Quiz.RecordBestChangesIff | js/quiz.js:175 | the best scores change exactly when there was no best or the score strictly beats it |
| Quiz.RecordBestIdempotent | js/quiz.js:174-178 | finishing the same quiz again with the same score records nothing new |
| Quiz.FindQuiz | js/quiz.js:64 | the quiz found is the FIRST catalog quiz with the id; none found means no quiz has it |
| Quiz.QuizSession.constructor | js/quiz.js:20-26 | the page starts with the catalog, the best scores decoded from the store, no quiz, index 0, score 0, unlocked |
| Quiz.QuizSession.RenderQuestion | js/quiz.js:77-79 | showing a question unlocks answering |
| Quiz.QuizSession.StartQuiz | js/quiz.js:62-75 | the looked-up quiz becomes current even when missing; a missing quiz is rejected with index, score and lock untouched; otherwise index and score reset to 0, unlocked |
| Quiz.QuizSession.CheckAnswer | js/quiz.js:129-157 | a locked question ignores the answer; otherwise the lock is set and the score grows by one exactly when the answer is correct; index, quiz and best scores are untouched |
| Quiz.QuizSession.FinishQuiz | js/quiz.js:170-178 | the best scores follow the best-score rule and are saved exactly when they changed, so a store that held the in-memory scores still does |
| Quiz.QuizSession.NextQuestion | js/quiz.js:159-168 | with no quiz nothing changes; before the last question the index moves on and answering unlocks; on the last question the quiz finishes with a score of at most its question count; no stored best ever decreases, and the store keeps holding the in-memory scores |
| Quiz.ParisScenario | js/quiz.js:136-140 | `"  PARIS"` is a correct answer when `"Paris"` is accepted |
| Quiz.TrueFalseScenario | js/quiz.js:129-157 | answering false to a true question scores nothing, and a second answer is ignored |
| Quiz.UnknownQuizScenario | js/quiz.js:62-65 | starting a quiz the catalog does not have is rejected and leaves no quiz running |

## Left out

- Page rendering (the lists, the select, the card face, progress, feedback and the final panel) is not modelled. Only the state each handler leaves behind is. `escapeHtml` is modelled on its own and not traced into the markup.
- `alert` and `confirm` are not modelled. A rejected handler returns an outcome value instead. `DeleteCollection` models the path where the user confirms; a declined confirmation changes nothing.
- Event wiring is not modelled: the element lookups, the form resets, the Enter key handler, and `preventDefault`. The handlers are called directly, with the form values as parameters.
- `loadQuizzes` (a `fetch` of the catalog file) is not modelled. The catalog is a constructor parameter, and its failure alert is left out.
- The browser store, `JSON.stringify` and `JSON.parse` are abstracted by the `Stored` and `Value` datatypes. Serialisation is taken as a faithful round trip. The elements of a loaded `collections` array are not checked, because the source does not check them either.
- The random parts of ids (`Math.random` in the new-collection handler, and `uid`) are a `suffix` parameter. Ids are not claimed to be unique.
- `toLowerCase` is modelled on ASCII letters only. Other Unicode case mappings are left out.
- `showBestScore` and `updateBestScoreLine` only write text to the page and are left out.
- Storage.DecodeBestScores: when the record parses to a truthy value that is not a scores object (an array, a string, a number), the source returns that value as is. The model returns the empty map, because the best-score map only has meaning for scores objects.
- Storage.Store.LoadBestScores: the same gap as Storage.DecodeBestScores, which it returns.
- Quiz.QuizSession.constructor: it requires every catalog quiz to have at least one question. The source reads `questions[qIndex]` without checking, so an empty quiz is outside what it handles.
- Quiz.QuizSession.CheckAnswer: with no running quiz the source sets the lock and then throws when it reads the question. The model sets the lock and returns `NoCurrentQuiz`.
- Quiz.IsCorrect: `acceptedAnswers` is modelled as an optional list of strings. Other truthy non-array values and non-string elements are not modelled. `Boolean(q.correct)` is modelled as a boolean field.
- Quiz.QuizSession.FinishQuiz: a stored best of `null` is not modelled. The map holds only numbers, so a missing key stands for `== null`.
- Quiz.RecordBest: the best scores are a plain JavaScript object, so a quiz id that names an inherited property (`constructor`, `toString`, `__proto__`) reads as a function or object, never as `null` or a number. For such an id the source records and saves nothing. The model treats it as a missing key, and records and saves the score.
- Quiz.QuizSession.FinishQuiz: the same gap as Quiz.RecordBest, for quiz ids that name inherited object properties.
- The restart button after a quiz calls `startQuiz` with whatever the select then shows. That is `StartQuiz` with that id.
