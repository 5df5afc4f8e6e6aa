# MemorAIze flashcards — a Dafny model of the page logic

MemorAIze is a web front-end for studying AI-generated flashcards. Two pages
hold its logic:

- The browsing page (`app/flashcards/page.js`) lists a user's collections and creates or deletes them. For the open collection it loads the cards, filters them by a search text and sorts them by a chosen key. It also flips, adds and deletes single cards.
- The generation page (`app/generate/page.js`) chooses the input for a generation request and takes the answer. It asks for a recommended topic. It saves the generated cards as a new collection in one atomic batch.

This project models both pages as pure state transitions. A handler takes the
remote store, the page's view state and its inputs. It returns the new store,
the new view and an outcome. The model's parts are:

- The remote document store is `Remote.Store`. It holds one record per user, with an optional `flashcards` list of `{name}` entries, and one ordered list of card documents per (user, collection).
- Each store call is given a `Link`. An unreachable store stands for any thrown call. Such a call changes neither the store nor the view.
- The signed-in user is an `Option<UserId>`.
- The text extractors, the generation endpoint, the id generator and the collation are function parameters.

Modules: `Wrappers` (Option), `Seqs` (order-preserving filter and
subsequences), `Sorting` (stable insertion sort over an abstract comparator),
`Text` (ASCII case folding, substring search, joining and splitting names,
code-point collation), `Flip` (position-keyed flip flags), `Remote` (the store,
its writes and batch commit), `Browse` (the browsing page) and `Generate` (the
generation page).

In these places the model follows what the code does:

- Creating a collection on the browsing page has no duplicate-name check. `Browse.CreateCollectionAdmitsDuplicates` shows that a duplicate entry results. Only the generation page's save checks for duplicates.
- Deleting a collection removes every entry with that name, not exactly one.
- Loading collections when the user record is absent leaves the shown list as it was. It does not explicitly reset the list to empty.
- Sorting by date with a card that has no date subtracts `undefined`, which gives NaN. Where such cards end up is engine-defined; nothing moves them to the front or the back.
- `saveFlashcard` has no signed-in guard. Without a user, `user.id` throws before any write, so the outcome is `NoSession` and nothing is written.
- A record whose `flashcards` field is missing makes two handlers throw: the browse delete (`.filter` of undefined) and the browse create (spreading undefined). Both end `Failed` with no change. The readers fall back to an empty list instead.
- Deleting a card that was appended locally passes an `undefined` id. The store client cannot build a document reference from it, so the call fails and nothing changes.

## Model

| member | source | states |
|---|---|---|
| Browse.LoadCollections | app/flashcards/page.js:38-51 | Only the collection list changes. It changes only for a signed-in user whose record exists and could be read. Afterwards the view mirrors the stored list, with a missing field read as empty. |
| Browse.FilterCards | app/flashcards/page.js:66-69 | The filtered list is a subsequence of the loaded cards. A card is kept exactly when it matches the search, and each kept card keeps its number of occurrences. |
| Browse.MatchesIffSubstring | app/flashcards/page.js:66-69 | A card matches iff the lower-cased query occurs at some position of the lower-cased front or of the lower-cased back. |
| Browse.EmptyQueryKeepsAll | app/flashcards/page.js:66-69 | An empty search text keeps every loaded card, in order. |
| Browse.ComparatorOrders | app/flashcards/page.js:71-81 | The comparator picked by `sortOrder` (date, thematic with missing read as "", front otherwise) is total when the collation is. It is transitive on a list when the collation is transitive and, for date order, every card is dated. |
| Browse.DisplayList | app/flashcards/page.js:60-83 | The displayed list is a permutation of the filtered cards and holds exactly the loaded cards that match. |
| Browse.DisplayListSorted | app/flashcards/page.js:71-81 | Under a total collation, adjacent displayed cards are non-decreasing under the chosen key. With a total preorder (and dated cards for date order), every pair is ordered. |
| Browse.LoadFlashcards | app/flashcards/page.js:53-86 | Without a user, an open collection or a reachable store, nothing changes. Otherwise only the card list is replaced, by a permutation of the open collection's matching cards, adjacently ordered by the chosen key whenever the collation is total. When the matching cards are already in order under the key, they are shown in their loaded order. The flip flags are kept. |
| Browse.DisplayListInOrder | app/flashcards/page.js:60-83 | Matching cards that are already in order under the chosen key are shown exactly in their loaded order. |
| Browse.UntaggedKeepLoadOrder | app/flashcards/page.js:71-81 | Sorting by thematic when no card has a thematic, or by date when no card has a date, shows the matching cards in their loaded order. |
| Browse.DisplayListStable | app/flashcards/page.js:71-81 | Under a total-preorder collation (and dated cards for date order), the shown cards that tie with any one shown card keep their loaded order. |
| Browse.HandleCardClick | app/flashcards/page.js:92-97 | The flag at the clicked position is negated, with a missing key read as false. Every other position reads as before, and nothing else in the view changes. |
| Flip.Toggle | app/flashcards/page.js:93-96 | Negates the flag at one key, keeps every other key's flag, and adds only that key. |
| Flip.ToggleTwice | app/flashcards/page.js:92-97 | Two clicks at one position read back as no click. The map is unchanged when the key was already present. |
| Browse.HandleDeleteFlashcard | app/flashcards/page.js:142-154 | The delete succeeds iff a user, an open collection, a non-empty card id and a reachable store are all present, and otherwise nothing changes. On success the store loses exactly the documents with that id in the open collection and keeps every other document with its count, and no other collection changes. The page drops every card with that id and keeps every other card, with its count, in order. |
| Browse.RemoveNamed | app/flashcards/page.js:167 | Removes every entry with the name and keeps the others with their counts, as a subsequence. An absent name leaves the list unchanged. |
| Browse.HandleDeleteCollection | app/flashcards/page.js:156-175 | Without a user or a readable record, nothing changes. Otherwise the stored and shown lists both become the old stored list minus every entry with the name: every other entry keeps its count and order, and an absent name changes nothing. The collection's cards stay in the store. |
| Browse.DeleteCollectionIdempotent | app/flashcards/page.js:156-175 | Deleting the same name again changes neither the store nor the view. |
| Browse.HandleCreateFlashcard | app/flashcards/page.js:185-199 | The create succeeds iff a user, an open collection, a non-empty front and back and a reachable store are all present, and otherwise nothing changes. On success one document with the store's id holds the draft. Every other document of the collection keeps its count, and other collections are untouched. The page list becomes exactly the old list plus the draft's front and back with no id, date or thematic, and the draft is cleared. |
| Browse.CreateThenDeleteFlashcard | app/flashcards/page.js:142-199 | Deleting a just-created card by its new id restores the stored documents. The page still shows the appended copy, because that copy has no id. |
| Browse.HandleCreateCollection | app/flashcards/page.js:209-230 | Nothing changes without a user, with an empty name, with an unreachable store or with an absent record. Otherwise the stored and shown lists become the old list plus `{name}`, with no duplicate check, and the draft name is cleared. |
| Browse.CollectionHandlersKeepMirror | app/flashcards/page.js:156-230 | Create and delete keep the shown list equal to the user's stored list. |
| Browse.CreateThenDeleteCollection | app/flashcards/page.js:156-230 | Creating a new name and then deleting it restores the store exactly, and the view shows the original list. |
| Browse.CreateCollectionAdmitsDuplicates | app/flashcards/page.js:218-223 | Creating a name that is already listed leaves at least two entries with that name. |
| Generate.SelectInput | app/generate/page.js:122-133 | `fileType` is set iff the input type is not "topic" and a file is present, and then it equals the input type. The data is the extracted text for "word" or "image" with a file, and the typed text otherwise. Selection fails iff the needed extraction rejects. |
| Generate.ApplyResponse | app/generate/page.js:143-148 | A reply carrying `flashcards` (even an empty list) replaces the generated list. Any other reply leaves the page unchanged. |
| Generate.ApplyResponseReplaces | app/generate/page.js:143-148 | A reply with cards discards whatever an earlier reply left, rather than adding to it. A reply without cards keeps what the earlier one left. |
| Generate.HandleSubmit | app/generate/page.js:122-150 | A request is sent iff input selection succeeds, so only a rejected extraction stops it, and then the page stays as it was. The request's data and file type are exactly the selected input, its other fields are the page's settings, and only the generated list can change, by the reply. |
| Generate.HandleCardClick | app/generate/page.js:152-157 | Same single-position negation as the browsing page. No other flag or field changes. |
| Generate.TopicsFor | app/generate/page.js:98-105 | The topics string is empty when the record is absent or lists nothing. It is the one name when exactly one is listed. |
| Generate.TopicsRoundTrip | app/generate/page.js:98-100 | Splitting the topics string at ", " gives back the stored names in order, for a non-empty list whose names do not contain ", ". |
| Generate.FetchRecommendedTopic | app/generate/page.js:88-109 | A query is sent iff there is a user and the record read succeeds, and it is that user's topics string ("" when the record is absent). Only the recommended topic changes, and only to the endpoint's answer; an answer without a topic counts as the empty topic, which hides the recommendation. |
| Generate.SaveFlashcard | app/generate/page.js:166-198 | An empty name writes nothing. Without a signed-in user, or when the record read fails, nothing is written, and these are the only such outcomes. An existing record already listing the name writes nothing. Otherwise the batch is the extended name list (old list plus `{name}`, or just `{name}`) followed by one card write per generated card, N+1 writes in all. The store changes only when the whole batch commits, and then the page redirects to the new collection. |
| Generate.SaveEffect | app/generate/page.js:176-195 | After a committed save with fresh, distinct ids, the user record lists old plus `{name}`. The new collection's documents are the old ones plus exactly the generated cards, in order. No other user or collection changes. |
| Generate.SaveEffectOnNames | app/generate/page.js:176-187 | After a committed save the user record holds the old list (or none) extended by `{name}`, and every other user record is as before. |
| Generate.SaveEffectOnCards | app/generate/page.js:189-195 | After a committed save with fresh, distinct ids, the new collection's documents are the old ones plus exactly the generated cards, in order, and no other collection changes. |
| Generate.SaveAlerts | app/generate/page.js:166-181 | The missing-name alert shows exactly when the name is empty. The duplicate alert shows exactly when the user's existing record already lists the name. No alert shows otherwise. |
| Generate.SaveKeepsNamesUnique | app/generate/page.js:176-187 | Because of the duplicate check, a committed save keeps collection names unique. |
| Remote.PutCard | app/flashcards/page.js:191-192 | Writing a card document leaves exactly that document under its id, keeps every other document of the collection with its count, and touches nothing else. A fresh id appends. |
| Remote.DeleteCard | app/flashcards/page.js:148-149 | Deleting a card document removes exactly the documents with that id, keeps the others in order with their counts, and touches nothing else. A missing id changes nothing. |
| Remote.SetCollections | app/flashcards/page.js:169 | Writing the list sets that user's record and leaves every other record and every card document alone. |
| Remote.CommitFreshCards | app/generate/page.js:189-195 | Committing card writes with fresh, distinct ids appends exactly those documents, in order, to the one collection. It changes no user record and no other collection. |
| Remote.CommitCardsKeepUsers | app/generate/page.js:189-195 | Card writes never change a user record. |
| Seqs.Filter | app/flashcards/page.js:167 | Keeps the elements passing the test with their counts, drops the rest, preserves order, and changes nothing when all pass. |
| Sorting.SortBy | app/flashcards/page.js:71-81 | The sorted list is a permutation of its input. |
| Sorting.SortBySortedInput | app/flashcards/page.js:71-81 | A list already in order comes back unchanged. |
| Sorting.SortByStable | app/flashcards/page.js:71-81 | The sort is stable: with a comparator transitive on the input, the elements that tie with any element of the input keep their input order. |
| Sorting.SortBySorted | app/flashcards/page.js:71-81 | The sort's output is adjacently ordered whenever the comparator is total on its elements. |
| Sorting.SortedPairwise | app/flashcards/page.js:71-81 | With transitivity, adjacent order gives order between every pair. |
| Text.ContainsIffOccurs | app/flashcards/page.js:67-68 | The substring test holds exactly when the needle occurs at some position. |
| Text.SplitJoin | app/generate/page.js:100 | Joining with ", " and splitting again returns the original parts, for a non-empty list of separator-free parts. |
| Text.CodePointLeTotalPreorder | app/flashcards/page.js:77-79 | Lexicographic code-point order on strings is a total preorder, so it is one collation that meets the sort's requirement. |

## Left out

- The hosted store, the sign-in provider, `fetch` and the generation service are outside the model. They become the `Store` value, an optional user id, `Link` parameters and function parameters (`service`, `recommend`, `autoId`).
- Text extraction from Word documents and images is done by foreign libraries. It is modelled as the `Extractors` functions, which return None when extraction rejects.
- The exact `localeCompare` order is host-library behaviour. It is the `collate` parameter, and the model needs only totality and, for pairwise order, transitivity. `Text.CodePointLe` (code-point order, which differs from JavaScript's UTF-16 code-unit order beyond U+FFFF) is one concrete choice.
- `toLowerCase` is modelled on ASCII letters only. Unicode case mapping is host behaviour.
- Browse.DisplayListSorted: when dated and undated cards are mixed under date sorting, the order is left unstated. The comparator returns NaN there, and the engine's order is then implementation-defined. The model reads NaN as "not less" both ways. It proves pairwise order and stability only when every card is dated, and load order when no card is dated.
- Dates are whole numbers. The page compares JavaScript numbers, and fractional dates are not modelled, because nothing the pages write carries a date.
- Speech synthesis, colour pickers, menu anchors, dialog open flags, audio and delete mode toggles, and the search and sort setters are simple UI assignments with no logic to state. So are the navigation on a collection click and the styling.
- Effects run in order in the model. Async interleaving and last-write-wins races between tabs are not modelled.
- When the page builds a card, a document field named `id` would override the document's own id. The model reads the id from the document only.
- Card documents without `front` or `back` make the filter throw. The model's card data always has both.
- The topics string is URL-encoded before it is sent. The model states the unencoded string.
- Documents come back in the store's query order. The model uses the stored sequence order.
