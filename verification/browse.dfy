/** The flashcard browsing page: the collection list, the filtered and sorted
    card list of the selected collection, and the handlers that change them.
    Every handler is a pure transition from (store, view) to (store, view). */
module Browse {
  import opened Wrappers
  import opened Remote
  import Seqs
  import Sorting
  import Text
  import Flip

  /** A card as the page holds it: a stored document's fields together with its
      id, or a locally appended draft, which has no id. The date is a whole
      number; the page's fractional numbers are not modelled. */
  datatype Card = Card(id: Option<string>, front: string, back: string, date: Option<int>, thematic: Option<string>)

  datatype Draft = Draft(front: string, back: string)

  /** Who is signed in, and the `id` route parameter naming the open collection. */
  datatype Session = Session(user: Option<UserId>, selected: Option<string>)

  datatype View = View(
    collections: seq<Collection>,
    flashcards: seq<Card>,
    flipped: Flip.Flips,
    searchQuery: string,
    sortOrder: string,
    newFlashcard: Draft,
    newCollectionName: string)

  /** Done: the store call succeeded and the view mirrors it. Skipped: a guard
      returned early. Failed: a store call threw, or could not be issued. */
  datatype Outcome = Done | Skipped | Failed

  datatype Step = Step(store: Store, view: View, outcome: Outcome)

  const EmptyDraft := Draft("", "")

  /** JavaScript truthiness of a string that may be null: present and non-empty. */
  predicate Present(s: Option<string>) {
    s.Some? && s.value != ""
  }

  /** The view shows user `u`'s stored collection list. */
  ghost predicate Mirrors(store: Store, view: View, u: UserId) {
    u in store.users ==> view.collections == Listed(store.users[u])
  }

  // ---------------------------------------------------------------- collections

  /** Loading the collection list when the signed-in user becomes known. */
  function LoadCollections(store: Store, view: View, user: Option<UserId>, link: Link): (r: View)
    ensures r == view.(collections := r.collections)
    ensures r.collections != view.collections ==> user.Some? && link.Reachable? && user.value in store.users
    ensures user.Some? && link.Reachable? ==> Mirrors(store, r, user.value)
  {
    if user.Some? && link.Reachable? && user.value in store.users then
      view.(collections := Listed(store.users[user.value]))
    else view
  }

  /** The collection list without the entries named `name`. */
  function RemoveNamed(list: seq<Collection>, name: string): (r: seq<Collection>)
    ensures forall c :: c in r <==> c in list && c.name != name
    ensures forall c: Collection :: c.name != name ==> multiset(r)[c] == multiset(list)[c]
    ensures Seqs.IsSubsequence(r, list)
    ensures (forall c :: c in list ==> c.name != name) ==> r == list
  {
    var keep := (c: Collection) => c.name != name;
    var r := Seqs.Filter(list, keep);
    Seqs.FilterMembers(list, keep);
    r
  }

  /** Deleting collection `name`: every entry so named leaves the stored list
      and the view; the collection's cards stay in the store. */
  function HandleDeleteCollection(store: Store, view: View, user: Option<UserId>, name: string, link: Link): (r: Step)
    ensures r.outcome != Done ==> r.store == store && r.view == view
    ensures r.outcome == Done <==>
      user.Some? && link.Reachable? && user.value in store.users && store.users[user.value].flashcards.Some?
    ensures r.outcome == Done ==>
      var before := store.users[user.value].flashcards.value;
      && r.view == view.(collections := r.view.collections)
      && r.store == SetCollections(store, user.value, r.view.collections)
      && (forall c :: c in r.view.collections <==> c in before && c.name != name)
      && (forall c: Collection :: c.name != name ==> multiset(r.view.collections)[c] == multiset(before)[c])
      && Seqs.IsSubsequence(r.view.collections, before)
      && ((forall c :: c in before ==> c.name != name) ==> r.view.collections == before)
    ensures r.store.subs == store.subs
  {
    if user.None? then Step(store, view, Skipped)
    else if link.Unreachable? then Step(store, view, Failed)
    else if user.value !in store.users then Step(store, view, Skipped)
    else if store.users[user.value].flashcards.None? then Step(store, view, Failed)
    else
      var updated := RemoveNamed(store.users[user.value].flashcards.value, name);
      Step(SetCollections(store, user.value, updated), view.(collections := updated), Done)
  }

  /** Creating the collection typed into the dialog: appended without any
      duplicate check; nothing happens when the user record is missing. */
  function HandleCreateCollection(store: Store, view: View, user: Option<UserId>, link: Link): (r: Step)
    ensures r.outcome != Done ==> r.store == store && r.view == view
    ensures r.outcome == Done <==>
      && user.Some? && view.newCollectionName != "" && link.Reachable?
      && user.value in store.users && store.users[user.value].flashcards.Some?
    ensures r.outcome == Done ==>
      var before := store.users[user.value].flashcards.value;
      && r.view.collections == before + [Collection(view.newCollectionName)]
      && r.store == SetCollections(store, user.value, r.view.collections)
      && r.view == view.(collections := r.view.collections, newCollectionName := "")
  {
    var name := view.newCollectionName;
    if user.None? || name == "" then Step(store, view, Skipped)
    else if link.Unreachable? then Step(store, view, Failed)
    else if user.value !in store.users then Step(store, view, Skipped)
    else if store.users[user.value].flashcards.None? then Step(store, view, Failed)
    else
      var updated := store.users[user.value].flashcards.value + [Collection(name)];
      Step(SetCollections(store, user.value, updated), view.(collections := updated, newCollectionName := ""), Done)
  }

  // ---------------------------------------------------------------- cards

  function FromStore(sc: StoredCard): Card {
    Card(Some(sc.id), sc.data.front, sc.data.back, sc.data.date, sc.data.thematic)
  }

  /** The documents of a sub-collection as the page reads them, in query order. */
  function Loaded(docs: seq<StoredCard>): seq<Card> {
    seq(|docs|, i requires 0 <= i < |docs| => FromStore(docs[i]))
  }

  /** The search test: the lower-cased query occurs in the lower-cased front or back. */
  predicate Matches(query: string, c: Card) {
    || Text.Contains(Text.Lower(c.front), Text.Lower(query))
    || Text.Contains(Text.Lower(c.back), Text.Lower(query))
  }

  /** The search filter keeps exactly the matching cards, in their loaded order. */
  function FilterCards(query: string, cards: seq<Card>): (r: seq<Card>)
    ensures Seqs.IsSubsequence(r, cards)
    ensures forall c :: c in r <==> c in cards && Matches(query, c)
    ensures forall c :: multiset(r)[c] == if Matches(query, c) then multiset(cards)[c] else 0
  {
    var keep := (c: Card) => Matches(query, c);
    var r := Seqs.Filter(cards, keep);
    Seqs.FilterMembers(cards, keep);
    r
  }

  /** A card is kept exactly when the query is a substring of its front or back,
      ignoring case. */
  lemma MatchesIffSubstring(query: string, c: Card)
    ensures Matches(query, c) <==>
      || (exists k :: Text.OccursAt(Text.Lower(c.front), Text.Lower(query), k))
      || (exists k :: Text.OccursAt(Text.Lower(c.back), Text.Lower(query), k))
  {
    Text.ContainsIffOccurs(Text.Lower(c.front), Text.Lower(query));
    Text.ContainsIffOccurs(Text.Lower(c.back), Text.Lower(query));
  }

  /** An empty search box shows every loaded card, in order. */
  lemma EmptyQueryKeepsAll(cards: seq<Card>)
    ensures FilterCards("", cards) == cards
  {
    forall i | 0 <= i < |cards|
      ensures Matches("", cards[i])
    {
      Text.ContainsEmpty(Text.Lower(cards[i].front));
    }
  }

  /** Date order: the first card's date is not after the second's. A missing date
      makes the page's date difference NaN, which the sort reads as "not less"
      either way. */
  predicate DateLe(a: Card, b: Card) {
    if a.date.Some? && b.date.Some? then a.date.value <= b.date.value else true
  }

  /** The thematic key, with a missing thematic read as the empty string. */
  function ThematicKey(c: Card): string {
    c.thematic.GetOr("")
  }

  /** The comparator chosen by the sort order; `collate(x, y)` holds when the
      host's locale comparison places x no later than y. */
  function Comparator(order: string, collate: (string, string) -> bool): (Card, Card) -> bool {
    if order == "date" then DateLe
    else if order == "thematic" then (a: Card, b: Card) => collate(ThematicKey(a), ThematicKey(b))
    else (a: Card, b: Card) => collate(a.front, b.front)
  }

  /** Every dated card in `cards` carries a date. */
  ghost predicate AllDated(cards: seq<Card>) {
    forall c | c in cards :: c.date.Some?
  }

  /** The comparator is total whenever the collation is; it is a total preorder
      on any list when the collation is one and, for date order, every card is dated. */
  lemma ComparatorOrders(order: string, collate: (string, string) -> bool, cards: seq<Card>)
    requires Sorting.Total(collate)
    ensures Sorting.TotalOn(Comparator(order, collate), cards)
    ensures Sorting.Transitive(collate) && (order == "date" ==> AllDated(cards)) ==>
      Sorting.TransitiveOn(Comparator(order, collate), cards)
  {
    var le := Comparator(order, collate);
    if order == "date" {
      assert forall a, b :: le(a, b) == DateLe(a, b);
    } else if order == "thematic" {
      forall a, b
        ensures le(a, b) == collate(ThematicKey(a), ThematicKey(b))
        ensures le(a, b) || le(b, a)
      {
        assert collate(ThematicKey(a), ThematicKey(b)) || collate(ThematicKey(b), ThematicKey(a));
      }
    } else {
      forall a, b
        ensures le(a, b) == collate(a.front, b.front)
        ensures le(a, b) || le(b, a)
      {
        assert collate(a.front, b.front) || collate(b.front, a.front);
      }
    }
  }

  /** The list the page shows: the search filter, then the chosen sort. */
  function DisplayList(query: string, order: string, collate: (string, string) -> bool, loaded: seq<Card>): (r: seq<Card>)
    ensures multiset(r) == multiset(FilterCards(query, loaded))
    ensures forall c :: c in r <==> c in loaded && Matches(query, c)
  {
    var filtered := FilterCards(query, loaded);
    var r := Sorting.SortBy(filtered, Comparator(order, collate));
    assert forall c :: c in r <==> c in multiset(r);
    assert forall c :: c in filtered <==> c in multiset(filtered);
    r
  }

  /** Adjacent displayed cards are in order under the chosen key, and with a
      transitive collation (and dated cards, for date order) every pair is. */
  lemma DisplayListSorted(query: string, order: string, collate: (string, string) -> bool, loaded: seq<Card>)
    ensures Sorting.Total(collate) ==>
      Sorting.Sorted(DisplayList(query, order, collate, loaded), Comparator(order, collate))
    ensures Sorting.Total(collate) && Sorting.Transitive(collate) && (order == "date" ==> AllDated(loaded)) ==>
      var r := DisplayList(query, order, collate, loaded);
      forall i, j :: 0 <= i < j < |r| ==> Comparator(order, collate)(r[i], r[j])
  {
    if Sorting.Total(collate) {
      var filtered := FilterCards(query, loaded);
      var le := Comparator(order, collate);
      var r := DisplayList(query, order, collate, loaded);
      ComparatorOrders(order, collate, filtered);
      Sorting.SortBySorted(filtered, le);
      if Sorting.Transitive(collate) && (order == "date" ==> AllDated(loaded)) {
        assert forall c | c in r :: c in loaded;
        ComparatorOrders(order, collate, r);
        Sorting.SortedPairwise(r, le);
      }
    }
  }

  /** Cards already in order under the chosen key are shown in their loaded order. */
  lemma DisplayListInOrder(query: string, order: string, collate: (string, string) -> bool, loaded: seq<Card>)
    ensures Sorting.Sorted(FilterCards(query, loaded), Comparator(order, collate)) ==>
      DisplayList(query, order, collate, loaded) == FilterCards(query, loaded)
  {
    var filtered := FilterCards(query, loaded);
    if Sorting.Sorted(filtered, Comparator(order, collate)) {
      Sorting.SortBySortedInput(filtered, Comparator(order, collate));
    }
  }

  /** Cards that carry neither a thematic nor a date tie under those orders, so
      sorting by either shows them in their loaded order. */
  lemma UntaggedKeepLoadOrder(query: string, order: string, collate: (string, string) -> bool, loaded: seq<Card>)
    requires || (order == "thematic" && collate("", "") && forall c | c in loaded :: c.thematic.None?)
             || (order == "date" && forall c | c in loaded :: c.date.None?)
    ensures DisplayList(query, order, collate, loaded) == FilterCards(query, loaded)
  {
    var filtered := FilterCards(query, loaded);
    var le := Comparator(order, collate);
    forall a, b | a in loaded && b in loaded
      ensures le(a, b)
    {
      if order == "date" {
        assert le(a, b) == DateLe(a, b);
      } else {
        assert ThematicKey(a) == "" && ThematicKey(b) == "";
        assert le(a, b) == collate(ThematicKey(a), ThematicKey(b));
      }
    }
    forall i | 0 < i < |filtered|
      ensures le(filtered[i - 1], filtered[i])
    {
      assert filtered[i - 1] in loaded && filtered[i] in loaded;
    }
    DisplayListInOrder(query, order, collate, loaded);
  }

  /** Stability on the page: among the shown cards that tie with a shown card
      `k` under the chosen key, the loaded order is kept. */
  lemma DisplayListStable(query: string, order: string, collate: (string, string) -> bool, loaded: seq<Card>, k: Card)
    requires k in FilterCards(query, loaded)
    requires Sorting.TotalPreorder(collate)
    requires order == "date" ==> AllDated(loaded)
    ensures Sorting.TiedWith(DisplayList(query, order, collate, loaded), Comparator(order, collate), k)
         == Sorting.TiedWith(FilterCards(query, loaded), Comparator(order, collate), k)
  {
    var filtered := FilterCards(query, loaded);
    ComparatorOrders(order, collate, filtered);
    Sorting.SortByStable(filtered, Comparator(order, collate), k);
  }

  /** The sub-collection of the open collection. */
  function OpenPath(session: Session): CardPath
    requires session.user.Some? && session.selected.Some?
  {
    CardPath(session.user.value, session.selected.value)
  }

  /** Reloading the card list whenever the user, the collection, the search
      text or the sort order changes; flip flags are kept, by position. */
  function LoadFlashcards(store: Store, view: View, session: Session, link: Link, collate: (string, string) -> bool): (r: View)
    ensures r == view.(flashcards := r.flashcards)
    ensures session.user.None? || !Present(session.selected) || link.Unreachable? ==> r == view
    ensures session.user.Some? && Present(session.selected) && link.Reachable? ==>
      var loaded := Loaded(CardsAt(store, OpenPath(session)));
      && multiset(r.flashcards) == multiset(FilterCards(view.searchQuery, loaded))
      && (forall c :: c in r.flashcards <==> c in loaded && Matches(view.searchQuery, c))
      && (Sorting.Total(collate) ==> Sorting.Sorted(r.flashcards, Comparator(view.sortOrder, collate)))
      && (Sorting.Sorted(FilterCards(view.searchQuery, loaded), Comparator(view.sortOrder, collate)) ==>
            r.flashcards == FilterCards(view.searchQuery, loaded))
  {
    if session.user.Some? && Present(session.selected) && link.Reachable? then
      var loaded := Loaded(CardsAt(store, OpenPath(session)));
      DisplayListSorted(view.searchQuery, view.sortOrder, collate, loaded);
      DisplayListInOrder(view.searchQuery, view.sortOrder, collate, loaded);
      view.(flashcards := DisplayList(view.searchQuery, view.sortOrder, collate, loaded))
    else view
  }

  /** Clicking the card at position `i` flips that card only. */
  function HandleCardClick(view: View, i: nat): (r: View)
    ensures Flip.Flag(r.flipped, i) == !Flip.Flag(view.flipped, i)
    ensures forall j :: j != i ==> Flip.Flag(r.flipped, j) == Flip.Flag(view.flipped, j)
    ensures r == view.(flipped := r.flipped)
  {
    view.(flipped := Flip.Toggle(view.flipped, i))
  }

  /** Deleting card `cardId` of the open collection from the store and from the
      page; a card appended locally has no id, and a missing id cannot name a
      document, so that call fails. */
  function HandleDeleteFlashcard(store: Store, view: View, session: Session, cardId: Option<string>, link: Link): (r: Step)
    ensures r.outcome != Done ==> r.store == store && r.view == view
    ensures r.outcome == Done <==>
      session.user.Some? && Present(session.selected) && Present(cardId) && link.Reachable?
    ensures r.outcome == Done ==>
      var p := OpenPath(session);
      && r.store.users == store.users
      && (forall c :: c in CardsAt(r.store, p) <==> c in CardsAt(store, p) && c.id != cardId.value)
      && (forall c: StoredCard :: c.id != cardId.value ==> multiset(CardsAt(r.store, p))[c] == multiset(CardsAt(store, p))[c])
      && (forall q :: q != p ==> CardsAt(r.store, q) == CardsAt(store, q))
      && r.view == view.(flashcards := r.view.flashcards)
      && (forall c :: c in r.view.flashcards <==> c in view.flashcards && c.id != cardId)
      && (forall c: Card :: c.id != cardId ==> multiset(r.view.flashcards)[c] == multiset(view.flashcards)[c])
      && Seqs.IsSubsequence(r.view.flashcards, view.flashcards)
  {
    if session.user.None? || !Present(session.selected) then Step(store, view, Skipped)
    else if !Present(cardId) || link.Unreachable? then Step(store, view, Failed)
    else
      var keep := (c: Card) => c.id != cardId;
      var kept := Seqs.Filter(view.flashcards, keep);
      Seqs.FilterMembers(view.flashcards, keep);
      Step(DeleteCard(store, OpenPath(session), cardId.value), view.(flashcards := kept), Done)
  }

  /** The copy appended to the page: the draft's front and back, with no id
      yet and no date or thematic. */
  function DraftCard(d: Draft): Card {
    Card(None, d.front, d.back, None, None)
  }

  /** Adding the drafted card to the open collection: one document written
      under the id the store assigns, the draft appended locally, the draft cleared. */
  function HandleCreateFlashcard(store: Store, view: View, session: Session, newId: string, link: Link): (r: Step)
    ensures r.outcome != Done ==> r.store == store && r.view == view
    ensures r.outcome == Done <==>
      && session.user.Some? && Present(session.selected)
      && view.newFlashcard.front != "" && view.newFlashcard.back != "" && link.Reachable?
    ensures r.outcome == Done ==>
      var p := OpenPath(session);
      var written := StoredCard(newId, CardData(view.newFlashcard.front, view.newFlashcard.back, None, None));
      && r.store.users == store.users
      && written in CardsAt(r.store, p)
      && (forall c :: c in CardsAt(r.store, p) && c != written ==> c in CardsAt(store, p))
      && (forall c: StoredCard :: c.id != newId ==> multiset(CardsAt(r.store, p))[c] == multiset(CardsAt(store, p))[c])
      && ((forall c :: c in CardsAt(store, p) ==> c.id != newId) ==> CardsAt(r.store, p) == CardsAt(store, p) + [written])
      && (forall q :: q != p ==> CardsAt(r.store, q) == CardsAt(store, q))
      && r.view.flashcards == view.flashcards + [DraftCard(view.newFlashcard)]
      && r.view.flashcards[|view.flashcards|].id.None?
      && r.view == view.(flashcards := r.view.flashcards, newFlashcard := EmptyDraft)
  {
    var d := view.newFlashcard;
    if session.user.None? || !Present(session.selected) || d.front == "" || d.back == "" then Step(store, view, Skipped)
    else if link.Unreachable? then Step(store, view, Failed)
    else
      Step(PutCard(store, OpenPath(session), newId, CardData(d.front, d.back, None, None)),
           view.(flashcards := view.flashcards + [DraftCard(d)], newFlashcard := EmptyDraft),
           Done)
  }

  // ---------------------------------------------------------------- lemmas

  /** Creating and deleting a collection keep the view mirroring the store. */
  lemma CollectionHandlersKeepMirror(store: Store, view: View, u: UserId, name: string, link: Link)
    requires Mirrors(store, view, u)
    ensures var r := HandleCreateCollection(store, view, Some(u), link); Mirrors(r.store, r.view, u)
    ensures var r := HandleDeleteCollection(store, view, Some(u), name, link); Mirrors(r.store, r.view, u)
  {
  }

  /** Deleting a collection a second time changes nothing more. */
  lemma DeleteCollectionIdempotent(store: Store, view: View, u: UserId, name: string, link: Link)
    ensures
      var r1 := HandleDeleteCollection(store, view, Some(u), name, link);
      var r2 := HandleDeleteCollection(r1.store, r1.view, Some(u), name, link);
      r2.store == r1.store && r2.view == r1.view
  {
    var r1 := HandleDeleteCollection(store, view, Some(u), name, link);
    if r1.outcome == Done {
      var before := store.users[u].flashcards.value;
      Seqs.FilterIdempotent(before, (c: Collection) => c.name != name);
    }
  }

  /** Deleting a collection just created under a new name restores the stored
      list and the displayed list. */
  lemma CreateThenDeleteCollection(store: Store, view: View, u: UserId, link: Link)
    requires HandleCreateCollection(store, view, Some(u), link).outcome == Done
    requires forall c :: c in store.users[u].flashcards.value ==> c.name != view.newCollectionName
    ensures
      var r1 := HandleCreateCollection(store, view, Some(u), link);
      var r2 := HandleDeleteCollection(r1.store, r1.view, Some(u), view.newCollectionName, link);
      && r2.store == store
      && r2.view.collections == store.users[u].flashcards.value
  {
    var before := store.users[u].flashcards.value;
    var name := view.newCollectionName;
    var r1 := HandleCreateCollection(store, view, Some(u), link);
    assert r1.store == SetCollections(store, u, before + [Collection(name)]);
    DeleteCollectionStep(r1.store, r1.view, u, name, link);
    RemoveAppended(before, name);
    SetCollectionsRestores(store, u, before + [Collection(name)]);
  }

  /** The delete handler on a readable record with a list, in one step. */
  lemma DeleteCollectionStep(store: Store, view: View, u: UserId, name: string, link: Link)
    requires link.Reachable? && u in store.users && store.users[u].flashcards.Some?
    ensures
      var updated := RemoveNamed(store.users[u].flashcards.value, name);
      HandleDeleteCollection(store, view, Some(u), name, link)
        == Step(SetCollections(store, u, updated), view.(collections := updated), Done)
  {
  }

  /** Writing a list over a record and then writing the record's own list back
      restores the store. */
  lemma SetCollectionsRestores(store: Store, u: UserId, list: seq<Collection>)
    requires u in store.users && store.users[u].flashcards.Some?
    ensures SetCollections(SetCollections(store, u, list), u, store.users[u].flashcards.value) == store
  {
    assert store.users[u := UserDoc(store.users[u].flashcards)] == store.users;
  }

  lemma RemoveAppended(before: seq<Collection>, name: string)
    requires forall c :: c in before ==> c.name != name
    ensures RemoveNamed(before + [Collection(name)], name) == before
  {
    var keep := (c: Collection) => c.name != name;
    Seqs.FilterConcat(before, [Collection(name)], keep);
    assert Seqs.Filter([Collection(name)], keep) == [];
    assert Seqs.Filter(before, keep) == before;
  }

  /** The page's create path does not keep names unique: creating a name that is
      already listed leaves two entries with it. */
  lemma CreateCollectionAdmitsDuplicates(store: Store, view: View, u: UserId, link: Link)
    requires HandleCreateCollection(store, view, Some(u), link).outcome == Done
    requires Collection(view.newCollectionName) in store.users[u].flashcards.value
    ensures multiset(HandleCreateCollection(store, view, Some(u), link).view.collections)[Collection(view.newCollectionName)] >= 2
  {
  }

  /** Deleting a card just created removes the stored document again, but the
      page keeps its local copy, which has no id to match. */
  lemma CreateThenDeleteFlashcard(store: Store, view: View, session: Session, newId: string, link: Link)
    requires HandleCreateFlashcard(store, view, session, newId, link).outcome == Done
    requires newId != ""
    requires forall c :: c in CardsAt(store, OpenPath(session)) ==> c.id != newId
    requires forall c :: c in view.flashcards ==> c.id != Some(newId)
    ensures
      var r1 := HandleCreateFlashcard(store, view, session, newId, link);
      var r2 := HandleDeleteFlashcard(r1.store, r1.view, session, Some(newId), link);
      && r2.outcome == Done
      && CardsAt(r2.store, OpenPath(session)) == CardsAt(store, OpenPath(session))
      && r2.view.flashcards == view.flashcards + [DraftCard(view.newFlashcard)]
  {
    var r1 := HandleCreateFlashcard(store, view, session, newId, link);
    CreatedDocumentDeleted(store, view, session, newId, link);
    var shown := view.flashcards + [DraftCard(view.newFlashcard)];
    assert r1.view.flashcards == shown;
    assert forall i :: 0 <= i < |shown| ==> shown[i] in view.flashcards || shown[i] == DraftCard(view.newFlashcard);
    DeleteUnshownKeepsPage(r1.store, r1.view, session, Some(newId), link);
  }

  /** The page half of the above: a delete whose id no shown card carries
      leaves the shown list as it was. */
  lemma DeleteUnshownKeepsPage(store: Store, view: View, session: Session, cardId: Option<string>, link: Link)
    requires forall i :: 0 <= i < |view.flashcards| ==> view.flashcards[i].id != cardId
    ensures HandleDeleteFlashcard(store, view, session, cardId, link).view.flashcards == view.flashcards
  {
  }

  /** The store half of the above: the delete drops exactly the created document. */
  lemma CreatedDocumentDeleted(store: Store, view: View, session: Session, newId: string, link: Link)
    requires HandleCreateFlashcard(store, view, session, newId, link).outcome == Done
    requires forall c :: c in CardsAt(store, OpenPath(session)) ==> c.id != newId
    ensures
      var r1 := HandleCreateFlashcard(store, view, session, newId, link);
      CardsAt(DeleteCard(r1.store, OpenPath(session), newId), OpenPath(session)) == CardsAt(store, OpenPath(session))
  {
    var p := OpenPath(session);
    var before := CardsAt(store, p);
    var written := StoredCard(newId, CardData(view.newFlashcard.front, view.newFlashcard.back, None, None));
    var r1 := HandleCreateFlashcard(store, view, session, newId, link);
    assert CardsAt(r1.store, p) == before + [written];
    WithoutAppended(before, newId, written.data);
  }
}
