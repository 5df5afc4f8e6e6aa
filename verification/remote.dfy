/** The remote document store as the pages use it: one record per user holding
    the ordered list of collection names, and per (user, collection) a
    sub-collection of card documents keyed by a store-assigned id. */
module Remote {
  import opened Wrappers
  import Seqs

  type UserId = string

  datatype Collection = Collection(name: string)

  /** A card document's fields; `date` and `thematic` are optional. A date is a
      whole number (a timestamp); fractional dates are not modelled. */
  datatype CardData = CardData(front: string, back: string, date: Option<int>, thematic: Option<string>)

  datatype StoredCard = StoredCard(id: string, data: CardData)

  /** The user record; its `flashcards` field may be missing. */
  datatype UserDoc = UserDoc(flashcards: Option<seq<Collection>>)

  datatype CardPath = CardPath(user: UserId, collection: string)

  datatype Store = Store(users: map<UserId, UserDoc>, subs: map<CardPath, seq<StoredCard>>)

  /** Whether the store answers; an unanswered call throws and is caught or lost. */
  datatype Link = Reachable | Unreachable

  /** The list a reader sees: the record's list, or empty when the field is missing. */
  function Listed(d: UserDoc): seq<Collection> {
    d.flashcards.GetOr([])
  }

  /** The cards of one sub-collection; one never written to is empty. */
  function CardsAt(st: Store, p: CardPath): seq<StoredCard> {
    if p in st.subs then st.subs[p] else []
  }

  /** Writing `list` as the collection list of user `u`'s record. */
  function SetCollections(st: Store, u: UserId, list: seq<Collection>): (r: Store)
    ensures r.subs == st.subs
    ensures u in r.users && r.users[u] == UserDoc(Some(list))
    ensures forall v :: v != u ==> (v in r.users <==> v in st.users)
    ensures forall v :: v != u && v in st.users ==> r.users[v] == st.users[v]
  {
    st.(users := st.users[u := UserDoc(Some(list))])
  }

  /** The documents of a sub-collection other than the one with id `id`. */
  function WithoutId(cards: seq<StoredCard>, id: string): (r: seq<StoredCard>)
    ensures forall c :: c in r <==> c in cards && c.id != id
    ensures forall c: StoredCard :: c.id != id ==> multiset(r)[c] == multiset(cards)[c]
    ensures Seqs.IsSubsequence(r, cards)
    ensures (forall c :: c in cards ==> c.id != id) ==> r == cards
  {
    var keep := (c: StoredCard) => c.id != id;
    Seqs.FilterMembers(cards, keep);
    assert forall i :: 0 <= i < |cards| ==> cards[i] in cards;
    Seqs.Filter(cards, keep)
  }

  /** Dropping an id from a list that did not have it before the one appended
      document gives the list back. */
  lemma WithoutAppended(cards: seq<StoredCard>, id: string, data: CardData)
    requires forall c :: c in cards ==> c.id != id
    ensures WithoutId(cards + [StoredCard(id, data)], id) == cards
  {
    assert forall i :: 0 <= i < |cards| ==> cards[i] in cards;
    Seqs.FilterDropsAppended(cards, StoredCard(id, data), (c: StoredCard) => c.id != id);
  }

  /** Setting the card document `id` of sub-collection `p`: it replaces a
      document with that id, or adds one. */
  function PutCard(st: Store, p: CardPath, id: string, data: CardData): (r: Store)
    ensures r.users == st.users
    ensures forall q :: q != p ==> CardsAt(r, q) == CardsAt(st, q)
    ensures forall c :: c in CardsAt(r, p) <==> c == StoredCard(id, data) || (c in CardsAt(st, p) && c.id != id)
    ensures forall c: StoredCard :: c.id != id ==> multiset(CardsAt(r, p))[c] == multiset(CardsAt(st, p))[c]
    ensures (forall c :: c in CardsAt(st, p) ==> c.id != id) ==> CardsAt(r, p) == CardsAt(st, p) + [StoredCard(id, data)]
  {
    var kept := WithoutId(CardsAt(st, p), id);
    st.(subs := st.subs[p := kept + [StoredCard(id, data)]])
  }

  /** Deleting the card document `id` of sub-collection `p`; deleting a
      document that does not exist succeeds and changes nothing. */
  function DeleteCard(st: Store, p: CardPath, id: string): (r: Store)
    ensures r.users == st.users
    ensures forall q :: q != p ==> CardsAt(r, q) == CardsAt(st, q)
    ensures forall c :: c in CardsAt(r, p) <==> c in CardsAt(st, p) && c.id != id
    ensures forall c: StoredCard :: c.id != id ==> multiset(CardsAt(r, p))[c] == multiset(CardsAt(st, p))[c]
    ensures Seqs.IsSubsequence(CardsAt(r, p), CardsAt(st, p))
    ensures (forall c :: c in CardsAt(st, p) ==> c.id != id) ==> r == st
  {
    if p in st.subs then
      var kept := WithoutId(st.subs[p], id);
      st.(subs := st.subs[p := kept])
    else st
  }

  /** One write of a batch. */
  datatype Write =
    | PutCollections(user: UserId, list: seq<Collection>)
    | PutCardDoc(path: CardPath, id: string, data: CardData)

  function Apply(st: Store, w: Write): Store {
    match w
    case PutCollections(u, list) => SetCollections(st, u, list)
    case PutCardDoc(p, id, data) => PutCard(st, p, id, data)
  }

  /** Committing a batch applies all of its writes, in order, as one step. */
  function Commit(st: Store, batch: seq<Write>): Store
    decreases |batch|
  {
    if |batch| == 0 then st else Commit(Apply(st, batch[0]), batch[1..])
  }

  /** One card write per card, into sub-collection `p`, with the given ids. */
  function CardWrites(p: CardPath, ids: seq<string>, cards: seq<CardData>): (ws: seq<Write>)
    requires |ids| == |cards|
    ensures |ws| == |cards|
    ensures forall i :: 0 <= i < |ws| ==> ws[i] == PutCardDoc(p, ids[i], cards[i])
    decreases |cards|
  {
    if |cards| == 0 then [] else [PutCardDoc(p, ids[0], cards[0])] + CardWrites(p, ids[1..], cards[1..])
  }

  /** The documents the card writes create, in write order. */
  function StoredCards(ids: seq<string>, cards: seq<CardData>): (r: seq<StoredCard>)
    requires |ids| == |cards|
    ensures |r| == |cards|
    ensures forall i :: 0 <= i < |r| ==> r[i] == StoredCard(ids[i], cards[i])
    decreases |cards|
  {
    if |cards| == 0 then [] else [StoredCard(ids[0], cards[0])] + StoredCards(ids[1..], cards[1..])
  }

  ghost predicate Distinct(ids: seq<string>) {
    forall i, j :: 0 <= i < j < |ids| ==> ids[i] != ids[j]
  }

  /** The store with `extra` documents appended to sub-collection `p`. */
  function Appended(st: Store, p: CardPath, extra: seq<StoredCard>): (r: Store)
    ensures r.users == st.users
    ensures CardsAt(r, p) == CardsAt(st, p) + extra
    ensures forall q :: q != p ==> CardsAt(r, q) == CardsAt(st, q)
  {
    if |extra| == 0 then
      assert CardsAt(st, p) + extra == CardsAt(st, p);
      st
    else st.(subs := st.subs[p := CardsAt(st, p) + extra])
  }

  /** Writing a card under an id the collection does not use appends it. */
  lemma PutFresh(st: Store, p: CardPath, id: string, data: CardData)
    requires forall c | c in CardsAt(st, p) :: c.id != id
    ensures PutCard(st, p, id, data) == Appended(st, p, [StoredCard(id, data)])
  {
  }

  /** Committing card writes with fresh, distinct ids appends exactly those
      documents to the one sub-collection and touches nothing else. */
  lemma {:induction false} CommitFreshCards(st: Store, p: CardPath, ids: seq<string>, cards: seq<CardData>)
    requires |ids| == |cards|
    requires Distinct(ids)
    requires forall c | c in CardsAt(st, p) :: c.id !in ids
    ensures Commit(st, CardWrites(p, ids, cards)) == Appended(st, p, StoredCards(ids, cards))
    decreases |cards|
  {
    if |cards| > 0 {
      var before := CardsAt(st, p);
      var tail := ids[1..];
      var sc := StoredCard(ids[0], cards[0]);
      var added := StoredCards(tail, cards[1..]);
      assert ids[0] in ids;
      PutFresh(st, p, ids[0], cards[0]);
      var st' := Appended(st, p, [sc]);
      assert ids[0] !in tail && Distinct(tail) by {
        assert forall j :: 0 <= j < |tail| ==> tail[j] == ids[j + 1];
      }
      assert forall x | x in tail :: x in ids;
      CommitFreshCards(st', p, tail, cards[1..]);
      var ws := CardWrites(p, ids, cards);
      assert ws[0] == PutCardDoc(p, ids[0], cards[0]);
      assert ws[1..] == CardWrites(p, tail, cards[1..]);
      assert Commit(st, ws) == Commit(st', ws[1..]);
      assert StoredCards(ids, cards) == [sc] + added;
      AppendedTwice(st, p, [sc], added);
    }
  }

  lemma AppendedTwice(st: Store, p: CardPath, a: seq<StoredCard>, b: seq<StoredCard>)
    ensures Appended(Appended(st, p, a), p, b) == Appended(st, p, a + b)
  {
    if |a| == 0 {
      assert a + b == b;
    } else if |b| == 0 {
      assert a + b == a;
    } else {
      Seqs.AppendAssoc(CardsAt(st, p), a, b);
    }
  }

  /** Card writes never touch a user record. */
  lemma {:induction false} CommitCardsKeepUsers(st: Store, p: CardPath, ids: seq<string>, cards: seq<CardData>)
    requires |ids| == |cards|
    ensures Commit(st, CardWrites(p, ids, cards)).users == st.users
    decreases |cards|
  {
    if |cards| > 0 {
      var ws := CardWrites(p, ids, cards);
      assert ws[1..] == CardWrites(p, ids[1..], cards[1..]);
      CommitCardsKeepUsers(PutCard(st, p, ids[0], cards[0]), p, ids[1..], cards[1..]);
    }
  }
}
