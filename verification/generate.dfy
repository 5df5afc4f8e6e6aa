/** The generation page: choosing the input for the generation request,
    taking its answer, the recommended-topic query, and saving the generated
    cards as a new collection in one atomic batch. */
module Generate {
  import opened Wrappers
  import opened Remote
  import Text
  import Flip

  /** An uploaded file, opaque to the page. */
  datatype Upload = Upload(bytes: seq<int>)

  /** The text-extraction collaborators: a document reader for "word" files and
      an OCR engine for "image" files; None when extraction rejects. */
  datatype Extractors = Extractors(word: Upload -> Option<string>, image: Upload -> Option<string>)

  /** What the submission sends as `data`, and its `fileType` (null when None). */
  datatype Input = Input(data: string, fileType: Option<string>)

  /** The JSON body posted to the generation endpoint. The card count is the
      number picked in the count selector (5, 10, 15 or 20; 10 at first),
      passed through untouched. */
  datatype Request = Request(
    data: string,
    lang: string,
    numFlashcards: nat,
    difficulty: string,
    answerType: string,
    fileType: Option<string>)

  /** The endpoint's decoded answer, or no answer at all. */
  datatype Response = Reply(flashcards: Option<seq<CardData>>, error: Option<string>) | NoReply

  datatype GenView = GenView(
    flashcards: seq<CardData>,
    flipped: Flip.Flips,
    text: string,
    name: string,
    numFlashcards: nat,
    answerType: string,
    difficulty: string,
    lang: string,
    inputType: string,
    file: Option<Upload>,
    recommendedTopic: string)

  /** The input of a submission: the typed text unless a file was chosen for a
      non-topic input, in which case `fileType` is the input type and, for a
      document or an image, the data is the text extracted from the file. */
  function SelectInput(inputType: string, file: Option<Upload>, text: string, ex: Extractors): (r: Option<Input>)
    ensures r.None? <==>
      || (inputType == "word" && file.Some? && ex.word(file.value).None?)
      || (inputType == "image" && file.Some? && ex.image(file.value).None?)
    ensures r.Some? ==> (r.value.fileType.Some? <==> inputType != "topic" && file.Some?)
    ensures r.Some? && r.value.fileType.Some? ==> r.value.fileType.value == inputType
    ensures r.Some? && !(file.Some? && inputType in {"word", "image"}) ==> r.value.data == text
    ensures r.Some? && file.Some? && inputType == "word" ==> ex.word(file.value) == Some(r.value.data)
    ensures r.Some? && file.Some? && inputType == "image" ==> ex.image(file.value) == Some(r.value.data)
  {
    if inputType != "topic" && file.Some? then
      if inputType == "word" then
        match ex.word(file.value)
        case None => None
        case Some(t) => Some(Input(t, Some(inputType)))
      else if inputType == "image" then
        match ex.image(file.value)
        case None => None
        case Some(t) => Some(Input(t, Some(inputType)))
      else Some(Input(text, Some(inputType)))
    else Some(Input(text, None))
  }

  /** Taking the endpoint's answer: a `flashcards` field, even an empty list,
      replaces the generated cards; anything else leaves the page as it was. */
  function ApplyResponse(view: GenView, resp: Response): (r: GenView)
    ensures r == view.(flashcards := r.flashcards)
    ensures resp.Reply? && resp.flashcards.Some? ==> r.flashcards == resp.flashcards.value
    ensures r.flashcards != view.flashcards ==> resp.Reply? && resp.flashcards.Some?
  {
    if resp.Reply? && resp.flashcards.Some? then view.(flashcards := resp.flashcards.value) else view
  }

  /** An answer with cards replaces what earlier answers left, rather than
      adding to it; an answer without cards keeps what the earlier one left. */
  lemma ApplyResponseReplaces(view: GenView, first: Response, second: Response)
    ensures second.Reply? && second.flashcards.Some? ==>
      ApplyResponse(ApplyResponse(view, first), second) == ApplyResponse(view, second)
    ensures !(second.Reply? && second.flashcards.Some?) ==>
      ApplyResponse(ApplyResponse(view, first), second) == ApplyResponse(view, first)
  {
  }

  datatype Submitted = Submitted(request: Option<Request>, view: GenView)

  /** Submitting: select the input, post it with the page's settings, take the answer. */
  function HandleSubmit(view: GenView, ex: Extractors, service: Request -> Response): (r: Submitted)
    ensures r.view == view.(flashcards := r.view.flashcards)
    ensures r.request.None? ==> r.view == view
    ensures r.request.Some? <==> SelectInput(view.inputType, view.file, view.text, ex).Some?
    ensures r.request.Some? ==>
      SelectInput(view.inputType, view.file, view.text, ex).value == Input(r.request.value.data, r.request.value.fileType)
    ensures r.request.Some? ==>
      var q := r.request.value;
      && q.lang == view.lang && q.numFlashcards == view.numFlashcards
      && q.difficulty == view.difficulty && q.answerType == view.answerType
      && (q.fileType.Some? <==> view.inputType != "topic" && view.file.Some?)
      && (q.fileType.None? ==> q.data == view.text)
      && r.view == ApplyResponse(view, service(q))
  {
    match SelectInput(view.inputType, view.file, view.text, ex)
    case None => Submitted(None, view)
    case Some(input) =>
      var q := Request(input.data, view.lang, view.numFlashcards, view.difficulty, view.answerType, input.fileType);
      Submitted(Some(q), ApplyResponse(view, service(q)))
  }

  /** Clicking the generated card at position `i` flips that card only. */
  function HandleCardClick(view: GenView, i: nat): (r: GenView)
    ensures Flip.Flag(r.flipped, i) == !Flip.Flag(view.flipped, i)
    ensures forall j :: j != i ==> Flip.Flag(r.flipped, j) == Flip.Flag(view.flipped, j)
    ensures r == view.(flipped := r.flipped)
  {
    view.(flipped := Flip.Toggle(view.flipped, i))
  }

  // ---------------------------------------------------------------- topics

  function Names(list: seq<Collection>): (r: seq<string>)
    ensures |r| == |list|
    ensures forall i :: 0 <= i < |list| ==> r[i] == list[i].name
  {
    seq(|list|, i requires 0 <= i < |list| => list[i].name)
  }

  /** The stored collection list of `u`, or none when the record is missing. */
  function ListedFor(store: Store, u: UserId): seq<Collection> {
    if u in store.users then Listed(store.users[u]) else []
  }

  /** The `topics` query value: the user's collection names joined by ", ". */
  function TopicsFor(store: Store, u: UserId): (r: string)
    ensures |ListedFor(store, u)| == 0 ==> r == ""
    ensures |ListedFor(store, u)| == 1 ==> r == ListedFor(store, u)[0].name
  {
    Text.Join(Names(ListedFor(store, u)))
  }

  /** The query carries every name, in stored order: splitting it at the
      separator gives the names back whenever no name contains ", ". */
  lemma TopicsRoundTrip(store: Store, u: UserId)
    requires |ListedFor(store, u)| > 0
    requires forall c :: c in ListedFor(store, u) ==> Text.FreeOfSep(c.name)
    ensures Text.Split(TopicsFor(store, u)) == Names(ListedFor(store, u))
  {
    var names := Names(ListedFor(store, u));
    assert forall i :: 0 <= i < |names| ==> ListedFor(store, u)[i] in ListedFor(store, u);
    Text.SplitJoin(names);
  }

  datatype Fetched = Fetched(query: Option<string>, view: GenView)

  /** Asking for a recommended topic once the user is known; `recommend` is the
      endpoint, None when it gives no answer. An answer without a recommended
      topic is Some(""): the page then stores an empty value and hides the
      recommendation box, which shows only for a non-empty topic. */
  function FetchRecommendedTopic(store: Store, view: GenView, user: Option<UserId>, link: Link,
                                 recommend: string -> Option<string>): (r: Fetched)
    ensures r.query.Some? <==> user.Some? && link.Reachable?
    ensures r.query.Some? ==> r.query.value == TopicsFor(store, user.value)
    ensures r.query.Some? && user.value !in store.users ==> r.query.value == ""
    ensures r.view == view.(recommendedTopic := r.view.recommendedTopic)
    ensures r.query.None? ==> r.view == view
    ensures r.query.Some? && recommend(r.query.value).Some? ==> r.view.recommendedTopic == recommend(r.query.value).value
    ensures r.query.Some? && recommend(r.query.value).None? ==> r.view == view
  {
    if user.None? || link.Unreachable? then Fetched(None, view)
    else
      var topics := TopicsFor(store, user.value);
      match recommend(topics)
      case None => Fetched(Some(topics), view)
      case Some(t) => Fetched(Some(topics), view.(recommendedTopic := t))
  }

  // ---------------------------------------------------------------- saving

  datatype SaveOutcome = NameMissing | NoSession | ReadFailed | NameTaken | CommitFailed | Committed

  /** The alert the page raises for an outcome. */
  function AlertText(o: SaveOutcome): Option<string> {
    match o
    case NameMissing => Some("Please enter a name")
    case NameTaken => Some("Flashcard collection with the same name already exists.")
    case _ => None
  }

  /** Some entry of the list carries the name. */
  predicate HasName(list: seq<Collection>, name: string) {
    exists c :: c in list && c.name == name
  }

  /** The ids the store hands out for the batch's new card documents. */
  function CardIds(autoId: nat -> string, n: nat): (ids: seq<string>)
    ensures |ids| == n
    ensures forall i :: 0 <= i < n ==> ids[i] == autoId(i)
  {
    seq(n, i requires 0 <= i < n => autoId(i))
  }

  /** The batch built for a save: the extended name list, then one write per card. */
  datatype Saved = Saved(outcome: SaveOutcome, batch: seq<Write>, store: Store, redirect: Option<string>)

  /** Saving the generated cards as collection `view.name`. `read` is the
      user-record read, `commit` the batch commit; `autoId(i)` is the id the
      store assigns to the i-th new card document. */
  function SaveFlashcard(store: Store, view: GenView, user: Option<UserId>, autoId: nat -> string,
                         read: Link, commit: Link): (r: Saved)
    ensures r.outcome != Committed ==> r.store == store && r.redirect.None?
    ensures r.outcome == NameMissing <==> view.name == ""
    ensures r.outcome == NoSession <==> view.name != "" && user.None?
    ensures r.outcome == ReadFailed <==> view.name != "" && user.Some? && read.Unreachable?
    ensures r.outcome == NameTaken <==>
      && view.name != "" && user.Some? && read.Reachable?
      && user.value in store.users && HasName(Listed(store.users[user.value]), view.name)
    ensures r.outcome in {NameMissing, NoSession, ReadFailed, NameTaken} ==> r.batch == []
    ensures r.outcome in {CommitFailed, Committed} ==> user.Some? && view.name != "" && read.Reachable?
    ensures r.outcome in {CommitFailed, Committed} ==>
      var u := user.value;
      && !HasName(ListedFor(store, u), view.name)
      && |r.batch| == |view.flashcards| + 1
      && r.batch[0] == PutCollections(u, ListedFor(store, u) + [Collection(view.name)])
      && (forall i :: 0 <= i < |view.flashcards| ==>
            r.batch[i + 1] == PutCardDoc(CardPath(u, view.name), autoId(i), view.flashcards[i]))
    ensures r.outcome == Committed <==> r.outcome in {CommitFailed, Committed} && commit.Reachable?
    ensures r.outcome == Committed ==> r.store == Commit(store, r.batch) && r.redirect == Some(view.name)
  {
    var name := view.name;
    if name == "" then Saved(NameMissing, [], store, None)
    else if user.None? then Saved(NoSession, [], store, None)
    else if read.Unreachable? then Saved(ReadFailed, [], store, None)
    else
      var u := user.value;
      var listed := ListedFor(store, u);
      if u in store.users && HasName(listed, name) then Saved(NameTaken, [], store, None)
      else
        var ids := CardIds(autoId, |view.flashcards|);
        var batch := [PutCollections(u, listed + [Collection(name)])] + CardWrites(CardPath(u, name), ids, view.flashcards);
        if commit.Reachable? then Saved(Committed, batch, Commit(store, batch), Some(name))
        else Saved(CommitFailed, batch, store, None)
  }

  /** A committed save lists the new name after the old ones (alone, when the
      user had no record), adds exactly the generated cards to the new
      collection's documents, and touches nothing else. */
  lemma SaveEffect(store: Store, view: GenView, u: UserId, autoId: nat -> string, read: Link, commit: Link)
    requires SaveFlashcard(store, view, Some(u), autoId, read, commit).outcome == Committed
    requires Distinct(CardIds(autoId, |view.flashcards|))
    requires forall c | c in CardsAt(store, CardPath(u, view.name)) :: c.id !in CardIds(autoId, |view.flashcards|)
    ensures
      var st := SaveFlashcard(store, view, Some(u), autoId, read, commit).store;
      var p := CardPath(u, view.name);
      && u in st.users
      && st.users[u] == UserDoc(Some(ListedFor(store, u) + [Collection(view.name)]))
      && (forall v :: v != u ==> (v in st.users <==> v in store.users))
      && (forall v :: v != u && v in store.users ==> st.users[v] == store.users[v])
      && CardsAt(st, p) == CardsAt(store, p) + StoredCards(CardIds(autoId, |view.flashcards|), view.flashcards)
      && (forall q :: q != p ==> CardsAt(st, q) == CardsAt(store, q))
  {
    SaveEffectOnNames(store, view, u, autoId, read, commit);
    SaveEffectOnCards(store, view, u, autoId, read, commit);
  }

  /** A committed save's store: the name-list write, then the card writes. */
  lemma SaveCommitsBatch(store: Store, view: GenView, u: UserId, autoId: nat -> string, read: Link, commit: Link)
    requires SaveFlashcard(store, view, Some(u), autoId, read, commit).outcome == Committed
    ensures SaveFlashcard(store, view, Some(u), autoId, read, commit).store ==
      Commit(SetCollections(store, u, ListedFor(store, u) + [Collection(view.name)]),
             CardWrites(CardPath(u, view.name), CardIds(autoId, |view.flashcards|), view.flashcards))
  {
    var head := PutCollections(u, ListedFor(store, u) + [Collection(view.name)]);
    var cardWrites := CardWrites(CardPath(u, view.name), CardIds(autoId, |view.flashcards|), view.flashcards);
    var batch := [head] + cardWrites;
    assert batch[0] == head && batch[1..] == cardWrites;
    assert SaveFlashcard(store, view, Some(u), autoId, read, commit).store == Commit(store, batch);
  }

  /** The page raises the missing-name alert exactly when the name is empty,
      the duplicate alert exactly when the user's existing record already lists
      the name, and no alert otherwise. */
  lemma SaveAlerts(store: Store, view: GenView, user: Option<UserId>, autoId: nat -> string, read: Link, commit: Link)
    ensures
      var alert := AlertText(SaveFlashcard(store, view, user, autoId, read, commit).outcome);
      && (alert == Some("Please enter a name") <==> view.name == "")
      && (alert == Some("Flashcard collection with the same name already exists.") <==>
            && view.name != "" && user.Some? && read.Reachable?
            && user.value in store.users && HasName(Listed(store.users[user.value]), view.name))
      && (alert.None? <==>
            view.name != "" && !(user.Some? && read.Reachable? && user.value in store.users
                                 && HasName(Listed(store.users[user.value]), view.name)))
  {
  }

  /** No two collections share a name. */
  ghost predicate UniqueNames(list: seq<Collection>) {
    forall i, j :: 0 <= i < j < |list| ==> list[i].name != list[j].name
  }

  /** Because of its duplicate check, a committed save keeps names unique. */
  lemma SaveKeepsNamesUnique(store: Store, view: GenView, u: UserId, autoId: nat -> string, read: Link, commit: Link)
    requires SaveFlashcard(store, view, Some(u), autoId, read, commit).outcome == Committed
    requires UniqueNames(ListedFor(store, u))
    ensures
      var st := SaveFlashcard(store, view, Some(u), autoId, read, commit).store;
      u in st.users && UniqueNames(Listed(st.users[u]))
  {
    var before := ListedFor(store, u);
    var after := before + [Collection(view.name)];
    var st := SaveFlashcard(store, view, Some(u), autoId, read, commit).store;
    SaveEffectOnNames(store, view, u, autoId, read, commit);
    forall i, j | 0 <= i < j < |after|
      ensures after[i].name != after[j].name
    {
      if j == |before| {
        assert before[i] in before;
      }
    }
  }

  /** The user record after a committed save, from the batch's first write alone. */
  lemma SaveEffectOnNames(store: Store, view: GenView, u: UserId, autoId: nat -> string, read: Link, commit: Link)
    requires SaveFlashcard(store, view, Some(u), autoId, read, commit).outcome == Committed
    ensures
      var st := SaveFlashcard(store, view, Some(u), autoId, read, commit).store;
      && u in st.users && st.users[u] == UserDoc(Some(ListedFor(store, u) + [Collection(view.name)]))
      && (forall v :: v != u ==> (v in st.users <==> v in store.users))
      && (forall v :: v != u && v in store.users ==> st.users[v] == store.users[v])
  {
    var p := CardPath(u, view.name);
    var ids := CardIds(autoId, |view.flashcards|);
    var st1 := SetCollections(store, u, ListedFor(store, u) + [Collection(view.name)]);
    SaveCommitsBatch(store, view, u, autoId, read, commit);
    CommitCardsKeepUsers(st1, p, ids, view.flashcards);
  }

  /** The card documents after a committed save with fresh, distinct ids. */
  lemma SaveEffectOnCards(store: Store, view: GenView, u: UserId, autoId: nat -> string, read: Link, commit: Link)
    requires SaveFlashcard(store, view, Some(u), autoId, read, commit).outcome == Committed
    requires Distinct(CardIds(autoId, |view.flashcards|))
    requires forall c | c in CardsAt(store, CardPath(u, view.name)) :: c.id !in CardIds(autoId, |view.flashcards|)
    ensures
      var st := SaveFlashcard(store, view, Some(u), autoId, read, commit).store;
      var p := CardPath(u, view.name);
      && CardsAt(st, p) == CardsAt(store, p) + StoredCards(CardIds(autoId, |view.flashcards|), view.flashcards)
      && (forall q :: q != p ==> CardsAt(st, q) == CardsAt(store, q))
  {
    var p := CardPath(u, view.name);
    var ids := CardIds(autoId, |view.flashcards|);
    var st1 := SetCollections(store, u, ListedFor(store, u) + [Collection(view.name)]);
    SaveCommitsBatch(store, view, u, autoId, read, commit);
    assert forall q :: CardsAt(st1, q) == CardsAt(store, q);
    CommitFreshCards(st1, p, ids, view.flashcards);
  }
}
