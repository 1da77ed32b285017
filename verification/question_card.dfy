/** The like state of one question card: the card's local `like` flag, kept
    in step with the store's set of liked question ids by an effect, and the
    like button's handler, which asks the server to like or dislike the
    question and then inserts or removes its id. */
module QuestionCard {
  import opened Wrappers

  type QuestionId = string
  type UserId = string

  /** What the store's `questionsLikesSet` field may hold at run time. */
  datatype LikeStore =
    | Unset                              // null or undefined
    | Malformed                          // an object without a `has` method
    | SetLike(ids: set<QuestionId>)      // has a `has` method but is not a `Set`
    | SetInstance(ids: set<QuestionId>)  // a genuine `Set`

  /** The effect's guard on the store: truthy, with a callable `has`. */
  predicate ExposesHas(store: LikeStore) {
    store.SetLike? || store.SetInstance?
  }

  /** The handler's guard on the store: truthy and `instanceof Set`. */
  predicate IsSetInstance(store: LikeStore) {
    store.SetInstance?
  }

  /** Membership as `store.has(id)` reports it; false for a store without `has`. */
  predicate Has(store: LikeStore, id: QuestionId) {
    ExposesHas(store) && id in store.ids
  }

  /** JavaScript truthiness of the optional `questionId` prop: `undefined`
      and the empty string are both falsy. */
  predicate Present(questionId: Option<QuestionId>) {
    questionId.Some? && questionId.value != ""
  }

  /** The card's props and the user id it loaded; `isFetchingQuestion`
      absent is `false`, `userId` absent is `null`. */
  datatype Props = Props(questionId: Option<QuestionId>, isFetching: bool, userId: Option<UserId>)

  /** The store's like set together with the card's local `like` flag. */
  datatype Card = Card(store: LikeStore, like: bool)

  /** `useState<boolean>(false)`. */
  const InitialLike: bool := false

  function Mount(store: LikeStore): (c: Card)
    ensures c.store == store && !c.like
  {
    Card(store, InitialLike)
  }

  /** The `like` effect: once the question is loaded and the store answers
      `has`, the flag copies the id's membership; otherwise it stays put. */
  function Sync(c: Card, p: Props): (c': Card)
    ensures c'.store == c.store
    ensures !p.isFetching && Present(p.questionId) && ExposesHas(c.store) ==>
      (c'.like <==> Has(c.store, p.questionId.value))
    ensures p.isFetching || !Present(p.questionId) || !ExposesHas(c.store) ==> c'.like == c.like
  {
    if !p.isFetching && Present(p.questionId) && ExposesHas(c.store) then
      c.(like := p.questionId.value in c.store.ids)
    else c
  }

  /** The body the like and dislike requests carry. */
  datatype Payload = Payload(questionId: QuestionId, userId: Option<UserId>)

  /** A request sent to the server by the handler. */
  datatype Request = LikeRequest(payload: Payload) | DislikeRequest(payload: Payload)

  /** How the awaited mutation promise settles. A request the server refuses
      may still resolve, depending on the API client: only a rejection
      reaches the handler's `catch`. */
  datatype Outcome = Resolves | Rejects

  /** What the handler reports through `console.error`. */
  datatype Complaint = InvalidSetOrId | MutationFailed

  /** The card after the handler, the request it sent, and what it logged. */
  datatype Handled = Handled(card: Card, request: Option<Request>, complaint: Option<Complaint>)

  /** `addQuestionId`: insert the id into the stored set. */
  function AddQuestionId(store: LikeStore, id: QuestionId): (s: LikeStore)
    requires IsSetInstance(store)
    ensures IsSetInstance(s)
    ensures Has(s, id)
    ensures forall x :: x != id ==> (Has(s, x) <==> Has(store, x))
  {
    SetInstance(store.ids + {id})
  }

  /** `removeQuestionId`: delete the id from the stored set. */
  function RemoveQuestionId(store: LikeStore, id: QuestionId): (s: LikeStore)
    requires IsSetInstance(store)
    ensures IsSetInstance(s)
    ensures !Has(s, id)
    ensures forall x :: x != id ==> (Has(s, x) <==> Has(store, x))
  {
    SetInstance(store.ids - {id})
  }

  /** `handleLike`: with a genuine set and a present id, send a dislike if
      the id is in the set and a like otherwise, then, if the request did
      not reject, remove or insert the id. The local flag is left to the
      effect. */
  function HandleLike(c: Card, p: Props, outcome: Outcome): (h: Handled)
    ensures h.card.like == c.like
    ensures h.request.Some? <==> IsSetInstance(c.store) && Present(p.questionId)
    ensures h.request.Some? ==> h.request.value.payload == Payload(p.questionId.value, p.userId)
    ensures h.request.Some? ==> (h.request.value.DislikeRequest? <==> Has(c.store, p.questionId.value))
    ensures h.request.None? || outcome == Rejects ==> h.card == c
    ensures h.complaint.None? <==> h.request.Some? && outcome == Resolves
    ensures h.request.Some? && outcome == Resolves ==>
      && IsSetInstance(h.card.store)
      && (Has(h.card.store, p.questionId.value) <==> !Has(c.store, p.questionId.value))
      && forall id :: id != p.questionId.value ==> (Has(h.card.store, id) <==> Has(c.store, id))
  {
    if !(IsSetInstance(c.store) && Present(p.questionId)) then
      Handled(c, None, Some(InvalidSetOrId))
    else
      var id := p.questionId.value;
      var payload := Payload(id, p.userId);
      if id in c.store.ids then
        match outcome
        case Rejects => Handled(c, Some(DislikeRequest(payload)), Some(MutationFailed))
        case Resolves => Handled(c.(store := RemoveQuestionId(c.store, id)), Some(DislikeRequest(payload)), None)
      else
        match outcome
        case Rejects => Handled(c, Some(LikeRequest(payload)), Some(MutationFailed))
        case Resolves => Handled(c.(store := AddQuestionId(c.store, id)), Some(LikeRequest(payload)), None)
  }

  /** A press of the like button followed by the effect, which runs again
      because the store changed. */
  function Press(c: Card, p: Props, outcome: Outcome): (h: Handled)
  {
    var handled := HandleLike(c, p, outcome);
    handled.(card := Sync(handled.card, p))
  }

  /** Two successful presses on the same question leave the store as it was. */
  lemma ToggleTwiceRestores(c: Card, p: Props)
    requires IsSetInstance(c.store) && Present(p.questionId)
    ensures HandleLike(HandleLike(c, p, Resolves).card, p, Resolves).card == c
  {
    var id := p.questionId.value;
    var c1 := HandleLike(c, p, Resolves).card;
    var c2 := HandleLike(c1, p, Resolves).card;
    if id in c.store.ids {
      assert c2.store.ids == (c.store.ids - {id}) + {id} == c.store.ids;
    } else {
      assert c2.store.ids == (c.store.ids + {id}) - {id} == c.store.ids;
    }
  }

  /** The handler never looks at `userId`: the store it leaves and the kind
      of request it sends are the same for every user id, `null` included. */
  lemma HandleLikeIgnoresUserId(c: Card, p: Props, u: Option<UserId>, outcome: Outcome)
    ensures HandleLike(c, p, outcome).card == HandleLike(c, p.(userId := u), outcome).card
    ensures HandleLike(c, p, outcome).complaint == HandleLike(c, p.(userId := u), outcome).complaint
    ensures HandleLike(c, p, outcome).request.Some? ==>
      && HandleLike(c, p.(userId := u), outcome).request.Some?
      && (HandleLike(c, p, outcome).request.value.LikeRequest?
          <==> HandleLike(c, p.(userId := u), outcome).request.value.LikeRequest?)
  {
  }

  /** A request goes out even before the user id has loaded. */
  lemma RequestWithoutUserId(ids: set<QuestionId>, id: QuestionId)
    requires id != ""
    ensures HandleLike(Card(SetInstance(ids), false), Props(Some(id), false, None), Resolves).request
      == Some(if id in ids then DislikeRequest(Payload(id, None)) else LikeRequest(Payload(id, None)))
  {
  }

  /** An empty question id is falsy, so it is handled like a missing one. */
  lemma EmptyIdIsMissing(c: Card, p: Props, outcome: Outcome)
    requires p.questionId == Some("")
    ensures HandleLike(c, p, outcome) == HandleLike(c, p.(questionId := None), outcome)
    ensures Sync(c, p) == Sync(c, p.(questionId := None)) == c
  {
  }

  /** A store that answers `has` without being a `Set` is read by the
      effect but refused by the handler. */
  lemma SetLikeStoreIsReadOnly(ids: set<QuestionId>, p: Props, like: bool, outcome: Outcome)
    requires !p.isFetching && Present(p.questionId)
    ensures Sync(Card(SetLike(ids), like), p).like == (p.questionId.value in ids)
    ensures HandleLike(Card(SetLike(ids), like), p, outcome) ==
      Handled(Card(SetLike(ids), like), None, Some(InvalidSetOrId))
  {
  }

  /** After a successful press the flag shows the id's new membership, the
      opposite of what the store held before: the flip the user sees. */
  lemma PressFlipsLike(c: Card, p: Props)
    requires IsSetInstance(c.store) && Present(p.questionId) && !p.isFetching
    requires c == Sync(c, p)
    ensures Press(c, p, Resolves).card.like == !c.like
    ensures Press(c, p, Resolves).card.like == Has(Press(c, p, Resolves).card.store, p.questionId.value)
  {
  }

  /** A press whose request promise rejects changes neither the store nor
      the flag. */
  lemma RejectedPressChangesNothing(c: Card, p: Props)
    requires c == Sync(c, p)
    ensures Press(c, p, Rejects).card == c
  {
  }

  /** Running the effect twice is the same as running it once. */
  lemma SyncIdempotent(c: Card, p: Props)
    ensures Sync(Sync(c, p), p) == Sync(c, p)
  {
  }

  /** Until the effect has seen a loaded question and a usable store, the
      flag keeps its initial `false`. */
  lemma UnsyncedCardIsNotLiked(store: LikeStore, p: Props)
    requires p.isFetching || !Present(p.questionId) || !ExposesHas(store)
    ensures !Sync(Mount(store), p).like
  {
  }

  /** The presses of one card in order: each handled, then synced. Returns
      the final card and the requests sent. */
  function PressAll(c: Card, p: Props, outcomes: seq<Outcome>): (r: (Card, seq<Request>))
    decreases |outcomes|
  {
    if |outcomes| == 0 then (c, [])
    else
      var h := Press(c, p, outcomes[0]);
      var rest := PressAll(h.card, p, outcomes[1..]);
      (rest.0, (if h.request.Some? then [h.request.value] else []) + rest.1)
  }

  /** The number of presses whose request resolved. */
  function Resolved(outcomes: seq<Outcome>): nat {
    if |outcomes| == 0 then 0
    else (if outcomes[0] == Resolves then 1 else 0) + Resolved(outcomes[1..])
  }

  /** Over any run of presses on one card: one request per press, each for
      this question and user, the id's
      membership flips once per resolved request, every other id keeps its
      membership, and the store stays a genuine set. */
  lemma {:induction false} PressAllFlips(c: Card, p: Props, outcomes: seq<Outcome>)
    requires IsSetInstance(c.store) && Present(p.questionId)
    ensures |PressAll(c, p, outcomes).1| == |outcomes|
    ensures forall k :: 0 <= k < |outcomes| ==>
      PressAll(c, p, outcomes).1[k].payload == Payload(p.questionId.value, p.userId)
    ensures IsSetInstance(PressAll(c, p, outcomes).0.store)
    ensures Has(PressAll(c, p, outcomes).0.store, p.questionId.value)
      <==> (Has(c.store, p.questionId.value) != (Resolved(outcomes) % 2 == 1))
    ensures forall id :: id != p.questionId.value ==>
      (Has(PressAll(c, p, outcomes).0.store, id) <==> Has(c.store, id))
    decreases |outcomes|
  {
    if |outcomes| > 0 {
      var h := Press(c, p, outcomes[0]);
      PressAllFlips(h.card, p, outcomes[1..]);
    }
  }
}
