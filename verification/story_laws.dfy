/**
 * Properties that relate several story routes: what a creator can see of
 * a new story, the create/delete round trip, idempotence of an update, the
 * invariants the mutating routes keep, and the privacy of every listing.
 */
module StoryLaws {
  import opened Wrappers
  import opened Stories
  import opened StoryRoutes

  /** A created story is shown to its creator and offered to them for editing. */
  lemma CreatorSeesNewStory(store: Store, requester: Id, body: Fields, newId: Id, now: int,
                            valid: Story -> bool)
    requires Create(store, requester, body, newId, now, valid).outcome.Redirect?
    ensures var after := Create(store, requester, body, newId, now, valid).store;
      && Show(after, newId, requester).outcome == Render(ShowView(Entry(newId, after[newId])))
      && EditForm(after, newId, requester).outcome == Render(EditView(Entry(newId, after[newId])))
  {
  }

  /**
   * Another user sees a new story exactly when it was created public; a
   * private one is answered with the 404 page, and the edit form is always
   * refused with a redirect.
   */
  lemma OthersSeeNewStoryOnlyIfPublic(store: Store, requester: Id, other: Id, body: Fields,
                                      newId: Id, now: int, valid: Story -> bool)
    requires Create(store, requester, body, newId, now, valid).outcome.Redirect?
    requires other != requester
    ensures var after := Create(store, requester, body, newId, now, valid).store;
      && (Show(after, newId, other).outcome.Render? <==> body.status.GetOr(Public) == Public)
      && (body.status == Some(Private) ==> Show(after, newId, other).outcome == NotFound)
      && EditForm(after, newId, other).outcome == Redirect(StoriesPath)
  {
  }

  /** Deleting a story just created, by anyone, gives back the original store. */
  lemma CreateThenDelete(store: Store, requester: Id, anyone: Id, body: Fields, newId: Id,
                         now: int, valid: Story -> bool)
    requires Create(store, requester, body, newId, now, valid).outcome.Redirect?
    ensures Delete(Create(store, requester, body, newId, now, valid).store, newId, anyone).store == store
  {
  }

  /**
   * A user who does not own a story can still delete it, and its owner then
   * finds it gone: showing it falls through the missing-story path.
   */
  lemma StrangerDeletesOwnersStory(store: Store, id: Id, stranger: Id)
    requires id in store && store[id].user != stranger
    ensures var after := Delete(store, id, stranger).store;
      && id !in after
      && Show(after, id, store[id].user).outcome == NotFoundThenError
  {
  }

  /** Sending the same update twice leaves the store as the first one did. */
  lemma UpdateIdempotent(store: Store, id: Id, requester: Id, body: Fields, valid: Story -> bool)
    ensures var once := Update(store, id, requester, body, valid).store;
      Update(once, id, requester, body, valid).store == once
  {
  }

  /** An owner's update with an empty body changes nothing. */
  lemma EmptyUpdateChangesNothing(store: Store, id: Id, requester: Id, valid: Story -> bool)
    ensures Update(store, id, requester, Fields(None, None, None, None, None), valid).store == store
  {
  }

  /** Every stored story passes the schema validators. */
  ghost predicate AllValid(store: Store, valid: Story -> bool) {
    forall id :: id in store ==> valid(store[id])
  }

  /** Create, update and delete only ever leave valid stories in the store. */
  lemma MutationsKeepStoreValid(store: Store, id: Id, requester: Id, body: Fields, now: int,
                                valid: Story -> bool)
    requires AllValid(store, valid)
    ensures AllValid(Create(store, requester, body, id, now, valid).store, valid)
    ensures AllValid(Update(store, id, requester, body, valid).store, valid)
    ensures AllValid(Delete(store, id, requester).store, valid)
  {
  }

  /**
   * Only the owner can change who owns a story: an update that moves a
   * story to another user was requested by its previous owner, and no other
   * story changes hands.
   */
  lemma OwnershipMovesOnlyByOwner(store: Store, id: Id, requester: Id, body: Fields,
                                  valid: Story -> bool)
    ensures var after := Update(store, id, requester, body, valid).store;
      forall k :: k in store && k in after && after[k].user != store[k].user ==>
        k == id && store[k].user == requester
  {
  }

  /** Whatever a listing whose filter admits only public stories shows may be read by anyone. */
  lemma ListedStoriesAreReadable(es: seq<Entry>, store: Store, keep: Story -> bool, requester: Id)
    requires Lists(es, store, keep)
    requires forall s :: keep(s) ==> IsPublic(s)
    ensures forall i :: 0 <= i < |es| ==> MayRead(es[i].story, requester)
  {
  }

  /** A user's page lists a part of the index: their own public stories. */
  lemma UserStoriesWithinIndex(store: Store, userId: Id)
    ensures Selected(store, PublicOf(userId)) <= Selected(store, IsPublic)
    ensures forall id :: id in Selected(store, IsPublic) && store[id].user == userId ==>
      id in Selected(store, PublicOf(userId))
  {
  }

  /**
   * With no `query` parameter the search compiles the empty pattern, so
   * when that pattern matches every title the search lists exactly the
   * index's stories.
   */
  lemma AbsentQuerySelectsAllPublic(store: Store, engine: RegExpEngine)
    requires forall t :: engine.matches("", t)
    ensures Selected(store, TitleFilter(engine, SearchPattern(None))) == Selected(store, IsPublic)
  {
  }
}
