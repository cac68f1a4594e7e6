/**
 * The story routes (routes/stories.js) as pure decisions over the store.
 * Each handler receives the store, the authenticated requester's id and the
 * request's parameters, and yields the response together with the store
 * after the request. Authentication, rendering and the database driver are
 * outside the model; schema validation is the predicate `valid`.
 */
module StoryRoutes {
  import opened Wrappers
  import opened Stories
  import Listing

  /** The read rule: public stories are readable by anyone, private ones by their owner. */
  predicate MayRead(s: Story, requester: Id) {
    s.status == Public || s.user == requester
  }

  /** The write rule applied by the edit form and update: only the owner. */
  predicate MayEdit(s: Story, requester: Id) {
    s.user == requester
  }

  /**
   * The document `Story.create` inserts for a request body: the schema's
   * defaults fill the absent paths (public status, the current time, and an
   * empty title and body that are left to the validators) and the present
   * paths overwrite them.
   */
  function NewStory(body: Fields, now: int): Story {
    Merge(Story("", "", Public, "", now), body)
  }

  /**
   * POST /stories. The body's `user` is overwritten with the requester
   * before the insert, so the new story is always the requester's. The id is
   * the one the driver generated; inserting it over an existing key violates
   * the unique `_id` index, and like a validation failure that is caught and
   * answered with the 500 page.
   */
  function Create(store: Store, requester: Id, body: Fields, newId: Id, now: int,
                  valid: Story -> bool): (r: Response)
    ensures r.outcome == Redirect(DashboardPath) || r.outcome == ServerError
    ensures r.outcome.ServerError? ==> r.store == store
    ensures r.outcome.Redirect? <==> newId !in store && valid(NewStory(body.(user := Some(requester)), now))
    ensures r.outcome.Redirect? ==>
      && r.store.Keys == store.Keys + {newId}
      && r.store[newId].user == requester
      && r.store[newId].title == body.title.GetOr("")
      && r.store[newId].body == body.body.GetOr("")
      && r.store[newId].status == body.status.GetOr(Public)
      && r.store[newId].createdAt == body.createdAt.GetOr(now)
      && (forall id :: id in store ==> r.store[id] == store[id])
  {
    var doc := body.(user := Some(requester));
    var s := NewStory(doc, now);
    if newId in store || !valid(s) then Response(ServerError, store)
    else Response(Redirect(DashboardPath), store[newId := s])
  }

  /**
   * GET /stories/:id. A missing id does not end the handler: the 404 page is
   * rendered and the next line reads the owner of the missing story, so the
   * request ends in the catch arm. A private story of someone else yields
   * the 404 page; everything else renders the story.
   */
  function Show(store: Store, id: Id, requester: Id): (r: Response)
    ensures r.store == store
    ensures id !in store ==> r.outcome == NotFoundThenError
    ensures r.outcome.Render? <==> id in store && MayRead(store[id], requester)
    ensures r.outcome.Render? ==> r.outcome.view == ShowView(Entry(id, store[id]))
    ensures id in store && !MayRead(store[id], requester) ==> r.outcome == NotFound
  {
    if id !in store then Response(NotFoundThenError, store)
    else if store[id].user != requester && store[id].status == Private then Response(NotFound, store)
    else Response(Render(ShowView(Entry(id, store[id]))), store)
  }

  /**
   * GET /stories/edit/:id. The missing-id path falls through exactly as in
   * `Show`; the owner gets the edit form and anyone else is sent back to the
   * story list.
   */
  function EditForm(store: Store, id: Id, requester: Id): (r: Response)
    ensures r.store == store
    ensures id !in store ==> r.outcome == NotFoundThenError
    ensures r.outcome.Render? <==> id in store && MayEdit(store[id], requester)
    ensures r.outcome.Render? ==> r.outcome.view == EditView(Entry(id, store[id]))
    ensures id in store && !MayEdit(store[id], requester) ==> r.outcome == Redirect(StoriesPath)
  {
    if id !in store then Response(NotFoundThenError, store)
    else if store[id].user == requester then Response(Render(EditView(Entry(id, store[id]))), store)
    else Response(Redirect(StoriesPath), store)
  }

  /**
   * PUT /stories/:id. A missing id renders the 404 page and returns. The
   * owner's body is merged path by path into the story, `user` included,
   * and the validators run on the result; anyone else is redirected to the
   * story list.
   */
  function Update(store: Store, id: Id, requester: Id, body: Fields,
                  valid: Story -> bool): (r: Response)
    ensures r.outcome.Redirect? || r.outcome.NotFound? || r.outcome.ServerError?
    ensures id !in store ==> r.outcome == NotFound
    ensures id in store && !MayEdit(store[id], requester) ==> r.outcome == Redirect(StoriesPath)
    ensures id in store && MayEdit(store[id], requester) && !valid(Merge(store[id], body)) ==>
      r.outcome == ServerError
    ensures r.outcome != Redirect(DashboardPath) ==> r.store == store
    ensures r.outcome == Redirect(DashboardPath) <==>
      id in store && MayEdit(store[id], requester) && valid(Merge(store[id], body))
    ensures r.outcome == Redirect(DashboardPath) ==>
      && r.store.Keys == store.Keys
      && r.store[id].title == body.title.GetOr(store[id].title)
      && r.store[id].body == body.body.GetOr(store[id].body)
      && r.store[id].status == body.status.GetOr(store[id].status)
      && r.store[id].user == body.user.GetOr(store[id].user)
      && r.store[id].createdAt == body.createdAt.GetOr(store[id].createdAt)
      && (forall other :: other in store && other != id ==> r.store[other] == store[other])
  {
    if id !in store then Response(NotFound, store)
    else if store[id].user == requester then
      var updated := Merge(store[id], body);
      if valid(updated) then Response(Redirect(DashboardPath), store[id := updated])
      else Response(ServerError, store)
    else Response(Redirect(StoriesPath), store)
  }

  /**
   * DELETE /stories/:id. The story is removed whoever asks: the requester
   * takes no part in the decision.
   */
  function Delete(store: Store, id: Id, requester: Id): (r: Response)
    ensures r.outcome == Redirect(DashboardPath)
    ensures r.store.Keys == store.Keys - {id}
    ensures forall other :: other in r.store ==> r.store[other] == store[other]
  {
    Response(Redirect(DashboardPath), store - {id})
  }

  /** The index shows every public story, newest first. */
  method Index(store: Store) returns (r: Response)
    ensures r.store == store
    ensures r.outcome.Render? && r.outcome.view.IndexView?
    ensures Lists(r.outcome.view.stories, store, IsPublic)
    ensures NewestFirst(r.outcome.view.stories)
  {
    var found := Listing.Find(store, IsPublic);
    var sorted := Listing.SortNewestFirst(found);
    Listing.ListsPermutation(found, sorted, store, IsPublic);
    r := Response(Render(IndexView(sorted)), store);
  }

  /** The filter of GET /stories/user/:userId. */
  function PublicOf(userId: Id): Story -> bool {
    (s: Story) => s.user == userId && s.status == Public
  }

  /**
   * GET /stories/user/:userId: the user's public stories, in the order the
   * store returns them.
   */
  method UserStories(store: Store, userId: Id) returns (r: Response)
    ensures r.store == store
    ensures r.outcome.Render? && r.outcome.view.IndexView?
    ensures Lists(r.outcome.view.stories, store, PublicOf(userId))
  {
    var found := Listing.Find(store, PublicOf(userId));
    r := Response(Render(IndexView(found)), store);
  }

  /**
   * The regular-expression engines behind the search. `compiles` says that
   * `new RegExp(pattern, 'i')` accepts the pattern and that the database
   * server accepts it as the `$regex` of the title query; a pattern either
   * refuses ends in the 500 page. `matches` is the server's case-insensitive
   * match of the pattern somewhere in a title.
   */
  datatype RegExpEngine = RegExpEngine(
    compiles: string -> bool,
    matches: (string, string) -> bool)

  /**
   * The pattern the search compiles: the `query` parameter of the query
   * string, not the `:query` path segment. An absent parameter reaches the
   * RegExp constructor as `undefined`, which it reads as the empty pattern.
   */
  function SearchPattern(query: Option<string>): string {
    query.GetOr("")
  }

  /** The filter of GET /stories/search/:query. */
  function TitleFilter(engine: RegExpEngine, pattern: string): Story -> bool {
    (s: Story) => engine.matches(pattern, s.title) && s.status == Public
  }

  /**
   * GET /stories/search/:query: the public stories whose title the pattern
   * matches, newest first. The store always answers with an array, so the
   * page is rendered even when nothing matches; only a pattern that does not
   * compile throws, into the 500 page.
   */
  method Search(store: Store, query: Option<string>, engine: RegExpEngine) returns (r: Response)
    ensures r.store == store
    ensures !r.outcome.NotFound?
    ensures !engine.compiles(SearchPattern(query)) <==> r.outcome == ServerError
    ensures engine.compiles(SearchPattern(query)) ==>
      && r.outcome.Render? && r.outcome.view.IndexView?
      && Lists(r.outcome.view.stories, store, TitleFilter(engine, SearchPattern(query)))
      && NewestFirst(r.outcome.view.stories)
    ensures query.None? && engine.compiles("") && (forall t :: engine.matches("", t)) ==>
      && r.outcome.Render? && r.outcome.view.IndexView?
      && Lists(r.outcome.view.stories, store, IsPublic)
  {
    var pattern := SearchPattern(query);
    if !engine.compiles(pattern) {
      return Response(ServerError, store);
    }
    var keep := TitleFilter(engine, pattern);
    var found := Listing.Find(store, keep);
    var sorted := Listing.SortNewestFirst(found);
    Listing.ListsPermutation(found, sorted, store, keep);
    if query.None? && forall t :: engine.matches("", t) {
      assert forall x :: keep(x) == IsPublic(x);
      assert Selected(store, keep) == Selected(store, IsPublic);
    }
    r := Response(Render(IndexView(sorted)), store);
  }
}
