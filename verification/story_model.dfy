/**
 * The story entity of the StoryBook application, with the store it lives in
 * and the request bodies and responses the story routes exchange.
 *
 * The Mongoose model file (models/Story.js) is not part of this model; the
 * schema facts it contributes are stated here as assumptions: a story has a
 * title, a body, a status that is `public` or `private`, an owning user and a
 * creation time, and the status defaults to `public` and the creation time to
 * the moment of insertion.
 */
module Stories {
  import opened Wrappers

  /** An ObjectId in its string form; ids are compared only for equality. */
  type Id = string

  datatype Status = Public | Private

  datatype Story = Story(
    title: string,
    body: string,
    status: Status,
    user: Id,        // the owning user
    createdAt: int   // milliseconds since the epoch
  )

  /** The stories collection, keyed by `_id`. */
  type Store = map<Id, Story>

  /** A story together with its key, as the views receive it. */
  datatype Entry = Entry(id: Id, story: Story)

  /**
   * A request body (`req.body`): each schema path is present or absent.
   * Paths the schema does not know are dropped by Mongoose and not modelled.
   */
  datatype Fields = Fields(
    title: Option<string>,
    body: Option<string>,
    status: Option<Status>,
    user: Option<Id>,
    createdAt: Option<int>
  )

  /** The page a handler renders together with the data it passes. */
  datatype View =
    | IndexView(stories: seq<Entry>)   // stories/index
    | ShowView(shown: Entry)           // stories/show
    | EditView(edited: Entry)          // stories/edit

  /** What the client is sent. */
  datatype Outcome =
    | Render(view: View)
    | Redirect(path: string)
    | NotFound            // res.render('error/404')
    | ServerError         // res.render('error/500') from a handler's catch arm
      /** The 404 page is rendered but control does not return: the next
          statement dereferences the missing story, and the TypeError it
          throws lands in the catch arm, which renders the 500 page as well. */
    | NotFoundThenError

  /** The handler's outcome and the store after the request. */
  datatype Response = Response(outcome: Outcome, store: Store)

  const DashboardPath := "/dashboard"
  const StoriesPath := "/stories"

  predicate IsPublic(s: Story) {
    s.status == Public
  }

  /** The entry is a faithful copy of what the store holds under its id. */
  predicate Stored(e: Entry, store: Store) {
    e.id in store && store[e.id] == e.story
  }

  /** The ids of a sequence of entries. */
  function IdsOf(es: seq<Entry>): set<Id> {
    set e | e in es :: e.id
  }

  /** The ids of the stored stories that `keep` selects. */
  function Selected(store: Store, keep: Story -> bool): (ids: set<Id>)
    ensures forall id :: id in ids <==> id in store && keep(store[id])
  {
    set id | id in store && keep(store[id])
  }

  /**
   * `es` lists exactly the stories `keep` selects from `store`, each one
   * once and as stored.
   */
  ghost predicate Lists(es: seq<Entry>, store: Store, keep: Story -> bool) {
    && (forall i :: 0 <= i < |es| ==> Stored(es[i], store) && keep(es[i].story))
    && IdsOf(es) == Selected(store, keep)
    && |es| == |Selected(store, keep)|
  }

  /** Non-increasing creation time: newest first. */
  ghost predicate NewestFirst(es: seq<Entry>) {
    forall i, j :: 0 <= i < j < |es| ==> es[i].story.createdAt >= es[j].story.createdAt
  }

  /** `s` after the paths present in `f` have been overwritten. */
  function Merge(s: Story, f: Fields): (m: Story)
    ensures f.title.Some? ==> m.title == f.title.value
    ensures f.title.None? ==> m.title == s.title
    ensures f.body.Some? ==> m.body == f.body.value
    ensures f.body.None? ==> m.body == s.body
    ensures f.status.Some? ==> m.status == f.status.value
    ensures f.status.None? ==> m.status == s.status
    ensures f.user.Some? ==> m.user == f.user.value
    ensures f.user.None? ==> m.user == s.user
    ensures f.createdAt.Some? ==> m.createdAt == f.createdAt.value
    ensures f.createdAt.None? ==> m.createdAt == s.createdAt
  {
    Story(
      f.title.GetOr(s.title),
      f.body.GetOr(s.body),
      f.status.GetOr(s.status),
      f.user.GetOr(s.user),
      f.createdAt.GetOr(s.createdAt))
  }
}
