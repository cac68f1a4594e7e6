# StoryBook stories core in Dafny

A model of the two sequential cores of the StoryBook application, a
server-rendered site where signed-in users write stories and mark them
public or private.

- **Story routes** (`routes/stories.js`). Every handler is a pure function
  (or, for the listings, a method with a loop) over an abstract store
  `map<Id, Story>`, the requester's id and the request parameters. It yields
  a `Response`: the outcome sent to the client (`Render` of a view with its
  data, `Redirect`, `NotFound`, `ServerError`, or `NotFoundThenError`) and the
  store after the request. The read rule is `MayRead`: public stories are
  readable by anyone, private ones by the owner. The write rule for the edit
  form and update is `MayEdit`: only the owner.
- **Template helpers** (`helpers/hbs.js`). `truncate`, `stripTags` and
  `editIcon` are functions on strings. They use the JavaScript semantics they
  rely on: `substr` clamps a negative length to 0 (section B.2.2.1 of
  ECMA-262), and the `.` atom of a regular expression refuses `\r`, U+2028
  and U+2029 (the line terminators of section 12.3 of ECMA-262). The
  `stripTags` function is shown equal to the regular-expression engine's
  left-to-right global replace (`HbsLaws.ReplaceTags`).

The model follows the code as written:

- Delete has no ownership check. Any requester removes any story.
- Show and the edit form do not return after rendering the 404 page for a
  missing id. The next line reads the missing story's owner, and the thrown
  error ends in the catch arm. This is the `NotFoundThenError` outcome, never
  a render of the story.
- Search compiles the `query` parameter of the query string, not the
  `:query` path segment. The parameter is a regular expression, not a
  substring. `find` always answers with an array, so the 404 arm of search
  is unreachable.

Files: `wrappers.dfy` (Option), `story_model.dfy` (entities, store,
outcomes), `story_listing.dfy` (find and sort), `story_routes.dfy`
(handlers), `story_laws.dfy` (properties across handlers), `js_strings.dfy`
(`substr`, `lastIndexOf`, `indexOf`), `hbs.dfy` (helpers), `hbs_laws.dfy`
(helper properties).

## Model

| member | source | states |
|---|---|---|
| StoryRoutes.Create | routes/stories.js:22-34 | The new story is stored under the new id and owned by the requester, even if the body names another user. Its other fields come from the body or the schema defaults. No existing story changes, and the outcome is a redirect to `/dashboard`. A validation failure or a taken id gives the 500 page with the store unchanged. |
| StoryRoutes.Show | routes/stories.js:63-85 | The story renders exactly when it exists and the requester may read it: it is public or it is theirs. A private story of someone else gives the 404 page. A missing id falls through to `NotFoundThenError`. The store never changes. |
| StoryRoutes.EditForm | routes/stories.js:91-113 | The edit form renders exactly for the owner of an existing story. Anyone else is redirected to `/stories`, and a missing id falls through to `NotFoundThenError`. The store never changes. |
| StoryRoutes.Update | routes/stories.js:119-149 | A missing id gives the 404 page, and a non-owner is redirected to `/stories`; neither changes the store. The owner's update overwrites exactly the paths present in the body, `user` included, and keeps the others. Other stories are untouched and the outcome is a redirect to `/dashboard`. If the validators reject the result, the 500 page is rendered and the store is unchanged. |
| StoryRoutes.Delete | routes/stories.js:155-166 | Whoever asks, the story with the id is removed, every other id keeps its story, and the outcome is a redirect to `/dashboard`. |
| StoryRoutes.Index | routes/stories.js:40-57 | Renders exactly the public stories, each once and as stored, newest first. The store never changes. |
| StoryRoutes.UserStories | routes/stories.js:172-189 | Renders exactly the given user's public stories, each once. The store never changes. |
| StoryRoutes.Search | routes/stories.js:195-213 | Renders exactly the public stories whose title the pattern from the `query` parameter matches, newest first. An empty result still renders, so the outcome is never the 404 page. The 500 page is given exactly when `RegExp` or the database server refuses the pattern. With no `query` parameter, if the empty pattern is accepted and matches every title, the page lists exactly the public stories. The store never changes. |
| Listing.Find | routes/stories.js:44 | A `find` returns every stored story the filter selects, each once and as stored, and nothing else. |
| Listing.SortNewestFirst | routes/stories.js:46 | `sort({ createdAt: 'desc' })` returns a permutation of its input in non-increasing creation time. |
| Listing.ListsPermutation | routes/stories.js:44-46 | Sorting a listing keeps it a listing of the same selection. |
| Listing.NoRepeatedIds | routes/stories.js:44 | A listing with as many entries as distinct ids shows no story twice. |
| StoryLaws.CreatorSeesNewStory | routes/stories.js:26-27 | After a create, the creator is shown the new story and offered its edit form. |
| StoryLaws.OthersSeeNewStoryOnlyIfPublic | routes/stories.js:75-79 | Another user is shown a new story exactly when it was created public. A private one gives them the 404 page, and its edit form redirects them. |
| StoryLaws.CreateThenDelete | routes/stories.js:159 | Deleting a story just created, by any requester, gives back the store before the create. |
| StoryLaws.StrangerDeletesOwnersStory | routes/stories.js:159-160 | A non-owner can delete a story. Its owner then gets the missing-story fall-through when showing it. |
| StoryLaws.UpdateIdempotent | routes/stories.js:129-138 | Sending the same update twice leaves the store as one update did. |
| StoryLaws.EmptyUpdateChangesNothing | routes/stories.js:130-138 | An update with an empty body changes no story. |
| StoryLaws.MutationsKeepStoreValid | routes/stories.js:27 | If every stored story satisfies the validators, it still holds after a create, an update or a delete. |
| StoryLaws.OwnershipMovesOnlyByOwner | routes/stories.js:129 | A story changes owner only through an update by its previous owner, and no other story changes owner. |
| StoryLaws.ListedStoriesAreReadable | routes/stories.js:44 | Any listing whose filter admits only public stories shows only stories the requester may read. |
| StoryLaws.UserStoriesWithinIndex | routes/stories.js:176-179 | A user's page lists exactly the index's stories owned by that user. |
| StoryLaws.AbsentQuerySelectsAllPublic | routes/stories.js:200 | With no `query` parameter the search compiles the empty pattern. If that pattern matches every title, the search selects the same stories as the index. |
| JsStrings.Substr | helpers/hbs.js:13-15 | `substr(0, len)` is the prefix of length `len` clamped to the string, so a negative length gives the empty string. |
| JsStrings.LastIndexOf | helpers/hbs.js:14 | `lastIndexOf` gives the index of the last occurrence, or -1 when there is none. |
| Hbs.Truncate | helpers/hbs.js:10-19 | A string no longer than `length`, or empty, is returned unchanged. Otherwise the result is a prefix of the string, no longer than `length`, followed by `...`. |
| Hbs.TruncateCutsAtLastSpace | helpers/hbs.js:13-14 | If the last space in the first `length` characters is at index `k > 0`, the result is `str[..k] + "..."`. |
| Hbs.TruncateCutsAtLength | helpers/hbs.js:13-15 | If the first `length` characters have no space after index 0, the result is `str[..length] + "..."`. A negative length leaves a non-empty string only `...`. |
| Hbs.TagClose | helpers/hbs.js:21 | The lazy part of a match after a `<` ends on a `>` within the text; `HbsLaws.TagCloseAfter` shows it is the first `>` and that no breaking line terminator comes before it. |
| Hbs.StripTags | helpers/hbs.js:20-22 | The output is no longer than the input. |
| Hbs.EditIcon | helpers/hbs.js:23-37 | The result is empty exactly when the two owner ids differ. Otherwise it is a link that starts with `<a href="/stories/edit/<storyId>"` and ends with `</a>`. |
| HbsLaws.EditIconRoundTrip | helpers/hbs.js:24-33 | The owner's link reads back as the story's edit path. It is floating exactly when the flag is true or omitted. |
| HbsLaws.ReplaceTags | helpers/hbs.js:21 | The engine's left-to-right global replace with the tag pattern computes `StripTags`. |
| HbsLaws.TagCloseAfter | helpers/hbs.js:21 | The lazy scan after a `<` is decided at the first `>` or breaking terminator. |
| HbsLaws.StripTagsWithoutAngle | helpers/hbs.js:21 | An input with no `<` is returned unchanged. |
| HbsLaws.StripTagsOnlyDrops | helpers/hbs.js:21 | Every character of the output occurs in the input. |
| HbsLaws.StripTagsLeavesNoTag | helpers/hbs.js:21 | No `<` of the output starts a match of the pattern. |
| HbsLaws.TagFreeIsFixed | helpers/hbs.js:21 | A string in which no `<` starts a match is returned unchanged. |
| HbsLaws.StripTagsIdempotent | helpers/hbs.js:21 | `stripTags(stripTags(s)) == stripTags(s)`. |
| HbsLaws.NoTagSurvives | helpers/hbs.js:21 | If the input has no `\r`, U+2028 or U+2029, no `<` in the output is followed later by a `>`. |
| HbsLaws.StripTagsDropsTag | helpers/hbs.js:21 | The first `<` is removed together with everything up to the first `>` after it, when no breaking terminator lies between them. |
| HbsLaws.CarriageReturnKeepsTag | helpers/hbs.js:21 | `<b\r>` is left as it is, while `<b\n>` is removed. |

## Left out

- `config/db.js`: it only opens the database connection, and exits the process if that fails.
- GET `/stories/add` (routes/stories.js:11-16): it renders a form and makes no decision.
- Authentication (`ensureAuth`), Express routing and view rendering: the handlers receive the requester's id and return the outcome value.
- Store and driver failures: a lost connection, or a `CastError` for an id that is not an ObjectId, ends in every handler's catch arm with the 500 page. The model has no fault input for this.
- `populate('user')`: if a story's owner document is missing, Show reads a field of `null` and ends in the 500 page. The users collection is not modelled.
- The `NotFoundThenError` outcome does not say which of the two pages reaches the client. That depends on how Express handles a second render.
- The schema (models/Story.js is not part of this model). Validators are a predicate `valid` over the resulting story. Absent paths default to public status, the current time, and an empty title and body.
- StoryRoutes.Update: the validators are applied to the whole merged story, while `runValidators` on `findOneAndUpdate` checks only the paths being updated.
- StoryRoutes.Create: the new id is a parameter, since the driver generates ObjectIds. A collision gives the 500 page, as the unique `_id` index does.
- StoryRoutes.UserStories: the order of the store's natural scan is not modelled, so the contract says nothing about the order.
- StoryRoutes.Index: the relative order of stories with equal `createdAt` is left open, as the store leaves it.
- StoryRoutes.Search: the pattern is sent to the database server as a `$regex` and matched there. Both engines are an oracle (`RegExpEngine`): `compiles` holds when `new RegExp` and the server both accept the pattern, and `matches` is the server's case-insensitive match against a title. A `query` parameter given more than once (an array) is not modelled.
- The race between the ownership check and the update in `PUT /stories/:id`, and concurrent requests in general.
- `formatDate`: a wrapper over moment's date formatting.
- `select`: it depends on the Handlebars block body (`options.fn`).
- Hbs.EditIcon: Handlebars passes its options object as `floating` when a template omits the flag. That object is truthy, so it selects the floating link like the default; it is modelled as the omitted case.
- Strings are sequences of Unicode scalar values, while JavaScript lengths and indices count UTF-16 code units. The two differ only for characters outside the Basic Multilingual Plane, and JavaScript strings may also hold lone surrogates, which have no Dafny `char`.
- Hbs.Truncate: arguments that are not a string and an integer (JavaScript would coerce them) are not modelled.
