# Blog post service: a Dafny model

This project models the blog API's post handling. It covers five things:

- the post record and its validation on save (`models/Blog.js`);
- the authentication middleware that turns an `Authorization` header into a caller identity or a 401 (`middleware/auth.js`);
- the five blog handlers over an in-memory post table (`controllers/blogController.js`): list, create, update, delete and toggle-like;
- which routes sit behind the middleware (`routes/blogRoutes.js`);
- the properties the handlers promise, stated and proved.

Modules:

- `Results` (results.dfy): `Option`, `Result` and `Failure`. A `Failure` is one of the handlers' error answers, with its status code (400, 401, 403, 404, 500) and its message text.
- `Blog` (blog.dfy): the `Post` record (title, content, author id, author-name snapshot, list of liking user ids, creation and update stamps), the title's trim setter, and `WellFormed`. `WellFormed` is what validation on save accepts: title, content, author and authorName present and non-empty, the title in its trimmed form, and every like a user id that casts to an object id (not empty). Stamps are readings of a natural-number counter that stands for the clock.
- `Likes` (likes.dfy): what the handlers do to a `likes` list (`some`, `findIndex`, `splice`, `push`). `Toggled` is the toggle written as a rule on lists. Lemmas show how it behaves on lists without duplicates.
- `Auth` (auth.dfy): the token is the header with the first `"Bearer "` replaced by nothing. The gate answers 401 when the header is missing, when the token is empty, or when the verifier rejects the token. Otherwise it attaches exactly the verified claims. The JWT verifier is a function parameter: it maps a token to its claims, or to `None`.
- `BlogController` (blog_controller.dfy): class `PostTable`. It holds a map from post id to `Post`, the clock counter and the next post id. Its invariant `Valid` says:
  - every stored post is `WellFormed`;
  - like lists have no duplicates;
  - stamps are in the past, and creation stamps are distinct.

  Each handler is one method. It takes the identity the gate attached, or an optional caller for the listing. `Serve` puts the gate in front of the protected routes, as the route table does. Two client methods run short scenarios for any non-empty trimmed title, any non-empty content and any two distinct users: in `ExampleLikes` a second user likes and then unlikes a new post; in `ExampleEdits` a non-author's retitle is refused, and the author's keeps the content.

Behaviour kept from the code:

- `toggleLike` answers `isLikedByUser = (likeIndex === -1)`. That is the caller's membership *after* the toggle, because like lists never hold duplicates. `ToggleLike` proves this.
- The listing route is mounted without the gate, so `Serve` always lists with no caller, and every `isLikedByUser` is false there. `GetAllBlogs` still takes an optional caller, as the handler is written. A caller counts only when its id is truthy (non-empty).
- Some titles pass the handler's `!title` check but trim to nothing, such as `"   "`. The trim setter stores them as `""`, and validation on save then fails. The answer is 500 and the table does not change. The same happens in update.
- An update that changes no field is a successful no-op: it writes nothing and does not move `updatedAt`. That covers an update with no non-empty field and one whose fields equal the stored values. Any save that changes a field stamps `updatedAt` with the clock.
- An empty caller id does not cast to an object id. Creating a post with it, or liking with it, fails with 500 and changes nothing. Updating or deleting with it is refused with 403, since it is never a post's author.
- Likes are a list, not a set. The schema allows repeats; the toggle never creates one (`ToggleKeepsNoDuplicates`). `DuplicateSurvivesToggle` shows that the flip would fail on a list with a repeat.

## Model

| member | source | states |
|---|---|---|
| `Blog.TrimStart` | models/Blog.js:11 | the result is a suffix of the input; everything dropped is white space; the result does not start with white space |
| `Blog.TrimEnd` | models/Blog.js:11 | the result is a prefix of the input; everything dropped is white space; the result does not end with white space |
| `Blog.Trim` | models/Blog.js:11 | a trimmed title is empty or starts and ends with a non-space character |
| `Blog.TrimFixedIffTrimmed` | models/Blog.js:11 | the trim setter leaves a title as it is exactly when neither end is white space, so a stored title survives re-assignment |
| `Blog.DroppedBeforeIsSpace` | models/Blog.js:11 | everything trimmed from the front is white space |
| `Blog.DroppedAfterIsSpace` | models/Blog.js:11 | everything trimmed from the back is white space |
| `Blog.TrimBounds` | models/Blog.js:11 | gives the bounds of the kept slice, with only white space before and after it |
| `Blog.TrimIsCore` | models/Blog.js:11 | the trimmed title is a slice of the input with only white space before and after it |
| `Blog.TrimIdempotent` | models/Blog.js:11 | trimming a trimmed title changes nothing, so re-assigning a stored title keeps it |
| `Blog.TrimEmptyIffBlank` | models/Blog.js:8-12 | a title trims to empty exactly when it is all white space, which is when the required check on save fails |
| `Blog.WellFormed` | models/Blog.js:8-29 | validation on save: title, content, author and authorName present and non-empty, the title in trimmed form, every like a castable (non-empty) user id |
| `Likes.Any` | controllers/blogController.js:16 | `likes.some(id => id === u)` is true exactly when `u` is in the list |
| `Likes.FindIndex` | controllers/blogController.js:131 | `findIndex` gives -1 exactly when the user is absent, and otherwise the first position holding the user |
| `Likes.RemoveFirst` | controllers/blogController.js:135 | removing the first occurrence shortens the list by one and takes one copy of the user out of its multiset; an absent user leaves the list as it is |
| `Likes.Toggled` | controllers/blogController.js:133-139 | a toggle takes one copy of a present user out of the likes' multiset, and adds one copy of an absent user |
| `Likes.SpliceRemovesFirst` | controllers/blogController.js:131-135 | `splice(likeIndex, 1)` at the index `findIndex` reports is removal of the first occurrence |
| `Likes.RemoveFirstNoDuplicates` | controllers/blogController.js:133-135 | on a list without duplicates, an unlike removes the user entirely and leaves no duplicates |
| `Likes.ToggleFlipsMembership` | controllers/blogController.js:133-139 | on a list without duplicates, after a toggle the user is in the list exactly when it was not before |
| `Likes.DuplicateSurvivesToggle` | models/Blog.js:26-29 | the schema allows repeats, and with a repeated user an unlike leaves the user in the list |
| `Likes.ToggleCount` | controllers/blogController.js:133-139 | a like adds exactly one entry and an unlike removes exactly one |
| `Likes.ToggleKeepsOthers` | controllers/blogController.js:133-139 | a toggle adds or removes no other user's like |
| `Likes.ToggleKeepsNoDuplicates` | controllers/blogController.js:133-139 | a list without duplicates stays without duplicates |
| `Likes.ToggleTwice` | controllers/blogController.js:126-146 | two toggles by the same user restore membership, count and multiset, and restore the list itself when the first toggle was a like |
| `Auth.IndexOfFrom` | middleware/auth.js:11 | the search finds the first occurrence of the pattern at or after a position, or reports -1 when there is none |
| `Auth.ReplaceFirst` | middleware/auth.js:11 | `replace` with a string pattern replaces only the first occurrence, and returns the string unchanged when there is no occurrence |
| `Auth.ExtractToken` | middleware/auth.js:11 | there is a token exactly when there is a header; the token is the header, or the header shortened by the length of "Bearer " |
| `Auth.Authenticate` | middleware/auth.js:11-26 | no header, or an empty token, gives 401 "No authentication token"; a rejected token gives 401 "Token is not valid"; a non-empty token the verifier accepts always passes, and success attaches exactly the verified userId and username |
| `Auth.BearerHeader` | middleware/auth.js:11-24 | the header `Bearer <t>` hands exactly `t` to the verifier; the header `"Bearer "` gives 401 without consulting the verifier |
| `Auth.HeaderWithoutMarker` | middleware/auth.js:11 | a header without "Bearer " is used as the token as it is |
| `Results.Failure.Status` | controllers/blogController.js:35-150 | status codes: 401 exactly for the gate's two refusals (middleware/auth.js:14 and :26), 403 exactly for the two ownership refusals, 500 exactly for a failed save, all in the 400-500 range |
| `BlogController.ProjectForgetsLikers` | controllers/blogController.js:144-146 | the answered view keeps every stored field and only replaces the likers by their number: two posts give the same view exactly when they differ at most in who liked them |
| `BlogController.OrElse` | controllers/blogController.js:77-78 | the logical-or default: a given non-empty value wins, otherwise the old value stays; the result is empty only when both are |
| `BlogController.Annotate` | controllers/blogController.js:13-17 | the listed `likes` is the length of the like list; `isLikedByUser` is false without a caller and otherwise true exactly when the caller id is in the list |
| `BlogController.Revise` | controllers/blogController.js:77-78 | a present, non-empty title (trimmed) or content replaces the field; an absent or empty one keeps the old value; author, authorName, likes and stamps do not change; with both fields empty the post is unchanged |
| `BlogController.InsertByAge` | controllers/blogController.js:8-9 | inserting into the listing adds exactly the new view and keeps every old one: the multiset of views grows by exactly that view |
| `BlogController.InsertKeepsOrder` | controllers/blogController.js:8-9 | inserting a view with a fresh stamp keeps the listing strictly newest first |
| `BlogController.ConsKeepsOrder` | controllers/blogController.js:8-9 | a view newer than every view of a newest-first listing can head it |
| `BlogController.Consistent` | models/Blog.js:8-31 | the table invariant, `PostTable.Valid` on the table's fields: every stored post passes validation, like lists hold no duplicates, stamps are in the past, creation stamps are distinct, ids are below the next id |
| `BlogController.SaveKeepsConsistent` | controllers/blogController.js:79 | saving a valid changed post, stamped with the clock, keeps the table invariant once the clock advances |
| `BlogController.CreateKeepsConsistent` | controllers/blogController.js:39-46 | storing a valid new post under the next id, stamped with the clock, keeps the table invariant and never overwrites a post |
| `BlogController.PostTable.GetAllBlogs` | controllers/blogController.js:6-20 | every stored post is listed once, strictly newest first by creation stamp, each as its annotation for the caller |
| `BlogController.PostTable.CreateBlog` | controllers/blogController.js:29-51 | missing or empty title or content gives 400 and no change; a title that trims to empty, or an empty caller id or name, gives 500 and no change; otherwise exactly one new post is added under a fresh id, with the trimmed title, the content, author = caller id, authorName = caller name and no likes, newer than every existing post; nothing else changes |
| `BlogController.PostTable.UpdateBlog` | controllers/blogController.js:60-84 | unknown id gives 404 and no change; a non-author gives 403 and no change; otherwise the post becomes its revision: 500 and no change if the title trims to empty, no write if nothing changed, else a write stamped with the clock; every other post is unchanged |
| `BlogController.PostTable.Save` | controllers/blogController.js:79 | saving a stored post: a post validation rejects gives 500 and no change; an unmodified post is not written and `updatedAt` stays; a modified one is written with `updatedAt` set to the clock; the table invariant holds after |
| `BlogController.PostTable.DeleteBlog` | controllers/blogController.js:93-111 | unknown id gives 404 and no change; a non-author gives 403 and no change; otherwise exactly that id is removed and nothing else changes |
| `BlogController.PostTable.ToggleLike` | controllers/blogController.js:120-150 | unknown id gives 404 and no change; an empty caller id gives 500 and no change; otherwise, with no ownership check, the like list becomes its toggle and the answer carries the new like count and the post-toggle membership; every other post is unchanged |
| `BlogController.PostTable.Serve` | routes/blogRoutes.js:22-26 | the listing always runs, changes nothing, has no caller and is the complete newest-first listing; a protected route the gate refuses gets the gate's 401 and changes nothing; a protected route the gate lets through gets exactly its handler's answer and effect for the identity the gate attached and the current clock |
| `BlogController.PostTable.Dispatch` | middleware/auth.js:24 | once the gate has passed, the route's handler runs for the attached identity: each route's status, its whole success answer and the whole new table are those of its handler (create, update, delete, toggle-like), writes stamped with the clock, and no handler answers 401 |
| `BlogController.CreatedIsNewest` | controllers/blogController.js:39-46 | on a consistent table, the post a create route stores is newer than every post stored before it |
| `BlogController.HandlersNeverAnswer401` | middleware/auth.js:13-26 | every 401 comes from the gate: whatever a handler answers, its failure is never a 401 |
| `BlogController.CreatedPostListsFirst` | controllers/blogController.js:8-9 | after a successful create, the new post heads the listing |

## Left out

- Persistence and I/O. MongoDB, Express, CORS, body parsing, logging and server start-up are left out. The table lives in memory, and each handler is one atomic step. The read-modify-write race between concurrent requests is not modelled.
- The 500 answers for store failures are not modelled. The only 500s modelled are the ones from validation on save.
- Ids that do not parse as object ids are not modelled. In the source, such an id in the URL throws a cast error (500) rather than answering 404. Post ids are natural numbers here.
- Caller ids that do not cast to an object id are not modelled beyond the empty id. The empty id is the only caller id treated as invalid: create and toggle-like answer 500 for it.
- Request bodies are modelled as an optional string per field. Non-string JSON values are not.
- `populate`, which replaces the author id with the author's name and email, is not modelled. Neither are `toObject`'s extra fields (`_id`, `__v`).
- The success messages ("Blog created successfully" and the like) are not modelled. Error messages are (`Failure.Message`).
- The JWT verifier is a parameter. Signature and expiry checks, the signing secret, and tokens whose payload lacks a field are not modelled.
- Timestamps are a counter, not wall-clock time. Ties in the listing's sort cannot occur, because creation stamps are distinct.
- Signup and login, and the user schema in `models/User.js`, are not part of this model.
- The database's sort is modelled as an insertion sort over the stored ids. Only its result is claimed, not the database's algorithm.
