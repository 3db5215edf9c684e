# Posts store of simple-three-tier

A Dafny model of the in-memory work that the route handlers of `app.js` do on
the `posts` collection of the JSON document: lookup by position and by id, the
filter by published flag, and the three handlers that change the collection in
place — add, status update and delete — together with the parsing of the
`published` path parameter.

- `posts.dfy`, module `Posts`: the `Post` record, `ParsedInt` (the result of
  `parseInt`, an integer or NaN; NaN matches no post, since `===` with NaN is
  false), the flag parsing, the lookups (`At`, `FindIndex` for `findIndex`,
  `FindById` for `find`), the seedless `reduce` that finds the post with the
  highest id (`KeepHigher`, `HighestPost`), the post that add appends
  (`NewPost`), the filter (`Published`), reference definitions of what a status
  update and a delete leave behind (`WithStatus`, `WithoutFirst`), and lemmas
  relating them.
- `store.dfy`, module `Store`: the class `PostStore` whose field `posts` is the
  collection, with methods `Add`, `SetStatus` and `Delete` that update it as
  the handlers do (`push`, a field assignment at the index `findIndex`
  reports, `splice` at that index), each returning a `Reply`: the collection
  sent back, the error the handler throws, or no response. A small client,
  `AddFilterDelete`, walks through add, filter and a repeated delete relying on
  the methods' contracts, not their bodies.

A status update for an id that no post has is not a silent no-op: in the code
`findIndex` yields -1, `posts[-1]` is undefined and assigning its `published`
field throws before anything is written. The model returns
`Failed(NoSuchPost)` and leaves the collection unchanged.

Likewise the add handler's `reduce` has no seed, so on an empty collection it
throws; `Add` then returns `Failed(EmptyCollection)` and changes nothing,
rather than requiring a non-empty collection of its caller.

## Model

| member | source | states |
|---|---|---|
| `Posts.Matches` | app.js:56 | the `post.id === id` test holds exactly when the parsed id is the post's own id, so never for NaN |
| `Posts.ParseFlag` | app.js:66 | the add and filter handlers' flag is true exactly for the four lower-case characters t, r, u, e |
| `Posts.LowerChar` | app.js:104 | an ASCII capital becomes the same letter in lower case, any other character is kept, and the result is never an ASCII capital |
| `Posts.Lower` | app.js:104 | lower-casing keeps the length and maps each character through the ASCII lower-case mapping |
| `Posts.ParseFlagIgnoringCase` | app.js:104 | the status flag is true exactly for the four-letter spellings of "true" in any mix of cases; everything the exact parse of the add and filter handlers accepts (only "true") it accepts too |
| `Posts.At` | app.js:46 | lookup by position yields a post exactly when 0 <= index < length, and then the post at that position; otherwise nothing |
| `Posts.FindIndex` | app.js:107 | `findIndex` yields -1 exactly when no post has the id, and otherwise the position of a matching post before which none matches |
| `Posts.FindById` | app.js:56 | `find` yields a post of the collection with the id, and nothing exactly when no post has it |
| `Posts.FindByIdIsFirstMatch` | app.js:56 | `find` yields what lookup by position gives at the index `findIndex` reports: the first match, or nothing at -1 |
| `Posts.NaNFindsNothing` | app.js:54-56 | an id that parses to NaN finds no post and has index -1 |
| `Posts.KeepHigher` | app.js:69-73 | the reduce callback folded left to right ends with the seed or one of the folded posts, whose id is at least every id seen |
| `Posts.HighestPost` | app.js:69-73 | on a non-empty collection the seedless reduce yields a post of the collection whose id is at least every id in it |
| `Posts.KeepHigherKeepsFirst` | app.js:71-72 | because only a strictly higher id replaces the accumulator, the result is the seed or a later post whose id beats the seed and every post before it; with `KeepHigher`'s upper bound, this is the first post carrying the highest id |
| `Posts.NewPost` | app.js:75-79 | the new post carries the given title and flag and an id exactly one past the highest id in use: one more than some existing id and strictly above every id, so different from all of them |
| `Posts.AddKeepsIdsUnique` | app.js:75-81 | appending the new post to a collection with unique ids keeps them unique |
| `Posts.AddThenFind` | app.js:75-81 | after the append, lookup by the new id finds exactly the new post |
| `Posts.Published` | app.js:94 | the filter is no longer than the collection and every post it keeps has the requested flag |
| `Posts.PublishedCounts` | app.js:94 | the filter keeps each post with the flag exactly as often as it occurs in the collection, and no other post |
| `Posts.PublishedAppend` | app.js:94 | the filter preserves relative order: filtering a concatenation concatenates the filtered parts |
| `Posts.PublishedPartition` | app.js:92-94 | filtering by true and by false partitions the collection: the lengths sum to its length and the multisets to its multiset |
| `Posts.WithStatus` | app.js:107-108 | a status update keeps the length and the id and title of every post |
| `Posts.StatusNoMatch` | app.js:107-108 | the reference status update changes nothing when no post carries the id |
| `Posts.StatusAtFirstMatch` | app.js:107-108 | given the first match `k` (what `findIndex` reports), a status update is the write of the flag into `posts[k]` and changes nothing else |
| `Posts.StatusThenFind` | app.js:107-108 | after a status update, lookup by the same id finds the previously found post with the new flag |
| `Posts.StatusKeepsIdsUnique` | app.js:108 | a status update keeps ids unique |
| `Posts.WithoutFirst` | app.js:122-124 | a delete shortens the collection by at most one |
| `Posts.WithoutFirstNoMatch` | app.js:122-123 | a delete changes nothing when no post carries the id |
| `Posts.WithoutFirstAt` | app.js:122-124 | given the first match `k` (what `findIndex` reports), a delete is `splice(k, 1)`: the posts before `k` followed by those after it |
| `Posts.DeleteRemovesOneMatch` | app.js:122-124 | a delete removes exactly one post with the id when there is one, and the posts with other ids keep their relative order |
| `Posts.DeleteTwice` | app.js:122-124 | when the id occurs at most once, deleting it a second time changes nothing |
| `Posts.DeleteTwiceRemovesSecond` | app.js:122-124 | when the id occurs first at `k1` and next at `k2`, two deletes leave the collection without exactly positions `k1` and `k2` |
| `Posts.DeleteTwiceCounts` | app.js:122-124 | when the id occurs at least twice, two deletes remove two posts carrying it and the posts with other ids keep their relative order |
| `Posts.DeleteKeepsIdsUnique` | app.js:122-124 | a delete keeps ids unique |
| `Store.PostStore.Add` | app.js:64-84 | on an empty collection fails with no change; otherwise appends exactly the new post with id one past the highest, the given title and flag ("true" only), and sends the whole collection |
| `Store.PostStore.SetStatus` | app.js:102-112 | with no matching post fails with no change; otherwise sets the case-insensitively parsed flag on the first matching post and sends the whole collection |
| `Store.PostStore.Delete` | app.js:119-126 | with no matching post sends no response and changes nothing; otherwise removes the first matching post, shortening the collection by one, and sends it |

## Left out

- Express routing, static file serving and sending the response (app.js:18 and every `res.send`): a `Reply` value stands for what is sent.
- The JSON file store (app.js:13-15 and every `db.read()` / `db.write()`): the model holds the collection in memory; reading and writing the file is I/O through a library that is not part of this model, and its failures are not modelled.
- Concurrent requests interleaving their read-modify-write cycles, and the lost update that follows: this exists only through concurrency.
- `parseInt` coercion of the id parameter (whitespace, partial digits): handlers receive an already parsed `ParsedInt`.
- String keys on `posts[index]` (app.js:44-46): `At` takes the index as an integer.
- `console.log` inside the reduce callback (app.js:70).
- `/data` and `/posts` (app.js:25-37): they send the stored document or collection unchanged; other top-level fields of the document are not modelled.
- What the client sees when a handler throws (an unhandled rejection) or does not reply: the model records only `Failed` or `NoResponse` with the collection unchanged.
- Lower, LowerChar: only the ASCII letters A–Z are mapped; the full Unicode case mapping of `toLowerCase` is not modelled.
- NewPost: ids are unbounded integers; floating-point rounding of `highestIndex + 1` for ids beyond 2^53 is not modelled.
- Posts whose fields have other JSON types, or extra fields, are not modelled: a post is exactly an integer id, a string title and a boolean flag.
