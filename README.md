# blog-backend in Dafny

A model of the sequential core of a small blog service built on Express and
Mongoose:

- the aggregation helpers of `utils/list_helper.js` (`totalLikes`,
  `favoriteBlog`, `mostBlogs`, `mostLikes`), as pure functions over a
  sequence of blog records;
- the blog collection handlers of `controllers/blogs.js` (list, create,
  delete, update), as methods of a `BlogTable` class;
- the user handlers of `controllers/users.js` (the registration cascade and
  the listing), as a pure validation function and the methods of a
  `UserTable` class.

Each handler is one atomic step that returns its HTTP outcome (`Reply`) and
updates the collection. A collection is a `map` from document id to document
plus the order in which `find({})` returns the documents (insertion order);
its invariant `Valid()` says that this order lists every id exactly once.
Ids are natural numbers compared only for equality; the fresh id the store
generates on insert is a parameter of `Create` and `Register`, required not to
be in use. The password hash is a parameter `hash: string -> string` of
`Register`, so every property holds whatever the hash function is.

A JSON field that is absent, `undefined` or `null` is `None`. A string field
is falsy when it is `None` or `""`, which is what `!body.title` tests for
string values.

The helpers' lodash calls are modelled by what they compute: `countBy` and
`groupBy` build their object one blog at a time, with keys in order of first
appearance (`Authors`); `maxBy` keeps its first element and replaces it only by
a strictly greater one, so ties go to the earliest maximal element. In the
same way, `favoriteBlog`'s `reduce` with `>` keeps the earliest most-liked
blog. When the input is empty, `favoriteBlog` throws a TypeError (it reads
`title` of `undefined`), `mostLikes` returns `undefined` and `mostBlogs`
returns `{ author: undefined, blogs: undefined }`; all three outcomes are
`None`.

Files: `common.dfy` (Option, truthiness), `store.dfy` (ids, the listing
invariant, removal, the list snapshot), `list_helper.dfy`, `blogs.dfy`,
`users.dfy`.

Two outcomes worth noting in the source: a non-empty username or password
shorter than three characters gets the minimum-length message
(controllers/users.js:14-18), while an empty one is falsy and gets the
required-fields message (controllers/users.js:8-12); and a successful blog
create answers 200, since it replies with `response.json` and sets no status
(controllers/blogs.js:26).

## Model

| member | source | states |
|---|---|---|
| `Common.Truthy` | controllers/blogs.js:13 | stands for JavaScript truthiness of an optional string field, the test `!x` negates in the create guard and at controllers/users.js:8: absent, `null` and `""` are falsy |
| `ListHelper.TotalLikes` | utils/list_helper.js:7-9 | the fold from 0 equals the sum of every blog's likes, and is 0 for no blogs |
| `ListHelper.ReduceLikesSum` | utils/list_helper.js:8 | folding from any starting sum adds exactly the sum of the likes to it |
| `ListHelper.TotalLikesAppend` | utils/list_helper.js:7-9 | total likes is additive over concatenation |
| `ListHelper.ReduceMaxSpec` | utils/list_helper.js:12 | a strict-`>` reduction keeps its seed unless some element beats it, and otherwise ends on the first element with the greatest key |
| `ListHelper.MaxBy` | utils/list_helper.js:24 | lodash `maxBy`: nothing for an empty array, else the first element whose key is at least every other key and strictly above every earlier key |
| `ListHelper.ReduceLikes` | utils/list_helper.js:8 | stands for `blogs.reduce((sum, blog) => sum + blog.likes, 0)`; `ReduceLikesSum` proves it adds the sum of the likes to its seed |
| `ListHelper.ReduceMax` | utils/list_helper.js:12 | stands for the `reduce` with `blog.likes > max.likes ? blog : max`, generic in the key; `ReduceMaxSpec` proves where it ends |
| `ListHelper.Authors` | utils/list_helper.js:24 | stands for `_.keys` of the grouped object: authors in order of first appearance; `AuthorsCover`, `AuthorsInOrder` and `AuthorsDistinct` prove it |
| `ListHelper.CountBy` | utils/list_helper.js:23 | stands for `_.countBy(blogs, 'author')`, built one blog at a time; `CountBySpec` proves its keys and tallies |
| `ListHelper.GroupBy` | utils/list_helper.js:34 | stands for `_.groupBy(blogs, 'author')`, built one blog at a time; `GroupBySpec` proves its keys and groups |
| `BlogsController.HasRequiredFields` | controllers/blogs.js:13 | stands for the create guard on title and url not firing: both are truthy; `BlogTable.Create` states what each outcome does |
| `BlogsController.LikesOrZero` | controllers/blogs.js:20 | stands for `body.likes ?? 0`; `BlogTable.Create` states that a present value (0 included) is kept and only an absent one becomes 0 |
| `UsersController.UsernameTaken` | controllers/users.js:20-22 | stands for `User.findOne({ username })` finding a user; `UsersController.Check` states its place in the cascade |
| `ListHelper.FavoriteBlog` | utils/list_helper.js:11-20 | defined exactly for non-empty input; the result is the title/author/likes of some input blog, its likes are at least every blog's, and every earlier blog has strictly fewer likes |
| `ListHelper.AuthorsCover` | utils/list_helper.js:23 | every blog's author is a key of the grouped object |
| `ListHelper.AuthorsInOrder` | utils/list_helper.js:23 | object keys come in order of first appearance: before the first blog of the i-th key only earlier keys occur |
| `ListHelper.AuthorsDistinct` | utils/list_helper.js:23 | no author is a key twice |
| `ListHelper.CountBySpec` | utils/list_helper.js:23 | `countBy` has a key for exactly the authors present, and each key holds the number of that author's blogs |
| `ListHelper.GroupBySpec` | utils/list_helper.js:34 | `groupBy` has a key for exactly the authors present, and each key holds that author's blogs in input order |
| `ListHelper.FirstMaxAuthor` | utils/list_helper.js:24 | the first maximal key scores at least as much as any blog's author, and strictly more than the author of every blog before its own first blog |
| `ListHelper.MostBlogs` | utils/list_helper.js:22-31 | defined exactly for non-empty input; the author's count is its number of blogs, no author has more, and every author seen before the winner's first blog has strictly fewer |
| `ListHelper.AuthorTotals` | utils/list_helper.js:35-38 | one entry per key, in key order, holding the author and the sum of the likes of its group |
| `ListHelper.MostLikes` | utils/list_helper.js:33-41 | defined exactly for non-empty input; the likes are the sum over the author's blogs, no author has a greater total, and every author seen before the winner's first blog has a strictly smaller one |
| `Store.Without` | controllers/blogs.js:57 | removing an id keeps exactly the other ids, in their order, and keeps them distinct |
| `Store.Snapshot` | controllers/blogs.js:5-6 | the listing has one entry per stored document, in storage order, each with its own document, and every stored id appears |
| `BlogsController.BlogTable.List` | controllers/blogs.js:4-8 | GET returns every stored blog once with its id, and nothing else |
| `BlogsController.BlogTable.Create` | controllers/blogs.js:10-29 | 400 and no change without a truthy title or url; otherwise 200 with one new blog under the fresh id holding the given title, author and url, likes as given when present (0 stays 0) and 0 when absent, the rest unchanged |
| `BlogsController.BlogTable.Delete` | controllers/blogs.js:52-66 | 204 and exactly that id removed when it exists, the count down by one; 404 and no change otherwise |
| `BlogsController.BlogTable.Update` | controllers/blogs.js:68-87 | for a stored id, all four fields become the body's with no likes default, the ids and other blogs unchanged; 404 and no change otherwise |
| `BlogsController.CreateThenDelete` | controllers/blogs.js:10-66 | a create under a fresh id followed by a delete of that id leaves the blogs and their order as they were: 200 then 204 for a valid body, 400 then 404 for a refused one |
| `BlogsController.DefaultLikesScenario` | tests/blog_api.test.js:64-82 | a blog posted without likes is listed with likes 0; a post without url is refused and the listing keeps one blog |
| `UsersController.Check` | controllers/users.js:8-26 | the cascade's message is the required-fields one exactly when a field is falsy, the length one exactly when both are present but one is shorter than 3, the taken one exactly when both pass and the username exists, and no error exactly when all pass |
| `UsersController.UserTable.Register` | controllers/users.js:5-40 | a refused request gets 400 with the cascade's message and changes nothing; otherwise 201 and exactly one user with the given username and name and the hash of the password, the usernames staying pairwise distinct |
| `UsersController.UserTable.List` | controllers/users.js:42-45 | GET returns every stored user once with its id, and nothing else |
| `UsersController.DuplicateUsernameScenario` | tests/blog_api.test.js:147-203 | with `root` registered, registering `root` again is refused as taken, a registration without username as incomplete, and one user remains |

## Left out

- `dummy` (utils/list_helper.js:3-5) returns the constant 1; there is nothing to state about it.
- The second, identical POST `/` handler (controllers/blogs.js:31-50) is never reached, since Express dispatches to the first; the rule is modelled once.
- `index.js` (server wiring, logging, the phonebook routes, the unknown-endpoint and error handlers) and `mongo.js` (a command-line script) are I/O and are not part of this model.
- Store and library failures are not modelled: `find`, `save`, `findById`, `findByIdAndRemove`, `findByIdAndUpdate`, `findOne` and `bcrypt.hash` are assumed to succeed. So the `.catch(next)` paths of create and update and the `try`/`catch` of delete, including a malformed id, do not appear. GET `/` (controllers/blogs.js:4-8) and both users handlers have no catch of their own; what a rejected store call then does depends on the application that mounts the routers, which is not part of this model.
- The schemas in `models/blog` and `models/user` are not part of this model, so schema validation on save and the `toJSON` transform that hides `passwordHash` in responses are not modelled; `Created` carries the stored user as saved.
- `bcrypt.hash` is salted and asynchronous; it is a parameter of `Register`, and salt rounds are not modelled.
- Ids are natural numbers standing for Mongo ObjectIds; their generation and format are not modelled.
- The storage order of `find({})` is taken to be insertion order; the store does not promise it.
- Concurrency: each handler is one atomic step, so the race between two simultaneous registrations of the same username (the check and the insert are separate store calls) is not captured.
- `ListHelper.Blog`: every record has a string author and an integer likes. For a blog without an author, `countBy` and `groupBy` key it as the string "undefined" (merging it with an author really named "undefined") and `favoriteBlog` can return `author: undefined`; a blog without likes turns `totalLikes` into `NaN`. None of these inputs is modelled.
- Field values of other JSON types than strings and integers (a numeric title, a string `likes`) are not modelled, nor the falsiness of such values.
- `ListHelper.TotalLikes`: likes are unbounded integers; JavaScript's floating-point addition is not modelled.
- `UsersController.Check`: string length counts characters, while JavaScript's `length` counts UTF-16 code units, so the two differ for characters outside the Basic Multilingual Plane.
- `BlogsController.BlogTable.Update`: an absent body field is stored as absent; how Mongoose treats `undefined` keys in an update document is not modelled.
- `ListHelper.Authors`: keys are listed in order of first appearance; JavaScript lists integer-like property names (an author named "42") first, in ascending numeric order, so for such authors the key order of `countBy`/`groupBy` objects differs. `AuthorsInOrder` is stated for the model's order.
- `ListHelper.MostBlogs`: keys are ordered by first appearance; JavaScript puts integer-like keys (an author named "42") first in ascending numeric order, which can change the tie-break.
- `ListHelper.MostLikes`: the same key-order caveat as `MostBlogs` applies.
