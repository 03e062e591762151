# BlogApp user API and seed post lookup, modelled in Dafny

BlogApp is a small FastAPI blog with users and posts. This project models two
parts of it.

- The user API of `routers/users.py`. It covers listing users, reading one
  user, listing a user's posts, creating a user, patching a user and deleting
  a user. The database becomes two in-memory tables in the class
  `UsersApi.UserStore`: `users`, a map from user id to
  `User(username, email, image)`, and `posts`, a map from post id to
  `Post(userId, datePosted, title, content)`. Each endpoint is a method on
  that class. It returns a `Result`: `Ok(value)` for 200/201/204,
  `NotFound` for 404, or `Conflict(UsernameTaken | EmailTaken)` for 400.
  The class invariant `Valid()` says that usernames are pairwise distinct
  and e-mail addresses are pairwise distinct. Every mutating endpoint
  requires the invariant and keeps it.
- The first post API of `main.py`. It is a constant list of two posts.
  `AllPosts` returns the list whole. `FindPost` and `GetAuthor` search it by
  id and return the first match in list order. On a miss they return the
  ordinary reply `{"Message": "Post not found"}`, not an error.

Files:

- `table.dfy` (module `UserTable`) holds the records, the uniqueness
  invariant and the decisions the endpoints take. These are which conflict a
  create or a patch runs into, what a patch does to a record, and how a
  user's posts are ordered newest first. It also holds the lemmas about them.
- `store.dfy` (module `UsersApi`) holds the stateful endpoints as methods of
  `UserStore`. It also holds a client method, `CreateTwiceDeleteTwice`. That
  method walks through the usual scenario: the second create of "amy" fails
  on the username, a create with a taken e-mail fails on the e-mail,
  re-submitting one's own values succeeds, and the second delete returns 404.
- `seed.dfy` (module `SeedPosts`) holds the seed list and its search.

Two outcomes worth stating plainly:

- Deleting a missing user is a 404 (routers/users.py:122-123).
- A miss in the seed lookup is an ordinary reply carrying a message, not an
  error status (main.py:37).

## Model

| member | source | states |
|---|---|---|
| `UsersApi.UserStore.ListUsers` | routers/users.py:17-22 | every row of the users table comes back once, with its id and its record, and nothing else does |
| `UsersApi.UserStore.GetUser` | routers/users.py:25-35 | the result is `Ok` exactly when the id is in the table, and then it carries that id's record; otherwise it is `NotFound` |
| `UsersApi.UserStore.UserPosts` | routers/users.py:39-54 | `NotFound` exactly when the user is absent, whatever posts exist; otherwise the result is a full listing (`IsPostListing`) of that user's posts: each post once, only that user's posts, and newest first |
| `UserTable.InsertNewestFirst` | routers/users.py:48-53 | inserting a post into the ordered result adds exactly that post: the length grows by one and the multiset of rows gains only it |
| `UserTable.InsertKeepsNewestFirst` | routers/users.py:52 | insertion keeps the listing ordered by `date_posted` descending |
| `UserTable.InsertKeepsDistinctIds` | routers/users.py:48-53 | inserting a post whose id is not yet listed keeps every post listed at most once |
| `UserTable.ListingStep` | routers/users.py:48-53 | scanning one more post of the table keeps a correct partial listing: a post of the user is inserted and any other post is skipped |
| `UserTable.ListingComplete` | routers/users.py:48-53 | a partial listing that has scanned every post id is the full answer of the filtered, ordered query |
| `UserTable.NoPostsEmptyListing` | routers/users.py:39-54 | for an existing user with no posts, the listing is the empty sequence |
| `UserTable.ListingsAgree` | routers/users.py:48-53 | any two correct listings hold the same rows |
| `UserTable.CreateConflict` | routers/users.py:60-72 | `UsernameTaken` exactly when some user has the username; `EmailTaken` exactly when no user has the username and some user has the e-mail; no conflict exactly when neither is in use |
| `UserTable.CreateKeepsUnique` | routers/users.py:60-80 | adding a user that passed both checks under an unused id keeps usernames and e-mails unique |
| `UsersApi.UserStore.NewUserId` | routers/users.py:74-78 | the key given to a new user is not in the users table (here it is larger than every key) |
| `UsersApi.UserStore.CreateUser` | routers/users.py:57-80 | the username is checked before the e-mail and each conflict is reported exactly when routers/users.py:64-72 raises it; on a conflict nothing changes; on success exactly one row is added, under a fresh id, with the given fields; posts never change; uniqueness is kept |
| `UserTable.PatchConflict` | routers/users.py:91-101 | a field is checked only when it is supplied and differs from the user's current value; the username conflict comes first; the e-mail conflict is reported only when the username did not conflict |
| `UserTable.ApplyUpdate` | routers/users.py:103-108 | each supplied field replaces the current value and each absent field keeps it |
| `UserTable.OwnValuesNeverConflict` | routers/users.py:91-101 | re-submitting the user's own username and e-mail, or leaving them out, never conflicts, whatever the table holds |
| `UserTable.PatchKeepsUnique` | routers/users.py:86-108 | a patch that passed its checks keeps usernames and e-mails unique |
| `UsersApi.UserStore.PatchUser` | routers/users.py:83-113 | an unknown id gives `NotFound` and changes nothing; a conflict gives that conflict and changes nothing; otherwise only that user changes, to `ApplyUpdate` of the old record; uniqueness is kept and posts are untouched |
| `UserTable.DeleteKeepsUnique` | routers/users.py:125 | removing a row keeps uniqueness |
| `UsersApi.UserStore.DeleteUser` | routers/users.py:116-128 | an unknown id gives `NotFound` and changes nothing; otherwise exactly that row is removed, the other users stay, no post is added, every post of another user stays as it was, no remaining user gains a post (so no remaining user gains or loses one), and the result is the empty 204 success |
| `SeedPosts.ListingAgreesWithLookup` | main.py:26-37 | the listing and the lookup agree: an id is found exactly when some post of the listing carries it, and the post found is the first such post in listing order |
| `SeedPosts.FindPost` | main.py:33-37 | a post is found exactly when some post has the id; the one returned is the first in list order with that id; otherwise the reply is the "Post not found" message |
| `SeedPosts.GetAuthor` | main.py:30-37 | a found post is in the seed list and has the requested id; the message comes back only when no seed post has the id |
| `SeedPosts.FindPostDistinct` | main.py:33-35 | when ids are distinct, the search returns the post that carries the id |
| `SeedPosts.SeedLookups` | main.py:5-20 | on the seed data, id 1 finds "Normal People", id 2 finds the second post, and every other id gets the message |

## Left out

- HTTP routing, status codes and `Response` objects are left out. Outcomes are the tags of `Result` (and `Reply` for the seed lookup).
- The database session is left out: `get_db`, async/await, `execute`, `commit`, `refresh` and `selectinload`. The methods read and write the two maps directly.
- The request and response schemas are not part of this model, and neither is any field-format check. Payload fields are strings, and a patch field is `None` when absent.
- The default value of `image_file` lives in the models module, which is not part of this model. It is the tag `DefaultImage`.
- How the database generates keys is not modelled. `NewUserId` picks a key larger than every key in use. Only freshness is promised to callers.
- UsersApi.UserStore.DeleteUser: leaves open whether the deleted user's posts are removed, kept under the deleted id, or left without an owner (an owner id not in `users`); it does promise that none of them goes to a remaining user, that no post is added and that other users' posts are unchanged. Cascade or restrict is decided in the models module, which is not part of this model.
- UsersApi.UserStore.ListUsers: promises no order, because the query in routers/users.py:20 has no `order_by`.
- UsersApi.UserStore.UserPosts: fixes no order among posts with equal `date_posted`, because the database does not fix one either.
- Concurrent requests racing between a uniqueness check and the insert are left out. The model is sequential.
- Error message texts are left out. The texts in routers/users.py differ between create and patch; the model keeps only the tags `UsernameTaken` and `EmailTaken`.
- `home` in main.py returns a constant greeting and is left out.
