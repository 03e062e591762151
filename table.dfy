/** The user and post tables behind the user API, as values: the records, the
    uniqueness invariant the API keeps on usernames and e-mail addresses, and
    the decisions the endpoints take (which conflict a create or a patch runs
    into, what a patch does to a record, where a post goes in a newest-first
    listing). The stateful endpoints themselves live in module UsersApi. */
module UserTable {

  datatype Option<T> = None | Some(value: T)

  /** The profile picture of a user: the column default set by the database
      when the user is created, or a file name set by a patch. */
  datatype Image = DefaultImage | ImageFile(name: string)

  /** A row of the users table, without its primary key. */
  datatype User = User(username: string, email: string, image: Image)

  /** A row of the posts table, without its primary key; `datePosted` is a
      timestamp, later is larger. */
  datatype Post = Post(userId: int, datePosted: int, title: string, content: string)

  /** What the API returns for one user or one post: the row with its key. */
  datatype UserRow = UserRow(id: int, user: User)
  datatype PostRow = PostRow(id: int, post: Post)

  /** The payload of a partial update: `None` is a field left out. */
  datatype UserUpdate = UserUpdate(username: Option<string>, email: Option<string>, imageFile: Option<string>)

  /** The two "400 Bad Request" outcomes of create and patch. */
  datatype ConflictKind = UsernameTaken | EmailTaken

  /** The outcome of an endpoint: its value (200, 201 or 204), a 404, or a 400. */
  datatype Result<T> = Ok(value: T) | NotFound | Conflict(kind: ConflictKind)

  type Users = map<int, User>
  type Posts = map<int, Post>

  // ---------------------------------------------------------------------
  // The table invariant

  ghost predicate UniqueUsernames(users: Users) {
    forall a, b | a in users && b in users && users[a].username == users[b].username :: a == b
  }

  ghost predicate UniqueEmails(users: Users) {
    forall a, b | a in users && b in users && users[a].email == users[b].email :: a == b
  }

  /** No two users share a username, and no two share an e-mail address. */
  ghost predicate Unique(users: Users) {
    UniqueUsernames(users) && UniqueEmails(users)
  }

  // ---------------------------------------------------------------------
  // The queries `select User where username == ...` / `where email == ...`

  predicate UsernameInUse(users: Users, name: string) {
    exists id | id in users :: users[id].username == name
  }

  predicate EmailInUse(users: Users, email: string) {
    exists id | id in users :: users[id].email == email
  }

  // ---------------------------------------------------------------------
  // Create

  /** The conflict a create runs into, if any: the username is looked up
      first, and the e-mail address only when the username is free. */
  function CreateConflict(users: Users, username: string, email: string): (r: Option<ConflictKind>)
    ensures r == Some(UsernameTaken) <==> exists id | id in users :: users[id].username == username
    ensures r == Some(EmailTaken) <==>
              (forall id | id in users :: users[id].username != username) &&
              (exists id | id in users :: users[id].email == email)
    ensures r == None <==>
              forall id | id in users :: users[id].username != username && users[id].email != email
  {
    if UsernameInUse(users, username) then Some(UsernameTaken)
    else if EmailInUse(users, email) then Some(EmailTaken)
    else None
  }

  /** A create that passed both checks, stored under a key not yet in use,
      keeps the table invariant. */
  lemma CreateKeepsUnique(users: Users, id: int, username: string, email: string)
    requires Unique(users)
    requires id !in users
    requires CreateConflict(users, username, email) == None
    ensures Unique(users[id := User(username, email, DefaultImage)])
  {
  }

  // ---------------------------------------------------------------------
  // Patch

  /** A supplied field that differs from the user's current value. */
  predicate Changes(field: Option<string>, current: string) {
    field.Some? && field.value != current
  }

  /** The conflict a patch of user `id` runs into, if any. A field is looked
      up only when it is supplied and differs from the user's current value;
      the username is looked up before the e-mail address. */
  function PatchConflict(users: Users, id: int, upd: UserUpdate): (r: Option<ConflictKind>)
    requires id in users
    ensures r == Some(UsernameTaken) <==>
              upd.username.Some? && upd.username.value != users[id].username &&
              exists other | other in users :: users[other].username == upd.username.value
    ensures r == Some(EmailTaken) <==>
              !(upd.username.Some? && upd.username.value != users[id].username &&
                exists other | other in users :: users[other].username == upd.username.value) &&
              upd.email.Some? && upd.email.value != users[id].email &&
              exists other | other in users :: users[other].email == upd.email.value
  {
    var current := users[id];
    if Changes(upd.username, current.username) && UsernameInUse(users, upd.username.value) then
      Some(UsernameTaken)
    else if Changes(upd.email, current.email) && EmailInUse(users, upd.email.value) then
      Some(EmailTaken)
    else
      None
  }

  /** The record after a patch: every supplied field replaces the current
      value, every field left out keeps it. */
  function ApplyUpdate(u: User, upd: UserUpdate): (r: User)
    ensures r.username == if upd.username.Some? then upd.username.value else u.username
    ensures r.email == if upd.email.Some? then upd.email.value else u.email
    ensures r.image == if upd.imageFile.Some? then ImageFile(upd.imageFile.value) else u.image
  {
    var u1 := if upd.username.Some? then u.(username := upd.username.value) else u;
    var u2 := if upd.email.Some? then u1.(email := upd.email.value) else u1;
    if upd.imageFile.Some? then u2.(image := ImageFile(upd.imageFile.value)) else u2
  }

  /** Re-submitting a user's own username and e-mail address (or leaving them
      out) never conflicts, whatever else the table holds. */
  lemma OwnValuesNeverConflict(users: Users, id: int, upd: UserUpdate)
    requires id in users
    requires upd.username == None || upd.username == Some(users[id].username)
    requires upd.email == None || upd.email == Some(users[id].email)
    ensures PatchConflict(users, id, upd) == None
  {
  }

  /** A patch that passed its checks keeps the table invariant. */
  lemma PatchKeepsUnique(users: Users, id: int, upd: UserUpdate)
    requires Unique(users)
    requires id in users
    requires PatchConflict(users, id, upd) == None
    ensures Unique(users[id := ApplyUpdate(users[id], upd)])
  {
  }

  // ---------------------------------------------------------------------
  // Delete

  /** Removing a row keeps the table invariant. */
  lemma DeleteKeepsUnique(users: Users, id: int)
    requires Unique(users)
    ensures Unique(users - {id})
  {
  }

  // ---------------------------------------------------------------------
  // The posts of a user, newest first

  ghost predicate NewestFirst(rows: seq<PostRow>) {
    forall i, j | 0 <= i < j < |rows| :: rows[i].post.datePosted >= rows[j].post.datePosted
  }

  ghost predicate DistinctIds(rows: seq<PostRow>) {
    forall i, j | 0 <= i < j < |rows| :: rows[i].id != rows[j].id
  }

  /** `rows` is an answer to `select Post where user_id == uid order by
      date_posted desc`: every post of `uid` exactly once, nothing else, and
      later posts before earlier ones (posts with equal dates in any order). */
  ghost predicate IsPostListing(rows: seq<PostRow>, posts: Posts, uid: int) {
    && (forall i | 0 <= i < |rows| ::
          rows[i].id in posts && posts[rows[i].id] == rows[i].post && rows[i].post.userId == uid)
    && (forall pid | pid in posts && posts[pid].userId == uid ::
          exists i :: 0 <= i < |rows| && rows[i].id == pid)
    && DistinctIds(rows)
    && NewestFirst(rows)
  }

  /** Puts `row` into a newest-first listing, after every row at least as
      recent; the result holds the old rows and `row`, nothing else. */
  function InsertNewestFirst(rows: seq<PostRow>, row: PostRow): (r: seq<PostRow>)
    ensures |r| == |rows| + 1
    ensures multiset(r) == multiset(rows) + multiset{row}
  {
    if rows == [] then [row]
    else if row.post.datePosted > rows[0].post.datePosted then [row] + rows
    else
      assert rows == [rows[0]] + rows[1..];
      [rows[0]] + InsertNewestFirst(rows[1..], row)
  }

  /** Insertion keeps a listing newest first. */
  lemma {:induction false} InsertKeepsNewestFirst(rows: seq<PostRow>, row: PostRow)
    requires NewestFirst(rows)
    ensures NewestFirst(InsertNewestFirst(rows, row))
  {
    if rows != [] && row.post.datePosted <= rows[0].post.datePosted {
      var rest := InsertNewestFirst(rows[1..], row);
      InsertKeepsNewestFirst(rows[1..], row);
      forall k | 0 <= k < |rest| ensures rest[k].post.datePosted <= rows[0].post.datePosted {
        assert rest[k] in multiset(rest);
        if rest[k] != row {
          assert rest[k] in multiset(rows[1..]);
          var m :| 0 <= m < |rows[1..]| && rows[1..][m] == rest[k];
          assert rows[m + 1] == rest[k];
        }
      }
    }
  }

  /** Insertion of a post not yet listed keeps every post listed once. */
  lemma {:induction false} InsertKeepsDistinctIds(rows: seq<PostRow>, row: PostRow)
    requires DistinctIds(rows)
    requires forall i | 0 <= i < |rows| :: rows[i].id != row.id
    ensures DistinctIds(InsertNewestFirst(rows, row))
  {
    if rows != [] && row.post.datePosted <= rows[0].post.datePosted {
      var rest := InsertNewestFirst(rows[1..], row);
      InsertKeepsDistinctIds(rows[1..], row);
      forall k | 0 <= k < |rest| ensures rest[k].id != rows[0].id {
        assert rest[k] in multiset(rest);
        if rest[k] != row {
          assert rest[k] in multiset(rows[1..]);
          var m :| 0 <= m < |rows[1..]| && rows[1..][m] == rest[k];
          assert rows[m + 1] == rest[k];
        }
      }
    }
  }

  /** `rows` lists, newest first and once each, the posts of `uid` among the
      keys `done`; with `done` the whole table this is IsPostListing. */
  ghost predicate PartialListing(rows: seq<PostRow>, posts: Posts, uid: int, done: set<int>) {
    && (forall i | 0 <= i < |rows| ::
          rows[i].id in done && rows[i].id in posts && posts[rows[i].id] == rows[i].post
          && rows[i].post.userId == uid)
    && (forall pid | pid in done && pid in posts && posts[pid].userId == uid ::
          exists i :: 0 <= i < |rows| && rows[i].id == pid)
    && DistinctIds(rows)
    && NewestFirst(rows)
  }

  /** The rows of an insertion are the old rows and the new one. */
  lemma InsertMembers(rows: seq<PostRow>, row: PostRow)
    ensures forall i | 0 <= i < |InsertNewestFirst(rows, row)| ::
              InsertNewestFirst(rows, row)[i] == row || InsertNewestFirst(rows, row)[i] in rows
    ensures row in InsertNewestFirst(rows, row)
    ensures forall x | x in rows :: x in InsertNewestFirst(rows, row)
  {
  }

  /** After inserting a post of `uid` whose key is `pid`, every listed row
      is still a post of `uid` as the table holds it, with a key in
      `done + {pid}`. */
  lemma InsertRowsListed(rows: seq<PostRow>, posts: Posts, uid: int, done: set<int>, pid: int)
    requires PartialListing(rows, posts, uid, done)
    requires pid in posts && posts[pid].userId == uid
    ensures forall i | 0 <= i < |InsertNewestFirst(rows, PostRow(pid, posts[pid]))| ::
              var x := InsertNewestFirst(rows, PostRow(pid, posts[pid]))[i];
              x.id in done + {pid} && x.id in posts && posts[x.id] == x.post && x.post.userId == uid
  {
    var row := PostRow(pid, posts[pid]);
    InsertMembers(rows, row);
    var rows' := InsertNewestFirst(rows, row);
    forall i | 0 <= i < |rows'|
      ensures rows'[i].id in done + {pid} && rows'[i].id in posts
      ensures posts[rows'[i].id] == rows'[i].post && rows'[i].post.userId == uid
    {
      if rows'[i] != row {
        var k :| 0 <= k < |rows| && rows[k] == rows'[i];
      }
    }
  }

  /** After inserting the post whose key is `pid`, every post of `uid` with a
      key in `done + {pid}` is listed. */
  lemma InsertCoversDone(rows: seq<PostRow>, posts: Posts, uid: int, done: set<int>, pid: int)
    requires PartialListing(rows, posts, uid, done)
    requires pid in posts && posts[pid].userId == uid
    ensures forall q | q in done + {pid} && q in posts && posts[q].userId == uid ::
              exists i :: 0 <= i < |InsertNewestFirst(rows, PostRow(pid, posts[pid]))| &&
                          InsertNewestFirst(rows, PostRow(pid, posts[pid]))[i].id == q
  {
    var row := PostRow(pid, posts[pid]);
    InsertMembers(rows, row);
    var rows' := InsertNewestFirst(rows, row);
    forall q | q in done + {pid} && q in posts && posts[q].userId == uid
      ensures exists i :: 0 <= i < |rows'| && rows'[i].id == q
    {
      var x := if q == pid then row else var k :| 0 <= k < |rows| && rows[k].id == q; rows[k];
      assert x in rows';
    }
  }

  /** Looking at one more post of the table: a post of `uid` is inserted,
      any other post is passed over, and the listing covers one key more. */
  lemma ListingStep(rows: seq<PostRow>, posts: Posts, uid: int, done: set<int>, pid: int)
    requires PartialListing(rows, posts, uid, done)
    requires pid in posts && pid !in done
    ensures PartialListing(
              if posts[pid].userId == uid then InsertNewestFirst(rows, PostRow(pid, posts[pid])) else rows,
              posts, uid, done + {pid})
  {
    if posts[pid].userId == uid {
      var row := PostRow(pid, posts[pid]);
      InsertKeepsNewestFirst(rows, row);
      InsertKeepsDistinctIds(rows, row);
      InsertRowsListed(rows, posts, uid, done, pid);
      InsertCoversDone(rows, posts, uid, done, pid);
    }
  }

  /** A listing that has looked at every key of the table is a full one. */
  lemma ListingComplete(rows: seq<PostRow>, posts: Posts, uid: int)
    requires PartialListing(rows, posts, uid, posts.Keys)
    ensures IsPostListing(rows, posts, uid)
  {
  }

  /** Every listed row is a post of `uid` as the table holds it. */
  lemma ListedPost(rows: seq<PostRow>, posts: Posts, uid: int, i: int)
    requires IsPostListing(rows, posts, uid)
    requires 0 <= i < |rows|
    ensures rows[i].id in posts && posts[rows[i].id] == rows[i].post && rows[i].post.userId == uid
  {
  }

  /** An existing user with no posts gets an empty listing, not an error. */
  lemma NoPostsEmptyListing(rows: seq<PostRow>, posts: Posts, uid: int)
    requires IsPostListing(rows, posts, uid)
    requires forall pid | pid in posts :: posts[pid].userId != uid
    ensures rows == []
  {
    if rows != [] {
      ListedPost(rows, posts, uid, 0);
      assert false;
    }
  }

  /** Two listings of the same user's posts hold the same rows. */
  lemma ListingsAgree(rows1: seq<PostRow>, rows2: seq<PostRow>, posts: Posts, uid: int, row: PostRow)
    requires IsPostListing(rows1, posts, uid)
    requires IsPostListing(rows2, posts, uid)
    ensures row in rows1 <==> row in rows2
  {
  }
}
