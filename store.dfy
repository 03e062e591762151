/** The user API of routers/users.py as a class over the two tables: one
    method per endpoint, each reading and writing the maps directly where
    routers/users.py goes through a database session. */
module UsersApi {
  import opened UserTable

  /** A non-empty set has a member to pick. */
  lemma NonEmptyHasMember(s: set<int>)
    requires s != {}
    ensures exists x :: x in s
  {
    if forall x :: x !in s {
      assert false;
    }
  }

  class UserStore {
    /** The users table, keyed by primary key. */
    var users: Users
    /** The posts table, keyed by primary key. */
    var posts: Posts

    /** The table invariant: usernames are pairwise distinct, and so are
        e-mail addresses. */
    ghost predicate Valid()
      reads this
    {
      Unique(users)
    }

    /** A store holding the given rows. */
    constructor (users0: Users, posts0: Posts)
      requires Unique(users0)
      ensures Valid()
      ensures users == users0 && posts == posts0
    {
      users := users0;
      posts := posts0;
    }

    /** GET /users: every user once, with its key; the database gives no
        order, and neither does this contract. */
    method ListUsers() returns (rows: seq<UserRow>)
      ensures forall i | 0 <= i < |rows| :: rows[i].id in users && users[rows[i].id] == rows[i].user
      ensures forall id | id in users :: exists i :: 0 <= i < |rows| && rows[i].id == id
      ensures forall i, j | 0 <= i < j < |rows| :: rows[i].id != rows[j].id
    {
      rows := [];
      var todo := users.Keys;
      while todo != {}
        invariant todo <= users.Keys
        invariant forall i | 0 <= i < |rows| ::
                    rows[i].id in users && users[rows[i].id] == rows[i].user && rows[i].id !in todo
        invariant forall id | id in users && id !in todo :: exists i :: 0 <= i < |rows| && rows[i].id == id
        invariant forall i, j | 0 <= i < j < |rows| :: rows[i].id != rows[j].id
        decreases todo
      {
        NonEmptyHasMember(todo);
        var id :| id in todo;
        var rows' := rows + [UserRow(id, users[id])];
        forall k | k in users && k !in todo - {id}
          ensures exists i :: 0 <= i < |rows'| && rows'[i].id == k
        {
          if k == id {
            assert rows'[|rows|].id == k;
          } else {
            var i :| 0 <= i < |rows| && rows[i].id == k;
            assert rows'[i].id == k;
          }
        }
        rows := rows';
        todo := todo - {id};
      }
    }

    /** GET /users/{id}: the user with that key, or 404. */
    method GetUser(id: int) returns (r: Result<UserRow>)
      ensures r.Ok? <==> id in users
      ensures r.Ok? ==> r.value.id == id && r.value.user == users[id]
      ensures !r.Ok? ==> r == NotFound
    {
      if id in users {
        r := Ok(UserRow(id, users[id]));
      } else {
        r := NotFound;
      }
    }

    /** GET /users/{id}/posts: 404 when the user does not exist (whether or
        not posts still name it); otherwise the user's posts, newest first. */
    method UserPosts(id: int) returns (r: Result<seq<PostRow>>)
      ensures r.Ok? <==> id in users
      ensures !r.Ok? ==> r == NotFound
      ensures r.Ok? ==> IsPostListing(r.value, posts, id)
    {
      if id !in users {
        return NotFound;
      }
      var rows: seq<PostRow> := [];
      var todo := posts.Keys;
      while todo != {}
        invariant todo <= posts.Keys
        invariant PartialListing(rows, posts, id, posts.Keys - todo)
        decreases todo
      {
        NonEmptyHasMember(todo);
        var pid :| pid in todo;
        ListingStep(rows, posts, id, posts.Keys - todo, pid);
        if posts[pid].userId == id {
          rows := InsertNewestFirst(rows, PostRow(pid, posts[pid]));
        }
        assert posts.Keys - (todo - {pid}) == (posts.Keys - todo) + {pid};
        todo := todo - {pid};
      }
      assert posts.Keys - todo == posts.Keys;
      ListingComplete(rows, posts, id);
      r := Ok(rows);
    }

    /** A key the users table does not hold yet. How the database picks it is
        not part of this model; this one is larger than every key in use. */
    method NewUserId() returns (id: int)
      ensures id !in users
      ensures forall k | k in users :: k < id
    {
      var max := 0;
      var todo := users.Keys;
      while todo != {}
        invariant todo <= users.Keys
        invariant forall k | k in users && k !in todo :: k <= max
        decreases todo
      {
        NonEmptyHasMember(todo);
        var k :| k in todo;
        if k > max {
          max := k;
        }
        todo := todo - {k};
      }
      id := max + 1;
    }

    /** POST /users: 400 when the username is taken, else 400 when the e-mail
        address is taken (the username is looked up first), and then nothing
        changes; otherwise one new row under a fresh key, created with the
        default picture, and every other row as it was. */
    method CreateUser(username: string, email: string) returns (r: Result<UserRow>)
      requires Valid()
      modifies this
      ensures Valid()
      ensures posts == old(posts)
      ensures r == Conflict(UsernameTaken) <==> UsernameInUse(old(users), username)
      ensures r == Conflict(EmailTaken) <==>
                !UsernameInUse(old(users), username) && EmailInUse(old(users), email)
      ensures r.Ok? <==> !UsernameInUse(old(users), username) && !EmailInUse(old(users), email)
      ensures !r.Ok? ==> users == old(users)
      ensures r.Ok? ==>
                && r.value.id !in old(users)
                && r.value.user == User(username, email, DefaultImage)
                && users == old(users)[r.value.id := r.value.user]
    {
      var conflict := CreateConflict(users, username, email);
      if conflict.Some? {
        return Conflict(conflict.value);
      }
      var id := NewUserId();
      CreateKeepsUnique(users, id, username, email);
      var user := User(username, email, DefaultImage);
      users := users[id := user];
      r := Ok(UserRow(id, user));
    }

    /** PATCH /users/{id}: 404 when the user does not exist; 400 when a
        supplied username (checked first) or e-mail address differs from the
        user's own and another row holds it; in both cases nothing changes.
        Otherwise the supplied fields replace the user's, the fields left out
        and every other row stay as they were. */
    method PatchUser(id: int, upd: UserUpdate) returns (r: Result<UserRow>)
      requires Valid()
      modifies this
      ensures Valid()
      ensures posts == old(posts)
      ensures id !in old(users) ==> r == NotFound && users == old(users)
      ensures id in old(users) ==>
                match PatchConflict(old(users), id, upd)
                case Some(c) => r == Conflict(c) && users == old(users)
                case None =>
                  && r == Ok(UserRow(id, ApplyUpdate(old(users)[id], upd)))
                  && users == old(users)[id := r.value.user]
    {
      if id !in users {
        return NotFound;
      }
      var conflict := PatchConflict(users, id, upd);
      if conflict.Some? {
        return Conflict(conflict.value);
      }
      PatchKeepsUnique(users, id, upd);
      var user := users[id];
      if upd.username.Some? {
        user := user.(username := upd.username.value);
      }
      if upd.email.Some? {
        user := user.(email := upd.email.value);
      }
      if upd.imageFile.Some? {
        user := user.(image := ImageFile(upd.imageFile.value));
      }
      users := users[id := user];
      r := Ok(UserRow(id, user));
    }

    /** DELETE /users/{id}: 404 and no change when the user does not exist;
        otherwise exactly that row is removed and the result is 204 No
        Content. What becomes of the user's own posts is left open (removed,
        kept, or left without an owner); posts of other users stay as they
        were, no post is added, and no remaining user gains a post. */
    method DeleteUser(id: int) returns (r: Result<()>)
      requires Valid()
      modifies this
      ensures Valid()
      ensures id !in old(users) ==> r == NotFound && users == old(users) && posts == old(posts)
      ensures id in old(users) ==> r == Ok(()) && users == old(users) - {id}
      ensures id in old(users) ==> posts.Keys <= old(posts).Keys
      ensures id in old(users) ==>
                forall pid | pid in old(posts) && old(posts)[pid].userId != id ::
                  pid in posts && posts[pid] == old(posts)[pid]
      ensures id in old(users) ==>
                forall pid | pid in posts && posts[pid].userId in users ::
                  posts[pid] == old(posts)[pid]
    {
      if id !in users {
        return NotFound;
      }
      DeleteKeepsUnique(users, id);
      users := users - {id};
      r := Ok(());
    }
  }

  /** Create, re-create, patch with own values, delete twice: the second
      create is refused for the username, a create with a taken e-mail address
      is refused for the e-mail, re-submitting the user's own values succeeds,
      and the second delete finds nothing. */
  method CreateTwiceDeleteTwice()
  {
    var store := new UserStore(map[], map[]);
    var first := store.CreateUser("amy", "amy@x.com");
    assert first.Ok?;
    var again := store.CreateUser("amy", "amy@x.com");
    assert again == Conflict(UsernameTaken);
    var other := store.CreateUser("bob", "amy@x.com");
    assert other == Conflict(EmailTaken);
    var id := first.value.id;
    var same := store.PatchUser(id, UserUpdate(Some("amy"), Some("amy@x.com"), None));
    assert same == Ok(UserRow(id, User("amy", "amy@x.com", DefaultImage)));
    var gone := store.DeleteUser(id);
    assert gone == Ok(());
    var goneAgain := store.DeleteUser(id);
    assert goneAgain == NotFound;
    var lookup := store.GetUser(id);
    assert lookup == NotFound;
  }
}
