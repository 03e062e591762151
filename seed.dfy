/** The first version of the post API in main.py: a fixed list of posts held
    in memory, listed whole or searched by id. The list is a constant and both
    operations are functions of it, so neither can change it. */
module SeedPosts {

  /** A post of the seed list; `datePoster` is the year main.py stores
      under the key "data_poster". */
  datatype SeedPost = SeedPost(id: int, author: string, title: string, content: string, datePoster: string)

  /** What GET /api/posts/{post_id} answers: the post, or an ordinary 200
      reply carrying a message (not an error status). */
  datatype Reply = PostReply(post: SeedPost) | MessageReply(message: string)

  const PostNotFound: string := "Post not found"

  /** The seed list, in the order main.py gives it. */
  const Posts: seq<SeedPost> := [
    SeedPost(1, "Sally Rooney", "Normal People", "This book is wonderful and classic", "2018"),
    SeedPost(2, "Jane Doe", "Python is Great for Web Development",
             "Python is a great language for web development, and FastAPI makes it even better", "2025")
  ]

  /** GET /api/posts/: the whole list, in order and unchanged. */
  function AllPosts(): seq<SeedPost>
  {
    Posts
  }

  /** `posts[i]` is the first post of the list whose id is `id`. */
  ghost predicate FirstWithId(posts: seq<SeedPost>, id: int, i: int) {
    0 <= i < |posts| && posts[i].id == id && forall j | 0 <= j < i :: posts[j].id != id
  }

  /** The search of get_author: the first post in list order whose id is
      `id`, or the "Post not found" message when there is none. */
  function FindPost(posts: seq<SeedPost>, id: int): (r: Reply)
    ensures r.PostReply? <==> exists i :: 0 <= i < |posts| && posts[i].id == id
    ensures r.PostReply? ==> exists i :: FirstWithId(posts, id, i) && posts[i] == r.post
    ensures r.MessageReply? ==> r.message == PostNotFound
  {
    if posts == [] then MessageReply(PostNotFound)
    else if posts[0].id == id then PostReply(posts[0])
    else
      var r := FindPost(posts[1..], id);
      assert forall i | 0 < i < |posts| :: posts[i] == posts[1..][i - 1];
      assert r.PostReply? ==> exists i :: FirstWithId(posts, id, i) && posts[i] == r.post by {
        if r.PostReply? {
          var k :| FirstWithId(posts[1..], id, k) && posts[1..][k] == r.post;
          assert FirstWithId(posts, id, k + 1);
        }
      }
      r
  }

  /** GET /api/posts/{post_id}: the search over the seed list. */
  function GetAuthor(postId: int): (r: Reply)
    ensures r.PostReply? ==> r.post in Posts && r.post.id == postId
    ensures r.MessageReply? ==> r == MessageReply(PostNotFound) && forall p | p in Posts :: p.id != postId
  {
    FindPost(Posts, postId)
  }

  /** When ids are distinct the search finds the one post that carries the id. */
  lemma FindPostDistinct(posts: seq<SeedPost>, id: int, i: int)
    requires forall a, b | 0 <= a < b < |posts| :: posts[a].id != posts[b].id
    requires 0 <= i < |posts| && posts[i].id == id
    ensures FindPost(posts, id) == PostReply(posts[i])
  {
  }

  /** The seed data: ids 1 and 2 are distinct, 1 finds "Normal People", 2
      finds the second post, and any other id gets the message. */
  lemma SeedLookups(postId: int)
    ensures GetAuthor(1) == PostReply(Posts[0]) && Posts[0].title == "Normal People"
    ensures GetAuthor(2) == PostReply(Posts[1])
    ensures postId != 1 && postId != 2 ==> GetAuthor(postId) == MessageReply(PostNotFound)
  {
  }

  /** The listing and the lookup agree: an id is found exactly when some
      post of the listing carries it, and what is found is the first such
      post in listing order. */
  lemma ListingAgreesWithLookup(id: int)
    ensures GetAuthor(id).PostReply? <==> exists i :: 0 <= i < |AllPosts()| && AllPosts()[i].id == id
    ensures GetAuthor(id).PostReply? ==>
              exists i :: FirstWithId(AllPosts(), id, i) && AllPosts()[i] == GetAuthor(id).post
    ensures GetAuthor(id).MessageReply? ==> GetAuthor(id).message == PostNotFound
  {
    var r := FindPost(Posts, id);
    assert GetAuthor(id) == r && AllPosts() == Posts;
  }
}
