/** The records of the blog application and the store that holds them. */
module Entities {
  import opened Sequences

  datatype Option<T> = None | Some(value: T)

  type UserId = nat

  /** Who sends a request: nobody logged in, or a registered user. */
  datatype Viewer = Anonymous | Member(id: UserId)

  /** `request.user == user`: an anonymous viewer equals no user. */
  predicate IsUser(v: Viewer, user: UserId) {
    v.Member? && v.id == user
  }

  datatype Category = Category(id: nat, title: string, slug: string, isPublished: bool)

  /** A post. `category` and `location` hold the ids of the records they refer to. */
  datatype Post = Post(
    id: nat,
    author: UserId,
    isPublished: bool,
    title: string,
    text: string,
    image: Option<string>,
    location: Option<nat>,
    category: nat,
    pubDate: int)

  /** The fields a post form submits: every field of a post except id, author and is_published. */
  datatype PostFields = PostFields(
    title: string,
    text: string,
    image: Option<string>,
    location: Option<nat>,
    category: nat,
    pubDate: int)

  /** The values a post form shows for a post (`PostForm(instance=post)`). */
  function FieldsOf(p: Post): PostFields {
    PostFields(p.title, p.text, p.image, p.location, p.category, p.pubDate)
  }

  /** Submitting a post's own values unchanged leaves the post as it was. */
  lemma ResubmitUnchanged(p: Post)
    ensures WithFields(p, FieldsOf(p)) == p
  {
  }

  /** A post as a submitted post form leaves it: id, author and publish flag are kept. */
  function WithFields(p: Post, f: PostFields): (q: Post)
    ensures q.id == p.id && q.author == p.author && q.isPublished == p.isPublished
    ensures q == NewPost(p.id, p.author, p.isPublished, f)
    ensures FieldsOf(q) == f
  {
    p.(title := f.title, text := f.text, image := f.image, location := f.location,
       category := f.category, pubDate := f.pubDate)
  }

  /** The post a creation form produces, given the key, author and publish flag the form does not carry. */
  function NewPost(id: nat, author: UserId, isPublished: bool, f: PostFields): (p: Post)
    ensures p.id == id && p.author == author && p.isPublished == isPublished
    ensures FieldsOf(p) == f
  {
    Post(id, author, isPublished, f.title, f.text, f.image, f.location, f.category, f.pubDate)
  }

  datatype Comment = Comment(id: nat, text: string, author: UserId, post: nat)

  datatype Account = Account(id: UserId, username: string, firstName: string, lastName: string, email: string)

  /** The fields the profile form submits. */
  datatype AccountFields = AccountFields(username: string, firstName: string, lastName: string, email: string)

  /** An account as the profile form leaves it: the id is kept. */
  function WithAccountFields(a: Account, f: AccountFields): (b: Account)
    ensures b.id == a.id
    ensures b == Account(a.id, f.username, f.firstName, f.lastName, f.email)
  {
    a.(username := f.username, firstName := f.firstName, lastName := f.lastName, email := f.email)
  }

  /** A snapshot of the relational store. */
  datatype Db = Db(posts: seq<Post>, categories: seq<Category>, comments: seq<Comment>, users: seq<Account>)

  /** `post.category.is_published`, read as a join: some category with that id is published. */
  predicate CategoryPublished(cats: seq<Category>, cid: nat) {
    exists c :: c in cats && c.id == cid && c.isPublished
  }

  predicate UniquePostIds(posts: seq<Post>) {
    forall i, j :: 0 <= i < j < |posts| ==> posts[i].id != posts[j].id
  }

  predicate UniqueCommentIds(comments: seq<Comment>) {
    forall i, j :: 0 <= i < j < |comments| ==> comments[i].id != comments[j].id
  }

  /** Every comment is on a stored post (`Comment.post` is a foreign key). */
  predicate CommentsOnStoredPosts(posts: seq<Post>, comments: seq<Comment>) {
    forall c :: c in comments ==> FindPost(posts, c.post).Some?
  }

  /** Primary keys are unique. */
  predicate Wf(db: Db) {
    UniquePostIds(db.posts) && UniqueCommentIds(db.comments)
  }

  /** Index of the post with primary key `id` (`get_object_or_404(Post, pk=id)`). */
  function FindPost(posts: seq<Post>, id: nat): (r: Option<nat>)
    ensures r.Some? ==> r.value < |posts| && posts[r.value].id == id
    ensures r.Some? ==> forall k :: 0 <= k < r.value ==> posts[k].id != id
    ensures r.None? <==> forall p :: p in posts ==> p.id != id
  {
    if posts == [] then None
    else if posts[0].id == id then Some(0)
    else
      match FindPost(posts[1..], id)
      case None => None
      case Some(k) => Some(k + 1)
  }

  /** With unique keys, a post in the store is the one its id finds. */
  lemma FindPostUnique(posts: seq<Post>, i: nat)
    requires UniquePostIds(posts) && i < |posts|
    ensures FindPost(posts, posts[i].id) == Some(i)
  {
    var r := FindPost(posts, posts[i].id);
    assert r.Some? by { assert posts[i] in posts; }
  }

  /** With unique keys, two stored posts with the same id are the same post. */
  lemma SameIdSamePost(posts: seq<Post>, p: Post, q: Post)
    requires UniquePostIds(posts) && p in posts && q in posts && p.id == q.id
    ensures p == q
  {
    var i :| 0 <= i < |posts| && posts[i] == p;
    var j :| 0 <= j < |posts| && posts[j] == q;
    if i < j || j < i {
      assert false;
    }
  }

  /** Removing the post at `i` removes exactly the posts with its key, and keeps keys unique. */
  lemma RemovePostAt(posts: seq<Post>, i: nat)
    requires UniquePostIds(posts) && i < |posts|
    ensures UniquePostIds(posts[..i] + posts[i + 1..])
    ensures forall p :: p in posts[..i] + posts[i + 1..] <==> p in posts && p.id != posts[i].id
  {
    var rest := posts[..i] + posts[i + 1..];
    assert forall k :: 0 <= k < |rest| ==> rest[k] == posts[if k < i then k else k + 1];
    forall p ensures p in rest <==> p in posts && p.id != posts[i].id {
      if p in rest {
        var k :| 0 <= k < |rest| && rest[k] == p;
        assert posts[if k < i then k else k + 1] == p;
      }
      if p in posts && p.id != posts[i].id {
        var k :| 0 <= k < |posts| && posts[k] == p;
        assert k != i;
        assert rest[if k < i then k else k - 1] == p;
      }
    }
  }

  /** Removing the comment at `i` keeps comment keys unique. */
  lemma RemoveCommentAt(comments: seq<Comment>, i: nat)
    requires UniqueCommentIds(comments) && i < |comments|
    ensures UniqueCommentIds(comments[..i] + comments[i + 1..])
  {
    var rest := comments[..i] + comments[i + 1..];
    assert forall k :: 0 <= k < |rest| ==> rest[k] == comments[if k < i then k else k + 1];
  }

  /** Any selection of comments keeps comment keys unique. */
  lemma {:induction false} FilterKeepsUniqueCommentIds(comments: seq<Comment>, f: Comment -> bool)
    requires UniqueCommentIds(comments)
    ensures UniqueCommentIds(Filter(comments, f))
  {
    if comments != [] {
      var rest := comments[1..];
      assert UniqueCommentIds(rest) by {
        forall i, j | 0 <= i < j < |rest| ensures rest[i].id != rest[j].id {
          assert rest[i] == comments[i + 1] && rest[j] == comments[j + 1];
        }
      }
      FilterKeepsUniqueCommentIds(rest, f);
      var t := Filter(rest, f);
      forall x | x in t ensures x.id != comments[0].id {
        var k :| 0 <= k < |rest| && rest[k] == x;
        assert comments[k + 1] == x;
      }
      var r := Filter(comments, f);
      assert r == (if f(comments[0]) then [comments[0]] else []) + t;
      if f(comments[0]) {
        forall i, j | 0 <= i < j < |r| ensures r[i].id != r[j].id {
          assert r[j] == t[j - 1];
          if i == 0 {
            assert t[j - 1] in t;
          } else {
            assert r[i] == t[i - 1];
          }
        }
      }
    }
  }

  /** `username` is unique among users. */
  predicate UniqueUsernames(users: seq<Account>) {
    forall i, j :: 0 <= i < j < |users| ==> users[i].username != users[j].username
  }

  /** A primary key larger than every post id in the store. */
  function FreshPostId(posts: seq<Post>): (r: nat)
    ensures forall p :: p in posts ==> p.id < r
  {
    if posts == [] then 0
    else
      var rest := FreshPostId(posts[1..]);
      assert forall p :: p in posts ==> p == posts[0] || p in posts[1..];
      if posts[0].id < rest then rest else posts[0].id + 1
  }

  /** A primary key larger than every comment id in the store. */
  function FreshCommentId(comments: seq<Comment>): (r: nat)
    ensures forall c :: c in comments ==> c.id < r
  {
    if comments == [] then 0
    else
      var rest := FreshCommentId(comments[1..]);
      assert forall c :: c in comments ==> c == comments[0] || c in comments[1..];
      if comments[0].id < rest then rest else comments[0].id + 1
  }
}
