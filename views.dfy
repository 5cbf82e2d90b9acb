/** blog/views.py, the page queries: post detail, category listing and profile listing. */
module Views {
  import opened Entities
  import opened Sequences
  import opened Http
  import opened Mixins

  // ---------------------------------------------------------------------------
  // PostDetailView.get_object
  // ---------------------------------------------------------------------------

  /**
   * The post with key `postId`: its author gets it in any state; anyone else gets it only
   * through the published filter (strictly before `now`), and 404 otherwise.
   */
  function PostDetail(db: Db, viewer: Viewer, postId: nat, now: int): (r: View<Post>)
    ensures (forall p :: p in db.posts ==> p.id != postId) ==> r == NotFound
    ensures r.Found? ==> r.value in db.posts && r.value.id == postId
    ensures r.Found? ==> IsUser(viewer, r.value.author) || PublishedBefore(r.value, db.categories, now)
  {
    match FindPost(db.posts, postId)
    case None => NotFound
    case Some(i) =>
      if IsUser(viewer, db.posts[i].author) then Found(db.posts[i])
      else
        var visible := Filter(db.posts, PublicBefore(db.categories, now));
        match FindPost(visible, postId)
        case None => NotFound
        case Some(k) =>
          assert visible[k] in visible;
          Found(visible[k])
  }

  /** The author of a stored post always sees it, whatever its state. */
  lemma DetailForAuthor(db: Db, i: nat, now: int)
    requires Wf(db) && i < |db.posts|
    ensures PostDetail(db, Member(db.posts[i].author), db.posts[i].id, now) == Found(db.posts[i])
  {
    FindPostUnique(db.posts, i);
  }

  /** Anyone but the author sees a stored post exactly when it passes the published filter. */
  lemma DetailForOthers(db: Db, viewer: Viewer, i: nat, now: int)
    requires Wf(db) && i < |db.posts| && !IsUser(viewer, db.posts[i].author)
    ensures PostDetail(db, viewer, db.posts[i].id, now) ==
            if PublishedBefore(db.posts[i], db.categories, now) then Found(db.posts[i]) else NotFound
  {
    var p := db.posts[i];
    FindPostUnique(db.posts, i);
    var r := PostDetail(db, viewer, p.id, now);
    if PublishedBefore(p, db.categories, now) {
      assert p in Filter(db.posts, PublicBefore(db.categories, now));
      assert r.Found?;
      SameIdSamePost(db.posts, r.value, p);
    } else if r.Found? {
      SameIdSamePost(db.posts, r.value, p);
      assert false;
    }
  }

  /** The location of a post is never consulted: changing it changes only the returned post's location. */
  lemma DetailIgnoresLocation(db: Db, viewer: Viewer, i: nat, now: int, loc: Option<nat>)
    requires Wf(db) && i < |db.posts|
    ensures var moved := db.(posts := db.posts[i := db.posts[i].(location := loc)]);
            PostDetail(moved, viewer, db.posts[i].id, now) ==
            match PostDetail(db, viewer, db.posts[i].id, now)
            case Found(p) => Found(p.(location := loc))
            case NotFound => NotFound
  {
    var moved := db.(posts := db.posts[i := db.posts[i].(location := loc)]);
    assert moved.posts[i] == db.posts[i].(location := loc);
    assert Wf(moved);
    if IsUser(viewer, db.posts[i].author) {
      DetailForAuthor(db, i, now);
      DetailForAuthor(moved, i, now);
    } else {
      DetailForOthers(db, viewer, i, now);
      DetailForOthers(moved, viewer, i, now);
    }
  }

  // ---------------------------------------------------------------------------
  // CategoryView.get_object and CategoryView.get_queryset
  // ---------------------------------------------------------------------------

  /** The published category with slug `slug`, or 404. */
  function CategoryObject(cats: seq<Category>, slug: string): (r: View<Category>)
    ensures r.Found? ==> r.value in cats && r.value.slug == slug && r.value.isPublished
    ensures r.NotFound? <==> forall c :: c in cats ==> !(c.slug == slug && c.isPublished)
  {
    if cats == [] then NotFound
    else if cats[0].slug == slug && cats[0].isPublished then Found(cats[0])
    else CategoryObject(cats[1..], slug)
  }

  function InCategory(cid: nat): Post -> bool {
    (p: Post) => p.category == cid
  }

  /**
   * The category page: 404 for a missing or unpublished slug, otherwise the feed restricted
   * to that category, still newest first.
   */
  function CategoryPosts(db: Db, slug: string, now: int): (r: View<seq<Entry>>)
    ensures r.NotFound? <==> forall c :: c in db.categories ==> !(c.slug == slug && c.isPublished)
    ensures r.Found? ==> forall p :: p in PostsOf(r.value) <==>
              p in db.posts && PublishedBefore(p, db.categories, now)
              && p.category == CategoryObject(db.categories, slug).value.id
    ensures r.Found? ==>
              forall p :: multiset(PostsOf(r.value))[p] ==
                if PublishedBefore(p, db.categories, now) && p.category == CategoryObject(db.categories, slug).value.id
                then multiset(db.posts)[p] else 0
    ensures r.Found? ==> Descending(PostsOf(r.value))
    ensures r.Found? ==> forall e :: e in r.value ==> e.commentCount == CommentCount(db.comments, e.post.id)
  {
    match CategoryObject(db.categories, slug)
    case NotFound => NotFound
    case Found(c) =>
      var feed := Published(db, now);
      var g := InCategory(c.id);
      var listing := Filter(feed, WithPost(g));
      PostsOfFilter(feed, g);
      FilterMultiset(PostsOf(feed), g);
      FilterKeepsDescending(PostsOf(feed), g);
      Found(listing)
  }

  // ---------------------------------------------------------------------------
  // Profile.get_queryset
  // ---------------------------------------------------------------------------

  /** The user with username `username`, or 404. */
  function FindAccount(users: seq<Account>, username: string): (r: View<Account>)
    ensures r.Found? ==> r.value in users && r.value.username == username
    ensures r.NotFound? <==> forall a :: a in users ==> a.username != username
  {
    if users == [] then NotFound
    else if users[0].username == username then Found(users[0])
    else FindAccount(users[1..], username)
  }

  lemma FindAccountUnique(users: seq<Account>, i: nat)
    requires UniqueUsernames(users) && i < |users|
    ensures FindAccount(users, users[i].username) == Found(users[i])
  {
    var r := FindAccount(users, users[i].username);
    assert r.Found? by { assert users[i] in users; }
    var k :| 0 <= k < |users| && users[k] == r.value;
    if k < i || i < k {
      assert false;
    }
  }

  function ByAuthor(user: UserId): Post -> bool {
    (p: Post) => p.author == user
  }

  /** The profile page's content: whose profile it is (`self.author`) and the posts listed. */
  datatype ProfilePage = ProfilePage(author: Account, posts: seq<Entry>)

  /**
   * The profile page: 404 for an unknown username; the owner sees all of their posts, newest
   * first with comment counts; any other viewer sees only those that pass the feed's filter.
   */
  function ProfilePosts(db: Db, viewer: Viewer, username: string, now: int): (r: View<ProfilePage>)
    ensures r.NotFound? <==> forall a :: a in db.users ==> a.username != username
    ensures r.Found? ==> r.value.author in db.users && r.value.author.username == username
    ensures r.Found? && IsUser(viewer, r.value.author.id) ==>
              forall p :: multiset(PostsOf(r.value.posts))[p] ==
                          if p.author == r.value.author.id then multiset(db.posts)[p] else 0
    ensures r.Found? && IsUser(viewer, r.value.author.id) ==>
              forall p :: p in PostsOf(r.value.posts) <==> p in db.posts && p.author == r.value.author.id
    ensures r.Found? && !IsUser(viewer, r.value.author.id) ==>
              forall p :: p in PostsOf(r.value.posts) <==>
                p in db.posts && p.author == r.value.author.id && PublishedBefore(p, db.categories, now)
    ensures r.Found? && !IsUser(viewer, r.value.author.id) ==>
              forall p :: multiset(PostsOf(r.value.posts))[p] ==
                if p.author == r.value.author.id && PublishedBefore(p, db.categories, now)
                then multiset(db.posts)[p] else 0
    ensures r.Found? ==> Descending(PostsOf(r.value.posts))
    ensures r.Found? ==> forall e :: e in r.value.posts ==> e.commentCount == CommentCount(db.comments, e.post.id)
  {
    match FindAccount(db.users, username)
    case NotFound => NotFound
    case Found(author) =>
      var g := ByAuthor(author.id);
      if IsUser(viewer, author.id) then
        var own := Filter(db.posts, g);
        FilterMultiset(db.posts, g);
        var sorted := SortByDate(own);
        assert forall p :: p in sorted <==> p in multiset(sorted);
        assert forall p :: p in own <==> p in multiset(own);
        Found(ProfilePage(author, Annotate(sorted, db.comments)))
      else
        var feed := Published(db, now);
        PostsOfFilter(feed, g);
        FilterMultiset(PostsOf(feed), g);
        FilterKeepsDescending(PostsOf(feed), g);
        Found(ProfilePage(author, Filter(feed, WithPost(g))))
  }

  // ---------------------------------------------------------------------------
  // Who sees a post
  // ---------------------------------------------------------------------------

  /**
   * A post that fails the published filter (unpublished, in an unpublished category, or not yet
   * due) is in no listing and no page that anyone but its author can see.
   */
  lemma HiddenUnlessPublished(db: Db, viewer: Viewer, username: string, slug: string, i: nat, now: int)
    requires Wf(db) && i < |db.posts| && !PublishedBefore(db.posts[i], db.categories, now)
    requires !IsUser(viewer, db.posts[i].author)
    ensures db.posts[i] !in PostsOf(Published(db, now))
    ensures CategoryPosts(db, slug, now).Found? ==> db.posts[i] !in PostsOf(CategoryPosts(db, slug, now).value)
    ensures var r := ProfilePosts(db, viewer, username, now);
            r.Found? ==> db.posts[i] !in PostsOf(r.value.posts)
    ensures PostDetail(db, viewer, db.posts[i].id, now) == NotFound
  {
    DetailForOthers(db, viewer, i, now);
  }

  /** The author sees their own post on its page and on their own profile, whatever its state. */
  lemma AuthorAlwaysSees(db: Db, i: nat, u: nat, now: int)
    requires Wf(db) && UniqueUsernames(db.users)
    requires i < |db.posts| && u < |db.users| && db.users[u].id == db.posts[i].author
    ensures PostDetail(db, Member(db.posts[i].author), db.posts[i].id, now) == Found(db.posts[i])
    ensures var r := ProfilePosts(db, Member(db.posts[i].author), db.users[u].username, now);
            r.Found? && db.posts[i] in PostsOf(r.value.posts)
  {
    DetailForAuthor(db, i, now);
    FindAccountUnique(db.users, u);
    assert db.posts[i] in db.posts;
  }
}
