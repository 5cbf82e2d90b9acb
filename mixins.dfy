/**
 * blog/mixins.py: the published-post query shared by the listings, and the
 * "only the author may change it" guards in front of post and comment edits.
 */
module Mixins {
  import opened Entities
  import opened Sequences
  import opened Http

  // ---------------------------------------------------------------------------
  // PublishedMixin.get_queryset
  // ---------------------------------------------------------------------------

  /** The mixin's filter: published, in a published category, dated strictly before `now`. */
  predicate PublishedBefore(p: Post, cats: seq<Category>, now: int) {
    p.isPublished && CategoryPublished(cats, p.category) && p.pubDate < now
  }

  function PublicBefore(cats: seq<Category>, now: int): Post -> bool {
    (p: Post) => PublishedBefore(p, cats, now)
  }

  /** `order_by('-pub_date')`: newest first; equal dates may come in any order. */
  predicate Descending(s: seq<Post>) {
    forall i, j :: 0 <= i < j < |s| ==> s[i].pubDate >= s[j].pubDate
  }

  lemma DescendingHead(s: seq<Post>)
    requires Descending(s) && s != []
    ensures forall x :: x in s ==> x.pubDate <= s[0].pubDate
  {
    forall x | x in s ensures x.pubDate <= s[0].pubDate {
      var k :| 0 <= k < |s| && s[k] == x;
    }
  }

  /** Places `p` into a newest-first sequence, before the posts of the same date. */
  function Insert(p: Post, s: seq<Post>): (r: seq<Post>)
    requires Descending(s)
    ensures multiset(r) == multiset(s) + multiset{p}
    ensures forall x :: x in r ==> x == p || x in s
    ensures Descending(r)
  {
    if s == [] then [p]
    else if p.pubDate >= s[0].pubDate then
      DescendingHead(s);
      [p] + s
    else
      assert s == [s[0]] + s[1..];
      DescendingHead(s);
      [s[0]] + Insert(p, s[1..])
  }

  /** The database's ordering, modelled as a stable insertion sort on the publication date. */
  function SortByDate(s: seq<Post>): (r: seq<Post>)
    ensures multiset(r) == multiset(s)
    ensures Descending(r)
  {
    if s == [] then []
    else
      assert s == [s[0]] + s[1..];
      Insert(s[0], SortByDate(s[1..]))
  }

  /** A listed post with its `comment_count` annotation. */
  datatype Entry = Entry(post: Post, commentCount: nat)

  function PostsOf(es: seq<Entry>): (r: seq<Post>)
    ensures |r| == |es|
  {
    seq(|es|, i requires 0 <= i < |es| => es[i].post)
  }

  function OnPost(pid: nat): Comment -> bool {
    (c: Comment) => c.post == pid
  }

  /** `Count('comments')`: the comments whose post is `pid`. */
  function CommentCount(cs: seq<Comment>, pid: nat): (n: nat)
    ensures n <= |cs|
    ensures n == 0 <==> forall c :: c in cs ==> c.post != pid
  {
    if cs == [] then 0
    else
      assert cs == [cs[0]] + cs[1..];
      (if cs[0].post == pid then 1 else 0) + CommentCount(cs[1..], pid)
  }

  function OffPost(pid: nat): Comment -> bool {
    (c: Comment) => c.post != pid
  }

  /** The count over `a + b` is the sum of the counts over `a` and over `b`. */
  lemma {:induction false} CommentCountConcat(a: seq<Comment>, b: seq<Comment>, pid: nat)
    ensures CommentCount(a + b, pid) == CommentCount(a, pid) + CommentCount(b, pid)
  {
    if a == [] {
      assert a + b == b;
    } else {
      assert (a + b)[0] == a[0];
      assert (a + b)[1..] == a[1..] + b;
      CommentCountConcat(a[1..], b, pid);
    }
  }

  /** Dropping the comments of post `q` leaves `q` with none and every other post's count as it was. */
  lemma {:induction false} CommentCountCascade(cs: seq<Comment>, q: nat, pid: nat)
    ensures CommentCount(Filter(cs, OffPost(q)), pid) == if pid == q then 0 else CommentCount(cs, pid)
  {
    if cs != [] {
      var rest := Filter(cs[1..], OffPost(q));
      CommentCountCascade(cs[1..], q, pid);
      var h: seq<Comment> := if cs[0].post != q then [cs[0]] else [];
      assert Filter(cs, OffPost(q)) == h + rest;
      CommentCountConcat(h, rest, pid);
      assert CommentCount(h, pid) == if cs[0].post != q && cs[0].post == pid then 1 else 0 by {
        if h != [] {
          assert h[1..] == [];
        }
      }
    }
  }

  /** The count is the number of comments that a filter on the post keeps. */
  lemma {:induction false} CommentCountIsFilter(cs: seq<Comment>, pid: nat)
    ensures CommentCount(cs, pid) == |Filter(cs, OnPost(pid))|
  {
    if cs != [] {
      CommentCountIsFilter(cs[1..], pid);
    }
  }

  /** `annotate(comment_count=...)` over a sequence of posts. */
  function Annotate(ps: seq<Post>, cs: seq<Comment>): (r: seq<Entry>)
    ensures PostsOf(r) == ps
    ensures forall i :: 0 <= i < |r| ==> r[i].commentCount == CommentCount(cs, ps[i].id)
    ensures forall e :: e in r ==> e.commentCount == CommentCount(cs, e.post.id)
  {
    seq(|ps|, i requires 0 <= i < |ps| => Entry(ps[i], CommentCount(cs, ps[i].id)))
  }

  /** The posts of the feed, before annotation. */
  function FeedPosts(db: Db, now: int): (r: seq<Post>)
    ensures forall p :: multiset(r)[p] ==
                        if PublishedBefore(p, db.categories, now) then multiset(db.posts)[p] else 0
    ensures forall p :: p in r <==> p in db.posts && PublishedBefore(p, db.categories, now)
    ensures Descending(r)
  {
    var f := PublicBefore(db.categories, now);
    var kept := Filter(db.posts, f);
    FilterMultiset(db.posts, f);
    assert forall p :: f(p) == PublishedBefore(p, db.categories, now);
    var sorted := SortByDate(kept);
    assert forall p :: p in sorted <==> p in multiset(sorted);
    assert forall p :: p in kept <==> p in multiset(kept);
    sorted
  }

  /** The feed: every published post due before `now`, newest first, with its comment count. */
  function Published(db: Db, now: int): (r: seq<Entry>)
    ensures forall p :: p in PostsOf(r) <==> p in db.posts && PublishedBefore(p, db.categories, now)
    ensures forall p :: multiset(PostsOf(r))[p] ==
                        if PublishedBefore(p, db.categories, now) then multiset(db.posts)[p] else 0
    ensures Descending(PostsOf(r))
    ensures forall e :: e in r ==> e.commentCount == CommentCount(db.comments, e.post.id)
  {
    Annotate(FeedPosts(db, now), db.comments)
  }

  /** A listed entry whose post passes `g`. */
  function WithPost(g: Post -> bool): Entry -> bool {
    (e: Entry) => g(e.post)
  }

  lemma PostsOfConcat(a: seq<Entry>, b: seq<Entry>)
    ensures PostsOf(a + b) == PostsOf(a) + PostsOf(b)
  {
  }

  /** Filtering entries by their post is filtering the posts. */
  lemma {:induction false} PostsOfFilter(es: seq<Entry>, g: Post -> bool)
    ensures PostsOf(Filter(es, WithPost(g))) == Filter(PostsOf(es), g)
  {
    if es != [] {
      var h: seq<Entry> := if g(es[0].post) then [es[0]] else [];
      var ps := PostsOf(es);
      assert ps[0] == es[0].post;
      assert ps[1..] == PostsOf(es[1..]);
      assert Filter(ps, g) == (if g(ps[0]) then [ps[0]] else []) + Filter(ps[1..], g);
      assert Filter(es, WithPost(g)) == h + Filter(es[1..], WithPost(g));
      PostsOfFilter(es[1..], g);
      PostsOfConcat(h, Filter(es[1..], WithPost(g)));
    }
  }

  /** A selection from a newest-first sequence is newest first. */
  lemma {:induction false} FilterKeepsDescending(s: seq<Post>, g: Post -> bool)
    requires Descending(s)
    ensures Descending(Filter(s, g))
  {
    if s != [] {
      assert Descending(s[1..]);
      FilterKeepsDescending(s[1..], g);
      DescendingHead(s);
      var t := Filter(s[1..], g);
      assert forall x :: x in t ==> x.pubDate <= s[0].pubDate;
      var r := Filter(s, g);
      assert r == (if g(s[0]) then [s[0]] else []) + t;
      if g(s[0]) {
        forall i, j | 0 <= i < j < |r| ensures r[i].pubDate >= r[j].pubDate {
          assert r[j] == t[j - 1];
          if i > 0 {
            assert r[i] == t[i - 1];
          } else {
            assert t[j - 1] in t;
          }
        }
      }
    }
  }

  // ---------------------------------------------------------------------------
  // Facts about the feed
  // ---------------------------------------------------------------------------

  /** A post in the feed stays in it as time passes (a post dated tomorrow appears once tomorrow has come). */
  lemma FeedMonotone(db: Db, earlier: int, later: int)
    requires earlier <= later
    ensures forall p :: p in PostsOf(Published(db, earlier)) ==> p in PostsOf(Published(db, later))
  {
  }

  /** A post dated in the future is not in the feed yet, and is once its date has passed. */
  lemma FeedWaitsForDate(db: Db, now: int, p: Post)
    requires p in db.posts && p.isPublished && CategoryPublished(db.categories, p.category)
    ensures p in PostsOf(Published(db, now)) <==> p.pubDate < now
  {
  }

  lemma {:induction false} CommentCountAppend(cs: seq<Comment>, c: Comment, pid: nat)
    ensures CommentCount(cs + [c], pid) == CommentCount(cs, pid) + (if c.post == pid then 1 else 0)
  {
    if cs == [] {
      assert cs + [c] == [c];
    } else {
      assert (cs + [c])[1..] == cs[1..] + [c];
      CommentCountAppend(cs[1..], c, pid);
    }
  }

  lemma {:induction false} CommentCountSplice(cs: seq<Comment>, i: nat, pid: nat)
    requires i < |cs|
    ensures CommentCount(cs[..i] + cs[i + 1..], pid) ==
            CommentCount(cs, pid) - (if cs[i].post == pid then 1 else 0)
  {
    if i == 0 {
      assert cs[..0] + cs[1..] == cs[1..];
    } else {
      assert (cs[..i] + cs[i + 1..])[0] == cs[0];
      assert (cs[..i] + cs[i + 1..])[1..] == cs[1..][..i - 1] + cs[1..][i..];
      CommentCountSplice(cs[1..], i - 1, pid);
    }
  }

  lemma {:induction false} CommentCountRetext(cs: seq<Comment>, i: nat, text: string, pid: nat)
    requires i < |cs|
    ensures CommentCount(cs[i := cs[i].(text := text)], pid) == CommentCount(cs, pid)
  {
    if i > 0 {
      assert cs[i := cs[i].(text := text)][1..] == cs[1..][i - 1 := cs[i].(text := text)];
      CommentCountRetext(cs[1..], i - 1, text, pid);
    }
  }

  /** A new comment changes no listing but the comment count of the post it is on, by one. */
  lemma PublishedAfterComment(db: Db, c: Comment, now: int)
    ensures PostsOf(Published(db.(comments := db.comments + [c]), now)) == PostsOf(Published(db, now))
    ensures var before, after := Published(db, now), Published(db.(comments := db.comments + [c]), now);
            forall i :: 0 <= i < |after| ==>
              after[i].commentCount == before[i].commentCount + (if after[i].post.id == c.post then 1 else 0)
  {
    var before, after := Published(db, now), Published(db.(comments := db.comments + [c]), now);
    forall i | 0 <= i < |after|
      ensures after[i].commentCount == before[i].commentCount + (if after[i].post.id == c.post then 1 else 0)
    {
      assert after[i] in after && before[i] in before;
      CommentCountAppend(db.comments, c, after[i].post.id);
    }
  }

  // ---------------------------------------------------------------------------
  // OnlyAuthorPostMixin.dispatch and OnlyAuthorCommentMixin.get_object/dispatch
  // ---------------------------------------------------------------------------

  /** The outcome of an ownership check: go on with the record at `index`, or answer now. */
  datatype Guard = Proceed(index: nat) | Stop(response: Response)

  /**
   * OnlyAuthorPostMixin.dispatch: 404 for a missing post, back to the post's page for anyone
   * but its author (checked before the login requirement, so an anonymous viewer lands there too).
   */
  function PostGuard(posts: seq<Post>, viewer: Viewer, postId: nat): (g: Guard)
    ensures g == Stop(Http404) <==> forall p :: p in posts ==> p.id != postId
    ensures g.Proceed? ==> g.index < |posts| && posts[g.index].id == postId && IsUser(viewer, posts[g.index].author)
    ensures g.Stop? ==> g.response in {Http404, Redirect(PostDetailUrl(postId))}
    ensures viewer.Anonymous? ==> g.Stop?
  {
    match FindPost(posts, postId)
    case None => Stop(Http404)
    case Some(i) =>
      if IsUser(viewer, posts[i].author) then Proceed(i) else Stop(Redirect(PostDetailUrl(postId)))
  }

  /** With unique keys: the author of a stored post proceeds to it, everyone else is sent to its page. */
  lemma PostGuardOwnerOnly(posts: seq<Post>, viewer: Viewer, i: nat)
    requires UniquePostIds(posts) && i < |posts|
    ensures PostGuard(posts, viewer, posts[i].id) ==
            if IsUser(viewer, posts[i].author) then Proceed(i) else Stop(Redirect(PostDetailUrl(posts[i].id)))
  {
    FindPostUnique(posts, i);
  }

  /** OnlyAuthorCommentMixin.get_object: the comment with key `commentId` among the comments of post `postId`. */
  function CommentLookup(cs: seq<Comment>, postId: nat, commentId: nat): (r: Option<nat>)
    ensures r.Some? ==> r.value < |cs| && cs[r.value].id == commentId && cs[r.value].post == postId
    ensures r.None? <==> forall c :: c in cs ==> !(c.id == commentId && c.post == postId)
  {
    if cs == [] then None
    else if cs[0].id == commentId && cs[0].post == postId then Some(0)
    else
      match CommentLookup(cs[1..], postId, commentId)
      case None => None
      case Some(k) => Some(k + 1)
  }

  /** A comment is not reachable through the address of a post it does not belong to. */
  lemma CommentOfOtherPost(cs: seq<Comment>, i: nat, postId: nat)
    requires UniqueCommentIds(cs) && i < |cs| && cs[i].post != postId
    ensures CommentLookup(cs, postId, cs[i].id) == None
  {
    forall c | c in cs ensures !(c.id == cs[i].id && c.post == postId) {
      var k :| 0 <= k < |cs| && cs[k] == c;
      if k != i {
        assert k < i || i < k;
      }
    }
  }

  /** With unique keys: the author of a stored comment proceeds to it through its own post, everyone else is sent to that post. */
  lemma CommentGuardOwnerOnly(cs: seq<Comment>, viewer: Viewer, i: nat)
    requires UniqueCommentIds(cs) && i < |cs|
    ensures CommentGuard(cs, viewer, cs[i].post, cs[i].id) ==
            if IsUser(viewer, cs[i].author) then Proceed(i) else Stop(Redirect(PostDetailUrl(cs[i].post)))
  {
    var r := CommentLookup(cs, cs[i].post, cs[i].id);
    assert r.Some? by { assert cs[i] in cs; }
    if r.value < i || i < r.value {
      assert false;
    }
  }

  /** OnlyAuthorCommentMixin.dispatch: 404 for a comment not on that post, back to the post for anyone but its author. */
  function CommentGuard(cs: seq<Comment>, viewer: Viewer, postId: nat, commentId: nat): (g: Guard)
    ensures g == Stop(Http404) <==> forall c :: c in cs ==> !(c.id == commentId && c.post == postId)
    ensures g.Proceed? ==> g.index < |cs| && cs[g.index].id == commentId && cs[g.index].post == postId
                           && IsUser(viewer, cs[g.index].author)
    ensures g.Stop? ==> g.response in {Http404, Redirect(PostDetailUrl(postId))}
    ensures viewer.Anonymous? ==> g.Stop?
  {
    match CommentLookup(cs, postId, commentId)
    case None => Stop(Http404)
    case Some(i) =>
      if IsUser(viewer, cs[i].author) then Proceed(i) else Stop(Redirect(PostDetailUrl(postId)))
  }
}
