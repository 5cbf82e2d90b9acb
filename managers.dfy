/** blog/managers.py: the custom manager's published-post query. */
module Managers {
  import opened Entities
  import opened Sequences
  import opened Mixins

  /** The manager's filter: published, in a published category, dated at or before `now`. */
  predicate PublishedBy(p: Post, cats: seq<Category>, now: int) {
    p.isPublished && CategoryPublished(cats, p.category) && p.pubDate <= now
  }

  function PublicBy(cats: seq<Category>, now: int): Post -> bool {
    (p: Post) => PublishedBy(p, cats, now)
  }

  /**
   * PostManager.get_queryset over the manager's base set. `select_related` only changes how
   * related rows are fetched, so it is the identity here.
   */
  function ManagerQuery(base: seq<Post>, cats: seq<Category>, now: int): (r: seq<Post>)
    ensures forall p :: p in r ==> p.isPublished
    ensures forall p :: p in r ==> CategoryPublished(cats, p.category)
    ensures forall p :: p in r ==> p.pubDate <= now
    ensures forall p :: p in r <==> p in base && PublishedBy(p, cats, now)
    ensures |r| <= |base|
  {
    var f := PublicBy(cats, now);
    assert forall p :: f(p) == PublishedBy(p, cats, now);
    Filter(base, f)
  }

  /** Each passing row is kept as often as it occurs in the base set: the result is a sub-multiset. */
  lemma ManagerMultiset(base: seq<Post>, cats: seq<Category>, now: int)
    ensures forall p :: multiset(ManagerQuery(base, cats, now))[p] ==
                        if PublishedBy(p, cats, now) then multiset(base)[p] else 0
    ensures multiset(ManagerQuery(base, cats, now)) <= multiset(base)
  {
    var f := PublicBy(cats, now);
    assert forall p :: f(p) == PublishedBy(p, cats, now);
    FilterMultiset(base, f);
  }

  /** The query keeps the base set's order: rows of an earlier part come before rows of a later one. */
  lemma ManagerKeepsOrder(a: seq<Post>, b: seq<Post>, cats: seq<Category>, now: int)
    ensures ManagerQuery(a + b, cats, now) == ManagerQuery(a, cats, now) + ManagerQuery(b, cats, now)
  {
    FilterConcat(a, b, PublicBy(cats, now));
  }

  /** A base set already in newest-first order stays so. */
  lemma ManagerKeepsDescending(base: seq<Post>, cats: seq<Category>, now: int)
    requires Descending(base)
    ensures Descending(ManagerQuery(base, cats, now))
  {
    FilterKeepsDescending(base, PublicBy(cats, now));
  }

  /** Applied to rows that all pass, the query returns them unchanged. */
  lemma ManagerIdempotent(base: seq<Post>, cats: seq<Category>, now: int)
    ensures ManagerQuery(ManagerQuery(base, cats, now), cats, now) == ManagerQuery(base, cats, now)
  {
    var r := ManagerQuery(base, cats, now);
    FilterAll(r, PublicBy(cats, now));
  }

  /** Everything in the feed is in the manager's result over the same store. */
  lemma FeedWithinManager(db: Db, now: int)
    ensures forall p :: p in PostsOf(Published(db, now)) ==> p in ManagerQuery(db.posts, db.categories, now)
  {
  }

  /** The two queries differ exactly on the published posts dated exactly `now`. */
  lemma BoundaryDifference(db: Db, now: int, p: Post)
    ensures (p in ManagerQuery(db.posts, db.categories, now) && p !in PostsOf(Published(db, now)))
            <==> (p in db.posts && p.isPublished && CategoryPublished(db.categories, p.category) && p.pubDate == now)
  {
  }

  /** A concrete store in which the manager shows a post that the feed hides. */
  lemma PostDatedNowExample()
    ensures var cat := Category(1, "news", "news", true);
            var post := Post(7, 3, true, "t", "x", None, None, 1, 100);
            var db := Db([post], [cat], [], []);
            ManagerQuery(db.posts, db.categories, 100) == [post] && Published(db, 100) == []
  {
    var cat := Category(1, "news", "news", true);
    var post := Post(7, 3, true, "t", "x", None, None, 1, 100);
    var db := Db([post], [cat], [], []);
    assert CategoryPublished(db.categories, 1) by { assert cat in db.categories; }
    assert post in ManagerQuery(db.posts, db.categories, 100);
    assert |ManagerQuery(db.posts, db.categories, 100)| == 1;
  }
}
