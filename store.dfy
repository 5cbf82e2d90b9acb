/**
 * The relational store and the request handlers of blog/views.py and blog/mixins.py
 * that change it.
 */
module Store {
  import opened Sequences
  import opened Entities
  import opened Http
  import opened Mixins

  class Store {
    var posts: seq<Post>
    var categories: seq<Category>
    var comments: seq<Comment>
    var users: seq<Account>
    /** The key the next new post gets: keys are handed out once and never again. */
    var nextPostId: nat
    /** The key the next new comment gets. */
    var nextCommentId: nat

    function Snapshot(): Db
      reads this
    {
      Db(posts, categories, comments, users)
    }

    /**
     * Primary keys are unique and below the next key to be handed out, and every comment is
     * on a stored post.
     */
    ghost predicate Valid()
      reads this
    {
      Wf(Snapshot()) && CommentsOnStoredPosts(posts, comments) &&
      (forall p :: p in posts ==> p.id < nextPostId) &&
      (forall c :: c in comments ==> c.id < nextCommentId)
    }

    constructor (posts0: seq<Post>, categories0: seq<Category>, comments0: seq<Comment>, users0: seq<Account>)
      requires Wf(Db(posts0, categories0, comments0, users0)) && CommentsOnStoredPosts(posts0, comments0)
      ensures Valid()
      ensures posts == posts0 && categories == categories0 && comments == comments0 && users == users0
    {
      posts, categories, comments, users := posts0, categories0, comments0, users0;
      nextPostId, nextCommentId := FreshPostId(posts0), FreshCommentId(comments0);
    }

    /**
     * add_comment: login required; 404 for a missing post (its visibility is not checked);
     * a valid form appends one comment by the viewer on that post; always back to the post.
     */
    method AddComment(viewer: Viewer, postId: nat, text: string, formValid: bool) returns (r: Response)
      requires Valid()
      modifies this`comments, this`nextCommentId
      ensures Valid()
      ensures viewer.Anonymous? ==> r == Redirect(LoginUrl) && comments == old(comments)
      ensures viewer.Member? && FindPost(posts, postId).None? ==> r == Http404 && comments == old(comments)
      ensures viewer.Member? && FindPost(posts, postId).Some? ==>
                r == Redirect(PostDetailUrl(postId)) &&
                comments == old(comments) +
                            (if formValid then [Comment(old(nextCommentId), text, viewer.id, postId)] else [])
      ensures forall pid :: CommentCount(comments, pid) ==
                CommentCount(old(comments), pid) +
                (if viewer.Member? && FindPost(posts, postId).Some? && formValid && pid == postId then 1 else 0)
      ensures nextCommentId ==
                old(nextCommentId) + (if viewer.Member? && FindPost(posts, postId).Some? && formValid then 1 else 0)
    {
      if viewer.Anonymous? {
        return Redirect(LoginUrl);
      }
      if FindPost(posts, postId).None? {
        return Http404;
      }
      if formValid {
        var c := Comment(nextCommentId, text, viewer.id, postId);
        forall pid ensures CommentCount(comments + [c], pid) == CommentCount(comments, pid) + (if pid == postId then 1 else 0) {
          CommentCountAppend(comments, c, pid);
        }
        comments := comments + [c];
        nextCommentId := nextCommentId + 1;
      }
      r := Redirect(PostDetailUrl(postId));
    }

    /**
     * PostCreateView: login required; a valid form adds a post whose author is the viewer
     * and whose publish flag is the model's default, then goes to the viewer's profile.
     */
    method CreatePost(viewer: Viewer, fields: PostFields, publishedDefault: bool, formValid: bool)
      returns (r: Response)
      requires Valid()
      modifies this`posts, this`nextPostId
      ensures Valid()
      ensures viewer.Anonymous? ==> r == Redirect(LoginUrl) && posts == old(posts)
      ensures viewer.Member? && !formValid ==> r == FormErrors && posts == old(posts)
      ensures viewer.Member? && formValid ==>
                r == Redirect(ProfileUrl(viewer.id)) &&
                posts == old(posts) +
                         [NewPost(old(nextPostId), viewer.id, publishedDefault, fields)]
      ensures viewer.Member? && formValid ==> CommentCount(comments, old(nextPostId)) == 0
      ensures nextPostId == old(nextPostId) + (if viewer.Member? && formValid then 1 else 0)
    {
      if viewer.Anonymous? {
        return Redirect(LoginUrl);
      }
      if !formValid {
        return FormErrors;
      }
      var p := NewPost(nextPostId, viewer.id, publishedDefault, fields);
      forall c | c in comments ensures c.post != p.id && FindPost(posts + [p], c.post).Some? {
        var i := FindPost(posts, c.post).value;
        assert posts[i] in posts && (posts + [p])[i] == posts[i];
      }
      posts := posts + [p];
      nextPostId := nextPostId + 1;
      r := Redirect(ProfileUrl(viewer.id));
    }

    /**
     * PostEditView behind OnlyAuthorPostMixin: the guard's answer for a missing post or a
     * non-author; for the author a valid form rewrites the post's form fields.
     */
    method EditPost(viewer: Viewer, postId: nat, fields: PostFields, formValid: bool) returns (r: Response)
      requires Valid()
      modifies this`posts
      ensures Valid()
      ensures var g := PostGuard(old(posts), viewer, postId);
              (g.Stop? ==> r == g.response && posts == old(posts)) &&
              (g.Proceed? && !formValid ==> r == FormErrors && posts == old(posts)) &&
              (g.Proceed? && formValid ==>
                 r == Redirect(PostAbsoluteUrl(postId)) &&
                 posts == old(posts)[g.index := WithFields(old(posts)[g.index], fields)])
    {
      var g := PostGuard(posts, viewer, postId);
      if g.Stop? {
        return g.response;
      }
      if !formValid {
        return FormErrors;
      }
      var edited := posts[g.index := WithFields(posts[g.index], fields)];
      forall c | c in comments ensures FindPost(edited, c.post).Some? {
        var i := FindPost(posts, c.post).value;
        assert edited[i].id == c.post;
      }
      posts := edited;
      r := Redirect(PostAbsoluteUrl(postId));
    }

    /**
     * PostDeleteView behind OnlyAuthorPostMixin: the guard's answer for a missing post or a
     * non-author; for the author the post is removed and the answer is the index page.
     */
    method DeletePost(viewer: Viewer, postId: nat) returns (r: Response)
      requires Valid()
      modifies this`posts, this`comments
      ensures Valid()
      ensures var g := PostGuard(old(posts), viewer, postId);
              (g.Stop? ==> r == g.response && posts == old(posts) && comments == old(comments)) &&
              (g.Proceed? ==>
                 r == Redirect(IndexUrl) &&
                 posts == old(posts)[..g.index] + old(posts)[g.index + 1..] &&
                 (forall p :: p in posts <==> p in old(posts) && p.id != postId) &&
                 comments == Filter(old(comments), OffPost(postId)) &&
                 forall pid :: CommentCount(comments, pid) == if pid == postId then 0 else CommentCount(old(comments), pid))
    {
      var g := PostGuard(posts, viewer, postId);
      if g.Stop? {
        return g.response;
      }
      var i := g.index;
      RemovePostAt(posts, i);
      var kept := Filter(comments, OffPost(postId));
      FilterKeepsUniqueCommentIds(comments, OffPost(postId));
      forall pid ensures CommentCount(kept, pid) == if pid == postId then 0 else CommentCount(comments, pid) {
        CommentCountCascade(comments, postId, pid);
      }
      var rest := posts[..i] + posts[i + 1..];
      forall c | c in kept ensures FindPost(rest, c.post).Some? {
        var k := FindPost(posts, c.post).value;
        assert posts[k] in posts && posts[k] in rest;
      }
      posts, comments := rest, kept;
      r := Redirect(IndexUrl);
    }

    /**
     * CommentUpdateView behind OnlyAuthorCommentMixin: the guard's answer for a comment not on
     * that post or a non-author; for the author a valid form rewrites the text; a success
     * returns to the post's page.
     */
    method EditComment(viewer: Viewer, postId: nat, commentId: nat, text: string, formValid: bool)
      returns (r: Response)
      requires Valid()
      modifies this`comments
      ensures Valid()
      ensures var g := CommentGuard(old(comments), viewer, postId, commentId);
              (g.Stop? ==> r == g.response && comments == old(comments)) &&
              (g.Proceed? && !formValid ==> r == FormErrors && comments == old(comments)) &&
              (g.Proceed? && formValid ==>
                 r == Redirect(PostDetailUrl(postId)) &&
                 comments == old(comments)[g.index := old(comments)[g.index].(text := text)])
      ensures forall pid :: CommentCount(comments, pid) == CommentCount(old(comments), pid)
    {
      var g := CommentGuard(comments, viewer, postId, commentId);
      if g.Stop? {
        return g.response;
      }
      if !formValid {
        return FormErrors;
      }
      forall pid ensures CommentCount(comments[g.index := comments[g.index].(text := text)], pid) == CommentCount(comments, pid) {
        CommentCountRetext(comments, g.index, text, pid);
      }
      comments := comments[g.index := comments[g.index].(text := text)];
      r := Redirect(PostDetailUrl(postId));
    }

    /**
     * CommentDeleteView behind OnlyAuthorCommentMixin: the guard's answer for a comment not on
     * that post or a non-author; for the author the comment is removed and the answer is the
     * post's page.
     */
    method DeleteComment(viewer: Viewer, postId: nat, commentId: nat) returns (r: Response)
      requires Valid()
      modifies this`comments
      ensures Valid()
      ensures var g := CommentGuard(old(comments), viewer, postId, commentId);
              (g.Stop? ==> r == g.response && comments == old(comments)) &&
              (g.Proceed? ==>
                 r == Redirect(PostDetailUrl(postId)) &&
                 comments == old(comments)[..g.index] + old(comments)[g.index + 1..])
      ensures forall pid :: CommentCount(comments, pid) ==
                CommentCount(old(comments), pid) -
                (if CommentGuard(old(comments), viewer, postId, commentId).Proceed? && pid == postId then 1 else 0)
    {
      var g := CommentGuard(comments, viewer, postId, commentId);
      if g.Stop? {
        return g.response;
      }
      var i := g.index;
      forall pid ensures CommentCount(comments[..i] + comments[i + 1..], pid) ==
                         CommentCount(comments, pid) - (if pid == postId then 1 else 0) {
        CommentCountSplice(comments, i, pid);
      }
      RemoveCommentAt(comments, i);
      comments := comments[..i] + comments[i + 1..];
      r := Redirect(PostDetailUrl(postId));
    }

    /**
     * ProfileUpdate: login required; the object edited is always the viewer's own account;
     * a success goes to the viewer's profile.
     */
    method UpdateProfile(viewer: Viewer, fields: AccountFields, formValid: bool) returns (r: Response)
      requires Valid()
      modifies this`users
      ensures Valid()
      ensures viewer.Anonymous? ==> r == Redirect(LoginUrl) && users == old(users)
      ensures viewer.Member? && !formValid ==> r == FormErrors && users == old(users)
      ensures viewer.Member? && formValid ==>
                r == Redirect(ProfileUrl(viewer.id)) && |users| == |old(users)| &&
                forall i :: 0 <= i < |users| ==>
                  users[i] == if old(users)[i].id == viewer.id then WithAccountFields(old(users)[i], fields) else old(users)[i]
    {
      if viewer.Anonymous? {
        return Redirect(LoginUrl);
      }
      if !formValid {
        return FormErrors;
      }
      var before := users;
      users := seq(|before|, i requires 0 <= i < |before| =>
                 if before[i].id == viewer.id then WithAccountFields(before[i], fields) else before[i]);
      r := Redirect(ProfileUrl(viewer.id));
    }
  }
  /**
   * A client of the handlers: once a post is deleted, its comments are unreachable through its
   * address, and a post created afterwards starts with no comments.
   */
  method DeleteThenCreate(s: Store, viewer: Viewer, postId: nat, commentId: nat, fields: PostFields)
    returns (deleted: Response, edited: Response)
    requires s.Valid()
    modifies s
    ensures s.Valid()
    ensures deleted == Redirect(IndexUrl) ==> edited == Http404
    ensures viewer.Member? ==> s.posts != [] && CommentCount(s.comments, s.posts[|s.posts| - 1].id) == 0
  {
    deleted := s.DeletePost(viewer, postId);
    ghost var gone := deleted == Redirect(IndexUrl);
    assert gone ==> CommentCount(s.comments, postId) == 0;
    var created := s.CreatePost(viewer, fields, true, true);
    edited := s.EditComment(viewer, postId, commentId, "edited", true);
  }

  /**
   * A client of the handlers: a comment deleted, a rejected comment form, then an accepted one.
   * The counter does not move on the rejected form, so the accepted comment gets a key that no
   * comment stored before the delete had.
   */
  method DeleteThenComment(s: Store, viewer: Viewer, postId: nat, commentId: nat, text: string)
    returns (deleted: Response, rejected: Response, accepted: Response)
    requires s.Valid()
    modifies s
    ensures s.Valid()
    ensures forall c :: c in s.comments && c !in old(s.comments) ==>
              forall d :: d in old(s.comments) ==> c.id != d.id
  {
    ghost var before := s.comments;
    ghost var counter := s.nextCommentId;
    deleted := s.DeleteComment(viewer, postId, commentId);
    assert forall c :: c in s.comments ==> c in before;
    rejected := s.AddComment(viewer, postId, text, false);
    assert s.nextCommentId == counter;
    ghost var mid := s.comments;
    assert forall c :: c in mid ==> c in before;
    accepted := s.AddComment(viewer, postId, text, true);
    assert forall c :: c in s.comments && c !in mid ==> c.id == counter;
  }
}
