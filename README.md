# Blogicum visibility and ownership policy

A Dafny model of the policy core of the Blogicum blog (a Django application): which posts a
viewer may see, and who may change a post or a comment. The model runs over an abstract
in-memory store of posts, categories, comments and user accounts. Users are integer ids.
Time is an integer `now` passed in by the caller.

Modules, one per source file or shared concept:

- `Sequences` (`sequences.dfy`): `Filter`, the order-preserving selection that models an ORM
  `filter(...)`.
- `Entities` (`entities.dfy`): the records (`Post`, `Category`, `Comment`, `Account`), the
  viewer (`Anonymous` or `Member(id)`), the store snapshot `Db`, primary-key lookup and key
  uniqueness.
- `Http` (`http.dfy`): redirect targets, the answer to a form submission (`Response`) and the
  answer to a page request (`View`: `Found(...)` or `NotFound`).
- `Mixins` (`mixins.dfy`): `PublishedMixin.get_queryset` (filter, newest-first ordering,
  comment counts) and the two ownership guards of `OnlyAuthorPostMixin` and
  `OnlyAuthorCommentMixin`.
- `Managers` (`managers.dfy`): `PostManager.get_queryset`, and how it differs from the mixin.
- `Views` (`views.dfy`): the page queries of the post detail, category and profile views.
- `Store` (`store.dfy`): a class whose `seq` fields are the store's tables. Its methods are the
  views that change the store: `add_comment`, post creation, post and comment edit and delete
  behind the ownership guards, and the profile update.

Two facts about the code that the model makes precise:

- The mixin (`blogicum/blog/mixins.py:61`) and the detail view (`blogicum/blog/views.py:47`)
  keep posts dated strictly before `now`. The manager (`blogicum/blog/managers.py:12`) keeps
  posts dated at or before `now`. `Managers.BoundaryDifference` shows that the two queries
  differ exactly on published posts dated exactly `now`.
- `order_by('-pub_date')` allows equal dates. The model promises non-increasing dates
  (`Mixins.Descending`) and a permutation of the filtered posts, not a strict order.

Modelling choices:

- `Post.objects` is the unfiltered store (`Db.posts`). `PostManager` is a separate query over a
  base sequence, because `blogicum/blog/models.py` is not part of this model.
- "The post's category is published" is read as a join: some category with the post's category
  id is published. A dangling category reference therefore hides the post.
- Form validity is a `formValid: bool` parameter. The validation rules live in
  `blogicum/blog/models.py` and in the framework.
- The database's ordering is a stable insertion sort on `pubDate`. The database leaves the order
  of equal dates open. The model instead fixes one order for equal dates, and
  `Mixins.PublishedAfterComment` relies on that (see "## Left out").
- The store keeps one key counter per table (`nextPostId`, `nextCommentId`). It starts above
  every stored key (`FreshPostId`, `FreshCommentId`) and only grows, so a deleted post's key is
  never handed out again, as with an auto-increment primary key.
- `Comment.post` is a foreign key: `Store.Valid` requires every comment to be on a stored post.
  Deleting a post deletes its comments (cascade).
- The profile and owner checks compare `request.user` with a user id. An anonymous viewer is
  equal to no user (`Entities.IsUser`).
- `Profile.get_queryset` passes `self.queryset` in place of `self` to
  `PublishedMixin.get_queryset` (`blogicum/blog/views.py:132`). That method never reads `self`, so the
  model treats the call as the plain feed.

## Model

| member | source | states |
|---|---|---|
| `Sequences.Filter` | blogicum/blog/managers.py:9-12 | an ORM filter keeps exactly the rows that pass the test and never adds any |
| `Sequences.FilterMultiset` | blogicum/blog/managers.py:9-12 | every passing row is kept exactly as often as it occurs; every other row is dropped |
| `Sequences.FilterConcat` | blogicum/blog/managers.py:9-13 | filtering keeps relative order: filtering `a + b` is filtering `a`, then filtering `b` |
| `Entities.FindPost` | blogicum/blog/views.py:41-43 | a lookup by primary key returns the first post with that id, and fails exactly when no post has it |
| `Entities.FreshPostId` | blogicum/blog/views.py:87-89 | the post-key counter starts above every stored post's key |
| `Entities.FreshCommentId` | blogicum/blog/views.py:143-146 | the comment-key counter starts above every stored comment's key |
| `Entities.NewPost` | blogicum/blog/views.py:87-89 | a created post has the given key, the viewer as author and the default publish flag, and shows exactly the submitted form values |
| `Entities.CategoryPublished` | blogicum/blog/mixins.py:63 | `category__is_published=True`: some category with the post's category id is published |
| `Entities.ResubmitUnchanged` | blogicum/blog/forms.py:16-18 | submitting a post's own form values unchanged leaves the post as it was |
| `Entities.FilterKeepsUniqueCommentIds` | blogicum/blog/mixins.py:24 | removing any set of comments keeps comment keys unique |
| `Entities.WithFields` | blogicum/blog/forms.py:16-18 | a submitted post form sets title, text, image, location, category and pub_date to the submitted values and keeps id, author and is_published |
| `Entities.WithAccountFields` | blogicum/blog/views.py:165-166 | the profile form sets username, first name, last name and email to the submitted values and keeps the account's id |
| `Entities.RemovePostAt` | blogicum/blog/views.py:102-112 | deleting a post removes exactly the posts with its key, and keys stay unique |
| `Mixins.PublishedBefore` | blogicum/blog/mixins.py:61-63 | the mixin's and detail view's filter: published, in a published category, dated strictly before `now` |
| `Mixins.SortByDate` | blogicum/blog/mixins.py:64-65 | `order_by('-pub_date')` returns a permutation of its input with non-increasing dates |
| `Mixins.CommentCount` | blogicum/blog/mixins.py:66-67 | `Count('comments')` never exceeds the number of comments, and is 0 exactly when no comment is on the post |
| `Mixins.CommentCountIsFilter` | blogicum/blog/mixins.py:66-67 | the count equals the number of comments a filter on that post keeps |
| `Mixins.Annotate` | blogicum/blog/mixins.py:66-67 | annotation keeps the posts and their order, and gives each post its own comment count |
| `Mixins.FeedPosts` | blogicum/blog/mixins.py:57-65 | the feed's posts are exactly the published posts in a published category dated strictly before `now`, with multiplicity, newest first |
| `Mixins.Published` | blogicum/blog/mixins.py:57-68 | the feed holds every post passing the three conditions and nothing else; it is newest first; each entry's count is its post's comment count |
| `Mixins.FeedMonotone` | blogicum/blog/mixins.py:61 | a post in the feed at one moment is in it at every later moment |
| `Mixins.FeedWaitsForDate` | blogicum/blog/mixins.py:61-63 | a published post in a published category is in the feed exactly when its date is before `now` |
| `Mixins.CommentCountAppend` | blogicum/blog/mixins.py:66-67 | a new comment raises the count of its own post by one and of no other post |
| `Mixins.CommentCountSplice` | blogicum/blog/mixins.py:66-67 | removing a comment lowers the count of its own post by one and of no other post |
| `Mixins.CommentCountConcat` | blogicum/blog/mixins.py:66-67 | the count over two runs of comments is the sum of their counts |
| `Mixins.CommentCountCascade` | blogicum/blog/mixins.py:66-67 | dropping a post's comments leaves it with count 0 and every other post's count as it was |
| `Mixins.CommentCountRetext` | blogicum/blog/mixins.py:66-67 | editing a comment's text changes no post's count |
| `Mixins.PublishedAfterComment` | blogicum/blog/views.py:142-146 | after a comment is added, the feed lists the same posts in the same order, and only the commented post's count rises, by one |
| `Mixins.PostsOfFilter` | blogicum/blog/views.py:70-72 | restricting feed entries by a test on their post selects the same posts as filtering the posts |
| `Mixins.FilterKeepsDescending` | blogicum/blog/views.py:70-72 | restricting a newest-first listing keeps it newest first |
| `Mixins.PostGuard` | blogicum/blog/mixins.py:43-48 | a missing post gives 404 before any ownership check; only the author proceeds; everyone else, anonymous viewers included, is sent to the post's page |
| `Mixins.PostGuardOwnerOnly` | blogicum/blog/mixins.py:44-47 | with unique keys, the author of a stored post proceeds to that post and every other viewer is redirected to its detail page |
| `Mixins.CommentLookup` | blogicum/blog/mixins.py:22-26 | a comment is found only when its id is `comment_id` and its post is `post_id`; otherwise the lookup fails |
| `Mixins.CommentOfOtherPost` | blogicum/blog/mixins.py:23-25 | a comment cannot be reached through the address of a post it does not belong to |
| `Mixins.CommentGuard` | blogicum/blog/mixins.py:28-32 | a comment not found on that post gives 404; only its author proceeds; everyone else is sent to the post's page |
| `Mixins.CommentGuardOwnerOnly` | blogicum/blog/mixins.py:28-32 | with unique keys, a stored comment's author proceeds to it and every other viewer is redirected to its post's page |
| `Managers.PublishedBy` | blogicum/blog/managers.py:10-12 | the manager's filter: published, in a published category, dated at or before `now` |
| `Managers.ManagerQuery` | blogicum/blog/managers.py:8-13 | every returned post is published, in a published category and dated at or before `now`; every base post meeting all three is returned; the result is no longer than the base set |
| `Managers.ManagerMultiset` | blogicum/blog/managers.py:9-12 | the manager's result is a sub-multiset of the base set that keeps each passing post as often as it occurs |
| `Managers.ManagerKeepsOrder` | blogicum/blog/managers.py:9-13 | the manager keeps the base set's order (filtering and `select_related` reorder nothing) |
| `Managers.ManagerKeepsDescending` | blogicum/blog/managers.py:9-13 | a newest-first base set gives a newest-first result |
| `Managers.ManagerIdempotent` | blogicum/blog/managers.py:9-12 | applying the manager's filter twice gives the same result as applying it once |
| `Managers.FeedWithinManager` | blogicum/blog/mixins.py:60-63 | every post in the mixin's feed is also in the manager's result over the same store |
| `Managers.BoundaryDifference` | blogicum/blog/managers.py:12 | a post is in the manager's result but not in the feed exactly when it is published, in a published category and dated exactly `now` |
| `Managers.PostDatedNowExample` | blogicum/blog/managers.py:12 | in a store whose one post is dated exactly `now`, the manager returns that post and the feed is empty |
| `Views.PostDetail` | blogicum/blog/views.py:40-53 | an unknown id gives 404 for everyone; a returned post has that id and is in the store; it is the viewer's own post or passes the strict published filter |
| `Views.DetailForAuthor` | blogicum/blog/views.py:44-53 | the author receives their post whatever its publish flag, category or date |
| `Views.DetailForOthers` | blogicum/blog/views.py:44-52 | any other viewer receives the post exactly when it passes the strict published filter, and 404 otherwise |
| `Views.DetailIgnoresLocation` | blogicum/blog/views.py:46-50 | a post's location is never consulted: moving it changes only the location of the post returned |
| `Views.CategoryObject` | blogicum/blog/views.py:62-66 | a category is found only when its slug matches and it is published; 404 exactly when there is no such category |
| `Views.CategoryPosts` | blogicum/blog/views.py:68-72 | 404 exactly for a missing or unpublished slug; otherwise the listing is exactly the feed's posts in that category, newest first, with comment counts |
| `Views.FindAccount` | blogicum/blog/views.py:128 | the profile's user is found by username; 404 exactly when no user has that username |
| `Views.ProfilePosts` | blogicum/blog/views.py:127-134 | 404 for an unknown username; the owner sees every post they wrote, in any state; others see only those of the author's posts that pass the feed's filter; both newest first with comment counts |
| `Views.HiddenUnlessPublished` | blogicum/blog/views.py:44-52 | a post failing the published filter is absent from the feed, every category listing and every profile listing of a non-author, and its page gives that non-author 404 |
| `Views.AuthorAlwaysSees` | blogicum/blog/views.py:129-134 | the author sees their own post on its detail page and on their own profile, whatever its state |
| `Store.Store.AddComment` | blogicum/blog/views.py:137-147 | login required; an unknown post gives 404; for a stored post a valid form appends exactly one comment by the viewer on that post, however visible the post is, keyed with the counter, and moves the counter up by one, while an invalid one changes nothing, and either way the answer is the post's page; the login redirect and the 404 change neither the comments nor the counter; only the commented post's count changes |
| `Store.Store.CreatePost` | blogicum/blog/views.py:87-93 | login required; a valid form appends a post keyed with the counter, whose author is the viewer, which starts with no comments, moves the counter up by one and redirects to the viewer's profile; a login redirect or an invalid form leaves the posts and the counter as they were |
| `Store.Store.EditPost` | blogicum/blog/views.py:96-99 | the post guard's answer leaves the store unchanged; for the author, a valid form rewrites only that post's form fields |
| `Store.Store.DeletePost` | blogicum/blog/views.py:102-112 | the post guard's answer leaves posts and comments unchanged; for the author, exactly that post and its comments are removed, other posts' counts are kept, and the answer is the index page |
| `Store.Store.EditComment` | blogicum/blog/views.py:150-153 | the comment guard's answer leaves the comment unchanged; for the author, a valid form rewrites only its text and the answer is the post's page |
| `Store.Store.DeleteComment` | blogicum/blog/views.py:156-159 | the comment guard's answer leaves the comments unchanged; for the author, exactly that comment is removed, its post's count drops by one, and the answer is the post's page |
| `Store.DeleteThenCreate` | blogicum/blog/mixins.py:22-31 | after an author deletes a post, editing one of its old comments through its address gives 404, and a post created next starts with no comments |
| `Store.DeleteThenComment` | blogicum/blog/views.py:137-147 | after a comment is deleted and a comment form is rejected, an accepted comment gets a key that no comment stored before the delete had |
| `Store.Store.UpdateProfile` | blogicum/blog/views.py:162-174 | login required; the edited account is always the viewer's own; a valid form changes no other account and redirects to the viewer's profile |

## Left out

- Templates, pagination (`paginate_by`) and context dictionaries are not modelled. This covers `IndexView`'s page size, the comment list and comment form in `PostDetailView.get_context_data`, and the form in `PostDeleteView.get_context_data`.
- Requests that only display a form (GET on the edit and delete views) are not modelled. Only submissions are. The guard that runs before both is modelled, so a refused GET gets the same answer.
- `Post.get_absolute_url`, where the post edit view redirects after a success, lives in `blogicum/blog/models.py`, which is not part of this model. The model names that target `PostAbsoluteUrl(postId)`.
- `blogicum/blog/models.py` is not part of this model. So the model does not know the default of `is_published` (`CreatePost` takes it as a parameter), the `created_at` timestamps, field validation, or the `on_delete` rule of `Comment.post`. The model assumes CASCADE: `DeletePost` removes the post's comments.
- Mixins.PublishedAfterComment: its "same posts in the same order" holds because the model orders equal dates the same way every time. Two `ORDER BY pub_date DESC` queries need not order ties the same way, so for the database only the set of posts and their counts carry over.
- Store.Store.UpdateProfile: does not show that a new username is unique. That check belongs to the form's validation, which the `formValid` parameter stands for.
- The clock (`timezone.now()`) is the parameter `now`. The model assumes the mixin and the detail view read the same moment.
- `select_related` and `prefetch_related` only change how related rows are fetched. The model treats them as the identity.
- The login redirect is the single answer `Redirect(LoginUrl)`. The framework's `next` parameter and session handling are not modelled.
- Routing tables, the admin site, CSRF and the 403/404/500 error pages are not modelled.
- Concurrent requests are not modelled. Each handler runs on its own against the store.
