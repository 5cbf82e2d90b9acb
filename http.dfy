/** What a request handler answers. */
module Http {
  import opened Entities

  /** The pages a handler can redirect to. */
  datatype Url =
    | PostDetailUrl(postId: nat)   // 'blog:post_detail'
    | IndexUrl                     // 'blog:index'
    | ProfileUrl(user: UserId)     // 'blog:profile'; the address carries the username, which
                                   // `str(request.user)` gives, and the user id stands for it
    | LoginUrl                     // the login page of the authentication framework
    | PostAbsoluteUrl(postId: nat) // Post.get_absolute_url, which the edit view falls back on

  /** The answer to a form submission. */
  datatype Response = Redirect(to: Url) | FormErrors | Http404

  /** The answer to a page request: the page's content, or 404. */
  datatype View<T> = Found(value: T) | NotFound
}
