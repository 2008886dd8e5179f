# Yatube posts: request handlers over an in-memory store

Yatube is a small blogging platform. Users write text posts, may put a post in
a topical group and attach an image, read paginated listings, comment on
posts, and follow authors to get a personal feed. This project models the
request-handler layer of the `posts` application (`yatube/posts/views.py`) and
proves what each handler does to the store and what it answers.

- `paging.dfy` (module `Paging`): `DISPLAYED_POSTS` and `get_page`. The slicing
  is done by Django's `Paginator.get_page`, which is not part of this
  repository. `GetPage` and `PageNumber` state Django's documented behaviour
  and the model takes it as an assumption: page k holds items (k-1)*10 up to
  min(k*10, n); a missing or non-integer page number gives page 1; an integer
  below 1 or past the end gives the last page; an empty listing has one empty
  page.
- `models.dfy` (module `Models`): the rows (`Post`, `Group`, `Comment`,
  `Follow`) and the queries the handlers run: group, author and follow-feed
  filters, comments of a post, lookup by id, the profile's `following` flag,
  and the follow-table updates behind `get_or_create` and `filter(...).delete()`.
- `views.dfy` (module `Views`): the `Store` class and the handlers. The store
  holds the users, the groups (by slug), the posts (newest first), the comments
  (in insertion order), the follow rows, and the next post id. The read-only
  handlers (`index`, `group_posts`, `profile`, `post_detail`, `follow_index`)
  are functions of the store. The handlers that write (`post_create`,
  `post_edit`, `add_comment`, `profile_follow`, `profile_unfollow`) are
  methods that modify it. Each of them keeps the store invariant `Valid()`.
- `wrappers.dfy` (module `Wrappers`): `Option`.

How the model stands in for the framework:

- A response is an `Outcome`: `Render(view)`, `Redirect(target)`, `NotFound`,
  or `LoginRedirect`.
- The requester is `None` for a guest. Every handler marked `login_required`
  answers a guest with `LoginRedirect` before doing anything else.
- A form is `Unbound` (a GET request, or an empty POST for
  `request.POST or None`) or `Bound(valid, data)`. Validity is an input.
- Users are identified by their unique username, groups by their unique slug.
  The store keeps each group under its own slug.
- Newest first means strictly decreasing post ids along `posts`. Auto-increment
  ids follow creation order, and `PostCreate` puts the new post, with the next
  id, in front. The `pub_date` timestamp itself is not modelled.

The profile's `following` flag is modelled exactly as `views.py:40-41` computes
it: whether any `Follow` row matches the lookup `author__following__user` for
the requester. The profile owner does not occur in that query. The flag therefore means "the
requester follows somebody", not "the requester follows this author", which is
what a profile page would suggest. `Models.FollowingFlagMeansFollowsSomeone`
proves the first reading, and `Models.FollowingFlagIgnoresProfileOwner` gives an
input on which the two readings differ. The lookup `author__following__user` is
read through the related name `following` on `Follow.author`. This is the same
lookup `follow_index` uses (`views.py:116-118`), and the subscription test
(`tests/test_views.py:237-252`) confirms that reading.

Two behaviours a reader might not expect:

- The `following` flag, as above.
- Any integer page outside 1..NumPages, including 0 and negative numbers,
  gives the last page, because Django's `get_page` answers `EmptyPage` that
  way.

## Model

| member | source | states |
|---|---|---|
| `Paging.NumPages` | yatube/posts/views.py:11-14 | the page count is ceil(n/10) for a non-empty listing (n items fit in it and one page fewer would not hold them) and exactly 1 for an empty one |
| `Paging.PageNumber` | yatube/posts/views.py:13-14 | an integer page in range is kept; any other integer gives the last page; a missing or non-integer page gives page 1 |
| `Paging.GetPage` | yatube/posts/views.py:8-14 | page k holds the items (k-1)*10 up to min(k*10, n) of the listing, at most `DisplayedPosts` = 10 of them |
| `Paging.FirstPageIsPrefix` | yatube/posts/tests/test_views.py:186-198 | page 1, asked for by number or by default, is the first min(10, n) items in listing order |
| `Paging.FirstPageHead` | yatube/posts/tests/test_views.py:88-94 | the first item of a non-empty listing is the first item of page 1 |
| `Paging.PageItemAt` | yatube/posts/views.py:11-14 | item k of a page is item (number-1)*10 + k of the listing |
| `Paging.PageItemsInListing` | yatube/posts/views.py:11-14 | every item on a page is an item of the listing |
| `Paging.PageSizes` | yatube/posts/views.py:11-14 | every page that has a next page is full; the last page holds the remainder n - (pages-1)*10 |
| `Paging.PagesFromStep` | yatube/posts/views.py:11-14 | pages k, k+1, ... are page k's slice followed by the later pages |
| `Paging.PagesFromIsSuffix` | yatube/posts/views.py:11-14 | pages k, k+1, ... read in order are exactly the listing from item (k-1)*10 on |
| `Paging.PagesCoverListing` | yatube/posts/views.py:11-14 | all pages read in order are the listing itself: no item is lost or repeated |
| `Models.Filter` | yatube/posts/views.py:116-118 | a queryset filter keeps exactly the accepted rows, never more rows than it was given, and keeps a leading accepted row first |
| `Models.FilterCounts` | yatube/posts/views.py:116-118 | a filter keeps each accepted row as many times as it occurs in the input and drops every other row |
| `Models.FilterSnoc` | yatube/posts/views.py:57 | a row added last is kept last, after the earlier accepted rows, when the filter accepts it, and dropped otherwise |
| `Models.FilterAppend` | yatube/posts/views.py:116-118 | filtering a concatenation is the concatenation of the filtered parts, so the filter keeps the input's order |
| `Models.NewestFirstCons` | yatube/posts/views.py:73 | a post in front of a newest-first listing of older posts leaves it newest-first |
| `Models.FilterKeepsNewestFirst` | yatube/posts/tests/test_views.py:88-94 | filtering a newest-first listing leaves it newest-first |
| `Models.InGroup` | yatube/posts/views.py:28 | `group.posts.all()` holds exactly the stored posts of that group, newest first |
| `Models.ByAuthor` | yatube/posts/views.py:44 | `user.posts.all()` holds exactly the stored posts by that user, newest first, and starts with the store's first post when that post is the user's |
| `Models.FollowedPosts` | yatube/posts/views.py:116-118 | the follow feed holds exactly the posts whose author the user follows, newest first; it is empty when the user has no follow row |
| `Models.CommentsOf` | yatube/posts/views.py:57 | `post.comments.all()` holds exactly the comments on that post, each as many times as it was stored |
| `Models.CommentsOfAppended` | yatube/posts/views.py:105-109 | a comment saved last is shown last under its post, after that post's earlier comments; every other post's comments stay the same |
| `Models.FollowingFlagMeansFollowsSomeone` | yatube/posts/views.py:39-43 | the profile flag's join query holds exactly when the requester has at least one follow row, whichever author it names |
| `Models.FollowingFlagIgnoresProfileOwner` | yatube/posts/views.py:40-41 | a requester who follows only `a` gets the flag set while not following `b` |
| `Models.IndexOf` | yatube/posts/views.py:55 | the lookup by id gives a position that holds that id, or reports that no stored post has it (the 404 case) |
| `Models.IndexOfFinds` | yatube/posts/views.py:55 | the id of every stored post is found |
| `Models.Edited` | yatube/posts/views.py:83-87 | saving the edit form rewrites text, group and image, and keeps id and author |
| `Models.ReplaceKeepsIds` | yatube/posts/views.py:95 | rewriting one post in place without changing its id keeps the listing newest-first and every id findable |
| `Models.FollowRows` | yatube/posts/views.py:130-134 | follow adds the edge only when user differs from author and the edge is absent; a repeated follow or a self-follow changes nothing; no duplicate row ever appears |
| `Models.Without` | yatube/posts/views.py:146-149 | `filter(user, author).delete()` removes every row equal to the edge and keeps all other rows; a table without the edge is unchanged |
| `Models.WithoutAppend` | yatube/posts/views.py:146-149 | deleting the edge from a concatenation deletes it from each part, so the remaining rows keep their order |
| `Models.WithoutDropsOneRow` | yatube/posts/views.py:142-149 | with no duplicate rows, deleting a present edge shortens the table by exactly one |
| `Models.UnfollowRows` | yatube/posts/views.py:142-149 | unfollow removes exactly the edge (user, author) if present and leaves all other rows; unfollowing yourself or someone not followed is a no-op |
| `Models.FeedShowsFollowedAuthor` | yatube/posts/tests/test_views.py:239-249 | after user follows author, every post by author is in the user's follow feed |
| `Models.SubscriptionScenario` | yatube/posts/tests/test_views.py:237-259 | on a store of one post by `test_user` in front of any number of posts by `auth`: `test_user_2` follows `test_user` and sees exactly that one post as the whole feed, none of `auth`'s; `auth` sees an empty feed; after unfollowing no row is left |
| `Models.FollowIsIdempotent` | yatube/posts/views.py:130-134 | following twice leaves the same rows as following once |
| `Models.UnfollowUndoesFollow` | yatube/posts/views.py:126-150 | unfollowing right after a fresh follow restores the table |
| `Models.WithoutAppended` | yatube/posts/views.py:146-149 | deleting an edge that was just appended gives back the earlier table |
| `Views.PageOfListing` | yatube/posts/views.py:11-14 | the items of a page are items of its listing and stay newest-first |
| `Views.NewestPostLeadsProfile` | yatube/posts/tests/test_views.py:215-222 | the store's newest post opens page 1 of its author's profile |
| `Views.NewPostLeadsListings` | yatube/posts/views.py:71-74 | a freshly created post is the first item of page 1 of the index and of its author's profile |
| `Views.Store.Index` | yatube/posts/views.py:17-23 | `index` renders page `arg` of all posts: at most 10, all stored, newest first |
| `Views.Store.GroupPosts` | yatube/posts/views.py:26-34 | `group_posts` gives 404 exactly for an unknown slug; otherwise it renders the group with the requested slug and a page of only that group's posts, newest first |
| `Views.Store.Profile` | yatube/posts/views.py:37-51 | `profile` gives 404 exactly for an unknown username; otherwise a page of only that user's posts; `following` is false for a guest and, as written, true for a signed-in requester iff that requester follows anybody |
| `Views.Store.PostDetail` | yatube/posts/views.py:54-63 | `post_detail` gives 404 exactly when no post has the id; otherwise it renders that post with `CommentsOf` the stored comments: exactly its comments, each as many times as it was stored, in the order they were added |
| `Views.Store.FollowIndex` | yatube/posts/views.py:113-123 | `follow_index` sends a guest to login; otherwise it renders a page of only posts whose author the requester follows; the page is empty when the requester has no follow row |
| `Views.Store.PostCreate` | yatube/posts/views.py:66-77 | a guest is sent to login; a valid form puts exactly one new post, by the requester and with a fresh id, in front of the others and redirects to the requester's profile; otherwise the form is re-rendered; comments and follows never change |
| `Views.Store.PostEdit` | yatube/posts/views.py:80-98 | a guest is sent to login; unknown id gives 404; a non-author is redirected to the detail page and posts stay the same; the author's valid form rewrites only that post's text, group and image and redirects to the detail page; otherwise the edit form is re-rendered and nothing changes |
| `Views.Store.AddComment` | yatube/posts/views.py:101-110 | a guest is sent to login; unknown id gives 404; a valid form appends exactly one comment, by the requester on that post; a signed-in requester is always redirected to the detail page; posts and follows never change |
| `Views.Store.ProfileFollow` | yatube/posts/views.py:126-135 | a guest is sent to login; unknown username gives 404; otherwise the follow rows become `FollowRows` of the old rows (no self-follow, no duplicate) and the redirect goes to the index |
| `Views.Store.ProfileUnfollow` | yatube/posts/views.py:138-150 | a guest is sent to login; unknown username gives 404; otherwise the follow rows become `UnfollowRows` of the old rows (at most the one edge removed) and the redirect goes to the index |

## Left out

- Templates, `render`, `reverse` and HTTP status codes: a response is the abstract `Outcome`. A view carries only the context the handler computes. The unbound forms put into the context (`CommentForm()`, `PostForm()`) are not modelled.
- `login_required` and sessions: the requester is an `Option`. A signed-in requester is assumed to be a registered user (`KnownRequester`).
- Form validation, in `forms.py`, is not part of this model. Validity is an input. A valid post form is assumed to name only an existing group, as a model choice field guarantees.
- Images: upload, storage and file contents are file I/O. An image is only an optional name carried through create and edit.
- The index page cache is configured outside `views.py` through Django's cache framework.
- `pub_date` and the model `Meta` ordering, in `models.py`, are not part of this model. Newest first is the id-order invariant described above.
- Model metadata (`__str__`, `verbose_name`, `help_text`) is declarations, not behaviour.
- Page metadata beyond `number`, `numPages`, `HasNext` and `HasPrevious` is not modelled (`page_range`, `start_index`, orphans, which are 0 by default).
- Comment ids and timestamps are not modelled. Comments are kept in insertion order.
- Concurrency and transactions: each handler runs as one atomic step on the store.
- Paging.GetPage: Django's paginator is not part of this repository. Its documented behaviour is stated as the contract and taken as an assumption, not derived from Django's code.
