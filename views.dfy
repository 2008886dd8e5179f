/**
 * The request handlers of the posts application, over an in-memory store.
 *
 * A handler's response is an `Outcome`: a rendered view with its context, a
 * redirect to a named page, a not-found page, or the login redirect that
 * `login_required` answers a guest with. The requester is `None` for a guest
 * and `Some(username)` for a signed-in user. A submitted form is `Bound` with
 * the validity Django's form validation would report and the data it would
 * write; `Unbound` is a GET request (or an empty POST), on which
 * `is_valid()` is false.
 */
module Views {

  import opened Wrappers
  import opened Paging
  import opened Models

  datatype Form<T> = Unbound | Bound(valid: bool, data: T)

  /** `form.is_valid()`. */
  predicate IsValid<T>(form: Form<T>) {
    form.Bound? && form.valid
  }

  /** Where a redirect goes. */
  datatype Target =
    | IndexPage                   // `posts:index`
    | ProfileOf(username: UserName) // `posts:profile`
    | DetailOf(postId: nat)       // `posts:post_detail`

  /** A rendered template and the part of its context the handler computes. */
  datatype View =
    | IndexView(page: Page<Post>)
    | GroupView(group: Group, page: Page<Post>)
    | ProfileView(author: UserName, page: Page<Post>, following: bool)
    | DetailView(post: Post, comments: seq<Comment>)
    | PostFormView(isEdit: bool)
    | FollowView(page: Page<Post>)

  datatype Outcome =
    | Render(view: View)
    | Redirect(target: Target)
    | NotFound
    | LoginRedirect

  /** The items of a page are posts of its listing, in listing order. */
  lemma PageOfListing(arg: PageArg, listing: seq<Post>)
    ensures forall p :: p in GetPage(arg, listing).items ==> p in listing
    ensures NewestFirst(listing) ==> NewestFirst(GetPage(arg, listing).items)
  {
    PageItemsInListing(arg, listing);
    var items := GetPage(arg, listing).items;
    if NewestFirst(listing) {
      forall i, j | 0 <= i < j < |items|
        ensures items[i].id > items[j].id
      {
        PageItemAt(arg, listing, i);
        PageItemAt(arg, listing, j);
      }
    }
  }

  /** The newest post of an author opens page 1 of that author's profile. */
  lemma NewestPostLeadsProfile(ps: seq<Post>)
    requires ps != []
    ensures var page := GetPage(Absent, ByAuthor(ps, ps[0].author)).items;
      |page| > 0 && page[0] == ps[0]
  {
    var mine := ByAuthor(ps, ps[0].author);
    assert mine != [] && mine[0] == ps[0];
    FirstPageHead(mine);
  }

  /** A freshly created post is the first item of page 1 of the index and of its author's profile. */
  lemma NewPostLeadsListings(p: Post, ps: seq<Post>)
    ensures var page := GetPage(Absent, [p] + ps).items;
      |page| > 0 && page[0] == p
    ensures var page := GetPage(Absent, ByAuthor([p] + ps, p.author)).items;
      |page| > 0 && page[0] == p
  {
    var all := [p] + ps;
    FirstPageHead(all);
    NewestPostLeadsProfile(all);
  }

  class Store {
    var users: set<UserName>
    var groups: map<Slug, Group>
    /** All posts, newest first. */
    var posts: seq<Post>
    /** All comments, in the order they were added. */
    var comments: seq<Comment>
    /** The `Follow` table. */
    var follows: seq<Follow>
    /** The id the next created post receives (auto-increment). */
    var nextPostId: nat

    predicate KnownGroup(g: Option<Slug>)
      reads this
    {
      g.Some? ==> g.value in groups
    }

    /** A signed-in requester is a registered user. */
    predicate KnownRequester(requester: Option<UserName>)
      reads this
    {
      requester.Some? ==> requester.value in users
    }

    /**
     * The store's invariant: each group is stored under its own slug, listings
     * are newest first, rows refer to existing users, groups and posts, and the
     * follow table has no duplicate and no self-follow.
     */
    ghost predicate Valid()
      reads this
    {
      && (forall s :: s in groups ==> groups[s].slug == s)
      && NewestFirst(posts)
      && (forall p :: p in posts ==> p.id < nextPostId && p.author in users && KnownGroup(p.group))
      && (forall c :: c in comments ==> c.author in users && IndexOf(posts, c.post).Some?)
      && Distinct(follows)
      && (forall f :: f in follows ==> f.user != f.author && f.user in users && f.author in users)
    }

    /**
     * A store with registered users and groups (each under its own slug) and
     * no posts, comments or follows.
     */
    constructor (users: set<UserName>, groups: map<Slug, Group>)
      requires forall s :: s in groups ==> groups[s].slug == s
      ensures Valid()
      ensures this.users == users && this.groups == groups
      ensures posts == [] && comments == [] && follows == [] && nextPostId == 1
    {
      this.users := users;
      this.groups := groups;
      posts := [];
      comments := [];
      follows := [];
      nextPostId := 1;
    }

    // ---------------------------------------------------------------- queries

    /** `index`: page `arg` of all posts. */
    function Index(arg: PageArg): (o: Outcome)
      reads this
      ensures o.Render? && o.view.IndexView?
      ensures o.view.page == GetPage(arg, posts)
      ensures |o.view.page.items| <= DisplayedPosts
      ensures forall p :: p in o.view.page.items ==> p in posts
      ensures NewestFirst(posts) ==> NewestFirst(o.view.page.items)
    {
      PageOfListing(arg, posts);
      Render(IndexView(GetPage(arg, posts)))
    }

    /** `group_posts`: 404 for an unknown slug, else page `arg` of that group's posts. */
    function GroupPosts(slug: Slug, arg: PageArg): (o: Outcome)
      reads this
      ensures o == NotFound <==> slug !in groups
      ensures slug in groups ==>
        o.Render? && o.view.GroupView? && o.view.group == groups[slug] &&
        o.view.page == GetPage(arg, InGroup(posts, slug))
      ensures slug in groups && Valid() ==> o.view.group.slug == slug
      ensures slug in groups ==>
        forall p :: p in o.view.page.items ==> p in posts && p.group == Some(slug)
      ensures slug in groups && NewestFirst(posts) ==> NewestFirst(o.view.page.items)
    {
      if slug !in groups then NotFound
      else
        var listing := InGroup(posts, slug);
        PageOfListing(arg, listing);
        Render(GroupView(groups[slug], GetPage(arg, listing)))
    }

    /**
     * `profile`: 404 for an unknown username, else page `arg` of that user's
     * posts and the `following` flag. As written, the flag is set for a
     * signed-in requester who follows anybody at all, not only this author.
     */
    function Profile(requester: Option<UserName>, username: UserName, arg: PageArg): (o: Outcome)
      reads this
      ensures o == NotFound <==> username !in users
      ensures username in users ==>
        o.Render? && o.view.ProfileView? && o.view.author == username &&
        o.view.page == GetPage(arg, ByAuthor(posts, username))
      ensures username in users ==>
        forall p :: p in o.view.page.items ==> p in posts && p.author == username
      ensures username in users && NewestFirst(posts) ==> NewestFirst(o.view.page.items)
      ensures username in users && requester.None? ==> !o.view.following
      ensures username in users && requester.Some? ==>
        (o.view.following <==> exists f :: f in follows && f.user == requester.value)
    {
      if username !in users then NotFound
      else
        var listing := ByAuthor(posts, username);
        PageOfListing(arg, listing);
        var following :=
          if requester.Some? then
            FollowingFlagMeansFollowsSomeone(follows, requester.value);
            FollowingFlag(follows, requester.value)
          else false;
        Render(ProfileView(username, GetPage(arg, listing), following))
    }

    /** `post_detail`: 404 for an unknown id, else the post and its comments. */
    function PostDetail(postId: nat): (o: Outcome)
      reads this
      ensures o == NotFound <==> forall p :: p in posts ==> p.id != postId
      ensures o.Render? ==>
        o.view.DetailView? && o.view.post in posts && o.view.post.id == postId &&
        o.view.comments == CommentsOf(comments, postId) &&
        (forall c :: c in o.view.comments <==> c in comments && c.post == postId) &&
        (forall c :: multiset(o.view.comments)[c] == if c.post == postId then multiset(comments)[c] else 0)
      ensures o.NotFound? || o.Render?
    {
      match IndexOf(posts, postId)
      case None => NotFound
      case Some(i) =>
        assert posts[i] in posts;
        Render(DetailView(posts[i], CommentsOf(comments, postId)))
    }

    /** `follow_index`: page `arg` of the posts of the authors the requester follows. */
    function FollowIndex(requester: Option<UserName>, arg: PageArg): (o: Outcome)
      reads this
      ensures o == LoginRedirect <==> requester.None?
      ensures requester.Some? ==>
        o.Render? && o.view.FollowView? &&
        o.view.page == GetPage(arg, FollowedPosts(posts, follows, requester.value))
      ensures requester.Some? ==>
        forall p :: p in o.view.page.items ==> p in posts && Follow(requester.value, p.author) in follows
      ensures requester.Some? && NewestFirst(posts) ==> NewestFirst(o.view.page.items)
      ensures requester.Some? && (forall f :: f in follows ==> f.user != requester.value) ==>
        o.view.page.items == []
    {
      if requester.None? then LoginRedirect
      else
        var listing := FollowedPosts(posts, follows, requester.value);
        PageOfListing(arg, listing);
        Render(FollowView(GetPage(arg, listing)))
    }

    // -------------------------------------------------------------- mutations

    /**
     * `post_create`: a valid form adds one post, written by the requester, in
     * front of all others, and redirects to the requester's profile; anything
     * else re-renders the form and changes nothing.
     */
    method PostCreate(requester: Option<UserName>, form: Form<PostFields>) returns (o: Outcome)
      requires Valid() && KnownRequester(requester)
      requires IsValid(form) ==> KnownGroup(form.data.group)
      modifies this
      ensures Valid()
      ensures users == old(users) && groups == old(groups)
      ensures comments == old(comments) && follows == old(follows)
      ensures requester.None? ==>
        o == LoginRedirect && posts == old(posts) && nextPostId == old(nextPostId)
      ensures requester.Some? && IsValid(form) ==>
        o == Redirect(ProfileOf(requester.value)) &&
        posts == [Post(old(nextPostId), requester.value, form.data.text, form.data.group, form.data.image)]
                 + old(posts) &&
        nextPostId == old(nextPostId) + 1
      ensures requester.Some? && !IsValid(form) ==>
        o == Render(PostFormView(false)) && posts == old(posts) && nextPostId == old(nextPostId)
    {
      if requester.None? {
        return LoginRedirect;
      }
      if !IsValid(form) {
        return Render(PostFormView(false));
      }
      var post := Post(nextPostId, requester.value, form.data.text, form.data.group, form.data.image);
      NewestFirstCons(post, posts);
      ghost var before := posts;
      posts := [post] + posts;
      nextPostId := nextPostId + 1;
      forall c | c in comments
        ensures IndexOf(posts, c.post).Some?
      {
        var k := IndexOf(before, c.post).value;
        assert posts[k + 1] == before[k];
        IndexOfFinds(posts, k + 1);
      }
      o := Redirect(ProfileOf(requester.value));
    }

    /**
     * `post_edit`: 404 for an unknown id; a requester who is not the author is
     * redirected to the post and nothing changes; the author's valid form
     * rewrites text, group and image in place and redirects to the post;
     * otherwise the edit form is re-rendered and nothing changes.
     */
    method PostEdit(requester: Option<UserName>, postId: nat, form: Form<PostFields>) returns (o: Outcome)
      requires Valid() && KnownRequester(requester)
      requires IsValid(form) ==> KnownGroup(form.data.group)
      modifies this
      ensures Valid()
      ensures users == old(users) && groups == old(groups) && nextPostId == old(nextPostId)
      ensures comments == old(comments) && follows == old(follows)
      ensures requester.None? ==> o == LoginRedirect && posts == old(posts)
      ensures requester.Some? && IndexOf(old(posts), postId).None? ==>
        o == NotFound && posts == old(posts)
      ensures requester.Some? && IndexOf(old(posts), postId).Some? ==>
        var i := IndexOf(old(posts), postId).value;
        if old(posts)[i].author != requester.value then
          o == Redirect(DetailOf(postId)) && posts == old(posts)
        else if IsValid(form) then
          o == Redirect(DetailOf(postId)) && posts == old(posts)[i := Edited(old(posts)[i], form.data)]
        else
          o == Render(PostFormView(true)) && posts == old(posts)
    {
      if requester.None? {
        return LoginRedirect;
      }
      var found := IndexOf(posts, postId);
      if found.None? {
        return NotFound;
      }
      var i := found.value;
      if requester.value != posts[i].author {
        return Redirect(DetailOf(postId));
      }
      if IsValid(form) {
        assert posts[i] in posts;
        ReplaceKeepsIds(posts, i, Edited(posts[i], form.data));
        posts := posts[i := Edited(posts[i], form.data)];
        return Redirect(DetailOf(postId));
      }
      o := Render(PostFormView(true));
    }

    /**
     * `add_comment`: 404 for an unknown id; a valid form appends one comment by
     * the requester on that post; valid or not, the requester is redirected to
     * the post.
     */
    method AddComment(requester: Option<UserName>, postId: nat, form: Form<string>) returns (o: Outcome)
      requires Valid() && KnownRequester(requester)
      modifies this
      ensures Valid()
      ensures users == old(users) && groups == old(groups) && nextPostId == old(nextPostId)
      ensures posts == old(posts) && follows == old(follows)
      ensures requester.None? ==> o == LoginRedirect && comments == old(comments)
      ensures requester.Some? && IndexOf(posts, postId).None? ==>
        o == NotFound && comments == old(comments)
      ensures requester.Some? && IndexOf(posts, postId).Some? ==>
        o == Redirect(DetailOf(postId)) &&
        comments == if IsValid(form) then old(comments) + [Comment(postId, requester.value, form.data)]
                    else old(comments)
    {
      if requester.None? {
        return LoginRedirect;
      }
      if IndexOf(posts, postId).None? {
        return NotFound;
      }
      if IsValid(form) {
        comments := comments + [Comment(postId, requester.value, form.data)];
      }
      o := Redirect(DetailOf(postId));
    }

    /**
     * `profile_follow`: 404 for an unknown username; otherwise the edge
     * requester -> author is created unless it exists or the two are the same
     * user, and the requester is redirected to the index.
     */
    method ProfileFollow(requester: Option<UserName>, username: UserName) returns (o: Outcome)
      requires Valid() && KnownRequester(requester)
      modifies this
      ensures Valid()
      ensures users == old(users) && groups == old(groups) && nextPostId == old(nextPostId)
      ensures posts == old(posts) && comments == old(comments)
      ensures requester.None? ==> o == LoginRedirect && follows == old(follows)
      ensures requester.Some? && username !in users ==> o == NotFound && follows == old(follows)
      ensures requester.Some? && username in users ==>
        o == Redirect(IndexPage) && follows == FollowRows(old(follows), requester.value, username)
    {
      if requester.None? {
        return LoginRedirect;
      }
      if username !in users {
        return NotFound;
      }
      follows := FollowRows(follows, requester.value, username);
      o := Redirect(IndexPage);
    }

    /**
     * `profile_unfollow`: 404 for an unknown username; otherwise the edge
     * requester -> author is deleted if it exists and the two are different
     * users, and the requester is redirected to the index.
     */
    method ProfileUnfollow(requester: Option<UserName>, username: UserName) returns (o: Outcome)
      requires Valid() && KnownRequester(requester)
      modifies this
      ensures Valid()
      ensures users == old(users) && groups == old(groups) && nextPostId == old(nextPostId)
      ensures posts == old(posts) && comments == old(comments)
      ensures requester.None? ==> o == LoginRedirect && follows == old(follows)
      ensures requester.Some? && username !in users ==> o == NotFound && follows == old(follows)
      ensures requester.Some? && username in users ==>
        o == Redirect(IndexPage) && follows == UnfollowRows(old(follows), requester.value, username)
    {
      if requester.None? {
        return LoginRedirect;
      }
      if username !in users {
        return NotFound;
      }
      follows := UnfollowRows(follows, requester.value, username);
      o := Redirect(IndexPage);
    }
  }
}
