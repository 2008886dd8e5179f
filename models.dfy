/**
 * The rows of the blog's store and the queries the handlers run over them.
 *
 * A user is identified by its (unique) username, a group by its (unique)
 * slug. Posts are kept in one sequence, newest first; the creation
 * timestamp itself is not modelled, and auto-increment post ids stand in for
 * creation order: a newer post has a larger id.
 */
module Models {

  import opened Wrappers

  type UserName = string
  type Slug = string

  datatype Group = Group(slug: Slug, title: string, description: string)

  datatype Post = Post(id: nat, author: UserName, text: string, group: Option<Slug>, image: Option<string>)

  datatype Comment = Comment(post: nat, author: UserName, text: string)

  /** A `Follow` row: `user` follows `author`. */
  datatype Follow = Follow(user: UserName, author: UserName)

  /** What a post form writes into a post: the editable fields. */
  datatype PostFields = PostFields(text: string, group: Option<Slug>, image: Option<string>)

  /** Listing order: every post is newer (has a larger id) than the posts after it. */
  predicate NewestFirst(ps: seq<Post>) {
    forall i, j :: 0 <= i < j < |ps| ==> ps[i].id > ps[j].id
  }

  /** No row appears twice. */
  predicate Distinct<T(==)>(s: seq<T>) {
    forall i, j :: 0 <= i < j < |s| ==> s[i] != s[j]
  }

  /**
   * The rows of `s` that `keep` accepts, in their order in `s` (a queryset
   * `filter`): each accepted row as often as it occurs in `s`, no other row.
   */
  function Filter<T(!new)>(s: seq<T>, keep: T -> bool): (r: seq<T>)
    ensures |r| <= |s|
    ensures forall x :: x in r <==> x in s && keep(x)
    ensures s != [] && keep(s[0]) ==> r != [] && r[0] == s[0]
    decreases |s|
  {
    if s == [] then []
    else (if keep(s[0]) then [s[0]] else []) + Filter(s[1..], keep)
  }

  /** A filter keeps every accepted row as many times as it occurs, and no other row. */
  lemma {:induction false} FilterCounts<T(!new)>(s: seq<T>, keep: T -> bool, x: T)
    ensures multiset(Filter(s, keep))[x] == if keep(x) then multiset(s)[x] else 0
    decreases |s|
  {
    if s != [] {
      assert s == [s[0]] + s[1..];
      FilterCounts(s[1..], keep, x);
    }
  }

  /** Filtering a concatenation filters each part and keeps them in order. */
  lemma {:induction false} FilterAppend<T(!new)>(s: seq<T>, t: seq<T>, keep: T -> bool)
    ensures Filter(s + t, keep) == Filter(s, keep) + Filter(t, keep)
    decreases |s|
  {
    if s == [] {
      assert s + t == t;
    } else {
      assert (s + t)[0] == s[0] && (s + t)[1..] == s[1..] + t;
      FilterAppend(s[1..], t, keep);
    }
  }

  /** A row added last is kept last when the filter accepts it. */
  lemma FilterSnoc<T(!new)>(s: seq<T>, x: T, keep: T -> bool)
    ensures Filter(s + [x], keep) == Filter(s, keep) + (if keep(x) then [x] else [])
  {
    FilterAppend(s, [x], keep);
    assert [x][1..] == [];
  }

  /** Putting a post in front of a newest-first listing of older posts keeps it newest-first. */
  lemma NewestFirstCons(p: Post, rest: seq<Post>)
    requires NewestFirst(rest)
    requires forall q :: q in rest ==> p.id > q.id
    ensures NewestFirst([p] + rest)
  {
    var r := [p] + rest;
    forall i, j | 0 <= i < j < |r|
      ensures r[i].id > r[j].id
    {
      assert r[j] == rest[j - 1];
      if i > 0 {
        assert r[i] == rest[i - 1];
      } else {
        assert rest[j - 1] in rest;
      }
    }
  }

  /** Filtering a newest-first listing keeps it newest-first. */
  lemma {:induction false} FilterKeepsNewestFirst(ps: seq<Post>, keep: Post -> bool)
    requires NewestFirst(ps)
    ensures NewestFirst(Filter(ps, keep))
    decreases |ps|
  {
    if ps != [] {
      var rest := Filter(ps[1..], keep);
      assert NewestFirst(ps[1..]) by {
        forall i, j | 0 <= i < j < |ps[1..]|
          ensures ps[1..][i].id > ps[1..][j].id
        {
          assert ps[1..][i] == ps[i + 1] && ps[1..][j] == ps[j + 1];
        }
      }
      FilterKeepsNewestFirst(ps[1..], keep);
      if keep(ps[0]) {
        forall q | q in rest
          ensures ps[0].id > q.id
        {
          assert q in ps[1..];
          var k :| 0 <= k < |ps| - 1 && ps[1..][k] == q;
          assert ps[k + 1] == q;
        }
        NewestFirstCons(ps[0], rest);
      }
    }
  }

  /** `group.posts.all()`: the posts assigned to the group with this slug. */
  function InGroup(ps: seq<Post>, slug: Slug): (r: seq<Post>)
    ensures forall p :: p in r <==> p in ps && p.group == Some(slug)
    ensures NewestFirst(ps) ==> NewestFirst(r)
  {
    var keep := (p: Post) => p.group == Some(slug);
    if NewestFirst(ps) then FilterKeepsNewestFirst(ps, keep); Filter(ps, keep)
    else Filter(ps, keep)
  }

  /** `user.posts.all()`: the posts written by this user. */
  function ByAuthor(ps: seq<Post>, author: UserName): (r: seq<Post>)
    ensures forall p :: p in r <==> p in ps && p.author == author
    ensures NewestFirst(ps) ==> NewestFirst(r)
    ensures ps != [] && ps[0].author == author ==> r != [] && r[0] == ps[0]
  {
    var keep := (p: Post) => p.author == author;
    if NewestFirst(ps) then FilterKeepsNewestFirst(ps, keep); Filter(ps, keep)
    else Filter(ps, keep)
  }

  /** The feed filter of `user`: a post is kept when `user` follows its author. */
  function InFeedOf(fs: seq<Follow>, user: UserName): Post -> bool {
    (p: Post) => Follow(user, p.author) in fs
  }

  /**
   * The follow feed, a post filter on the lookup `author__following__user`:
   * posts whose author has a `Follow` row naming `user` as the follower.
   */
  function FollowedPosts(ps: seq<Post>, fs: seq<Follow>, user: UserName): (r: seq<Post>)
    ensures forall p :: p in r <==> p in ps && Follow(user, p.author) in fs
    ensures NewestFirst(ps) ==> NewestFirst(r)
    ensures (forall f :: f in fs ==> f.user != user) ==> r == []
  {
    var keep := InFeedOf(fs, user);
    var r := if NewestFirst(ps) then FilterKeepsNewestFirst(ps, keep); Filter(ps, keep)
             else Filter(ps, keep);
    assert r != [] ==> r[0] in r && Follow(user, r[0].author) in fs;
    r
  }

  /** The comment filter of a post: a comment is kept when it is on the post with this id. */
  function OnPost(postId: nat): Comment -> bool {
    (c: Comment) => c.post == postId
  }

  /**
   * `post.comments.all()`: the comments on the post with this id, in the order
   * they were added, each as many times as it was added.
   */
  function CommentsOf(cs: seq<Comment>, postId: nat): (r: seq<Comment>)
    ensures forall c :: c in r <==> c in cs && c.post == postId
    ensures forall c :: multiset(r)[c] == if c.post == postId then multiset(cs)[c] else 0
  {
    var keep := OnPost(postId);
    forall c
      ensures multiset(Filter(cs, keep))[c] == if c.post == postId then multiset(cs)[c] else 0
    {
      FilterCounts(cs, keep, c);
    }
    Filter(cs, keep)
  }

  /**
   * A comment added last is shown last under its post, after the earlier ones;
   * the comments under every other post stay as they were.
   */
  lemma CommentsOfAppended(cs: seq<Comment>, c: Comment, postId: nat)
    ensures CommentsOf(cs + [c], postId) ==
      CommentsOf(cs, postId) + (if c.post == postId then [c] else [])
  {
    FilterSnoc(cs, c, OnPost(postId));
  }

  /**
   * The profile's `following` flag as written: whether some `Follow` row
   * matches the lookup `author__following__user`, that is, some row f whose
   * author has a row g with g.user == user. The profile owner does not occur
   * in the query.
   */
  predicate FollowingFlag(fs: seq<Follow>, user: UserName) {
    exists f :: f in fs && exists g :: g in fs && g.author == f.author && g.user == user
  }

  /** The flag holds exactly when `user` follows somebody, whoever that is. */
  lemma FollowingFlagMeansFollowsSomeone(fs: seq<Follow>, user: UserName)
    ensures FollowingFlag(fs, user) <==> exists f :: f in fs && f.user == user
  {
    if f :| f in fs && f.user == user {
      assert f in fs && f.author == f.author && f.user == user;
    }
  }

  /** A requester who follows one author sees the flag set on every other author's profile too. */
  lemma FollowingFlagIgnoresProfileOwner()
    ensures var fs := [Follow("u", "a")];
      FollowingFlag(fs, "u") && Follow("u", "b") !in fs
  {
    var fs := [Follow("u", "a")];
    assert fs[0] in fs;
  }

  /** Position of the post with this id (`get_object_or_404(Post, id=...)`). */
  function IndexOf(ps: seq<Post>, id: nat): (r: Option<nat>)
    ensures r.Some? ==> r.value < |ps| && ps[r.value].id == id
    ensures r.None? ==> forall p :: p in ps ==> p.id != id
    decreases |ps|
  {
    if ps == [] then None
    else if ps[0].id == id then Some(0)
    else match IndexOf(ps[1..], id)
      case None => None
      case Some(k) => Some(k + 1)
  }

  /** The id of every stored post is found. */
  lemma IndexOfFinds(ps: seq<Post>, k: nat)
    requires k < |ps|
    ensures IndexOf(ps, ps[k].id).Some?
  {
    assert ps[k] in ps;
  }

  /** `form.save()` on an existing post: the editable fields change, the id and author do not. */
  function Edited(p: Post, data: PostFields): (q: Post)
    ensures q.id == p.id && q.author == p.author
    ensures q.text == data.text && q.group == data.group && q.image == data.image
  {
    p.(text := data.text, group := data.group, image := data.image)
  }

  /** Rewriting one post in place without touching its id keeps the order and every id findable. */
  lemma ReplaceKeepsIds(ps: seq<Post>, i: nat, q: Post)
    requires i < |ps| && q.id == ps[i].id
    ensures NewestFirst(ps) ==> NewestFirst(ps[i := q])
    ensures forall id :: IndexOf(ps, id).Some? ==> IndexOf(ps[i := q], id).Some?
    ensures forall p :: p in ps[i := q] ==> p == q || p in ps
  {
    var qs := ps[i := q];
    assert forall k :: 0 <= k < |qs| ==> qs[k].id == ps[k].id;
    forall id | IndexOf(ps, id).Some?
      ensures IndexOf(qs, id).Some?
    {
      var k := IndexOf(ps, id).value;
      assert qs[k] in qs;
    }
    forall p | p in qs
      ensures p == q || p in ps
    {
      var k :| 0 <= k < |qs| && qs[k] == p;
      if k != i {
        assert ps[k] == p;
      }
    }
  }

  /** The rows after `get_or_create(user=user, author=author)`, guarded by `user != author`. */
  function FollowRows(fs: seq<Follow>, user: UserName, author: UserName): (r: seq<Follow>)
    ensures forall f :: f in r <==> f in fs || (user != author && f == Follow(user, author))
    ensures user == author || Follow(user, author) in fs ==> r == fs
    ensures Distinct(fs) ==> Distinct(r)
    ensures |r| == |fs| + (if user != author && Follow(user, author) !in fs then 1 else 0)
  {
    if user != author && Follow(user, author) !in fs then fs + [Follow(user, author)] else fs
  }

  /** The rows other than `e` (`filter(...).delete()` removes every matching row). */
  function Without(fs: seq<Follow>, e: Follow): (r: seq<Follow>)
    ensures forall f :: f in r <==> f in fs && f != e
    ensures e !in fs ==> r == fs
    ensures Distinct(fs) ==> Distinct(r)
    decreases |fs|
  {
    if fs == [] then []
    else
      var rest := Without(fs[1..], e);
      if fs[0] == e then rest
      else
        assert Distinct(fs) ==> fs[0] !in fs[1..];
        assert e !in fs ==> fs == [fs[0]] + fs[1..];
        [fs[0]] + rest
  }

  /** With no duplicate rows, removing a present row shortens the table by exactly one. */
  lemma {:induction false} WithoutDropsOneRow(fs: seq<Follow>, e: Follow)
    requires Distinct(fs) && e in fs
    ensures |Without(fs, e)| == |fs| - 1
    decreases |fs|
  {
    if fs[0] == e {
      assert e !in fs[1..];
    } else {
      assert Distinct(fs[1..]);
      WithoutDropsOneRow(fs[1..], e);
    }
  }

  /** The rows after `profile_unfollow`: the edge goes if it exists and the user is not the author. */
  function UnfollowRows(fs: seq<Follow>, user: UserName, author: UserName): (r: seq<Follow>)
    ensures user != author ==> forall f :: f in r <==> f in fs && f != Follow(user, author)
    ensures user == author || Follow(user, author) !in fs ==> r == fs
    ensures Distinct(fs) ==> Distinct(r)
    ensures Distinct(fs) ==> |r| == |fs| - (if user != author && Follow(user, author) in fs then 1 else 0)
  {
    var e := Follow(user, author);
    if user != author && e in fs then
      if Distinct(fs) then WithoutDropsOneRow(fs, e); Without(fs, e)
      else Without(fs, e)
    else fs
  }

  /** After `user` follows `author`, every post of `author` is in the follow feed of `user`. */
  lemma FeedShowsFollowedAuthor(ps: seq<Post>, fs: seq<Follow>, user: UserName, author: UserName)
    requires user != author
    ensures forall p :: p in ps && p.author == author ==> p in FollowedPosts(ps, FollowRows(fs, user, author), user)
  {
  }

  /**
   * The subscription scenario of the view tests, on a store holding one post
   * by `test_user` in front of posts by `auth`: once `test_user_2` follows
   * `test_user`, that one post is the whole follow feed of `test_user_2` (none
   * of the posts by `auth` gets in), `auth` has an empty feed, and
   * unfollowing leaves no row.
   */
  lemma SubscriptionScenario(post: Post, others: seq<Post>)
    requires post.author == "test_user"
    requires forall q :: q in others ==> q.author == "auth"
    ensures var fs := FollowRows([], "test_user_2", "test_user");
      && fs == [Follow("test_user_2", "test_user")]
      && FollowedPosts([post] + others, fs, "test_user_2") == [post]
      && FollowedPosts([post] + others, fs, "auth") == []
      && UnfollowRows(fs, "test_user_2", "test_user") == []
  {
    var fs := FollowRows([], "test_user_2", "test_user");
    var keep := InFeedOf(fs, "test_user_2");
    FilterAppend([post], others, keep);
    assert [post][1..] == [];
    var rest := Filter(others, keep);
    assert rest != [] ==> rest[0] in rest && rest[0] in others;
    var left := UnfollowRows(fs, "test_user_2", "test_user");
    assert |left| == 0;
  }

  /** Following twice leaves the same rows as following once. */
  lemma FollowIsIdempotent(fs: seq<Follow>, user: UserName, author: UserName)
    ensures FollowRows(FollowRows(fs, user, author), user, author) == FollowRows(fs, user, author)
  {
  }

  /** Unfollowing right after a fresh follow restores the rows. */
  lemma UnfollowUndoesFollow(fs: seq<Follow>, user: UserName, author: UserName)
    requires Follow(user, author) !in fs
    ensures UnfollowRows(FollowRows(fs, user, author), user, author) == fs
  {
    var e := Follow(user, author);
    if user != author {
      WithoutAppended(fs, e);
    }
  }

  lemma {:induction false} WithoutAppended(fs: seq<Follow>, e: Follow)
    requires e !in fs
    ensures Without(fs + [e], e) == fs
    decreases |fs|
  {
    if fs == [] {
      assert Without([e], e) == Without([e][1..], e);
    } else {
      assert (fs + [e])[1..] == fs[1..] + [e];
      WithoutAppended(fs[1..], e);
      assert fs == [fs[0]] + fs[1..];
    }
  }

  /** Deleting an edge from a concatenation deletes it from each part and keeps the parts in order. */
  lemma {:induction false} WithoutAppend(fs: seq<Follow>, gs: seq<Follow>, e: Follow)
    ensures Without(fs + gs, e) == Without(fs, e) + Without(gs, e)
    decreases |fs|
  {
    if fs == [] {
      assert fs + gs == gs;
    } else {
      assert (fs + gs)[0] == fs[0] && (fs + gs)[1..] == fs[1..] + gs;
      WithoutAppend(fs[1..], gs, e);
    }
  }
}
