/**
 * The blog's entities (blog/models.py) and the persistent store they live in.
 * The store plays the part of the database behind Django's ORM: one class whose
 * fields are the tables, whose methods are the ORM calls the core makes
 * (save, get_or_create, delete, update, m2m clear/add), and whose Valid()
 * predicate holds the database constraints (unique slug, unique (post, user)
 * like, and likes and comments that refer to stored posts).
 */
module Models {
  import opened Wrappers
  import opened Text

  type PostId = nat
  type UserId = nat
  type TagName = string

  datatype Role = Author | Reader | Admin
  datatype Status = Draft | Pending | Approved | Rejected

  /** A post row together with its tag associations. */
  datatype Post = Post(
    title: string,
    slug: string,
    body: string,
    author: UserId,
    status: Status,
    featured: bool,
    tags: set<TagName>)

  datatype Comment = Comment(post: PostId, user: UserId, body: string, approved: bool)

  /** A like row; its identity is the (post, user) pair. */
  datatype Like = Like(post: PostId, user: UserId)

  datatype User = User(username: string, email: string)

  datatype StoreError = SlugTaken

  // ----- field defaults -----

  const DefaultRole: Role := Reader
  const DefaultStatus: Status := Draft
  const DefaultFeatured: bool := false
  const DefaultCommentApproved: bool := true

  /** An unsaved post as the model's field defaults make it: no slug, no tags. */
  function NewPost(title: string, body: string, author: UserId): Post {
    Post(title, "", body, author, DefaultStatus, DefaultFeatured, {})
  }

  // ----- slug assignment (Post.save) -----

  const MaxBaseSlugLength: nat := 200

  /** `slugify(title)[:200]`. */
  function BaseSlug(title: string): (r: string)
    ensures |r| <= MaxBaseSlugLength
    ensures |r| <= |Slugify(title)| && r == Slugify(title)[..|r|]
    ensures |Slugify(title)| <= MaxBaseSlugLength ==> r == Slugify(title)
    ensures |Slugify(title)| > MaxBaseSlugLength ==> |r| == MaxBaseSlugLength
  {
    var s := Slugify(title);
    if |s| <= MaxBaseSlugLength then s else s[..MaxBaseSlugLength]
  }

  /** The k-th slug the loop tries: the base itself, then `base-1`, `base-2`, ... */
  function Candidate(base: string, k: nat): string {
    if k == 0 then base else base + "-" + NatToString(k)
  }

  /** The loop never tries the same slug twice. */
  lemma CandidateInjective(base: string, j: nat, k: nat)
    requires Candidate(base, j) == Candidate(base, k)
    ensures j == k
  {
    if j != 0 && k != 0 {
      var cj, ck := Candidate(base, j), Candidate(base, k);
      assert NatToString(j) == cj[|base| + 1..];
      assert NatToString(k) == ck[|base| + 1..];
      NatToStringInjective(j, k);
    } else if j != k {
      assert false;
    }
  }

  function Candidates(base: string, n: nat): set<string> {
    set j | 0 <= j < n :: Candidate(base, j)
  }

  lemma {:induction false} CandidatesSize(base: string, n: nat)
    ensures |Candidates(base, n)| == n
  {
    if n > 0 {
      CandidatesSize(base, n - 1);
      assert Candidates(base, n) == Candidates(base, n - 1) + {Candidate(base, n - 1)};
      if Candidate(base, n - 1) in Candidates(base, n - 1) {
        var j :| 0 <= j < n - 1 && Candidate(base, j) == Candidate(base, n - 1);
        CandidateInjective(base, j, n - 1);
      }
    }
  }

  /** If the first n candidates are all taken, at least n slugs are taken. */
  lemma CandidatesBound(base: string, taken: set<string>, n: nat)
    requires forall j :: 0 <= j < n ==> Candidate(base, j) in taken
    ensures n <= |taken|
  {
    CandidatesSize(base, n);
    assert Candidates(base, n) <= taken;
    SubsetSize(Candidates(base, n), taken);
  }

  lemma SubsetSize(a: set<string>, b: set<string>)
    requires a <= b
    ensures |a| <= |b|
  {
    assert b == a + (b - a);
  }

  /** Candidate k is the first free one: it is not taken, and every earlier one is. */
  predicate FirstFree(base: string, taken: set<string>, k: nat) {
    Candidate(base, k) !in taken && forall j :: 0 <= j < k ==> Candidate(base, j) in taken
  }

  /** At most one candidate is the first free one. */
  lemma FirstFreeUnique(base: string, taken: set<string>, j: nat, k: nat)
    requires FirstFree(base, taken, j) && FirstFree(base, taken, k)
    ensures j == k
  {
  }

  /** The slug Post.save assigns when none is set. */
  ghost predicate AssignedSlug(base: string, taken: set<string>, slug: string) {
    exists k: nat :: FirstFree(base, taken, k) && slug == Candidate(base, k)
  }

  /**
   * The probing loop of Post.save: try `base`, then `base-1`, `base-2`, ...
   * until one is not taken. It stops after at most |taken| + 1 probes.
   */
  method UniqueSlug(base: string, taken: set<string>) returns (slug: string, k: nat)
    ensures slug == Candidate(base, k) && slug !in taken
    ensures forall j :: 0 <= j < k ==> Candidate(base, j) in taken
    ensures k <= |taken|
    ensures base !in taken ==> slug == base && k == 0
  {
    var suffix := "";
    var i := 1;
    while base + suffix in taken
      invariant 1 <= i && i - 1 <= |taken|
      invariant base + suffix == Candidate(base, i - 1)
      invariant forall j :: 0 <= j < i - 1 ==> Candidate(base, j) in taken
      decreases |taken| - (i - 1)
    {
      CandidatesBound(base, taken, i);
      suffix := "-" + NatToString(i);
      i := i + 1;
    }
    slug := base + suffix;
    k := i - 1;
  }

  // ----- table constraints -----

  /** `slug = SlugField(unique=True)`. */
  predicate SlugsUnique(posts: map<PostId, Post>) {
    forall a, b :: a in posts && b in posts && a != b ==> posts[a].slug != posts[b].slug
  }

  /** `unique_together = ('post', 'user')`: no two like rows for one pair. */
  predicate LikesUnique(likes: seq<Like>) {
    forall i, j :: 0 <= i < j < |likes| ==> likes[i] != likes[j]
  }

  function Slugs(posts: map<PostId, Post>): set<string> {
    set id | id in posts :: posts[id].slug
  }

  /** Some post other than the one being saved (`pk`) already holds `slug`. */
  predicate SlugHeldByOther(posts: map<PostId, Post>, slug: string, pk: Option<PostId>) {
    exists id :: id in posts && posts[id].slug == slug && pk != Some(id)
  }

  /** With unique slugs, a stored post's own slug is held by no other post. */
  lemma OwnSlugFree(posts: map<PostId, Post>, id: PostId)
    requires SlugsUnique(posts) && id in posts
    ensures !SlugHeldByOther(posts, posts[id].slug, Some(id))
  {
  }

  /**
   * A new row saved with an assigned slug and then saved again: a non-empty
   * slug stays, an empty one is assigned afresh against the slugs that now
   * include the row's own "". Either way the final slug is non-empty, new,
   * and the first free candidate once "" counts as taken.
   */
  lemma ResavedSlug(posts: map<PostId, Post>, id: PostId, row: Post, base: string, slug: string)
    requires id !in posts
    requires row.slug !in Slugs(posts) && AssignedSlug(base, Slugs(posts), row.slug)
    requires row.slug != "" ==> slug == row.slug
    requires row.slug == "" ==> slug !in Slugs(posts[id := row]) && AssignedSlug(base, Slugs(posts[id := row]), slug)
    ensures slug != "" && slug !in Slugs(posts)
    ensures AssignedSlug(base, Slugs(posts) + {""}, slug)
  {
    var after := posts[id := row];
    assert row.slug == after[id].slug;
    assert Slugs(after) == Slugs(posts) + {row.slug} by {
      forall x | x in Slugs(after)
        ensures x in Slugs(posts) + {row.slug}
      {
        var other :| other in after && after[other].slug == x;
        if other != id {
          assert posts[other].slug in Slugs(posts);
        }
      }
      forall x | x in Slugs(posts)
        ensures x in Slugs(after)
      {
        var other :| other in posts && posts[other].slug == x;
        assert after[other] == posts[other];
      }
    }
    if row.slug != "" {
      var k: nat :| FirstFree(base, Slugs(posts), k) && row.slug == Candidate(base, k);
      assert FirstFree(base, Slugs(posts) + {""}, k);
    }
  }

  /** The tag associations a row keeps when it is written: none for a new row. */
  function StoredTags(posts: map<PostId, Post>, id: PostId): set<TagName> {
    if id in posts then posts[id].tags else {}
  }

  /** Writing a row whose slug no other row holds keeps slugs unique. */
  lemma WriteKeepsSlugsUnique(posts: map<PostId, Post>, id: PostId, row: Post)
    requires SlugsUnique(posts)
    requires forall other :: other in posts && other != id ==> posts[other].slug != row.slug
    ensures SlugsUnique(posts[id := row])
  {
  }

  lemma TailUnique(likes: seq<Like>)
    requires LikesUnique(likes) && likes != []
    ensures LikesUnique(likes[1..]) && likes[0] !in likes[1..]
  {
    assert forall j :: 0 <= j < |likes| - 1 ==> likes[1..][j] == likes[j + 1];
  }

  /** The like rows without `l`: a row-level DELETE. */
  function Without(likes: seq<Like>, l: Like): (r: seq<Like>)
    ensures forall x :: x in r <==> x in likes && x != l
    ensures LikesUnique(likes) ==> LikesUnique(r)
    ensures l !in likes ==> r == likes
    ensures |r| <= |likes|
  {
    if likes == [] then []
    else
      var rest := Without(likes[1..], l);
      assert LikesUnique(likes) ==> LikesUnique(likes[1..]) && likes[0] !in likes[1..] by {
        if LikesUnique(likes) { TailUnique(likes); }
      }
      if likes[0] == l then rest else [likes[0]] + rest
  }

  /** `queryset.update(status=st)` over the selected keys. */
  function SetStatus(posts: map<PostId, Post>, sel: set<PostId>, st: Status): map<PostId, Post> {
    map id | id in posts :: if id in sel then posts[id].(status := st) else posts[id]
  }

  /** Unique slugs, keys below the next auto-increment key, tags that exist. */
  predicate PostsValid(posts: map<PostId, Post>, nextPostId: PostId, tags: set<TagName>) {
    && SlugsUnique(posts)
    && (forall id :: id in posts ==> id < nextPostId)
    && (forall id :: id in posts ==> posts[id].tags <= tags)
  }

  /** Unique (post, user) rows, each referring to a stored post. */
  predicate LikesValid(likes: seq<Like>, posts: map<PostId, Post>) {
    LikesUnique(likes) && forall l :: l in likes ==> l.post in posts
  }

  predicate CommentsValid(comments: seq<Comment>, posts: map<PostId, Post>) {
    forall c :: c in comments ==> c.post in posts
  }

  /** Profiles belong to stored users; user keys are below the next key. */
  predicate UsersValid(users: map<UserId, User>, profiles: map<UserId, Role>, nextUserId: UserId) {
    profiles.Keys <= users.Keys && forall u :: u in users ==> u < nextUserId
  }

  class Store {
    var posts: map<PostId, Post>
    var nextPostId: PostId
    var tags: set<TagName>
    var likes: seq<Like>
    var comments: seq<Comment>
    var users: map<UserId, User>
    var profiles: map<UserId, Role>
    var nextUserId: UserId

    /** The database constraints. */
    ghost predicate Valid()
      reads this
    {
      && PostsValid(posts, nextPostId, tags)
      && LikesValid(likes, posts)
      && CommentsValid(comments, posts)
      && UsersValid(users, profiles, nextUserId)
    }

    constructor ()
      ensures Valid()
      ensures posts == map[] && tags == {} && likes == [] && comments == []
      ensures users == map[] && profiles == map[]
    {
      posts, nextPostId, tags := map[], 0, {};
      likes, comments := [], [];
      users, profiles, nextUserId := map[], map[], 0;
    }

    /**
     * Post.save: when the post has no slug yet, assign the first free one among
     * `base`, `base-1`, `base-2`, ... where `base` is `slugify(title)[:200]`;
     * then write the row (an INSERT when `pk` is None), keeping the stored tag
     * associations. The existence query runs over every stored row, the post's
     * own included. A non-empty slug held by another row violates the unique
     * constraint and the save fails with nothing written.
     */
    method SavePost(pk: Option<PostId>, p: Post) returns (r: Result<PostId, StoreError>)
      requires Valid()
      modifies this`posts, this`nextPostId
      ensures Valid()
      ensures r.Failure? <==> p.slug != "" && SlugHeldByOther(old(posts), p.slug, pk)
      ensures r.Failure? ==> posts == old(posts) && nextPostId == old(nextPostId)
      ensures r.Success? && pk.Some? ==> r.value == pk.value
      ensures r.Success? && pk.None? ==> r.value !in old(posts)
      ensures r.Success? ==> r.value in posts && posts == old(posts)[r.value := posts[r.value]]
      ensures r.Success? ==> posts[r.value] == p.(slug := posts[r.value].slug, tags := StoredTags(old(posts), r.value))
      ensures r.Success? && p.slug != "" ==> posts[r.value].slug == p.slug
      ensures r.Success? && p.slug == "" ==> posts[r.value].slug !in Slugs(old(posts))
      ensures r.Success? && p.slug == "" ==> AssignedSlug(BaseSlug(p.title), Slugs(old(posts)), posts[r.value].slug)
    {
      if p.slug != "" && exists id :: id in posts && posts[id].slug == p.slug && pk != Some(id) {
        return Failure(SlugTaken);
      }
      var slug := p.slug;
      if slug == "" {
        var k;
        slug, k := UniqueSlug(BaseSlug(p.title), Slugs(posts));
        assert FirstFree(BaseSlug(p.title), Slugs(posts), k);
      }
      var id := if pk.Some? then pk.value else nextPostId;
      forall other | other in posts && other != id
        ensures posts[other].slug != slug
      {
        if p.slug == "" {
          assert posts[other].slug in Slugs(posts);
        }
      }
      WriteRow(id, p.(slug := slug, tags := StoredTags(posts, id)));
      return Success(id);
    }

    /** The INSERT or UPDATE of one row whose slug no other row holds. */
    method WriteRow(id: PostId, row: Post)
      requires Valid()
      requires forall other :: other in posts && other != id ==> posts[other].slug != row.slug
      requires row.tags <= tags
      modifies this`posts, this`nextPostId
      ensures Valid()
      ensures posts == old(posts)[id := row]
      ensures id !in old(posts) && old(nextPostId) <= id ==> nextPostId == id + 1
      ensures id in old(posts) || id < old(nextPostId) ==> nextPostId == old(nextPostId)
    {
      WriteKeepsSlugsUnique(posts, id, row);
      posts := posts[id := row];
      if id >= nextPostId {
        nextPostId := id + 1;
      }
    }

    /** `post.tags.clear()`. */
    method ClearTags(id: PostId)
      requires Valid() && id in posts
      modifies this`posts
      ensures Valid()
      ensures posts == old(posts)[id := old(posts)[id].(tags := {})]
    {
      posts := posts[id := posts[id].(tags := {})];
    }

    /** `Tag.objects.get_or_create(name=name)`: rows are never removed. */
    method GetOrCreateTag(name: TagName) returns (created: bool)
      requires Valid()
      modifies this`tags
      ensures Valid()
      ensures tags == old(tags) + {name}
      ensures created <==> name !in old(tags)
    {
      created := name !in tags;
      tags := tags + {name};
    }

    /** `post.tags.add(tag)` for an existing tag row. */
    method AddTag(id: PostId, name: TagName)
      requires Valid() && id in posts && name in tags
      modifies this`posts
      ensures Valid()
      ensures posts == old(posts)[id := old(posts)[id].(tags := old(posts)[id].tags + {name})]
    {
      posts := posts[id := posts[id].(tags := posts[id].tags + {name})];
    }

    /** `Like.objects.get_or_create(post=..., user=...)`. */
    method GetOrCreateLike(l: Like) returns (created: bool)
      requires Valid() && l.post in posts
      modifies this`likes
      ensures Valid()
      ensures created <==> l !in old(likes)
      ensures likes == if created then old(likes) + [l] else old(likes)
    {
      created := l !in likes;
      if created {
        likes := likes + [l];
      }
    }

    /** `like.delete()`. */
    method DeleteLike(l: Like)
      requires Valid()
      modifies this`likes
      ensures Valid()
      ensures likes == Without(old(likes), l)
    {
      likes := Without(likes, l);
    }

    /** `comment.save()` for a new comment. */
    method AddComment(c: Comment)
      requires Valid() && c.post in posts
      modifies this`comments
      ensures Valid()
      ensures comments == old(comments) + [c]
    {
      comments := comments + [c];
    }

    /**
     * `post.delete()`: the row goes, and with it (on_delete=CASCADE) its likes
     * and comments; tag rows stay.
     */
    method DeletePost(id: PostId)
      requires Valid() && id in posts
      modifies this`posts, this`likes, this`comments
      ensures Valid()
      ensures posts == old(posts) - {id}
      ensures likes == LikesNotOf(old(likes), id)
      ensures comments == CommentsNotOf(old(comments), id)
    {
      posts := posts - {id};
      likes := LikesNotOf(likes, id);
      comments := CommentsNotOf(comments, id);
    }

    /** `queryset.update(status=st)`: one UPDATE, no per-row save(). */
    method UpdateStatus(sel: set<PostId>, st: Status)
      requires Valid()
      modifies this`posts
      ensures Valid()
      ensures posts == SetStatus(old(posts), sel, st)
    {
      posts := SetStatus(posts, sel, st);
      assert forall id :: id in posts ==> posts[id].slug == old(posts)[id].slug;
    }

    /**
     * `user.save()` for a new user. The profile row is created beside it
     * with the default role.
     */
    method CreateUser(u: User) returns (id: UserId)
      requires Valid()
      modifies this`users, this`profiles, this`nextUserId
      ensures Valid()
      ensures id !in old(users)
      ensures users == old(users)[id := u]
      ensures profiles == old(profiles)[id := DefaultRole]
    {
      id := nextUserId;
      users := users[id := u];
      profiles := profiles[id := DefaultRole];
      nextUserId := nextUserId + 1;
    }

    /** `profile.role = role; profile.save()`. */
    method SetRole(id: UserId, role: Role)
      requires Valid() && id in profiles
      modifies this`profiles
      ensures Valid()
      ensures profiles == old(profiles)[id := role]
    {
      profiles := profiles[id := role];
    }
  }

  /** The like rows that do not belong to `post`. */
  function LikesNotOf(likes: seq<Like>, post: PostId): (r: seq<Like>)
    ensures forall x :: x in r <==> x in likes && x.post != post
    ensures LikesUnique(likes) ==> LikesUnique(r)
  {
    if likes == [] then []
    else
      var rest := LikesNotOf(likes[1..], post);
      assert LikesUnique(likes) ==> LikesUnique(likes[1..]) && likes[0] !in likes[1..] by {
        if LikesUnique(likes) { TailUnique(likes); }
      }
      if likes[0].post == post then rest else [likes[0]] + rest
  }

  /** The comments that do not belong to `post`, in their order. */
  function CommentsNotOf(comments: seq<Comment>, post: PostId): (r: seq<Comment>)
    ensures forall x :: x in r <==> x in comments && x.post != post
  {
    if comments == [] then []
    else
      var rest := CommentsNotOf(comments[1..], post);
      if comments[0].post == post then rest else [comments[0]] + rest
  }
}
