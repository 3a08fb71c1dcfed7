/**
 * blog/views.py: the author-role test, the post lookups, the public list
 * with its search and tag filters, the moderation querysets, the ownership
 * gate of edit and delete, and the views that change the store (create,
 * edit, delete, comment, like toggle).
 */
module Views {
  import opened Wrappers
  import opened Text
  import opened Models
  import opened Forms

  /** `request.user`: anonymous, or a logged-in user. */
  datatype Visitor = Anonymous | Member(id: UserId)

  /** The observable outcome of a request. */
  datatype Response = RedirectToLogin | RedirectToPost(slug: string) | RedirectToList | Forbidden | NotFound

  // ----- authorization -----

  /** IsAuthorMixin.test_func: a user, with a profile, whose role is 'author'. */
  predicate IsAuthorUser(user: Option<Visitor>, profiles: map<UserId, Role>) {
    && user.Some?
    && user.value.Member?
    && user.value.id in profiles
    && profiles[user.value.id] == Author
  }

  datatype Action = CreatePost | EditPost | DeletePost | AddComment | ToggleLike

  /**
   * The authorization policy the views implement between them, written as one
   * relation: creating needs the author role; editing and deleting need the
   * author role and ownership; commenting and liking need a login only.
   */
  predicate Permits(v: Visitor, profiles: map<UserId, Role>, action: Action, post: Option<Post>) {
    match action
    case CreatePost => IsAuthorUser(Some(v), profiles)
    case EditPost | DeletePost => IsAuthorUser(Some(v), profiles) && v.Member? && post.Some? && post.value.author == v.id
    case AddComment | ToggleLike => v.Member?
  }

  /**
   * A user who has just signed up with the role value `value` passes the
   * author check exactly when that value was 'author'; the check's own answer
   * for every other user is unchanged by the new profile.
   */
  lemma SignedUpAuthorCheck(profiles: map<UserId, Role>, id: UserId, value: string, other: Visitor)
    requires RoleChoice(value).Some?
    ensures IsAuthorUser(Some(Member(id)), profiles[id := RoleChoice(value).value]) <==> value == "author"
    ensures other != Member(id) ==>
      (IsAuthorUser(Some(other), profiles[id := RoleChoice(value).value]) <==> IsAuthorUser(Some(other), profiles))
  {
  }

  /** LoginRequiredMixin, then IsAuthorMixin: a redirect, a 403, or None to go on. */
  function AuthorGate(v: Visitor, profiles: map<UserId, Role>): (r: Option<Response>)
    ensures r.None? <==> Permits(v, profiles, CreatePost, None)
    ensures r == Some(RedirectToLogin) <==> v.Anonymous?
    ensures r == Some(Forbidden) <==> v.Member? && !IsAuthorUser(Some(v), profiles)
  {
    if v.Anonymous? then Some(RedirectToLogin)
    else if !IsAuthorUser(Some(v), profiles) then Some(Forbidden)
    else None
  }

  /** `get_object_or_404(Post, slug=slug)`; the unique slug makes the answer unique. */
  function FindBySlug(posts: map<PostId, Post>, slug: string): (r: Option<PostId>)
    requires SlugsUnique(posts)
    ensures r.Some? ==> r.value in posts && posts[r.value].slug == slug
    ensures r.None? ==> forall id :: id in posts ==> posts[id].slug != slug
  {
    if exists id :: id in posts && posts[id].slug == slug then
      var id :| id in posts && posts[id].slug == slug;
      Some(id)
    else
      None
  }

  /** With unique slugs, the lookup finds the one post holding a slug. */
  lemma FindBySlugExact(posts: map<PostId, Post>, id: PostId)
    requires SlugsUnique(posts) && id in posts
    ensures FindBySlug(posts, posts[id].slug) == Some(id)
  {
  }

  datatype Gate = Allow(id: PostId) | Deny(response: Response)

  /**
   * PostUpdateView / PostDeleteView up to get_object: login, author role,
   * lookup by slug, then `if obj.author != self.request.user: raise PermissionDenied`.
   */
  function OwnerGate(posts: map<PostId, Post>, profiles: map<UserId, Role>, v: Visitor, slug: string): (r: Gate)
    requires SlugsUnique(posts)
    ensures AuthorGate(v, profiles).Some? ==> r == Deny(AuthorGate(v, profiles).value)
    ensures v.Anonymous? ==> r == Deny(RedirectToLogin)
    ensures v.Member? && !IsAuthorUser(Some(v), profiles) ==> r == Deny(Forbidden)
    ensures (AuthorGate(v, profiles).None? && FindBySlug(posts, slug).Some? &&
             posts[FindBySlug(posts, slug).value].author != v.id) ==> r == Deny(Forbidden)
    ensures r.Allow? ==> r.id in posts && posts[r.id].slug == slug && v.Member? && posts[r.id].author == v.id
    ensures r == Deny(NotFound) <==> AuthorGate(v, profiles).None? && forall id :: id in posts ==> posts[id].slug != slug
  {
    match AuthorGate(v, profiles)
    case Some(resp) => Deny(resp)
    case None =>
      match FindBySlug(posts, slug)
      case None => Deny(NotFound)
      case Some(id) => if posts[id].author != v.id then Deny(Forbidden) else Allow(id)
  }

  /** The gate lets a request through exactly when the policy permits editing the post found. */
  lemma OwnerGateAllows(posts: map<PostId, Post>, profiles: map<UserId, Role>, v: Visitor, slug: string, action: Action)
    requires SlugsUnique(posts)
    requires action == EditPost || action == DeletePost
    ensures OwnerGate(posts, profiles, v, slug).Allow? <==>
      FindBySlug(posts, slug).Some? && Permits(v, profiles, action, Some(posts[FindBySlug(posts, slug).value]))
    ensures OwnerGate(posts, profiles, v, slug).Allow? ==>
      OwnerGate(posts, profiles, v, slug).id == FindBySlug(posts, slug).value
  {
  }

  /** An author who does not own the post gets 403, even though both hold the author role. */
  lemma NonOwnerForbidden(posts: map<PostId, Post>, profiles: map<UserId, Role>, v: Visitor, id: PostId)
    requires SlugsUnique(posts) && id in posts
    requires v.Member? && v.id in profiles && profiles[v.id] == Author
    requires posts[id].author != v.id
    ensures OwnerGate(posts, profiles, v, posts[id].slug) == Deny(Forbidden)
  {
    FindBySlugExact(posts, id);
  }

  // ----- the public list and the moderation querysets -----

  /** `Q(title__icontains=q) | Q(body__icontains=q) | Q(tags__name__icontains=q)`. */
  predicate MatchesQuery(p: Post, q: string) {
    IContains(p.title, q) || IContains(p.body, q) || exists t :: t in p.tags && IContains(t, q)
  }

  /** Python truthiness of an optional query parameter. */
  predicate Given(v: Option<string>) {
    v.Some? && v.value != ""
  }

  /**
   * PostListView.get_queryset: approved posts, narrowed by `q` when given and
   * then by an exact tag name when given. A queryset is modelled as the set
   * of its primary keys.
   */
  function PublicList(posts: map<PostId, Post>, q: Option<string>, tag: Option<string>): (r: set<PostId>)
    ensures forall id :: id in r <==>
      && id in posts
      && posts[id].status == Approved
      && (Given(q) ==> MatchesQuery(posts[id], q.value))
      && (Given(tag) ==> tag.value in posts[id].tags)
  {
    var qs := set id | id in posts && posts[id].status == Approved;
    var qs1 := if Given(q) then set id | id in qs && MatchesQuery(posts[id], q.value) else qs;
    if Given(tag) then set id | id in qs1 && tag.value in posts[id].tags else qs1
  }

  /** A draft, pending or rejected post is never listed, whatever the filters. */
  lemma UnapprovedNeverListed(posts: map<PostId, Post>, q: Option<string>, tag: Option<string>, id: PostId)
    requires id in posts && posts[id].status != Approved
    ensures id !in PublicList(posts, q, tag)
  {
  }

  /** The two filters compose conjunctively. */
  lemma FiltersConjunctive(posts: map<PostId, Post>, q: Option<string>, tag: Option<string>)
    ensures PublicList(posts, q, tag) == PublicList(posts, q, None) * PublicList(posts, None, tag)
  {
  }

  /** Each filter only narrows the unfiltered list. */
  lemma FiltersNarrow(posts: map<PostId, Post>, q: Option<string>, tag: Option<string>)
    ensures PublicList(posts, q, tag) <= PublicList(posts, None, None)
  {
  }

  /** An empty `q` or `tag` parameter filters nothing. */
  lemma BlankParameterIgnored(posts: map<PostId, Post>, q: Option<string>, tag: Option<string>)
    ensures PublicList(posts, Some(""), tag) == PublicList(posts, None, tag)
    ensures PublicList(posts, q, Some("")) == PublicList(posts, q, None)
  {
  }

  /** Searching for an approved post's own title finds it. */
  lemma SearchByTitleFinds(posts: map<PostId, Post>, id: PostId)
    requires id in posts && posts[id].status == Approved
    ensures id in PublicList(posts, Some(posts[id].title), None)
  {
    IContainsSelf(posts[id].title);
  }

  /** An approved post is listed under each of its tags, by exact name and by search. */
  lemma ListedUnderOwnTag(posts: map<PostId, Post>, id: PostId, t: TagName)
    requires id in posts && posts[id].status == Approved && t in posts[id].tags
    ensures id in PublicList(posts, None, Some(t))
    ensures id in PublicList(posts, Some(t), None)
  {
    IContainsSelf(t);
  }

  /** PendingPostsView.get_queryset. */
  function PendingQueue(posts: map<PostId, Post>): set<PostId>
  {
    set id | id in posts && posts[id].status == Pending
  }

  /** FeaturedDashboardView.get_queryset. */
  function FeaturedDashboard(posts: map<PostId, Post>): set<PostId>
  {
    set id | id in posts && posts[id].featured && posts[id].status == Approved
  }

  /** Every featured post on the dashboard is also on the public list; no pending post is. */
  lemma QueuesAgainstPublicList(posts: map<PostId, Post>)
    ensures FeaturedDashboard(posts) <= PublicList(posts, None, None)
    ensures PendingQueue(posts) !! PublicList(posts, None, None)
  {
  }

  /** A post with the model's defaults (draft, not featured) is in no list. */
  lemma NewPostHidden(posts: map<PostId, Post>, id: PostId, title: string, body: string, author: UserId,
                      q: Option<string>, tag: Option<string>)
    ensures id !in PublicList(posts[id := NewPost(title, body, author)], q, tag)
    ensures id !in PendingQueue(posts[id := NewPost(title, body, author)])
    ensures id !in FeaturedDashboard(posts[id := NewPost(title, body, author)])
  {
  }

  // ----- likes -----

  /** ToggleLikeView's effect on the like rows: create the pair's row, or delete it. */
  function Toggled(likes: seq<Like>, l: Like): seq<Like> {
    if l in likes then Without(likes, l) else likes + [l]
  }

  /** `ctx['liked']` in PostDetailView. */
  predicate Liked(likes: seq<Like>, post: PostId, v: Visitor) {
    v.Member? && Like(post, v.id) in likes
  }

  /** The like count shown for a post: the number of its rows. */
  function LikeCount(likes: seq<Like>, post: PostId): nat {
    if likes == [] then 0 else (if likes[0].post == post then 1 else 0) + LikeCount(likes[1..], post)
  }

  /** Toggling flips the toggled pair and no other; the unique-pair constraint still holds. */
  lemma ToggleFlips(likes: seq<Like>, l: Like)
    requires LikesUnique(likes)
    ensures l in Toggled(likes, l) <==> l !in likes
    ensures forall x :: x != l ==> (x in Toggled(likes, l) <==> x in likes)
    ensures LikesUnique(Toggled(likes, l))
  {
    if l !in likes {
      AppendUnique(likes, l);
    }
  }

  lemma AppendUnique(likes: seq<Like>, l: Like)
    requires LikesUnique(likes) && l !in likes
    ensures LikesUnique(likes + [l])
  {
    assert forall i :: 0 <= i < |likes| ==> (likes + [l])[i] == likes[i];
  }

  /** Two toggles of the same pair give back the same rows (as a multiset of rows). */
  lemma ToggleTwice(likes: seq<Like>, l: Like)
    requires LikesUnique(likes)
    ensures multiset(Toggled(Toggled(likes, l), l)) == multiset(likes)
  {
    if l in likes {
      WithoutMultiset(likes, l);
      var w := Without(likes, l);
      assert l in w + [l];
      WithoutMultiset(w + [l], l);
      assert Without(w + [l], l) == w by {
        WithoutAppend(w, l);
      }
    } else {
      assert l in likes + [l];
      WithoutAppend(likes, l);
    }
  }

  lemma {:induction false} WithoutAppend(likes: seq<Like>, l: Like)
    requires l !in likes
    ensures Without(likes + [l], l) == likes
  {
    if likes != [] {
      assert (likes + [l])[1..] == likes[1..] + [l];
      WithoutAppend(likes[1..], l);
      assert [likes[0]] + likes[1..] == likes;
    }
  }

  /** Deleting the single row of a pair removes exactly that row. */
  lemma {:induction false} WithoutMultiset(likes: seq<Like>, l: Like)
    requires LikesUnique(likes) && l in likes
    ensures multiset(Without(likes, l)) == multiset(likes) - multiset{l}
  {
    TailUnique(likes);
    assert likes == [likes[0]] + likes[1..];
    if likes[0] == l {
      assert Without(likes[1..], l) == likes[1..];
    } else {
      WithoutMultiset(likes[1..], l);
    }
  }

  /** Toggling turns the `liked` flag around for that user and post. */
  lemma ToggleFlipsLiked(likes: seq<Like>, post: PostId, user: UserId)
    requires LikesUnique(likes)
    ensures Liked(Toggled(likes, Like(post, user)), post, Member(user)) <==> !Liked(likes, post, Member(user))
  {
    ToggleFlips(likes, Like(post, user));
  }

  lemma {:induction false} LikeCountAppend(likes: seq<Like>, l: Like, post: PostId)
    ensures LikeCount(likes + [l], post) == LikeCount(likes, post) + (if l.post == post then 1 else 0)
  {
    if likes != [] {
      assert (likes + [l])[1..] == likes[1..] + [l];
      LikeCountAppend(likes[1..], l, post);
    }
  }

  lemma {:induction false} LikeCountWithout(likes: seq<Like>, l: Like)
    requires LikesUnique(likes) && l in likes
    ensures LikeCount(Without(likes, l), l.post) + 1 == LikeCount(likes, l.post)
  {
    TailUnique(likes);
    if likes[0] == l {
      assert Without(likes[1..], l) == likes[1..];
    } else {
      LikeCountWithout(likes[1..], l);
    }
  }

  /** A like adds one to the post's count; an unlike takes one away. */
  lemma ToggleCount(likes: seq<Like>, l: Like)
    requires LikesUnique(likes)
    ensures l !in likes ==> LikeCount(Toggled(likes, l), l.post) == LikeCount(likes, l.post) + 1
    ensures l in likes ==> LikeCount(Toggled(likes, l), l.post) + 1 == LikeCount(likes, l.post)
  {
    if l in likes {
      LikeCountWithout(likes, l);
    } else {
      LikeCountAppend(likes, l, l.post);
    }
  }

  /**
   * ToggleLikeView.post: login required; the post is looked up by slug
   * whatever its status; `get_or_create` the pair's row and delete it if it
   * already existed.
   */
  method ToggleLikeView(s: Store, v: Visitor, slug: string) returns (resp: Response)
    requires s.Valid()
    modifies s`likes
    ensures s.Valid()
    ensures !Permits(v, s.profiles, ToggleLike, None) ==> resp == RedirectToLogin && s.likes == old(s.likes)
    ensures v.Member? && FindBySlug(s.posts, slug).None? ==> resp == NotFound && s.likes == old(s.likes)
    ensures v.Member? && FindBySlug(s.posts, slug).Some? ==>
      && resp == RedirectToPost(slug)
      && s.likes == Toggled(old(s.likes), Like(FindBySlug(s.posts, slug).value, v.id))
  {
    if v.Anonymous? {
      return RedirectToLogin;
    }
    var found := FindBySlug(s.posts, slug);
    if found.None? {
      return NotFound;
    }
    var l := Like(found.value, v.id);
    var created := s.GetOrCreateLike(l);
    if !created {
      s.DeleteLike(l);
    }
    return RedirectToPost(slug);
  }

  // ----- comments -----

  /** CommentForm: `body` is a required, stripped CharField. */
  function CommentBody(raw: string): Option<string> {
    CleanCharField(raw)
  }

  /**
   * PostDetailView.post: look the post up (404 first), redirect anonymous
   * visitors to login, and on a valid form save a comment bound to the post
   * and the user; either way redirect back to the post.
   */
  method PostCommentView(s: Store, v: Visitor, slug: string, body: string) returns (resp: Response)
    requires s.Valid()
    modifies s`comments
    ensures s.Valid()
    ensures FindBySlug(s.posts, slug).None? ==> resp == NotFound && s.comments == old(s.comments)
    ensures FindBySlug(s.posts, slug).Some? && v.Anonymous? ==> resp == RedirectToLogin && s.comments == old(s.comments)
    ensures FindBySlug(s.posts, slug).Some? && v.Member? ==> resp == RedirectToPost(slug)
    ensures FindBySlug(s.posts, slug).Some? && v.Member? && CommentBody(body).Some? ==>
      s.comments == old(s.comments) + [Comment(FindBySlug(s.posts, slug).value, v.id, CommentBody(body).value, DefaultCommentApproved)]
    ensures CommentBody(body).None? ==> s.comments == old(s.comments)
    ensures s.comments != old(s.comments) ==> Permits(v, s.profiles, AddComment, None)
  {
    var found := FindBySlug(s.posts, slug);
    if found.None? {
      return NotFound;
    }
    if v.Anonymous? {
      return RedirectToLogin;
    }
    var cleaned := CommentBody(body);
    if cleaned.Some? {
      s.AddComment(Comment(found.value, v.id, cleaned.value, DefaultCommentApproved));
    }
    return RedirectToPost(slug);
  }

  // ----- create, edit, delete -----

  /**
   * PostCreateView.form_valid: set the author, `form.save(commit=True,
   * author=user)`, then `super().form_valid(form)`, which saves the same form
   * a second time and redirects to the post.
   */
  method CreatePostView(s: Store, v: Visitor, title: string, body: string, status: Status, featured: bool,
                        tagsField: Option<string>)
    returns (resp: Response, created: Option<PostId>)
    requires s.Valid()
    modifies s`posts, s`nextPostId, s`tags
    ensures s.Valid()
    ensures created.None? <==> !Permits(v, s.profiles, CreatePost, None)
    ensures created.None? ==> resp == AuthorGate(v, s.profiles).value
    ensures created.None? ==> s.posts == old(s.posts) && s.tags == old(s.tags) && s.nextPostId == old(s.nextPostId)
    ensures created.Some? ==> created.value in s.posts
    ensures created.Some? ==>
      var id := created.value;
      && id !in old(s.posts)
      && s.posts == old(s.posts)[id := s.posts[id]]
      && s.posts[id] == Post(title, s.posts[id].slug, body, v.id, status, featured, Elems(TagNames(tagsField)))
      && resp == RedirectToPost(s.posts[id].slug)
      && s.tags == old(s.tags) + Elems(TagNames(tagsField))
    ensures created.Some? ==> s.posts[created.value].slug != ""
    ensures created.Some? ==> s.posts[created.value].slug !in Slugs(old(s.posts))
    ensures created.Some? ==> AssignedSlug(BaseSlug(title), Slugs(old(s.posts)) + {""}, s.posts[created.value].slug)
  {
    var denied := AuthorGate(v, s.profiles);
    if denied.Some? {
      return denied.value, None;
    }
    var instance := NewPost(title, body, v.id).(status := status, featured := featured);
    var id := SaveNewTwice(s, instance, tagsField, v.id);
    return RedirectToPost(s.posts[id].slug), Some(id);
  }

  /** The two saves of PostCreateView.form_valid, for a new post without a slug. */
  method SaveNewTwice(s: Store, instance: Post, tagsField: Option<string>, author: UserId) returns (id: PostId)
    requires s.Valid() && instance.slug == ""
    modifies s`posts, s`nextPostId, s`tags
    ensures s.Valid()
    ensures id !in old(s.posts) && id in s.posts
    ensures s.posts == old(s.posts)[id := s.posts[id]]
    ensures s.posts[id] == instance.(author := author, slug := s.posts[id].slug, tags := Elems(TagNames(tagsField)))
    ensures s.tags == old(s.tags) + Elems(TagNames(tagsField))
    ensures s.posts[id].slug != "" && s.posts[id].slug !in Slugs(old(s.posts))
    ensures AssignedSlug(BaseSlug(instance.title), Slugs(old(s.posts)) + {""}, s.posts[id].slug)
  {
    var first := SavePostForm(s, None, instance, tagsField, true, Some(author));
    if !first.Saved? {
      assert false;
    }
    id := first.id;
    OwnSlugFree(s.posts, id);
    var second := SavePostForm(s, Some(id), first.post, tagsField, true, None);
    if !second.Saved? {
      assert false;
    }
    ResavedSlug(old(s.posts), id, first.post, BaseSlug(instance.title), second.post.slug);
  }

  /**
   * PostUpdateView: the owner gate, then `form.save()` on the stored post with
   * the edited fields; the author stays, and so does a slug already set.
   */
  method UpdatePostView(s: Store, v: Visitor, slug: string, title: string, body: string, status: Status,
                        featured: bool, tagsField: Option<string>)
    returns (resp: Response)
    requires s.Valid()
    modifies s`posts, s`nextPostId, s`tags
    ensures s.Valid()
    ensures OwnerGate(old(s.posts), s.profiles, v, slug).Deny? ==>
      && resp == OwnerGate(old(s.posts), s.profiles, v, slug).response
      && s.posts == old(s.posts) && s.tags == old(s.tags) && s.nextPostId == old(s.nextPostId)
    ensures OwnerGate(old(s.posts), s.profiles, v, slug).Allow? ==> OwnerGate(old(s.posts), s.profiles, v, slug).id in s.posts
    ensures OwnerGate(old(s.posts), s.profiles, v, slug).Allow? ==>
      var id := OwnerGate(old(s.posts), s.profiles, v, slug).id;
      && s.posts == old(s.posts)[id := s.posts[id]]
      && s.posts[id] == old(s.posts)[id].(title := title, body := body, status := status, featured := featured,
                                         slug := s.posts[id].slug, tags := Elems(TagNames(tagsField)))
      && (slug != "" ==> s.posts[id].slug == slug)
      && resp == RedirectToPost(s.posts[id].slug)
      && s.tags == old(s.tags) + Elems(TagNames(tagsField))
  {
    var gate := OwnerGate(s.posts, s.profiles, v, slug);
    if gate.Deny? {
      return gate.response;
    }
    var id := gate.id;
    var instance := s.posts[id].(title := title, body := body, status := status, featured := featured);
    OwnSlugFree(s.posts, id);
    var saved := SavePostForm(s, Some(id), instance, tagsField, true, None);
    if !saved.Saved? {
      assert false;
    }
    return RedirectToPost(saved.post.slug);
  }

  /** PostDeleteView: the owner gate, then the cascading delete. */
  method DeletePostView(s: Store, v: Visitor, slug: string) returns (resp: Response)
    requires s.Valid()
    modifies s`posts, s`likes, s`comments
    ensures s.Valid()
    ensures OwnerGate(old(s.posts), s.profiles, v, slug).Deny? ==>
      && resp == OwnerGate(old(s.posts), s.profiles, v, slug).response
      && s.posts == old(s.posts) && s.likes == old(s.likes) && s.comments == old(s.comments)
    ensures OwnerGate(old(s.posts), s.profiles, v, slug).Allow? ==>
      var id := OwnerGate(old(s.posts), s.profiles, v, slug).id;
      && resp == RedirectToList
      && s.posts == old(s.posts) - {id}
      && s.likes == LikesNotOf(old(s.likes), id)
      && s.comments == CommentsNotOf(old(s.comments), id)
  {
    var gate := OwnerGate(s.posts, s.profiles, v, slug);
    if gate.Deny? {
      return gate.response;
    }
    s.DeletePost(gate.id);
    return RedirectToList;
  }
}
