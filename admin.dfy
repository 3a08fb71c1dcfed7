/**
 * blog/admin.py: the two bulk actions of PostAdmin. `make_approved` is one
 * UPDATE over the selection; `toggle_featured` loads the selected rows and
 * saves each one back with its flag negated, through Post.save.
 */
module Admin {
  import opened Wrappers
  import opened Models
  import opened Views

  // ----- make_approved -----

  /** `queryset.update(status='approved')`. */
  method MakeApproved(s: Store, sel: set<PostId>)
    requires s.Valid()
    modifies s`posts
    ensures s.Valid()
    ensures s.posts == SetStatus(old(s.posts), sel, Approved)
  {
    s.UpdateStatus(sel, Approved);
  }

  /**
   * The update sets the status of the selected rows and touches nothing else:
   * no other column, no other row, no row added or removed.
   */
  lemma SetStatusEffect(posts: map<PostId, Post>, sel: set<PostId>, st: Status)
    ensures SetStatus(posts, sel, st).Keys == posts.Keys
    ensures forall id :: id in posts && id in sel ==> SetStatus(posts, sel, st)[id] == posts[id].(status := st)
    ensures forall id :: id in posts && id !in sel ==> SetStatus(posts, sel, st)[id] == posts[id]
  {
  }

  /** Running the action twice is the same as running it once. */
  lemma SetStatusIdempotent(posts: map<PostId, Post>, sel: set<PostId>, st: Status)
    ensures SetStatus(SetStatus(posts, sel, st), sel, st) == SetStatus(posts, sel, st)
  {
  }

  /**
   * After approval the selected posts are on the public list and off the
   * moderation queue; every other post keeps its place in both.
   */
  lemma ApprovalPublishes(posts: map<PostId, Post>, sel: set<PostId>)
    ensures PublicList(SetStatus(posts, sel, Approved), None, None) == PublicList(posts, None, None) + (sel * posts.Keys)
    ensures PendingQueue(SetStatus(posts, sel, Approved)) == PendingQueue(posts) - sel
  {
  }

  // ----- toggle_featured -----

  /** `obj.featured = not obj.featured`. */
  function FlipRow(p: Post): (r: Post)
    ensures r.featured != p.featured
    ensures r.(featured := p.featured) == p
  {
    p.(featured := !p.featured)
  }

  /** The rows after the action when no selected row has to be re-slugged. */
  function Flipped(posts: map<PostId, Post>, sel: set<PostId>): map<PostId, Post> {
    map id | id in posts :: if id in sel then FlipRow(posts[id]) else posts[id]
  }

  /** Toggling the same selection twice restores every row. */
  lemma FlippedTwice(posts: map<PostId, Post>, sel: set<PostId>)
    ensures Flipped(Flipped(posts, sel), sel) == posts
  {
  }

  /** Toggling leaves the public list, under any filters, as it was. */
  lemma FlippedKeepsPublicList(posts: map<PostId, Post>, sel: set<PostId>, q: Option<string>, tag: Option<string>)
    ensures PublicList(Flipped(posts, sel), q, tag) == PublicList(posts, q, tag)
  {
    forall id | id in posts && q.Some?
      ensures MatchesQuery(Flipped(posts, sel)[id], q.value) == MatchesQuery(posts[id], q.value)
    {
      assert Flipped(posts, sel)[id].title == posts[id].title;
      assert Flipped(posts, sel)[id].body == posts[id].body;
      assert Flipped(posts, sel)[id].tags == posts[id].tags;
    }
  }

  /**
   * The featured dashboard afterwards: selected approved posts swap in or
   * out; the rest of it is unchanged.
   */
  lemma FlippedDashboard(posts: map<PostId, Post>, sel: set<PostId>)
    ensures FeaturedDashboard(Flipped(posts, sel)) ==
      (FeaturedDashboard(posts) - sel) + (sel * PublicList(posts, None, None) - FeaturedDashboard(posts))
  {
  }

  /**
   * A saved row that was loaded as `before`: the flag negated, every other
   * column kept, except that an empty slug is replaced by a non-empty one.
   */
  predicate FlippedRow(before: Post, after: Post) {
    && after == FlipRow(before).(slug := after.slug)
    && after.slug != ""
    && (before.slug != "" ==> after.slug == before.slug)
  }

  /** Rows saved by the action, and untouched rows elsewhere. */
  predicate ToggledRows(before: map<PostId, Post>, after: map<PostId, Post>, done: set<PostId>) {
    && after.Keys == before.Keys
    && (forall id :: id in after && id !in done ==> after[id] == before[id])
    && (forall id :: id in after && id in done ==> FlippedRow(before[id], after[id]))
  }

  /** With no empty slug among the saved rows, the result is exactly Flipped. */
  lemma ToggledRowsFlipped(before: map<PostId, Post>, after: map<PostId, Post>, sel: set<PostId>)
    requires ToggledRows(before, after, sel * before.Keys)
    requires forall id :: id in before && id in sel ==> before[id].slug != ""
    ensures after == Flipped(before, sel)
  {
    assert forall id :: id in after ==> after[id] == Flipped(before, sel)[id];
  }

  /**
   * One iteration: `obj.save()` on the loaded row with its flag negated. The
   * row keeps a non-empty slug; an empty slug is assigned afresh, since the
   * existence query of Post.save also sees the row's own "".
   */
  method SaveFlipped(s: Store, id: PostId)
    requires s.Valid() && id in s.posts
    modifies s`posts, s`nextPostId
    ensures s.Valid()
    ensures id in s.posts && s.posts == old(s.posts)[id := s.posts[id]]
    ensures FlippedRow(old(s.posts)[id], s.posts[id])
    ensures old(s.posts)[id].slug == "" ==>
      AssignedSlug(BaseSlug(old(s.posts)[id].title), Slugs(old(s.posts)), s.posts[id].slug)
  {
    var obj := FlipRow(s.posts[id]);
    OwnSlugFree(s.posts, id);
    assert s.posts[id].slug in Slugs(s.posts);
    var saved := s.SavePost(Some(id), obj);
    if saved.Failure? {
      assert false;
    }
  }

  /**
   * `for obj in queryset: obj.featured = not obj.featured; obj.save()`, over
   * the selected rows that exist, in an order the database chooses.
   */
  method ToggleFeatured(s: Store, sel: set<PostId>)
    requires s.Valid()
    modifies s`posts, s`nextPostId
    ensures s.Valid()
    ensures ToggledRows(old(s.posts), s.posts, sel * old(s.posts).Keys)
    ensures (forall id :: id in old(s.posts) && id in sel ==> old(s.posts)[id].slug != "") ==>
      s.posts == Flipped(old(s.posts), sel)
  {
    var todo := sel * s.posts.Keys;
    var remaining := todo;
    while remaining != {}
      invariant s.Valid()
      invariant remaining <= todo
      invariant ToggledRows(old(s.posts), s.posts, todo - remaining)
      decreases remaining
    {
      var id :| id in remaining;
      SaveFlipped(s, id);
      remaining := remaining - {id};
    }
    if forall id :: id in old(s.posts) && id in sel ==> old(s.posts)[id].slug != "" {
      ToggledRowsFlipped(old(s.posts), s.posts, sel);
    }
  }
}
