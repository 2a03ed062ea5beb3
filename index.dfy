/**
 * The home routes: the dashboard, and the unified image search that combines
 * the visibility rule with optional tag, category and date filters.
 */
module Index {
  import opened Store
  import opened Albuns

  // ---------------------------------------------------------------------------
  // Visibility.
  // ---------------------------------------------------------------------------

  /**
   * The three-way LEFT JOIN's test: the image is mine, or a share addresses
   * the image to me, or a share addresses to me an album that links it.
   */
  predicate Visible(t: Tables, me: UserId, i: ImageId) {
    && i in t.images
    && (|| t.images[i].owner == me
        || (exists s :: s in t.shares && s.recipient == me && s.target == ImageTarget(i))
        || (exists s, l :: s in t.shares && l in t.links && l.image == i && s.recipient == me && s.target == AlbumTarget(l.album)))
  }

  /** The tags offered above the gallery: every tag attached to an image I can see. */
  function HeaderTags(t: Tables, me: UserId): (r: set<TagId>)
    ensures forall g :: g in r <==> g in t.tags && exists i :: Visible(t, me, i) && ImageTag(i, g) in t.imageTags
  {
    var r := set x | x in t.imageTags && x.tag in t.tags && Visible(t, me, x.image) :: x.tag;
    assert forall g :: g in t.tags && (exists i :: Visible(t, me, i) && ImageTag(i, g) in t.imageTags) ==> g in r by {
      forall g, i | g in t.tags && Visible(t, me, i) && ImageTag(i, g) in t.imageTags ensures g in r {
        assert ImageTag(i, g) in t.imageTags;
      }
    }
    r
  }

  // ---------------------------------------------------------------------------
  // GET /
  // ---------------------------------------------------------------------------

  /** What the dashboard lists. The albums' cover images and their order are not modelled. */
  datatype Dashboard = Dashboard(albums: set<AlbumId>, categories: set<CategoryId>, tags: set<TagId>)

  /**
   * Without a session the dashboard is the empty welcome page; with one it
   * lists my own albums, every category and the header tags.
   */
  function ShowDashboard(t: Tables, user: Option<UserId>): (r: Dashboard)
    ensures user.None? ==> r == Dashboard({}, {}, {})
    ensures user.Some? ==> (forall a :: a in r.albums <==> OwnsAlbum(t, user.value, a))
    ensures user.Some? ==> r.categories == t.categories && r.tags == HeaderTags(t, user.value)
  {
    if user.None? then Dashboard({}, {}, {})
    else Dashboard(AlbumsOf(t, user.value), t.categories, HeaderTags(t, user.value))
  }

  // ---------------------------------------------------------------------------
  // GET /search
  // ---------------------------------------------------------------------------

  /**
   * The query string's filters; None stands for a parameter that is absent or
   * empty. Dates are day numbers: day d covers the seconds d * 86400 through
   * d * 86400 + 86399.
   */
  datatype Filters = Filters(tag: Option<TagId>, category: Option<CategoryId>,
                             startDay: Option<nat>, endDay: Option<nat>)

  const SecondsPerDay: nat := 86400

  /** The conditions the handler pushes, ANDed in the WHERE clause. */
  datatype Condition =
    | VisibleTo(me: UserId)
    | TaggedWith(tag: TagId)
    | InCategory(category: CategoryId)
    | UploadedBetween(from: Timestamp, to: Timestamp)

  predicate Holds(t: Tables, c: Condition, i: ImageId)
    requires i in t.images
  {
    match c
    case VisibleTo(me) => Visible(t, me, i)
    case TaggedWith(g) => ImageTag(i, g) in t.imageTags
    case InCategory(k) => t.images[i].category == Some(k)
    case UploadedBetween(from, to) => from <= t.images[i].uploaded <= to
  }

  /** What the search is meant to select: a visible image that passes every given filter. */
  predicate Selected(t: Tables, me: UserId, f: Filters, i: ImageId) {
    && Visible(t, me, i)
    && (f.tag.Some? ==> ImageTag(i, f.tag.value) in t.imageTags)
    && (f.category.Some? ==> t.images[i].category == Some(f.category.value))
    && (f.startDay.Some? && f.endDay.Some? ==>
          f.startDay.value * SecondsPerDay <= t.images[i].uploaded <= f.endDay.value * SecondsPerDay + SecondsPerDay - 1)
  }

  /**
   * The condition list the handler builds with `push`: visibility first, then
   * one condition per given filter; the date range only when both ends are
   * given, up to the last second of the end day.
   */
  method BuildConditions(me: UserId, f: Filters) returns (conds: seq<Condition>)
    ensures |conds| >= 1 && conds[0] == VisibleTo(me)
    ensures forall c :: c in conds ==> c == VisibleTo(me) || c.TaggedWith? || c.InCategory? || c.UploadedBetween?
    ensures forall g: TagId :: TaggedWith(g) in conds <==> f.tag == Some(g)
    ensures forall k: CategoryId :: InCategory(k) in conds <==> f.category == Some(k)
    ensures forall c :: c in conds && c.UploadedBetween? <==>
              f.startDay.Some? && f.endDay.Some? &&
              c == UploadedBetween(f.startDay.value * SecondsPerDay, f.endDay.value * SecondsPerDay + SecondsPerDay - 1)
  {
    conds := [VisibleTo(me)];
    if f.tag.Some? {
      conds := conds + [TaggedWith(f.tag.value)];
    }
    if f.category.Some? {
      conds := conds + [InCategory(f.category.value)];
    }
    if f.startDay.Some? && f.endDay.Some? {
      conds := conds + [UploadedBetween(f.startDay.value * SecondsPerDay, f.endDay.value * SecondsPerDay + SecondsPerDay - 1)];
    }
  }

  /** An image meets every built condition exactly when the search is meant to select it. */
  lemma {:induction false} ConditionsSelect(t: Tables, me: UserId, f: Filters, conds: seq<Condition>, i: ImageId)
    requires i in t.images
    requires |conds| >= 1 && conds[0] == VisibleTo(me)
    requires forall c :: c in conds ==> c == VisibleTo(me) || c.TaggedWith? || c.InCategory? || c.UploadedBetween?
    requires forall g: TagId :: TaggedWith(g) in conds <==> f.tag == Some(g)
    requires forall k: CategoryId :: InCategory(k) in conds <==> f.category == Some(k)
    requires forall c :: c in conds && c.UploadedBetween? <==>
               f.startDay.Some? && f.endDay.Some? &&
               c == UploadedBetween(f.startDay.value * SecondsPerDay, f.endDay.value * SecondsPerDay + SecondsPerDay - 1)
    ensures (forall c :: c in conds ==> Holds(t, c, i)) <==> Selected(t, me, f, i)
  {
    if f.tag.Some? {
      assert TaggedWith(f.tag.value) in conds;
    }
    if f.category.Some? {
      assert InCategory(f.category.value) in conds;
    }
    if f.startDay.Some? && f.endDay.Some? {
      assert UploadedBetween(f.startDay.value * SecondsPerDay, f.endDay.value * SecondsPerDay + SecondsPerDay - 1) in conds;
    }
    assert conds[0] in conds;
  }

  /** Newest upload first. */
  predicate NewestFirst(t: Tables, r: seq<ImageId>)
    requires forall i :: i in r ==> i in t.images
  {
    forall j, k :: 0 <= j < k < |r| ==> t.images[r[j]].uploaded >= t.images[r[k]].uploaded
  }

  /** A non-empty set of images has a newest one. */
  lemma {:induction false} NewestExists(t: Tables, s: set<ImageId>)
    requires s != {} && s <= t.images.Keys
    ensures exists i :: i in s && forall j :: j in s ==> t.images[j].uploaded <= t.images[i].uploaded
  {
    var i :| i in s;
    if s != {i} {
      NewestExists(t, s - {i});
      var k :| k in s - {i} && forall j :: j in s - {i} ==> t.images[j].uploaded <= t.images[k].uploaded;
      if t.images[k].uploaded < t.images[i].uploaded {
        assert forall j :: j in s ==> t.images[j].uploaded <= t.images[i].uploaded;
      } else {
        assert forall j :: j in s ==> t.images[j].uploaded <= t.images[k].uploaded;
      }
    } else {
      assert forall j :: j in s ==> j == i;
    }
  }

  /**
   * `SELECT DISTINCT ... ORDER BY i.DataUpload DESC` as the database performs
   * it: each selected image once, newest first; images uploaded at the same
   * second come in an unspecified order.
   */
  method OrderByNewest(t: Tables, s: set<ImageId>) returns (r: seq<ImageId>)
    requires s <= t.images.Keys
    ensures forall i :: i in r <==> i in s
    ensures Distinct(r)
    ensures NewestFirst(t, r)
  {
    r := [];
    var rest := s;
    while rest != {}
      invariant rest <= s
      invariant forall i :: i in r <==> i in s && i !in rest
      invariant Distinct(r)
      invariant NewestFirst(t, r)
      invariant forall j, i :: j in r && i in rest ==> t.images[i].uploaded <= t.images[j].uploaded
      decreases rest
    {
      NewestExists(t, rest);
      var i :| i in rest && forall j :: j in rest ==> t.images[j].uploaded <= t.images[i].uploaded;
      r := r + [i];
      rest := rest - {i};
    }
  }

  /**
   * GET /search. With no filter at all the handler redirects home (None).
   * Otherwise it lists each selected image once, newest first.
   */
  method Search(db: Db, me: UserId, f: Filters) returns (r: Option<seq<ImageId>>)
    ensures r.None? <==> f.tag.None? && f.category.None? && f.startDay.None? && f.endDay.None?
    ensures r.Some? ==> forall i :: i in r.value <==> Selected(db.tables, me, f, i)
    ensures r.Some? ==> Distinct(r.value)
    ensures r.Some? ==> (forall i :: i in r.value ==> i in db.tables.images) && NewestFirst(db.tables, r.value)
  {
    if f.tag.None? && f.category.None? && f.startDay.None? && f.endDay.None? {
      return None;
    }
    var t := db.tables;
    var conds := BuildConditions(me, f);
    var hits := set i | i in t.images && forall c :: c in conds ==> Holds(t, c, i);
    forall i | i in t.images {
      ConditionsSelect(t, me, f, conds, i);
    }
    var ordered := OrderByNewest(t, hits);
    r := Some(ordered);
  }

  /** A start date without an end date filters nothing: the search selects as if no date were given. */
  lemma {:induction false} StartDateAloneIgnored(t: Tables, me: UserId, f: Filters, d: nat, i: ImageId)
    requires f.endDay.None?
    ensures Selected(t, me, f.(startDay := Some(d)), i) <==> Selected(t, me, f.(startDay := None), i)
  {
  }

  /**
   * Whatever a tag search finds carries a tag the header offers, in a store
   * whose tag links are intact: searching by any other tag finds nothing.
   */
  lemma {:induction false} TagSearchWithinHeader(t: Tables, me: UserId, f: Filters, i: ImageId)
    requires ImageTagsIntact(t.imageTags, t.images, t.tags)
    requires f.tag.Some?
    ensures Selected(t, me, f, i) ==> f.tag.value in HeaderTags(t, me)
  {
    if Selected(t, me, f, i) {
      assert ImageTag(i, f.tag.value) in t.imageTags;
    }
  }
}
