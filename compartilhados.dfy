/**
 * The "shared with me" page: one listed album per album share addressed to
 * me, and one listed image per image share addressed to me, each with the
 * share's permission and the name of the item's owner.
 */
module Compartilhados {
  import opened Store
  import opened Sharing
  import opened Albuns
  import opened Index

  /** A listed row: the album or image id, its owner's user name (`DonoDoItem`) and the share's `Permissao`. */
  datatype SharedItem = SharedItem(id: nat, ownerName: string, permission: Permission)

  /** Which of the two SELECTs: by non-null AlbumID or by non-null ImagemID. */
  datatype Kind = Albums | Images

  /**
   * The row a share contributes to the listing of that kind: it must be
   * addressed to me and name an item of that kind that exists and whose
   * owner exists (the two inner JOINs).
   */
  function ItemOf(t: Tables, s: Share, me: UserId, kind: Kind): Option<SharedItem> {
    if s.recipient != me then None
    else match (kind, s.target)
      case (Albums, AlbumTarget(a)) =>
        if a in t.albums && t.albums[a].owner in t.users
        then Some(SharedItem(a, t.users[t.albums[a].owner].name, s.permission)) else None
      case (Images, ImageTarget(i)) =>
        if i in t.images && t.images[i].owner in t.users
        then Some(SharedItem(i, t.users[t.images[i].owner].name, s.permission)) else None
      case _ => None
  }

  /** The rows of one SELECT, in the order of the shares: no DISTINCT, so two shares list an item twice. */
  function Collect(t: Tables, ss: seq<Share>, me: UserId, kind: Kind): (r: seq<SharedItem>)
    ensures |r| <= |ss|
  {
    if ss == [] then []
    else (if ItemOf(t, ss[0], me, kind).Some? then [ItemOf(t, ss[0], me, kind).value] else []) + Collect(t, ss[1..], me, kind)
  }

  /** A row is listed exactly when some share contributes it. */
  lemma {:induction false} CollectMembers(t: Tables, ss: seq<Share>, me: UserId, kind: Kind)
    ensures forall x :: x in Collect(t, ss, me, kind) <==> exists s :: s in ss && ItemOf(t, s, me, kind) == Some(x)
  {
    if ss != [] {
      CollectMembers(t, ss[1..], me, kind);
      assert forall s :: s in ss <==> s == ss[0] || s in ss[1..];
    }
  }

  /**
   * GET /compartilhados: without a session the page is refused; otherwise the
   * album listing and the image listing.
   */
  function SharedWithMe(t: Tables, user: Option<UserId>): (r: Result<(seq<SharedItem>, seq<SharedItem>)>)
    ensures user.None? <==> r == Err(NotLoggedIn)
    ensures r.Ok? ==> |r.value.0| + |r.value.1| <= 2 * |t.shares|
  {
    if user.None? then Err(NotLoggedIn)
    else Ok((Collect(t, t.shares, user.value, Albums), Collect(t, t.shares, user.value, Images)))
  }

  /**
   * What the listing means: an album is listed with a permission exactly when
   * a share of that album with that permission is addressed to me, the album
   * exists and so does its owner, whose name (not the sender's) is shown; and
   * the same for images.
   */
  lemma {:induction false} SharedWithMeListing(t: Tables, me: UserId)
    ensures forall a: AlbumId, name, p :: SharedItem(a, name, p) in SharedWithMe(t, Some(me)).value.0 <==>
              && (exists s :: s in t.shares && s.recipient == me && s.target == AlbumTarget(a) && s.permission == p)
              && a in t.albums && t.albums[a].owner in t.users && name == t.users[t.albums[a].owner].name
    ensures forall i: ImageId, name, p :: SharedItem(i, name, p) in SharedWithMe(t, Some(me)).value.1 <==>
              && (exists s :: s in t.shares && s.recipient == me && s.target == ImageTarget(i) && s.permission == p)
              && i in t.images && t.images[i].owner in t.users && name == t.users[t.images[i].owner].name
  {
    CollectMembers(t, t.shares, me, Albums);
    CollectMembers(t, t.shares, me, Images);
  }

  /** Every listed album opens for me: the album page finds the same share. */
  lemma {:induction false} ListedAlbumsOpen(t: Tables, me: UserId, x: SharedItem)
    requires x in SharedWithMe(t, Some(me)).value.0
    ensures ResolveAlbumAccess(t, me, x.id).Some?
  {
    CollectMembers(t, t.shares, me, Albums);
    var s :| s in t.shares && ItemOf(t, s, me, Albums) == Some(x);
    assert Addresses(s, me, AlbumTarget(x.id));
  }

  /** Every listed image is visible to me under the search's visibility rule. */
  lemma {:induction false} ListedImagesVisible(t: Tables, me: UserId, x: SharedItem)
    requires x in SharedWithMe(t, Some(me)).value.1
    ensures Visible(t, me, x.id)
  {
    CollectMembers(t, t.shares, me, Images);
    var s :| s in t.shares && ItemOf(t, s, me, Images) == Some(x);
    assert s.target == ImageTarget(x.id);
  }
}
