/**
 * The album routes: who may see an album and with which permission, what the
 * album page shows, renaming, deleting an album together with the images
 * that lived only in it, and replacing the album's share set.
 */
module Albuns {
  import opened Store
  import opened Sharing

  /** How the viewer reached the album: as its owner, or through a share row. */
  datatype Access = OwnerAccess | SharedAccess(permission: Permission)

  /**
   * The album page first looks the album up as owned by the viewer; failing
   * that, it joins ALBUNS with the shares addressed to the viewer and takes
   * the permission of the first row.
   */
  function ResolveAlbumAccess(t: Tables, me: UserId, a: AlbumId): (r: Option<Access>)
    ensures r == Some(OwnerAccess) <==> OwnsAlbum(t, me, a)
    ensures r.Some? <==> OwnsAlbum(t, me, a) || (a in t.albums && exists s :: s in t.shares && Addresses(s, me, AlbumTarget(a)))
    ensures r.Some? && r.value.SharedAccess? ==>
              exists s :: s in t.shares && Addresses(s, me, AlbumTarget(a)) && s.permission == r.value.permission
    ensures r.Some? && r.value.SharedAccess? ==> Some(r.value.permission) == FirstShare(t.shares, me, AlbumTarget(a))
  {
    if OwnsAlbum(t, me, a) then Some(OwnerAccess)
    else
      var first := FirstShare(t.shares, me, AlbumTarget(a));
      assert first.None? <==> !exists s :: s in t.shares && Addresses(s, me, AlbumTarget(a));
      if a in t.albums && first.Some? then Some(SharedAccess(first.value)) else None
  }

  /** f joins u and v, in either direction. */
  predicate Joins(f: Friendship, u: UserId, v: UserId) {
    (f.requester == u && f.accepter == v) || (f.requester == v && f.accepter == u)
  }

  /** The other party of every accepted friendship of u: the owner's friend list. */
  function AcceptedFriends(t: Tables, u: UserId): set<UserId> {
    set v | v in t.users && v != u && exists f :: f in t.friendships && f.status == Aceita && Joins(f, u, v)
  }

  /** Friendship is mutual: an existing user is on the friend list of each of their friends. */
  lemma {:induction false} AcceptedFriendsMutual(t: Tables, u: UserId, v: UserId)
    requires u in t.users
    ensures v in AcceptedFriends(t, u) <==> v in t.users && u in AcceptedFriends(t, v)
  {
    if v in AcceptedFriends(t, u) {
      var f :| f in t.friendships && f.status == Aceita && Joins(f, u, v);
      assert Joins(f, v, u);
    }
    if v in t.users && u in AcceptedFriends(t, v) {
      var f :| f in t.friendships && f.status == Aceita && Joins(f, v, u);
      assert Joins(f, u, v);
    }
  }

  /**
   * The share rows of one target, in their order. The page also joins USUARIOS
   * on the recipient; in a consistent store every recipient exists, so that
   * join drops no row (`SharesOfRecipientsExist`).
   */
  function SharesOf(ss: seq<Share>, target: Target): (r: seq<Share>)
    ensures forall s :: s in r <==> s in ss && s.target == target
  {
    if ss == [] then []
    else (if ss[0].target == target then [ss[0]] else []) + SharesOf(ss[1..], target)
  }

  /** In a consistent store every listed share names an existing recipient: the JOIN on USUARIOS keeps them all. */
  lemma {:induction false} SharesOfRecipientsExist(t: Tables, target: Target)
    requires Consistent(t)
    ensures forall s :: s in SharesOf(t.shares, target) ==> s.recipient in t.users
  {
    forall s | s in SharesOf(t.shares, target) ensures s.recipient in t.users {
      assert s in t.shares && ShareIntact(t, s);
    }
  }

  /**
   * What GET /albuns/:id renders. `permission` is None for the owner (the
   * page's "not shared" default); friends and shares stay empty for anyone else.
   */
  datatype AlbumView = AlbumView(album: Album, isOwner: bool, permission: Option<Permission>,
                                 images: set<ImageId>, friends: set<UserId>, shares: seq<Share>)

  function ViewAlbum(t: Tables, me: UserId, a: AlbumId): (r: Result<AlbumView>)
    ensures r.Err? <==> ResolveAlbumAccess(t, me, a).None?
    ensures r.Err? ==> r.error == NotFound
    ensures r.Ok? ==> a in t.albums && r.value.album == t.albums[a]
    ensures r.Ok? ==> (r.value.isOwner <==> OwnsAlbum(t, me, a))
    ensures r.Ok? ==> forall i :: i in r.value.images <==> i in t.images && Link(i, a) in t.links
    ensures r.Ok? && r.value.isOwner ==>
              && r.value.permission.None?
              && r.value.friends == AcceptedFriends(t, me)
              && (forall s :: s in r.value.shares <==> s in t.shares && s.target == AlbumTarget(a))
    ensures r.Ok? && !r.value.isOwner ==>
              && r.value.permission.Some?
              && ResolveAlbumAccess(t, me, a) == Some(SharedAccess(r.value.permission.value))
              && r.value.friends == {}
              && r.value.shares == []
  {
    match ResolveAlbumAccess(t, me, a)
    case None => Err(NotFound)
    case Some(access) =>
      var images := set i | i in t.images && Link(i, a) in t.links;
      match access
      case OwnerAccess =>
        Ok(AlbumView(t.albums[a], true, None, images, AcceptedFriends(t, me), SharesOf(t.shares, AlbumTarget(a))))
      case SharedAccess(p) =>
        Ok(AlbumView(t.albums[a], false, Some(p), images, {}, []))
  }

  // ---------------------------------------------------------------------------
  // Orphan detection for the delete cascade.
  // ---------------------------------------------------------------------------

  /** The IMAGEM_ALBUNS rows of image i: `SELECT COUNT(*) ... WHERE ImagemID = ?` counts these. */
  function LinksOf(t: Tables, i: ImageId): set<Link> {
    set l | l in t.links && l.image == i
  }

  /** `SELECT ... FROM IMAGENS WHERE ImagemID IN (SELECT ImagemID FROM IMAGEM_ALBUNS WHERE AlbumID = ?)`. */
  function ImagesIn(t: Tables, a: AlbumId): set<ImageId> {
    set l | l in t.links && l.album == a && l.image in t.images :: l.image
  }

  /** The images of the album whose link count is 1. */
  function Orphans(t: Tables, a: AlbumId): set<ImageId> {
    set i | i in ImagesIn(t, a) && |LinksOf(t, i)| == 1
  }

  /** An image counts as an orphan exactly when this album is the only album it is linked to. */
  lemma {:induction false} OrphanIffOnlyAlbum(t: Tables, a: AlbumId, i: ImageId)
    ensures i in Orphans(t, a) <==>
              i in t.images && Link(i, a) in t.links && forall l :: l in t.links && l.image == i ==> l.album == a
  {
    if i in t.images && Link(i, a) in t.links {
      assert i in ImagesIn(t, a) by { assert Link(i, a).image == i; }
      if forall l :: l in t.links && l.image == i ==> l.album == a {
        assert LinksOf(t, i) == {Link(i, a)};
      } else {
        var l :| l in t.links && l.image == i && l.album != a;
        assert {Link(i, a), l} <= LinksOf(t, i);
        assert |{Link(i, a), l}| == 2;
        SubsetCard({Link(i, a), l}, LinksOf(t, i));
      }
    }
  }

  lemma {:induction false} SubsetCard<T>(a: set<T>, b: set<T>)
    requires a <= b
    ensures |a| <= |b|
  {
    assert b == a + (b - a);
  }

  /** Deleting other images leaves an image's link count as it was. */
  lemma {:induction false} LinksOfAfterRemove(t: Tables, gone: set<ImageId>, i: ImageId)
    requires i !in gone
    ensures LinksOf(RemoveImages(t, gone), i) == LinksOf(t, i)
  {
  }

  /** The blob-store calls the loop makes, one per deleted image, in loop order. */
  function DestroyCalls(t: Tables, order: seq<ImageId>): (r: seq<BlobCall>)
    requires forall i :: i in order ==> i in t.images
    ensures |r| == |order|
  {
    if order == [] then [] else [Destroy(t.images[order[0]].fileName)] + DestroyCalls(t, order[1..])
  }

  /** The loop's calls grow by one destroy per deleted image. */
  lemma {:induction false} DestroyCallsSnoc(t: Tables, order: seq<ImageId>, i: ImageId)
    requires forall j :: j in order ==> j in t.images
    requires i in t.images
    ensures DestroyCalls(t, order + [i]) == DestroyCalls(t, order) + [Destroy(t.images[i].fileName)]
  {
    if order != [] {
      assert (order + [i])[1..] == order[1..] + [i];
      DestroyCallsSnoc(t, order[1..], i);
    }
  }

  predicate Distinct(order: seq<ImageId>) {
    forall j, k :: 0 <= j < k < |order| ==> order[j] != order[k]
  }

  // ---------------------------------------------------------------------------
  // Handlers.
  // ---------------------------------------------------------------------------

  /**
   * POST /albuns/:id/edit. An empty name is refused before the database is
   * touched; the UPDATE matches only the owner's album, and a match of zero
   * rows is refused.
   */
  method EditAlbum(db: Db, me: UserId, a: AlbumId, nome: string, descricao: string) returns (r: Result<()>)
    modifies db`tables
    ensures nome == "" ==> r == Err(NameRequired) && db.tables == old(db.tables)
    ensures nome != "" && !OwnsAlbum(old(db.tables), me, a) ==> r == Err(Forbidden) && db.tables == old(db.tables)
    ensures nome != "" && OwnsAlbum(old(db.tables), me, a) ==>
              r == Ok(()) && db.tables == old(db.tables).(albums := old(db.tables).albums[a := Album(me, nome, descricao)])
  {
    if nome == "" {
      return Err(NameRequired);
    }
    if !OwnsAlbum(db.tables, me, a) {
      return Err(Forbidden);
    }
    db.tables := db.tables.(albums := db.tables.albums[a := Album(me, nome, descricao)]);
    r := Ok(());
  }

  /** Changing an album's name and description keeps the store consistent: the owner stays. */
  lemma {:induction false} RenameConsistent(t: Tables, a: AlbumId, nome: string, descricao: string)
    requires Consistent(t) && a in t.albums
    ensures Consistent(t.(albums := t.albums[a := Album(t.albums[a].owner, nome, descricao)]))
  {
    var t' := t.(albums := t.albums[a := Album(t.albums[a].owner, nome, descricao)]);
    forall s | s in t'.shares ensures ShareIntact(t', s) {
      assert ShareIntact(t, s);
    }
  }

  /**
   * POST /albuns/:id/delete. For every image of the album whose link count
   * is 1, the blob is destroyed and then the image row deleted; then the album
   * row goes, taking the remaining images' links and the album's shares with
   * it. A destroy that throws rolls the database back, but the blobs destroyed
   * before it stay destroyed.
   */
  method DeleteAlbum(db: Db, me: UserId, a: AlbumId, blobFailures: set<string>) returns (r: Result<()>)
    modifies db`tables, db`blobLog
    ensures !OwnsAlbum(old(db.tables), me, a) ==>
              r == Err(Forbidden) && db.tables == old(db.tables) && db.blobLog == old(db.blobLog)
    ensures OwnsAlbum(old(db.tables), me, a) ==>
              (r.Ok? <==> forall i :: i in Orphans(old(db.tables), a) ==> old(db.tables).images[i].fileName !in blobFailures)
    ensures OwnsAlbum(old(db.tables), me, a) && r.Ok? ==>
              && db.tables == AlbumDeleted(old(db.tables), a)
              && exists order :: Distinct(order) && (forall i :: i in order <==> i in Orphans(old(db.tables), a))
                                 && db.blobLog == old(db.blobLog) + DestroyCalls(old(db.tables), order)
    ensures OwnsAlbum(old(db.tables), me, a) && r.Err? ==>
              && r.error == StorageFailure
              && db.tables == old(db.tables)
              && exists order :: Distinct(order) && (forall i :: i in order ==> i in Orphans(old(db.tables), a))
                                 && db.blobLog == old(db.blobLog) + DestroyCalls(old(db.tables), order)
  {
    var t0 := db.tables;
    if !OwnsAlbum(t0, me, a) {
      return Err(Forbidden);
    }
    var todo := ImagesIn(t0, a);
    RemoveNoImages(t0);
    ghost var deleted: set<ImageId> := {};
    ghost var order: seq<ImageId> := [];
    var failed := false;
    while todo != {} && !failed
      invariant DeletedSoFar(t0, a, blobFailures, todo, deleted, order, db.tables, old(db.blobLog), db.blobLog)
      invariant failed ==> exists i :: i in Orphans(t0, a) && t0.images[i].fileName in blobFailures
      decreases todo, !failed
    {
      todo, deleted, order, failed := DeleteNext(db, t0, a, blobFailures, todo, deleted, order, old(db.blobLog));
    }
    if failed {
      db.tables := t0;
      return Err(StorageFailure);
    }
    assert deleted == Orphans(t0, a);
    db.tables := RemoveAlbum(db.tables, a);
    r := Ok(());
  }

  /**
   * The delete loop's progress: the orphans among the images already visited
   * have been destroyed, in `order`, and deleted; none of their keys failed.
   */
  ghost predicate DeletedSoFar(t0: Tables, a: AlbumId, blobFailures: set<string>, todo: set<ImageId>,
                               deleted: set<ImageId>, order: seq<ImageId>, tables: Tables,
                               blobLog0: seq<BlobCall>, blobLog: seq<BlobCall>)
  {
    && todo <= ImagesIn(t0, a)
    && deleted == Orphans(t0, a) - todo
    && (forall i :: i in order <==> i in deleted)
    && Distinct(order)
    && tables == RemoveImages(t0, deleted)
    && (forall i :: i in deleted ==> i in t0.images && t0.images[i].fileName !in blobFailures)
    && blobLog == blobLog0 + DestroyCalls(t0, order)
  }

  /**
   * One turn of the delete loop: the next image of the album is destroyed and
   * deleted when it is linked only here; a destroy that throws leaves
   * everything as it was and stops the loop.
   */
  method DeleteNext(db: Db, t0: Tables, a: AlbumId, blobFailures: set<string>, todo: set<ImageId>,
                    ghost deleted: set<ImageId>, ghost order: seq<ImageId>, ghost blobLog0: seq<BlobCall>)
    returns (todo': set<ImageId>, ghost deleted': set<ImageId>, ghost order': seq<ImageId>, failed: bool)
    requires todo != {}
    requires DeletedSoFar(t0, a, blobFailures, todo, deleted, order, db.tables, blobLog0, db.blobLog)
    modifies db`tables, db`blobLog
    ensures DeletedSoFar(t0, a, blobFailures, todo', deleted', order', db.tables, blobLog0, db.blobLog)
    ensures !failed ==> todo' < todo
    ensures failed ==> todo' == todo && exists i :: i in Orphans(t0, a) && t0.images[i].fileName in blobFailures
  {
    var i :| i in todo;
    LinksOfAfterRemove(t0, deleted, i);
    if |LinksOf(db.tables, i)| != 1 {
      return todo - {i}, deleted, order, false;
    }
    assert i in Orphans(t0, a);
    var key := db.tables.images[i].fileName;
    if key in blobFailures {
      return todo, deleted, order, true;
    }
    db.blobLog := db.blobLog + [Destroy(key)];
    DestroyCallsSnoc(t0, order, i);
    RemoveImagesTwice(t0, deleted, {i});
    db.tables := RemoveImages(db.tables, {i});
    todo', deleted', order', failed := todo - {i}, deleted + {i}, order + [i], false;
    forall j | 0 <= j < |order| ensures order'[j] != i {
      assert order[j] in order;
    }
  }

  /** The database after a committed album deletion: its orphaned images, then the album row. */
  function AlbumDeleted(t: Tables, a: AlbumId): (r: Tables)
    ensures r.albums.Keys == t.albums.Keys - {a}
    ensures r.images.Keys == t.images.Keys - Orphans(t, a)
    ensures forall i :: i in r.images ==> r.images[i] == t.images[i]
    ensures forall l :: l in r.links <==> l in t.links && l.album != a && l.image !in Orphans(t, a)
    ensures forall a' :: a' in r.albums ==> r.albums[a'] == t.albums[a']
    ensures forall x :: x in r.imageTags <==> x in t.imageTags && x.image !in Orphans(t, a)
    ensures forall s :: s in r.shares <==>
              s in t.shares && s.target != AlbumTarget(a) && !(s.target.ImageTarget? && s.target.image in Orphans(t, a))
    ensures r.users == t.users && r.tags == t.tags && r.friendships == t.friendships && r.categories == t.categories
  {
    RemoveAlbum(RemoveImages(t, Orphans(t, a)), a)
  }

  /** A committed album deletion keeps the store consistent. */
  lemma {:induction false} AlbumDeletedConsistent(t: Tables, a: AlbumId)
    requires Consistent(t)
    ensures Consistent(AlbumDeleted(t, a))
  {
    RemoveImagesConsistent(t, Orphans(t, a));
    RemoveAlbumConsistent(RemoveImages(t, Orphans(t, a)), a);
  }

  /** Every image an album deletion removes was an image of that album linked nowhere else; the others stay. */
  lemma {:induction false} AlbumDeletedKeepsShared(t: Tables, a: AlbumId, i: ImageId)
    requires i in t.images
    ensures i !in AlbumDeleted(t, a).images <==> Link(i, a) in t.links && forall l :: l in t.links && l.image == i ==> l.album == a
  {
    OrphanIffOnlyAlbum(t, a, i);
  }

  /**
   * The orphan test never looks at the uploader: an image another user put
   * into this album, and into no other, is deleted with the album, and its
   * blob is destroyed.
   */
  lemma {:induction false} FriendImageDeleted(t: Tables, a: AlbumId, i: ImageId)
    requires a in t.albums && i in t.images && t.images[i].owner != t.albums[a].owner
    requires Link(i, a) in t.links && forall l :: l in t.links && l.image == i ==> l.album == a
    ensures i in Orphans(t, a) && i !in AlbumDeleted(t, a).images
  {
    OrphanIffOnlyAlbum(t, a, i);
  }

  /** The `novo_compartilhamento` events the inserted rows send: one per row, to its recipient, in insertion order. */
  function Notices(rows: seq<Share>, senderName: string, albumName: string): (r: seq<Event>)
    ensures |r| == |rows|
  {
    if rows == [] then []
    else [Event(rows[0].recipient, NovoCompartilhamento(senderName, albumName))] + Notices(rows[1..], senderName, albumName)
  }

  /**
   * POST /albuns/:id/share. Only the owner may manage the album's shares. All
   * of the album's share rows are deleted; then each entry with a friend id
   * and an accepted permission inserts one row and, at once, notifies its
   * recipient. Recipients are not checked to be friends. An insert naming a
   * user that does not exist fails on the foreign key and rolls the share set
   * back, while the notifications already sent remain sent.
   */
  method ShareAlbum(db: Db, me: Session, a: AlbumId, entries: seq<ShareEntry>) returns (r: Result<()>)
    modifies db`tables, db`events
    ensures !OwnsAlbum(old(db.tables), me.id, a) ==>
              r == Err(Forbidden) && db.tables == old(db.tables) && db.events == old(db.events)
    ensures OwnsAlbum(old(db.tables), me.id, a) ==>
              var rows := ShareRows(me.id, AlbumTarget(a), entries);
              var sent := KnownPrefix(old(db.tables).users, rows);
              && db.events == old(db.events) + Notices(rows[..sent], me.name, old(db.tables).albums[a].name)
              && (sent == |rows| ==> r == Ok(()) && db.tables == old(db.tables).(shares := Replace(old(db.tables).shares, AlbumTarget(a), rows)))
              && (sent < |rows| ==> r == Err(StorageFailure) && db.tables == old(db.tables))
  {
    var t0 := db.tables;
    if !OwnsAlbum(t0, me.id, a) {
      return Err(Forbidden);
    }
    var target := AlbumTarget(a);
    var kept := Without(t0.shares, Only(target));
    db.tables := t0.(shares := kept);
    var sent := InsertShareRows(db, t0, kept, me, target, t0.albums[a].name, entries);
    if sent < |ShareRows(me.id, target, entries)| {
      db.tables := t0;
      return Err(StorageFailure);
    }
    r := Ok(());
  }

  /**
   * The insert loop of POST /albuns/:id/share, run on the share set that the
   * DELETE left: each accepted entry inserts its row and then notifies its
   * recipient. It stops at the first row whose recipient does not exist and
   * reports how many rows went in.
   */
  method InsertShareRows(db: Db, t0: Tables, kept: seq<Share>, me: Session, target: Target, albumName: string,
                         entries: seq<ShareEntry>) returns (sent: nat)
    requires db.tables == t0.(shares := kept)
    modifies db`tables, db`events
    ensures sent == KnownPrefix(t0.users, ShareRows(me.id, target, entries))
    ensures db.events == old(db.events) + Notices(ShareRows(me.id, target, entries)[..sent], me.name, albumName)
    ensures sent == |ShareRows(me.id, target, entries)| ==> db.tables == t0.(shares := kept + ShareRows(me.id, target, entries))
  {
    var rest := entries;
    var rows: seq<Share> := [];
    var stopped := false;
    while rest != [] && !stopped
      invariant InsertedSoFar(t0, kept, me, target, albumName, entries, rows, rest, db.tables, old(db.events), db.events)
      invariant stopped ==> KnownPrefix(t0.users, ShareRows(me.id, target, entries)) == |rows| < |ShareRows(me.id, target, entries)|
      decreases |rest|, !stopped
    {
      rows, rest, stopped := InsertNext(db, t0, kept, me, target, albumName, entries, rows, rest, old(db.events));
    }
    if !stopped {
      assert rows + [] == rows;
    }
    assert ShareRows(me.id, target, entries)[..|rows|] == rows;
    sent := |rows|;
  }

  /**
   * The loop's progress: rows are the rows of the entries consumed so far, all
   * naming existing users and all inserted after the kept shares.
   */
  predicate InsertedSoFar(t0: Tables, kept: seq<Share>, me: Session, target: Target, albumName: string,
                          entries: seq<ShareEntry>, rows: seq<Share>, rest: seq<ShareEntry>,
                          tables: Tables, events0: seq<Event>, events: seq<Event>)
  {
    && ShareRows(me.id, target, entries) == rows + ShareRows(me.id, target, rest)
    && KnownPrefix(t0.users, rows) == |rows|
    && tables == t0.(shares := kept + rows)
    && events == events0 + Notices(rows, me.name, albumName)
  }

  /** One turn of the insert loop: the next entry is inserted, or its insert fails and the loop stops. */
  method InsertNext(db: Db, t0: Tables, kept: seq<Share>, me: Session, target: Target, albumName: string,
                    entries: seq<ShareEntry>, rows: seq<Share>, rest: seq<ShareEntry>, ghost events0: seq<Event>)
    returns (rows': seq<Share>, rest': seq<ShareEntry>, stopped: bool)
    requires rest != []
    requires InsertedSoFar(t0, kept, me, target, albumName, entries, rows, rest, db.tables, events0, db.events)
    modifies db`tables, db`events
    ensures InsertedSoFar(t0, kept, me, target, albumName, entries, rows', rest', db.tables, events0, db.events)
    ensures !stopped ==> |rest'| < |rest|
    ensures stopped ==> rows' == rows && rest' == rest &&
                        KnownPrefix(t0.users, ShareRows(me.id, target, entries)) == |rows| < |ShareRows(me.id, target, entries)|
  {
    var next := RowOf(me.id, target, rest[0]);
    var inserted := InsertOne(db, me, target, albumName, rest[0]);
    if !inserted {
      KnownPrefixAppend(t0.users, rows, ShareRows(me.id, target, rest));
      return rows, rest, true;
    }
    KnownPrefixAppend(t0.users, rows, next);
    NoticesAppend(rows, next, me.name, albumName);
    SeqAssoc(events0, Notices(rows, me.name, albumName), Notices(next, me.name, albumName));
    SeqAssoc(kept, rows, next);
    SeqAssoc(rows, next, ShareRows(me.id, target, rest[1..]));
    rows' := rows + next;
    rest' := rest[1..];
    stopped := false;
  }

  /**
   * One iteration of the insert loop: an entry with a friend id and an
   * accepted permission inserts its row and then notifies the recipient; the
   * insert fails when the recipient does not exist.
   */
  method InsertOne(db: Db, me: Session, target: Target, albumName: string, e: ShareEntry) returns (inserted: bool)
    modifies db`tables, db`events
    ensures inserted <==> KnownPrefix(old(db.tables).users, RowOf(me.id, target, e)) == |RowOf(me.id, target, e)|
    ensures inserted ==>
              && db.tables == old(db.tables).(shares := old(db.tables).shares + RowOf(me.id, target, e))
              && db.events == old(db.events) + Notices(RowOf(me.id, target, e), me.name, albumName)
    ensures !inserted ==> db.tables == old(db.tables) && db.events == old(db.events)
  {
    if e.friendId.Some? && ParsePermission(e.permissao).Some? {
      var row := Share(me.id, e.friendId.value, target, ParsePermission(e.permissao).value);
      assert RowOf(me.id, target, e) == [row];
      if row.recipient !in db.tables.users {
        return false;
      }
      db.tables := db.tables.(shares := db.tables.shares + [row]);
      db.events := db.events + [Event(row.recipient, NovoCompartilhamento(me.name, albumName))];
      assert Notices([row], me.name, albumName) == [Event(row.recipient, NovoCompartilhamento(me.name, albumName))];
    } else {
      assert db.tables.shares + [] == db.tables.shares;
    }
    return true;
  }

  /** The notices of consecutive batches of rows are the notices of the rows together. */
  lemma {:induction false} NoticesAppend(a: seq<Share>, b: seq<Share>, senderName: string, albumName: string)
    ensures Notices(a + b, senderName, albumName) == Notices(a, senderName, albumName) + Notices(b, senderName, albumName)
  {
    if a == [] {
      assert a + b == b;
    } else {
      assert (a + b)[1..] == a[1..] + b;
      NoticesAppend(a[1..], b, senderName, albumName);
    }
  }
}
