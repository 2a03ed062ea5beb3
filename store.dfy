/**
 * The relational store the gallery's route handlers work on: one map, set or
 * sequence per table, the auto-increment counters, and the foreign-key
 * cascades that deleting a user, an album or an image sets off. The remote
 * blob store and the socket notifier are outside the database: what the
 * handlers send them is recorded in two append-only logs of `Db`.
 */
module Store {

  datatype Option<+T> = None | Some(value: T)

  /** Every handler either succeeds with a value or fails with one of these. */
  datatype Result<+T> = Ok(value: T) | Err(error: Error)

  /**
   * The failures the handlers report. Status codes and rendered messages are
   * abstracted to one constructor per distinct outcome.
   */
  datatype Error =
    | NotLoggedIn          // no session user: redirect to the login page, or 401
    | Forbidden            // 403
    | NotFound             // 404
    | BadRequest           // 400
    | StorageFailure       // a statement or a remote call threw; the transaction rolled back
    | DuplicateKey         // an INSERT repeated a primary key; the transaction rolled back
    | NameRequired         // album edit without a name
    | AlbumChoiceMissing   // upload with neither a new album name nor an existing album
    | NoEditPermission     // upload into an album the user may not edit
    | ImageNotEditable     // image update matched no (image, owner) row
    | AlreadyPending       // friend request while the pair's first row is pending
    | AlreadyFriends       // friend request while the pair's first row is accepted
    | FieldsRequired       // a registration or login field is missing
    | PasswordMismatch     // password and confirmation differ
    | AlreadyRegistered    // email or user name taken
    | InvalidCredentials   // unknown email or wrong password, deliberately indistinguishable

  type UserId = nat
  type AlbumId = nat
  type ImageId = nat
  type TagId = nat
  type CategoryId = nat
  type FriendshipId = nat
  /** Seconds on the database clock; NOW() and new Date() arrive as parameters of this type. */
  type Timestamp = nat

  /** USUARIOS: SenhaHash is whatever the password hasher produced. */
  datatype User = User(name: string, email: string, passwordHash: string)
  /** ALBUNS. */
  datatype Album = Album(owner: UserId, name: string, description: string)
  /** IMAGENS: NomeArquivo is the blob store's key for the uploaded file. */
  datatype Image = Image(owner: UserId, fileName: string, url: string, description: string,
                         category: Option<CategoryId>, uploaded: Timestamp)
  /** TAGS: tags are scoped per owner. */
  datatype Tag = Tag(name: string, owner: UserId)
  /** A row of IMAGEM_ALBUNS. */
  datatype Link = Link(image: ImageId, album: AlbumId)
  /** A row of IMAGEM_TAGS. */
  datatype ImageTag = ImageTag(image: ImageId, tag: TagId)

  /** The two values of Permissao that any handler ever stores. */
  datatype Permission = Compartilhado | Editavel
  /** Exactly one of AlbumID and ImagemID is non-null in a COMPARTILHAMENTOS row. */
  datatype Target = AlbumTarget(album: AlbumId) | ImageTarget(image: ImageId)
  /** A row of COMPARTILHAMENTOS. */
  datatype Share = Share(sender: UserId, recipient: UserId, target: Target, permission: Permission)

  datatype Status = Pendente | Aceita | Recusada
  /** A row of AMIZADES; `since` is DataInicioAmizade. */
  datatype Friendship = Friendship(id: FriendshipId, requester: UserId, accepter: UserId,
                                   status: Status, since: Option<Timestamp>)

  /** What the login handler stores in the session: id, name and email, never the hash. */
  datatype Session = Session(id: UserId, name: string, email: string)

  /** A call that took effect on the remote blob store. */
  datatype BlobCall = Destroy(key: string) | DeleteResources(keys: set<string>)

  datatype EventKind =
    | NovoCompartilhamento(senderName: string, albumName: string)
    | NovaSolicitacao(senderName: string)
    | SolicitacaoAceita(accepterName: string)
    | AmizadeRemovida(removerName: string)

  /** A socket event emitted to the room named after a user id. */
  datatype Event = Event(to: UserId, kind: EventKind)

  /**
   * The database. COMPARTILHAMENTOS and AMIZADES are kept in insertion order,
   * which is the order the model gives to a SELECT without ORDER BY.
   */
  datatype Tables = Tables(
    users: map<UserId, User>,
    albums: map<AlbumId, Album>,
    images: map<ImageId, Image>,
    links: set<Link>,
    tags: map<TagId, Tag>,
    imageTags: set<ImageTag>,
    categories: set<CategoryId>,
    shares: seq<Share>,
    friendships: seq<Friendship>,
    nextUserId: nat,
    nextAlbumId: nat,
    nextImageId: nat,
    nextTagId: nat,
    nextFriendshipId: nat)

  predicate OwnsAlbum(t: Tables, u: UserId, a: AlbumId) {
    a in t.albums && t.albums[a].owner == u
  }

  predicate OwnsImage(t: Tables, u: UserId, i: ImageId) {
    i in t.images && t.images[i].owner == u
  }

  /** u owns the album or the image a target names, looked up in the two tables. */
  predicate TargetOwnedBy(albums: map<AlbumId, Album>, images: map<ImageId, Image>, u: UserId, target: Target) {
    match target
    case AlbumTarget(a) => a in albums && albums[a].owner == u
    case ImageTarget(i) => i in images && images[i].owner == u
  }

  /** u owns the album or the image a share row points at. */
  predicate OwnsTarget(t: Tables, u: UserId, target: Target) {
    TargetOwnedBy(t.albums, t.images, u, target)
  }

  // ---------------------------------------------------------------------------
  // Integrity of the store: foreign keys, unique keys, auto-increment counters.
  // Each part names only the tables it constrains, so that a statement that
  // changes one table leaves the other parts syntactically unchanged.
  // ---------------------------------------------------------------------------

  ghost predicate KeysBelow(keys: set<nat>, next: nat) {
    forall k :: k in keys ==> k < next
  }

  ghost predicate FriendshipIdsBelow(fs: seq<Friendship>, next: nat) {
    forall f :: f in fs ==> f.id < next
  }

  ghost predicate AlbumOwnersExist(albums: map<AlbumId, Album>, users: map<UserId, User>) {
    forall a :: a in albums ==> albums[a].owner in users
  }

  /** An image's owner exists, and so does its category when it has one. */
  ghost predicate ImagesIntact(images: map<ImageId, Image>, users: map<UserId, User>, categories: set<CategoryId>) {
    forall i :: i in images ==>
      images[i].owner in users && (images[i].category.Some? ==> images[i].category.value in categories)
  }

  ghost predicate TagOwnersExist(tags: map<TagId, Tag>, users: map<UserId, User>) {
    forall g :: g in tags ==> tags[g].owner in users
  }

  ghost predicate LinksIntact(links: set<Link>, images: map<ImageId, Image>, albums: map<AlbumId, Album>) {
    forall l :: l in links ==> l.image in images && l.album in albums
  }

  ghost predicate ImageTagsIntact(imageTags: set<ImageTag>, images: map<ImageId, Image>, tags: map<TagId, Tag>) {
    forall x :: x in imageTags ==> x.image in images && x.tag in tags
  }

  /** A share names existing users and an existing target, and its sender owns that target. */
  ghost predicate ShareRowIntact(s: Share, users: map<UserId, User>, albums: map<AlbumId, Album>, images: map<ImageId, Image>) {
    && s.sender in users
    && s.recipient in users
    && TargetOwnedBy(albums, images, s.sender, s.target)
  }

  ghost predicate ShareIntact(t: Tables, s: Share) {
    ShareRowIntact(s, t.users, t.albums, t.images)
  }

  ghost predicate SharesIntact(shares: seq<Share>, users: map<UserId, User>, albums: map<AlbumId, Album>, images: map<ImageId, Image>) {
    forall s :: s in shares ==> ShareRowIntact(s, users, albums, images)
  }

  ghost predicate FriendshipsIntact(fs: seq<Friendship>, users: map<UserId, User>) {
    forall f :: f in fs ==> f.requester in users && f.accepter in users
  }

  ghost predicate FriendshipIdsDistinct(fs: seq<Friendship>) {
    forall j, k :: 0 <= j < k < |fs| ==> fs[j].id != fs[k].id
  }

  /** The get-or-create of tags never makes two tags of one owner with one name. */
  ghost predicate TagNamesUnique(tags: map<TagId, Tag>) {
    forall g, h :: g in tags && h in tags && tags[g] == tags[h] ==> g == h
  }

  /** Registration never admits a second account with a taken email or user name. */
  ghost predicate AccountsUnique(users: map<UserId, User>) {
    forall u, v :: u in users && v in users && u != v ==>
      users[u].email != users[v].email && users[u].name != users[v].name
  }

  ghost predicate Consistent(t: Tables) {
    && KeysBelow(t.users.Keys, t.nextUserId)
    && KeysBelow(t.albums.Keys, t.nextAlbumId)
    && KeysBelow(t.images.Keys, t.nextImageId)
    && KeysBelow(t.tags.Keys, t.nextTagId)
    && FriendshipIdsBelow(t.friendships, t.nextFriendshipId)
    && AlbumOwnersExist(t.albums, t.users)
    && ImagesIntact(t.images, t.users, t.categories)
    && TagOwnersExist(t.tags, t.users)
    && LinksIntact(t.links, t.images, t.albums)
    && ImageTagsIntact(t.imageTags, t.images, t.tags)
    && SharesIntact(t.shares, t.users, t.albums, t.images)
    && FriendshipsIntact(t.friendships, t.users)
    && FriendshipIdsDistinct(t.friendships)
    && TagNamesUnique(t.tags)
    && AccountsUnique(t.users)
  }

  // Two facts about sequence concatenation, stated once for any element type
  // so that the solver meets them without the elements' own structure.

  lemma {:induction false} SeqAssoc<T>(a: seq<T>, b: seq<T>, c: seq<T>)
    ensures a + (b + c) == a + b + c
  {
  }

  lemma {:induction false} HeadTail<T>(s: seq<T>)
    requires s != []
    ensures [s[0]] + s[1..] == s
  {
  }

  // ---------------------------------------------------------------------------
  // DELETE FROM COMPARTILHAMENTOS WHERE ...
  // ---------------------------------------------------------------------------

  /** The WHERE clauses under which share rows are deleted. */
  datatype Selector =
    | TargetIn(albums: set<AlbumId>, images: set<ImageId>)   // by AlbumID or ImagemID
    | Between(a: UserId, b: UserId)                          // sender and recipient, either direction
    | Involving(u: UserId)                                   // sender or recipient

  predicate Hits(sel: Selector, s: Share) {
    match sel
    case TargetIn(albums, images) =>
      (s.target.AlbumTarget? && s.target.album in albums) || (s.target.ImageTarget? && s.target.image in images)
    case Between(a, b) =>
      (s.sender == a && s.recipient == b) || (s.sender == b && s.recipient == a)
    case Involving(u) => s.sender == u || s.recipient == u
  }

  /** The share rows that survive the deletion, in their order. */
  function Without(ss: seq<Share>, sel: Selector): (r: seq<Share>)
    ensures |r| <= |ss|
  {
    if ss == [] then []
    else (if Hits(sel, ss[0]) then [] else [ss[0]]) + Without(ss[1..], sel)
  }

  /** A row survives exactly when it was there and the selector does not hit it. */
  lemma {:induction false} WithoutMembers(ss: seq<Share>, sel: Selector)
    ensures forall s :: s in Without(ss, sel) <==> s in ss && !Hits(sel, s)
  {
    if ss != [] {
      WithoutMembers(ss[1..], sel);
      assert ss == [ss[0]] + ss[1..];
    }
  }

  lemma {:induction false} WithoutAppend(a: seq<Share>, b: seq<Share>, sel: Selector)
    ensures Without(a + b, sel) == Without(a, sel) + Without(b, sel)
  {
    if a != [] {
      assert (a + b)[1..] == a[1..] + b;
      WithoutAppend(a[1..], b, sel);
      SeqAssoc(if Hits(sel, a[0]) then [] else [a[0]], Without(a[1..], sel), Without(b, sel));
    } else {
      assert a + b == b;
    }
  }

  /** Deleting rows that the selector does not hit changes nothing. */
  lemma {:induction false} WithoutNoHits(ss: seq<Share>, sel: Selector)
    requires forall s :: s in ss ==> !Hits(sel, s)
    ensures Without(ss, sel) == ss
  {
    if ss != [] {
      assert ss[0] in ss;
      assert forall s :: s in ss[1..] ==> s in ss;
      WithoutNoHits(ss[1..], sel);
      assert [ss[0]] + ss[1..] == ss;
    }
  }

  /** Two deletions by target are one deletion by the union of the targets. */
  lemma {:induction false} WithoutTargetsTwice(ss: seq<Share>, albums1: set<AlbumId>, images1: set<ImageId>,
                                               albums2: set<AlbumId>, images2: set<ImageId>)
    ensures Without(Without(ss, TargetIn(albums1, images1)), TargetIn(albums2, images2)) == Without(ss, TargetIn(albums1 + albums2, images1 + images2))
  {
    if ss != [] {
      WithoutTargetsTwice(ss[1..], albums1, images1, albums2, images2);
      var head := if Hits(TargetIn(albums1, images1), ss[0]) then [] else [ss[0]];
      WithoutAppend(head, Without(ss[1..], TargetIn(albums1, images1)), TargetIn(albums2, images2));
      if head != [] {
        assert Without(head, TargetIn(albums2, images2)) == (if Hits(TargetIn(albums2, images2), ss[0]) then [] else [ss[0]]) + Without([], TargetIn(albums2, images2));
      }
    }
  }

  /** The WHERE clauses under which AMIZADES rows are deleted. */
  datatype FriendSelector =
    | WithId(id: FriendshipId)    // by AmizadeID
    | WithParty(u: UserId)        // cascade from deleting either party

  predicate Picks(sel: FriendSelector, f: Friendship) {
    match sel
    case WithId(id) => f.id == id
    case WithParty(u) => f.requester == u || f.accepter == u
  }

  /** The friendship rows that survive the deletion, in their order. */
  function FriendshipsWithout(fs: seq<Friendship>, sel: FriendSelector): (r: seq<Friendship>)
    ensures forall f :: f in r <==> f in fs && !Picks(sel, f)
    ensures FriendshipIdsDistinct(fs) ==> FriendshipIdsDistinct(r)
  {
    if fs == [] then []
    else
      var rest := FriendshipsWithout(fs[1..], sel);
      var r := (if Picks(sel, fs[0]) then [] else [fs[0]]) + rest;
      assert FriendshipIdsDistinct(fs) ==> FriendshipIdsDistinct(r) by {
        if FriendshipIdsDistinct(fs) {
          assert FriendshipIdsDistinct(fs[1..]);
          if !Picks(sel, fs[0]) {
            forall k | 0 < k < |r| ensures r[0].id != r[k].id {
              assert r[k] == rest[k - 1] && rest[k - 1] in fs[1..];
            }
          }
        }
      }
      r
  }

  // ---------------------------------------------------------------------------
  // Row deletions and the cascades the schema's ON DELETE CASCADE performs.
  // Modelling assumption: every foreign key (IMAGEM_ALBUNS, IMAGEM_TAGS,
  // COMPARTILHAMENTOS, AMIZADES, and the owner columns of ALBUNS, IMAGENS and
  // TAGS) cascades on delete.
  // ---------------------------------------------------------------------------

  /** DELETE FROM IMAGENS for every id in gone: album links, tag links and image shares go with them. */
  function RemoveImages(t: Tables, gone: set<ImageId>): (r: Tables)
    ensures r.images.Keys == t.images.Keys - gone
    ensures forall l :: l in r.links <==> l in t.links && l.image !in gone
    ensures forall x :: x in r.imageTags <==> x in t.imageTags && x.image !in gone
    ensures forall s :: s in r.shares <==> s in t.shares && !(s.target.ImageTarget? && s.target.image in gone)
  {
    WithoutMembers(t.shares, TargetIn({}, gone));
    t.(images := t.images - gone,
       links := (set l | l in t.links && l.image !in gone),
       imageTags := (set x | x in t.imageTags && x.image !in gone),
       shares := Without(t.shares, TargetIn({}, gone)))
  }

  /** DELETE FROM ALBUNS WHERE AlbumID = a: its links and its album shares go with it. */
  function RemoveAlbum(t: Tables, a: AlbumId): (r: Tables)
    ensures r.albums.Keys == t.albums.Keys - {a}
    ensures forall l :: l in r.links <==> l in t.links && l.album != a
    ensures forall s :: s in r.shares <==> s in t.shares && s.target != AlbumTarget(a)
  {
    WithoutMembers(t.shares, TargetIn({a}, {}));
    t.(albums := t.albums - {a},
       links := (set l | l in t.links && l.album != a),
       shares := Without(t.shares, TargetIn({a}, {})))
  }

  function AlbumsOf(t: Tables, u: UserId): set<AlbumId> {
    set a | a in t.albums && t.albums[a].owner == u
  }

  function ImagesOf(t: Tables, u: UserId): set<ImageId> {
    set i | i in t.images && t.images[i].owner == u
  }

  function TagsOf(t: Tables, u: UserId): set<TagId> {
    set g | g in t.tags && t.tags[g].owner == u
  }

  /**
   * DELETE FROM USUARIOS WHERE UsuarioID = u and everything that cascades from
   * it: the user's albums, images and tags, every link and share touching
   * those, every share the user sent or received, every friendship of theirs.
   * Images of other users that sat in the user's albums stay, unlinked.
   */
  function RemoveUser(t: Tables, u: UserId): (r: Tables)
    ensures r.users.Keys == t.users.Keys - {u}
    ensures r.albums.Keys == t.albums.Keys - AlbumsOf(t, u)
    ensures r.images.Keys == t.images.Keys - ImagesOf(t, u)
    ensures r.tags.Keys == t.tags.Keys - TagsOf(t, u)
    ensures forall l :: l in r.links <==> l in t.links && l.album !in AlbumsOf(t, u) && l.image !in ImagesOf(t, u)
    ensures forall x :: x in r.imageTags <==> x in t.imageTags && x.image !in ImagesOf(t, u) && x.tag !in TagsOf(t, u)
    ensures forall s :: s in r.shares <==>
              && s in t.shares && s.sender != u && s.recipient != u
              && !(s.target.AlbumTarget? && s.target.album in AlbumsOf(t, u))
              && !(s.target.ImageTarget? && s.target.image in ImagesOf(t, u))
    ensures forall f :: f in r.friendships <==> f in t.friendships && f.requester != u && f.accepter != u
    ensures forall k :: k in r.users ==> r.users[k] == t.users[k]
    ensures forall a :: a in r.albums ==> r.albums[a] == t.albums[a]
    ensures forall i :: i in r.images ==> r.images[i] == t.images[i]
    ensures forall g :: g in r.tags ==> r.tags[g] == t.tags[g]
    ensures r.categories == t.categories
  {
    var A := AlbumsOf(t, u);
    var I := ImagesOf(t, u);
    var G := TagsOf(t, u);
    WithoutMembers(t.shares, Involving(u));
    WithoutMembers(Without(t.shares, Involving(u)), TargetIn(A, I));
    t.(users := t.users - {u},
       albums := t.albums - A,
       images := t.images - I,
       tags := t.tags - G,
       links := (set l | l in t.links && l.album !in A && l.image !in I),
       imageTags := (set x | x in t.imageTags && x.image !in I && x.tag !in G),
       shares := Without(Without(t.shares, Involving(u)), TargetIn(A, I)),
       friendships := FriendshipsWithout(t.friendships, WithParty(u)))
  }

  lemma {:induction false} RemoveImagesConsistent(t: Tables, gone: set<ImageId>)
    requires Consistent(t)
    ensures Consistent(RemoveImages(t, gone))
  {
    var r := RemoveImages(t, gone);
    forall s | s in r.shares ensures ShareIntact(r, s) {
      assert s in t.shares && ShareIntact(t, s);
    }
  }

  /** Any share set whose rows are intact may replace the current one. */
  lemma {:induction false} SharesChangedConsistent(t: Tables, ss: seq<Share>)
    requires Consistent(t)
    requires forall s :: s in ss ==> ShareIntact(t, s)
    ensures Consistent(t.(shares := ss))
  {
    var t' := t.(shares := ss);
    forall s | s in ss ensures ShareIntact(t', s) {
      assert ShareIntact(t, s);
    }
  }

  /** Recording a new image under an existing owner, category and album, with its next id. */
  lemma {:induction false} NewImageConsistent(t: Tables, img: Image, a: AlbumId)
    requires Consistent(t)
    requires img.owner in t.users && (img.category.Some? ==> img.category.value in t.categories) && a in t.albums
    ensures Consistent(t.(images := t.images[t.nextImageId := img], links := t.links + {Link(t.nextImageId, a)},
                          nextImageId := t.nextImageId + 1))
  {
    var i := t.nextImageId;
    var images := t.images[i := img];
    assert i !in t.images;
    assert KeysBelow(images.Keys, i + 1);
    assert ImagesIntact(images, t.users, t.categories);
    assert LinksIntact(t.links + {Link(i, a)}, images, t.albums);
    assert ImageTagsIntact(t.imageTags, images, t.tags);
    forall s | s in t.shares ensures ShareRowIntact(s, t.users, t.albums, images) {
      assert ShareRowIntact(s, t.users, t.albums, t.images);
    }
  }

  /** Recording a new album of an existing owner, with its next id. */
  lemma {:induction false} NewAlbumConsistent(t: Tables, album: Album)
    requires Consistent(t)
    requires album.owner in t.users
    ensures Consistent(t.(albums := t.albums[t.nextAlbumId := album], nextAlbumId := t.nextAlbumId + 1))
  {
    assert t.nextAlbumId !in t.albums;
  }

  /**
   * New tags and new IMAGEM_TAGS rows that keep the tag table's invariants,
   * belong to existing users and point at existing images and tags.
   */
  lemma {:induction false} NewTagsConsistent(t: Tables, tags: map<TagId, Tag>, imageTags: set<ImageTag>, nextTagId: nat)
    requires Consistent(t)
    requires TagNamesUnique(tags) && KeysBelow(tags.Keys, nextTagId) && TagOwnersExist(tags, t.users)
    requires ImageTagsIntact(imageTags, t.images, tags)
    ensures Consistent(t.(tags := tags, imageTags := imageTags, nextTagId := nextTagId))
  {
  }

  /** Deleting no image deletes nothing. */
  lemma {:induction false} RemoveNoImages(t: Tables)
    ensures RemoveImages(t, {}) == t
  {
    WithoutNoHits(t.shares, TargetIn({}, {}));
  }

  /** Deleting images one batch after another is deleting them all at once. */
  lemma {:induction false} RemoveImagesTwice(t: Tables, gone1: set<ImageId>, gone2: set<ImageId>)
    ensures RemoveImages(RemoveImages(t, gone1), gone2) == RemoveImages(t, gone1 + gone2)
  {
    var none: set<AlbumId> := {};
    WithoutTargetsTwice(t.shares, none, gone1, none, gone2);
    assert none + none == none;
  }

  lemma {:induction false} RemoveAlbumConsistent(t: Tables, a: AlbumId)
    requires Consistent(t)
    ensures Consistent(RemoveAlbum(t, a))
  {
    var r := RemoveAlbum(t, a);
    forall s | s in r.shares ensures ShareIntact(r, s) {
      assert s in t.shares && ShareIntact(t, s);
    }
  }

  lemma {:induction false} RemoveUserConsistent(t: Tables, u: UserId)
    requires Consistent(t)
    ensures Consistent(RemoveUser(t, u))
  {
    RemoveUserOwners(t, u);
    RemoveUserLinks(t, u);
    RemoveUserShares(t, u);
  }

  lemma {:induction false} RemoveUserOwners(t: Tables, u: UserId)
    requires Consistent(t)
    ensures var r := RemoveUser(t, u);
            && AlbumOwnersExist(r.albums, r.users)
            && ImagesIntact(r.images, r.users, r.categories)
            && TagOwnersExist(r.tags, r.users)
            && FriendshipsIntact(r.friendships, r.users)
            && TagNamesUnique(r.tags)
            && AccountsUnique(r.users)
  {
  }

  lemma {:induction false} RemoveUserLinks(t: Tables, u: UserId)
    requires Consistent(t)
    ensures var r := RemoveUser(t, u);
            LinksIntact(r.links, r.images, r.albums) && ImageTagsIntact(r.imageTags, r.images, r.tags)
  {
    var r := RemoveUser(t, u);
    forall x | x in r.imageTags ensures x.image in r.images && x.tag in r.tags {
      assert x in t.imageTags;
    }
    forall l | l in r.links ensures l.image in r.images && l.album in r.albums {
      assert l in t.links;
    }
  }

  lemma {:induction false} RemoveUserShares(t: Tables, u: UserId)
    requires Consistent(t)
    ensures var r := RemoveUser(t, u);
            SharesIntact(r.shares, r.users, r.albums, r.images)
  {
    var r := RemoveUser(t, u);
    var A, I := AlbumsOf(t, u), ImagesOf(t, u);
    WithoutMembers(t.shares, Involving(u));
    WithoutMembers(Without(t.shares, Involving(u)), TargetIn(A, I));
    forall s | s in r.shares ensures ShareIntact(r, s) {
      assert s in Without(t.shares, Involving(u));
      assert s in t.shares && ShareIntact(t, s);
      assert !Hits(TargetIn(A, I), s);
    }
  }

  /**
   * The database connection together with the two services outside it. A
   * handler's transaction reassigns `tables`; a rollback restores the value it
   * had at BEGIN. `blobLog` and `events` only ever grow: a rollback cannot take
   * back a destroyed blob or an emitted socket event.
   */
  class Db {
    var tables: Tables
    var blobLog: seq<BlobCall>
    var events: seq<Event>
  }
}
