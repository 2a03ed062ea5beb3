/**
 * The image routes: the edit-permission check an upload into an existing
 * album needs, the comma-separated tag text and its get-or-create of the
 * uploader's tags, upload, image edit, image delete and the replacement of an
 * image's share set.
 */
module Galeria {
  import opened Store
  import opened Sharing
  import opened Albuns
  import opened Text

  // ---------------------------------------------------------------------------
  // checkEditPermissionForAlbum
  // ---------------------------------------------------------------------------

  /**
   * The uploader owns the album, or some share row gives them `editavel` on
   * it. Unlike the album page, any matching row counts, not only the first.
   */
  predicate CanEditAlbum(t: Tables, u: UserId, a: AlbumId) {
    OwnsAlbum(t, u, a) || exists s :: s in t.shares && Addresses(s, u, AlbumTarget(a)) && s.permission == Editavel
  }

  /** A `compartilhado` share alone does not let a non-owner add images. */
  lemma {:induction false} ViewShareCannotEdit(t: Tables, u: UserId, a: AlbumId)
    requires !OwnsAlbum(t, u, a)
    requires forall s :: s in t.shares && Addresses(s, u, AlbumTarget(a)) ==> s.permission == Compartilhado
    ensures !CanEditAlbum(t, u, a)
  {
  }

  /** In a consistent store, whoever may add images to an album may also open it. */
  lemma {:induction false} EditImpliesView(t: Tables, u: UserId, a: AlbumId)
    requires Consistent(t)
    requires CanEditAlbum(t, u, a)
    ensures ResolveAlbumAccess(t, u, a).Some?
  {
    if !OwnsAlbum(t, u, a) {
      var s :| s in t.shares && Addresses(s, u, AlbumTarget(a)) && s.permission == Editavel;
      assert ShareIntact(t, s);
    }
  }

  /** An album page that shows `editavel` to a non-owner means the upload check passes too. */
  lemma {:induction false} ViewEditImpliesEdit(t: Tables, u: UserId, a: AlbumId)
    requires ResolveAlbumAccess(t, u, a) == Some(SharedAccess(Editavel))
    ensures CanEditAlbum(t, u, a)
  {
  }

  /**
   * The two checks can disagree: with a `compartilhado` row before an
   * `editavel` row for the same user, the album page shows view-only access
   * while the upload check grants editing.
   */
  lemma {:induction false} ViewAndEditDisagree()
    ensures var t := Tables(map[1 := User("ana", "a@x", "h"), 2 := User("bia", "b@x", "h")],
                            map[7 := Album(1, "ferias", "")], map[], {}, map[], {}, {},
                            [Share(1, 2, AlbumTarget(7), Compartilhado), Share(1, 2, AlbumTarget(7), Editavel)],
                            [], 3, 8, 0, 0, 0);
            ResolveAlbumAccess(t, 2, 7) == Some(SharedAccess(Compartilhado)) && CanEditAlbum(t, 2, 7)
  {
    var t := Tables(map[1 := User("ana", "a@x", "h"), 2 := User("bia", "b@x", "h")],
                    map[7 := Album(1, "ferias", "")], map[], {}, map[], {}, {},
                    [Share(1, 2, AlbumTarget(7), Compartilhado), Share(1, 2, AlbumTarget(7), Editavel)],
                    [], 3, 8, 0, 0, 0);
    assert t.shares[1] in t.shares;
  }

  // ---------------------------------------------------------------------------
  // Tag text: `tags.split(",").map(trim).filter(nonempty)`, behind a blank guard.
  // ---------------------------------------------------------------------------

  /** The trimmed pieces, empty ones dropped. */
  function Clean(pieces: seq<string>): (r: seq<string>)
    ensures |r| <= |pieces|
  {
    if pieces == [] then []
    else (if Trim(pieces[0]) == "" then [] else [Trim(pieces[0])]) + Clean(pieces[1..])
  }

  /** The tag names of the submitted text; absent or blank text gives none. */
  function ParseTags(tags: Option<string>): seq<string> {
    if tags.Some? && Trim(tags.value) != "" then Clean(Split(tags.value)) else []
  }

  /** A usable tag name: non-empty, without surrounding white space, without a comma. */
  predicate TagName(n: string) {
    n != [] && IsTrimmed(n) && ',' !in n
  }

  /** Every parsed name is usable. */
  lemma {:induction false} CleanTagNames(pieces: seq<string>)
    requires forall p :: p in pieces ==> ',' !in p
    ensures forall n :: n in Clean(pieces) ==> TagName(n)
  {
    if pieces != [] {
      CleanTagNames(pieces[1..]);
      var p := pieces[0];
      assert p in pieces;
      TrimInside(p);
      assert Clean(pieces) == (if Trim(p) == "" then [] else [Trim(p)]) + Clean(pieces[1..]);
    }
  }

  lemma {:induction false} ParseTagsNames(tags: Option<string>)
    ensures forall n :: n in ParseTags(tags) ==> TagName(n)
  {
    if tags.Some? && Trim(tags.value) != "" {
      CleanTagNames(Split(tags.value));
    }
  }

  /** Pieces that are white space only leave nothing. */
  lemma {:induction false} CleanBlank(pieces: seq<string>)
    requires forall p :: p in pieces ==> AllSpace(p)
    ensures Clean(pieces) == []
  {
    if pieces != [] {
      TrimEmptyIffAllSpace(pieces[0]);
      CleanBlank(pieces[1..]);
    }
  }

  /** Every piece of an all-white-space text is white space. */
  lemma {:induction false} SplitBlank(s: string)
    requires AllSpace(s)
    ensures forall p :: p in Split(s) ==> AllSpace(p)
  {
    if s != [] {
      assert IsSpace(s[0]);
      SplitBlank(s[1..]);
      var rest := Split(s[1..]);
      assert rest[0] in rest;
    }
  }

  /** The blank guard changes nothing: split, trim and filter alone already give no names for blank text. */
  lemma {:induction false} BlankGuardRedundant(s: string)
    ensures ParseTags(Some(s)) == Clean(Split(s))
  {
    if Trim(s) == "" {
      TrimEmptyIffAllSpace(s);
      SplitBlank(s);
      CleanBlank(Split(s));
    }
  }

  /** The names with a space in front of each: how `join(", ")` lays out all but the first. */
  function Spaced(names: seq<string>): (r: seq<string>)
    ensures |r| == |names|
  {
    if names == [] then [] else [" " + names[0]] + Spaced(names[1..])
  }

  /** `join(", ")` is `join(",")` of the spaced names. */
  lemma {:induction false} JoinCommaSpace(names: seq<string>)
    requires names != []
    ensures Join(names, ", ") == Join([names[0]] + Spaced(names[1..]), ",")
  {
    if |names| > 1 {
      JoinCommaSpace(names[1..]);
      var rest := names[1..];
      assert Join(rest, ", ") == Join([rest[0]] + Spaced(rest[1..]), ",");
      assert Spaced(rest) == [" " + rest[0]] + Spaced(rest[1..]);
      var spaced := [names[0]] + Spaced(rest);
      assert spaced[1..] == Spaced(rest);
      assert Join(spaced[1..], ",") == " " + Join([rest[0]] + Spaced(rest[1..]), ",") by {
        JoinPrefixSpace(rest[0], Spaced(rest[1..]));
      }
    }
  }

  /** Joining with a spaced first part is a space in front of joining the bare part. */
  lemma {:induction false} JoinPrefixSpace(w: string, rest: seq<string>)
    ensures Join([" " + w] + rest, ",") == " " + Join([w] + rest, ",")
  {
    assert ([" " + w] + rest)[1..] == rest && ([w] + rest)[1..] == rest;
  }

  lemma {:induction false} CleanSpaced(names: seq<string>)
    requires forall n :: n in names ==> TagName(n)
    ensures Clean(Spaced(names)) == names
  {
    if names != [] {
      assert names[0] in names;
      TrimLeadingSpace(names[0]);
      CleanSpaced(names[1..]);
      CleanCons(" " + names[0], Spaced(names[1..]));
      HeadTail(names);
    }
  }

  /**
   * The edit page fills the tag field with the image's tag names joined by
   * ", "; submitting it unchanged parses back to those names.
   */
  lemma {:induction false} ParseTagsOfJoined(names: seq<string>)
    requires forall n :: n in names ==> TagName(n)
    ensures ParseTags(Some(Join(names, ", "))) == names
  {
    if names != [] {
      var rest := names[1..];
      var pieces := [names[0]] + Spaced(rest);
      assert names[0] in names;
      assert forall n :: n in rest ==> n in names;
      SpacedCommaFree(rest);
      assert forall p :: p in pieces ==> p == names[0] || p in Spaced(rest);
      JoinCommaSpace(names);
      SplitJoin(pieces);
      JoinNotBlank(names);
      CleanJoinedPieces(names);
    }
  }

  /** The pieces `join(", ")` leaves between commas trim back to the names. */
  lemma {:induction false} CleanJoinedPieces(names: seq<string>)
    requires names != []
    requires forall n :: n in names ==> TagName(n)
    ensures Clean([names[0]] + Spaced(names[1..])) == names
  {
    var rest := names[1..];
    assert names[0] in names;
    assert forall n :: n in rest ==> n in names;
    CleanSpaced(rest);
    TrimTrimmed(names[0]);
    CleanCons(names[0], Spaced(rest));
    HeadTail(names);
  }


  /** Clean works piece by piece from the front. */
  lemma {:induction false} CleanCons(p: string, ps: seq<string>)
    ensures Clean([p] + ps) == (if Trim(p) == "" then [] else [Trim(p)]) + Clean(ps)
  {
    assert ([p] + ps)[1..] == ps;
  }

  /** Putting a space in front of comma-free names adds no comma. */
  lemma {:induction false} SpacedCommaFree(names: seq<string>)
    requires forall n :: n in names ==> TagName(n)
    ensures forall p :: p in Spaced(names) ==> ',' !in p
  {
    if names != [] {
      assert names[0] in names;
      SpacedCommaFree(names[1..]);
    }
  }

  lemma {:induction false} SpacedAt(names: seq<string>, k: nat)
    requires k < |names|
    ensures Spaced(names)[k] == " " + names[k]
  {
    if k > 0 {
      SpacedAt(names[1..], k - 1);
    }
  }

  /** A join that starts with a tag name is not blank. */
  lemma {:induction false} JoinNotBlank(names: seq<string>)
    requires names != [] && TagName(names[0])
    ensures Trim(Join(names, ", ")) != ""
  {
    var s := Join(names, ", ");
    assert s[0] == names[0][0];
    TrimEmptyIffAllSpace(s);
  }

  // ---------------------------------------------------------------------------
  // Get-or-create of the uploader's tags, and the IMAGEM_TAGS rows.
  // ---------------------------------------------------------------------------

  /**
   * `SELECT TagID FROM TAGS WHERE Nome = ? AND UsuarioID = ?` and its first
   * row, rows coming in id order: the smallest id from k up to n, exclusive,
   * whose tag has that name and owner.
   */
  function FirstTagFrom(tags: map<TagId, Tag>, owner: UserId, name: string, k: nat, n: nat): (r: Option<TagId>)
    ensures r.Some? ==> k <= r.value < n && r.value in tags && tags[r.value] == Tag(name, owner)
    decreases n - k
  {
    if k >= n then None
    else if k in tags && tags[k] == Tag(name, owner) then Some(k)
    else FirstTagFrom(tags, owner, name, k + 1, n)
  }

  /** The first tag of the owner with that name, among the ids handed out so far. */
  function FirstTag(t: Tables, owner: UserId, name: string): (r: Option<TagId>)
    ensures r.Some? ==> r.value in t.tags && t.tags[r.value] == Tag(name, owner)
  {
    FirstTagFrom(t.tags, owner, name, 0, t.nextTagId)
  }

  /** Nothing the search skipped has that name and owner. */
  lemma {:induction false} FirstTagFromNone(tags: map<TagId, Tag>, owner: UserId, name: string, k: nat, n: nat)
    requires FirstTagFrom(tags, owner, name, k, n).None?
    ensures forall g :: k <= g < n && g in tags ==> tags[g] != Tag(name, owner)
    decreases n - k
  {
    if k < n {
      FirstTagFromNone(tags, owner, name, k + 1, n);
    }
  }

  /** Tag ids below the counter, and no two tags of one owner with one name. */
  ghost predicate TagStore(t: Tables) {
    TagNamesUnique(t.tags) && KeysBelow(t.tags.Keys, t.nextTagId)
  }

  /** In a well-kept tag table the search finds the tag of that name whenever there is one. */
  lemma {:induction false} FirstTagFinds(t: Tables, owner: UserId, name: string)
    requires TagStore(t)
    ensures FirstTag(t, owner, name).None? <==> Tag(name, owner) !in t.tags.Values
  {
    if FirstTag(t, owner, name).None? {
      FirstTagFromNone(t.tags, owner, name, 0, t.nextTagId);
    }
  }

  /** The tag the name ends up linked with: the existing one, or the one the INSERT creates. */
  function TagIdFor(t: Tables, owner: UserId, name: string): TagId {
    match FirstTag(t, owner, name)
    case Some(g) => g
    case None => t.nextTagId
  }

  /**
   * One turn of the tag loop: find or create the owner's tag, then link it to
   * the image. IMAGEM_TAGS is keyed by the pair (ImagemID, TagID), so linking
   * a tag the image already has fails that INSERT.
   */
  function AttachOne(t: Tables, owner: UserId, image: ImageId, name: string): (r: Result<Tables>)
    ensures r.Ok? ==> r.value.(tags := t.tags, imageTags := t.imageTags, nextTagId := t.nextTagId) == t
    ensures r.Err? ==> r.error == DuplicateKey
  {
    var g := TagIdFor(t, owner, name);
    var t1 := if FirstTag(t, owner, name).None? then t.(tags := t.tags[g := Tag(name, owner)], nextTagId := g + 1) else t;
    if ImageTag(image, g) in t1.imageTags then Err(DuplicateKey)
    else Ok(t1.(imageTags := t1.imageTags + {ImageTag(image, g)}))
  }

  /**
   * The whole tag loop over the parsed names, in order, stopping at the first
   * failing INSERT. It touches only TAGS and IMAGEM_TAGS.
   */
  function Attached(t: Tables, owner: UserId, image: ImageId, names: seq<string>): (r: Result<Tables>)
    ensures r.Ok? ==> r.value.(tags := t.tags, imageTags := t.imageTags, nextTagId := t.nextTagId) == t
    ensures r.Err? ==> r.error == DuplicateKey
    decreases names
  {
    if names == [] then Ok(t)
    else
      var t1 := AttachOne(t, owner, image, names[0]);
      if t1.Err? then t1 else Attached(t1.value, owner, image, names[1..])
  }

  /** No name occurs twice. */
  predicate Distinct(names: seq<string>) {
    forall j, k :: 0 <= j < k < |names| ==> names[j] != names[k]
  }

  /** Every tag link of the image names a tag that exists. */
  ghost predicate ImageLinksKnown(t: Tables, image: ImageId) {
    forall x :: x in t.imageTags && x.image == image ==> x.tag in t.tags
  }

  /** The image is already linked to the owner's tag of that name. */
  ghost predicate LinkedName(t: Tables, owner: UserId, image: ImageId, name: string) {
    exists g :: g in t.tags && t.tags[g] == Tag(name, owner) && ImageTag(image, g) in t.imageTags
  }

  /** One successful turn keeps the tag table well kept, creates a tag only when the name was new, and adds one link. */
  lemma {:induction false} AttachOneSpec(t: Tables, owner: UserId, image: ImageId, name: string)
    requires TagStore(t)
    requires AttachOne(t, owner, image, name).Ok?
    ensures var r := AttachOne(t, owner, image, name).value;
            && TagStore(r)
            && TagIdFor(t, owner, name) in r.tags && r.tags[TagIdFor(t, owner, name)] == Tag(name, owner)
            && (forall g :: g in t.tags ==> g in r.tags && r.tags[g] == t.tags[g])
            && (forall g :: g in r.tags && g !in t.tags ==> r.tags[g] == Tag(name, owner))
            && r.imageTags == t.imageTags + {ImageTag(image, TagIdFor(t, owner, name))}
  {
    FirstTagFinds(t, owner, name);
  }

  /** A turn fails exactly when the image already has the owner's tag of that name. */
  lemma {:induction false} AttachOneFails(t: Tables, owner: UserId, image: ImageId, name: string)
    requires TagStore(t) && ImageLinksKnown(t, image)
    ensures AttachOne(t, owner, image, name).Err? <==> LinkedName(t, owner, image, name)
  {
    FirstTagFinds(t, owner, name);
    var g := TagIdFor(t, owner, name);
    if FirstTag(t, owner, name).Some? {
      if LinkedName(t, owner, image, name) {
        var h :| h in t.tags && t.tags[h] == Tag(name, owner) && ImageTag(image, h) in t.imageTags;
        assert t.tags[h] == t.tags[g];
      }
    } else {
      assert g !in t.tags;
      forall h | h in t.tags ensures t.tags[h] != Tag(name, owner) {
        assert t.tags[h] in t.tags.Values;
      }
    }
  }

  /** After a successful turn the image's links are still known, and the named tag is now linked as well. */
  lemma {:induction false} AttachOneLinked(t: Tables, owner: UserId, image: ImageId, name: string)
    requires TagStore(t) && ImageLinksKnown(t, image)
    requires AttachOne(t, owner, image, name).Ok?
    ensures var r := AttachOne(t, owner, image, name).value;
            && ImageLinksKnown(r, image)
            && forall n :: LinkedName(r, owner, image, n) <==> LinkedName(t, owner, image, n) || n == name
  {
    var r := AttachOne(t, owner, image, name).value;
    var g := TagIdFor(t, owner, name);
    AttachOneSpec(t, owner, image, name);
    forall n ensures LinkedName(r, owner, image, n) <==> LinkedName(t, owner, image, n) || n == name {
      if LinkedName(t, owner, image, n) {
        var h :| h in t.tags && t.tags[h] == Tag(n, owner) && ImageTag(image, h) in t.imageTags;
        assert h in r.tags && r.tags[h] == Tag(n, owner) && ImageTag(image, h) in r.imageTags;
      }
      if n == name {
        assert g in r.tags && r.tags[g] == Tag(n, owner) && ImageTag(image, g) in r.imageTags;
      }
      if LinkedName(r, owner, image, n) && n != name {
        var h :| h in r.tags && r.tags[h] == Tag(n, owner) && ImageTag(image, h) in r.imageTags;
        assert h != g;
        assert ImageTag(image, h) in t.imageTags;
      }
    }
  }

  /** A list is without repeats exactly when its tail is and its head does not recur. */
  lemma {:induction false} DistinctCons(names: seq<string>)
    requires names != []
    ensures Distinct(names) <==> Distinct(names[1..]) && names[0] !in names[1..]
  {
    if Distinct(names[1..]) && names[0] !in names[1..] {
      forall j, k | 0 <= j < k < |names| ensures names[j] != names[k] {
        assert names[k] == names[1..][k - 1];
        if j > 0 {
          assert names[j] == names[1..][j - 1];
        }
      }
    }
    if Distinct(names) {
      forall j, k | 0 <= j < k < |names[1..]| ensures names[1..][j] != names[1..][k] {
        assert names[1..][j] == names[j + 1] && names[1..][k] == names[k + 1];
      }
      forall k | 0 <= k < |names[1..]| ensures names[1..][k] != names[0] {
        assert names[1..][k] == names[k + 1];
      }
    }
  }

  /**
   * The tag loop succeeds exactly when no name repeats and the image is not
   * yet linked to the owner's tag of any of the names.
   */
  lemma {:induction false} AttachedOk(t: Tables, owner: UserId, image: ImageId, names: seq<string>)
    requires TagStore(t) && ImageLinksKnown(t, image)
    ensures Attached(t, owner, image, names).Ok? <==>
              Distinct(names) && forall n :: n in names ==> !LinkedName(t, owner, image, n)
    decreases names
  {
    if names != [] {
      var n0 := names[0];
      AttachOneFails(t, owner, image, n0);
      if AttachOne(t, owner, image, n0).Ok? {
        var t1 := AttachOne(t, owner, image, n0).value;
        AttachOneSpec(t, owner, image, n0);
        AttachOneLinked(t, owner, image, n0);
        AttachedOk(t1, owner, image, names[1..]);
        assert forall n :: n in names <==> n == n0 || n in names[1..];
        DistinctCons(names);
      }
    }
  }

  /** For an image without tag links, the loop fails exactly when a name repeats. */
  lemma {:induction false} AttachedFresh(t: Tables, owner: UserId, image: ImageId, names: seq<string>)
    requires TagStore(t)
    requires forall x :: x in t.imageTags ==> x.image != image
    ensures Attached(t, owner, image, names).Ok? <==> Distinct(names)
  {
    AttachedOk(t, owner, image, names);
  }

  /**
   * After a successful tag loop the tag table is still well kept, old tags
   * are unchanged, every new tag is the owner's and carries one of the names,
   * and the image is linked to exactly the owner's tags bearing those names.
   */
  lemma {:induction false} AttachedSpec(t: Tables, owner: UserId, image: ImageId, names: seq<string>)
    requires TagStore(t)
    requires Attached(t, owner, image, names).Ok?
    ensures var r := Attached(t, owner, image, names).value;
            && TagStore(r)
            && (forall g :: g in t.tags ==> g in r.tags && r.tags[g] == t.tags[g])
            && (forall g :: g in r.tags && g !in t.tags ==> r.tags[g].owner == owner && r.tags[g].name in names)
            && (forall n :: n in names ==> Tag(n, owner) in r.tags.Values)
            && (forall x :: x in r.imageTags <==>
                  x in t.imageTags || (x.image == image && x.tag in r.tags && r.tags[x.tag].owner == owner && r.tags[x.tag].name in names))
    decreases names
  {
    if names != [] {
      var n0 := names[0];
      var t1 := AttachOne(t, owner, image, n0).value;
      var g0 := TagIdFor(t, owner, n0);
      AttachOneSpec(t, owner, image, n0);
      AttachedSpec(t1, owner, image, names[1..]);
      var r := Attached(t, owner, image, names).value;
      assert r == Attached(t1, owner, image, names[1..]).value;
      assert r.tags[g0] == Tag(n0, owner);
      forall n | n in names ensures Tag(n, owner) in r.tags.Values {
        if n == n0 {
          assert r.tags[g0] == Tag(n, owner);
        } else {
          assert n in names[1..];
        }
      }
      forall x: ImageTag | x.image == image && x.tag in r.tags && r.tags[x.tag].owner == owner && r.tags[x.tag].name in names
        ensures x in r.imageTags
      {
        if r.tags[x.tag].name !in names[1..] {
          assert r.tags[x.tag] == r.tags[g0];
          assert x == ImageTag(image, g0);
        }
      }
    }
  }

  /**
   * The loop of POST /upload and POST /imagem/:id/edit over the parsed tag
   * names. On a failing INSERT it stops; the caller's rollback restores the
   * tables.
   */
  method AttachTags(db: Db, owner: UserId, image: ImageId, names: seq<string>) returns (r: Result<()>)
    modifies db`tables
    ensures Attached(old(db.tables), owner, image, names).Ok? ==>
              r == Ok(()) && db.tables == Attached(old(db.tables), owner, image, names).value
    ensures Attached(old(db.tables), owner, image, names).Err? ==> r == Err(DuplicateKey)
  {
    var rest := names;
    while rest != []
      invariant Attached(db.tables, owner, image, rest) == Attached(old(db.tables), owner, image, names)
      decreases |rest|
    {
      ghost var before := db.tables;
      var name := rest[0];
      var found := FirstTag(db.tables, owner, name);
      var g: TagId;
      if found.Some? {
        g := found.value;
      } else {
        g := db.tables.nextTagId;
        db.tables := db.tables.(tags := db.tables.tags[g := Tag(name, owner)], nextTagId := g + 1);
      }
      if ImageTag(image, g) in db.tables.imageTags {
        assert AttachOne(before, owner, image, name).Err?;
        return Err(DuplicateKey);
      }
      db.tables := db.tables.(imageTags := db.tables.imageTags + {ImageTag(image, g)});
      assert db.tables == AttachOne(before, owner, image, name).value;
      rest := rest[1..];
    }
    r := Ok(());
  }

  /** A successful tag loop over an existing image and an existing owner keeps the store consistent. */
  lemma {:induction false} AttachedConsistent(t: Tables, owner: UserId, image: ImageId, names: seq<string>)
    requires Consistent(t)
    requires owner in t.users && image in t.images
    requires Attached(t, owner, image, names).Ok?
    ensures Consistent(Attached(t, owner, image, names).value)
  {
    var r := Attached(t, owner, image, names).value;
    AttachedSpec(t, owner, image, names);
    forall g | g in r.tags ensures r.tags[g].owner in t.users {
      if g in t.tags {
        assert t.tags[g].owner in t.users;
      }
    }
    forall x | x in r.imageTags ensures x.image in t.images && x.tag in r.tags {
      if x in t.imageTags {
        assert x.tag in t.tags;
      }
    }
    NewTagsConsistent(t, r.tags, r.imageTags, r.nextTagId);
    assert r == t.(tags := r.tags, imageTags := r.imageTags, nextTagId := r.nextTagId);
  }

  // ---------------------------------------------------------------------------
  // POST /upload
  // ---------------------------------------------------------------------------

  /**
   * The album fields of the upload form. `existing` is None when
   * `album_existente` is absent or empty; an absent `album_novo_nome` is "".
   */
  datatype AlbumChoice = AlbumChoice(tipoAlbum: string, existing: Option<AlbumId>, newName: string, newDescription: string)

  /** What the upload middleware stored before the handler ran: the blob's key and its URL. */
  datatype UploadedFile = UploadedFile(fileName: string, url: string)

  /**
   * The album branch: `novo` with a name inserts an album owned by the
   * uploader; `existente` with an id needs the edit permission; anything else
   * is refused.
   */
  function PickAlbum(t: Tables, me: UserId, c: AlbumChoice): Result<(Tables, AlbumId)> {
    if c.tipoAlbum == "novo" && c.newName != "" then
      if me !in t.users then Err(StorageFailure)
      else Ok((t.(albums := t.albums[t.nextAlbumId := Album(me, c.newName, c.newDescription)], nextAlbumId := t.nextAlbumId + 1),
               t.nextAlbumId))
    else if c.tipoAlbum == "existente" && c.existing.Some? then
      if CanEditAlbum(t, me, c.existing.value) then Ok((t, c.existing.value)) else Err(NoEditPermission)
    else Err(AlbumChoiceMissing)
  }

  /** The IMAGENS insert and the IMAGEM_ALBUNS insert; either fails on a dangling foreign key. */
  function AddImage(t: Tables, me: UserId, a: AlbumId, file: UploadedFile, descricao: string,
                    category: Option<CategoryId>, now: Timestamp): Result<(Tables, ImageId)> {
    if me !in t.users || (category.Some? && category.value !in t.categories) then Err(StorageFailure)
    else
      var i := t.nextImageId;
      var t1 := t.(images := t.images[i := Image(me, file.fileName, file.url, descricao, category, now)], nextImageId := i + 1);
      if a !in t1.albums then Err(StorageFailure)
      else Ok((t1.(links := t1.links + {Link(i, a)}), i))
  }

  /**
   * The committed outcome of an upload whose tag text parsed to `names`: the
   * new tables and the album the image went into.
   */
  function Uploaded(t: Tables, me: UserId, c: AlbumChoice, file: UploadedFile, descricao: string,
                    category: Option<CategoryId>, names: seq<string>, now: Timestamp): Result<(Tables, AlbumId)> {
    var p := PickAlbum(t, me, c);
    if p.Err? then Err(p.error)
    else
      var q := AddImage(p.value.0, me, p.value.1, file, descricao, category, now);
      if q.Err? then Err(q.error)
      else
        var a := Attached(q.value.0, me, q.value.1, names);
        if a.Err? then Err(a.error) else Ok((a.value, p.value.1))
  }

  /** The album branch of POST /upload, run inside the transaction. */
  method ChooseAlbum(db: Db, me: UserId, c: AlbumChoice) returns (r: Result<AlbumId>)
    modifies db`tables
    ensures var p := PickAlbum(old(db.tables), me, c);
            && (p.Ok? ==> r == Ok(p.value.1) && db.tables == p.value.0)
            && (p.Err? ==> r == Err(p.error) && db.tables == old(db.tables))
  {
    if c.tipoAlbum == "novo" && c.newName != "" {
      if me !in db.tables.users {
        return Err(StorageFailure);
      }
      var a := db.tables.nextAlbumId;
      db.tables := db.tables.(albums := db.tables.albums[a := Album(me, c.newName, c.newDescription)], nextAlbumId := a + 1);
      r := Ok(a);
    } else if c.tipoAlbum == "existente" && c.existing.Some? {
      if !CanEditAlbum(db.tables, me, c.existing.value) {
        return Err(NoEditPermission);
      }
      r := Ok(c.existing.value);
    } else {
      r := Err(AlbumChoiceMissing);
    }
  }

  /** The two inserts of POST /upload that record the image and put it into the album. */
  method InsertImage(db: Db, me: UserId, a: AlbumId, file: UploadedFile, descricao: string,
                     category: Option<CategoryId>, now: Timestamp) returns (r: Result<ImageId>)
    modifies db`tables
    ensures var p := AddImage(old(db.tables), me, a, file, descricao, category, now);
            && (p.Ok? ==> r == Ok(p.value.1) && db.tables == p.value.0)
            && (p.Err? ==> r == Err(p.error))
  {
    if me !in db.tables.users || (category.Some? && category.value !in db.tables.categories) {
      return Err(StorageFailure);
    }
    var i := db.tables.nextImageId;
    db.tables := db.tables.(images := db.tables.images[i := Image(me, file.fileName, file.url, descricao, category, now)],
                            nextImageId := i + 1);
    if a !in db.tables.albums {
      return Err(StorageFailure);
    }
    db.tables := db.tables.(links := db.tables.links + {Link(i, a)});
    r := Ok(i);
  }

  /**
   * POST /upload. `category` is `categoria_id || null`; `now` is the
   * database clock. On any error the transaction rolls back.
   */
  method Upload(db: Db, me: UserId, c: AlbumChoice, file: UploadedFile, descricao: string,
                category: Option<CategoryId>, tags: Option<string>, now: Timestamp) returns (r: Result<AlbumId>)
    modifies db`tables
    ensures var u := Uploaded(old(db.tables), me, c, file, descricao, category, ParseTags(tags), now);
            && (u.Ok? ==> r == Ok(u.value.1) && db.tables == u.value.0)
            && (u.Err? ==> r == Err(u.error) && db.tables == old(db.tables))
  {
    var t0 := db.tables;
    var album := ChooseAlbum(db, me, c);
    if album.Err? {
      return Err(album.error);
    }
    var image := InsertImage(db, me, album.value, file, descricao, category, now);
    if image.Err? {
      db.tables := t0;
      return Err(image.error);
    }
    var tagged := AttachTags(db, me, image.value, ParseTags(tags));
    if tagged.Err? {
      db.tables := t0;
      return Err(tagged.error);
    }
    r := Ok(album.value);
  }

  /**
   * The album choice decides the refusals: neither a named new album nor an
   * existing id is one error, an existing album without edit permission the
   * other; every other failure is a storage failure.
   */
  lemma {:induction false} UploadRefusals(t: Tables, me: UserId, c: AlbumChoice, file: UploadedFile, descricao: string,
                       category: Option<CategoryId>, names: seq<string>, now: Timestamp)
    ensures var u := Uploaded(t, me, c, file, descricao, category, names, now);
            && (u == Err(AlbumChoiceMissing) <==>
                  !(c.tipoAlbum == "novo" && c.newName != "") && !(c.tipoAlbum == "existente" && c.existing.Some?))
            && (u == Err(NoEditPermission) <==>
                  !(c.tipoAlbum == "novo" && c.newName != "") && c.tipoAlbum == "existente" && c.existing.Some? &&
                  !CanEditAlbum(t, me, c.existing.value))
            && (u.Err? ==> u.error in {AlbumChoiceMissing, NoEditPermission, StorageFailure, DuplicateKey})
  {
  }

  /**
   * An upload succeeds exactly when the uploader exists, the category (if
   * any) exists, the album is a new one or an existing album they may edit,
   * and no tag name repeats; a repeated name fails the second IMAGEM_TAGS
   * insert for the new image.
   */
  lemma {:induction false} UploadSucceeds(t: Tables, me: UserId, c: AlbumChoice, file: UploadedFile, descricao: string,
                       category: Option<CategoryId>, names: seq<string>, now: Timestamp)
    requires Consistent(t)
    ensures Uploaded(t, me, c, file, descricao, category, names, now).Ok? <==>
              && me in t.users
              && (category.None? || category.value in t.categories)
              && ((c.tipoAlbum == "novo" && c.newName != "") ||
                  (c.tipoAlbum == "existente" && c.existing.Some? && CanEditAlbum(t, me, c.existing.value)))
              && Distinct(names)
    ensures Uploaded(t, me, c, file, descricao, category, names, now) == Err(DuplicateKey) <==>
              && me in t.users
              && (category.None? || category.value in t.categories)
              && ((c.tipoAlbum == "novo" && c.newName != "") ||
                  (c.tipoAlbum == "existente" && c.existing.Some? && CanEditAlbum(t, me, c.existing.value)))
              && !Distinct(names)
  {
    if !(c.tipoAlbum == "novo" && c.newName != "") && c.tipoAlbum == "existente" && c.existing.Some? &&
       CanEditAlbum(t, me, c.existing.value) {
      EditImpliesView(t, me, c.existing.value);
    }
    var p := PickAlbum(t, me, c);
    if p.Ok? && AddImage(p.value.0, me, p.value.1, file, descricao, category, now).Ok? {
      UploadTags(t, me, c, file, descricao, category, names, now);
    }
  }

  /** Once the album and the image rows are in, the upload fails exactly on a repeated tag name. */
  lemma {:induction false} UploadTags(t: Tables, me: UserId, c: AlbumChoice, file: UploadedFile, descricao: string,
                                     category: Option<CategoryId>, names: seq<string>, now: Timestamp)
    requires Consistent(t)
    requires PickAlbum(t, me, c).Ok?
    requires AddImage(PickAlbum(t, me, c).value.0, me, PickAlbum(t, me, c).value.1, file, descricao, category, now).Ok?
    ensures Uploaded(t, me, c, file, descricao, category, names, now).Ok? <==> Distinct(names)
    ensures Uploaded(t, me, c, file, descricao, category, names, now).Err? ==>
              Uploaded(t, me, c, file, descricao, category, names, now).error == DuplicateKey
  {
    var (t1, a) := PickAlbum(t, me, c).value;
    var (t2, i) := AddImage(t1, me, a, file, descricao, category, now).value;
    assert i == t.nextImageId && i !in t.images;
    assert t2.imageTags == t.imageTags && t2.tags == t.tags && t2.nextTagId == t.nextTagId;
    AttachedFresh(t2, me, i, names);
  }

  /**
   * A successful upload inserts one new image owned by the uploader, links it
   * to exactly the chosen album, and tags it with exactly the uploader's tags
   * named in the tag text; users, shares and friendships are untouched.
   */
  lemma {:induction false} UploadInsertsImage(t: Tables, me: UserId, c: AlbumChoice, file: UploadedFile, descricao: string,
                           category: Option<CategoryId>, names: seq<string>, now: Timestamp)
    requires KeysBelow(t.images.Keys, t.nextImageId) && TagStore(t)
    requires Uploaded(t, me, c, file, descricao, category, names, now).Ok?
    ensures var (t', a) := Uploaded(t, me, c, file, descricao, category, names, now).value;
            var i := t.nextImageId;
            && i !in t.images
            && t'.images == t.images[i := Image(me, file.fileName, file.url, descricao, category, now)]
            && t'.links == t.links + {Link(i, a)}
            && (forall x :: x in t'.imageTags <==>
                  x in t.imageTags || (x.image == i && x.tag in t'.tags && t'.tags[x.tag].owner == me && t'.tags[x.tag].name in names))
            && t'.users == t.users && t'.shares == t.shares && t'.friendships == t.friendships
  {
    var (t1, a) := PickAlbum(t, me, c).value;
    var (t2, i) := AddImage(t1, me, a, file, descricao, category, now).value;
    AttachedSpec(t2, me, i, names);
  }

  /** A new album, when the choice creates one, belongs to the uploader; otherwise the albums are unchanged. */
  lemma {:induction false} UploadAlbum(t: Tables, me: UserId, c: AlbumChoice, file: UploadedFile, descricao: string,
                    category: Option<CategoryId>, names: seq<string>, now: Timestamp)
    requires KeysBelow(t.albums.Keys, t.nextAlbumId)
    requires Uploaded(t, me, c, file, descricao, category, names, now).Ok?
    ensures var (t', a) := Uploaded(t, me, c, file, descricao, category, names, now).value;
            && (c.tipoAlbum == "novo" && c.newName != "" ==>
                  a !in t.albums && t'.albums == t.albums[a := Album(me, c.newName, c.newDescription)])
            && (!(c.tipoAlbum == "novo" && c.newName != "") ==>
                  Some(a) == c.existing && CanEditAlbum(t, me, a) && t'.albums == t.albums)
  {
    var (t1, a) := PickAlbum(t, me, c).value;
    var (t2, i) := AddImage(t1, me, a, file, descricao, category, now).value;
    assert t2.albums == t1.albums;
    assert Uploaded(t, me, c, file, descricao, category, names, now).value == (Attached(t2, me, i, names).value, a);
  }

  lemma {:induction false} UploadConsistent(t: Tables, me: UserId, c: AlbumChoice, file: UploadedFile, descricao: string,
                         category: Option<CategoryId>, names: seq<string>, now: Timestamp)
    requires Consistent(t)
    requires Uploaded(t, me, c, file, descricao, category, names, now).Ok?
    ensures Consistent(Uploaded(t, me, c, file, descricao, category, names, now).value.0)
  {
    var (t1, a) := PickAlbum(t, me, c).value;
    PickAlbumConsistent(t, me, c);
    var (t2, i) := AddImage(t1, me, a, file, descricao, category, now).value;
    AddImageConsistent(t1, me, a, file, descricao, category, now);
    AttachedConsistent(t2, me, i, names);
  }

  lemma {:induction false} PickAlbumConsistent(t: Tables, me: UserId, c: AlbumChoice)
    requires Consistent(t)
    requires PickAlbum(t, me, c).Ok?
    ensures Consistent(PickAlbum(t, me, c).value.0)
  {
    if c.tipoAlbum == "novo" && c.newName != "" {
      NewAlbumConsistent(t, Album(me, c.newName, c.newDescription));
    }
  }

  lemma {:induction false} AddImageConsistent(t: Tables, me: UserId, a: AlbumId, file: UploadedFile, descricao: string,
                           category: Option<CategoryId>, now: Timestamp)
    requires Consistent(t)
    requires AddImage(t, me, a, file, descricao, category, now).Ok?
    ensures Consistent(AddImage(t, me, a, file, descricao, category, now).value.0)
  {
    NewImageConsistent(t, Image(me, file.fileName, file.url, descricao, category, now), a);
  }

  // ---------------------------------------------------------------------------
  // POST /imagem/:id/edit
  // ---------------------------------------------------------------------------

  /** The UPDATE of the image row and the DELETE of its IMAGEM_TAGS rows. */
  function Retagged(t: Tables, i: ImageId, descricao: string, category: Option<CategoryId>): Tables
    requires i in t.images
  {
    t.(images := t.images[i := t.images[i].(description := descricao, category := category)],
       imageTags := set x | x in t.imageTags && x.image != i)
  }

  /**
   * The committed outcome of an image edit whose tag text parsed to `names`.
   * The UPDATE matches no row unless the user owns the image; a category that
   * does not exist fails the UPDATE.
   */
  function ImageEdited(t: Tables, me: UserId, i: ImageId, descricao: string, category: Option<CategoryId>,
                       names: seq<string>): Result<Tables> {
    if !OwnsImage(t, me, i) then Err(ImageNotEditable)
    else if category.Some? && category.value !in t.categories then Err(StorageFailure)
    else Attached(Retagged(t, i, descricao, category), me, i, names)
  }

  /** `SELECT AlbumID FROM IMAGEM_ALBUNS WHERE ImagemID = ? LIMIT 1`: any album the image is in. */
  method SomeAlbumOf(db: Db, i: ImageId) returns (a: Option<AlbumId>)
    ensures a.Some? ==> Link(i, a.value) in db.tables.links
    ensures a.None? ==> forall x :: Link(i, x) !in db.tables.links
  {
    var albums := set l | l in db.tables.links && l.image == i :: l.album;
    assert forall x :: Link(i, x) in db.tables.links ==> x in albums;
    if albums == {} {
      a := None;
    } else {
      var x :| x in albums;
      a := Some(x);
    }
  }

  /**
   * POST /imagem/:id/edit. `category` is `categoria_id || null`. After the
   * commit the handler redirects to some album of the image, if it has one.
   */
  method EditImage(db: Db, me: UserId, i: ImageId, descricao: string, category: Option<CategoryId>,
                   tags: Option<string>) returns (r: Result<Option<AlbumId>>)
    modifies db`tables
    ensures var e := ImageEdited(old(db.tables), me, i, descricao, category, ParseTags(tags));
            && (e.Err? ==> r == Err(e.error) && db.tables == old(db.tables))
            && (e.Ok? ==> r.Ok? && db.tables == e.value)
    ensures r.Ok? && r.value.Some? ==> Link(i, r.value.value) in db.tables.links
    ensures r.Ok? && r.value.None? ==> forall x :: Link(i, x) !in db.tables.links
  {
    if !OwnsImage(db.tables, me, i) {
      return Err(ImageNotEditable);
    }
    if category.Some? && category.value !in db.tables.categories {
      return Err(StorageFailure);
    }
    var t0 := db.tables;
    db.tables := Retagged(db.tables, i, descricao, category);
    var tagged := AttachTags(db, me, i, ParseTags(tags));
    if tagged.Err? {
      db.tables := t0;
      return Err(tagged.error);
    }
    var a := SomeAlbumOf(db, i);
    r := Ok(a);
  }

  /**
   * An edit is refused when the user does not own the image, fails on a
   * category that does not exist, and otherwise, in a well-kept tag table,
   * succeeds exactly when no tag name repeats: the DELETE has emptied the
   * image's links, so only a repeat can hit the key of IMAGEM_TAGS.
   */
  lemma {:induction false} EditImageOutcome(t: Tables, me: UserId, i: ImageId, descricao: string,
                                            category: Option<CategoryId>, names: seq<string>)
    ensures var e := ImageEdited(t, me, i, descricao, category, names);
            && (e == Err(ImageNotEditable) <==> !OwnsImage(t, me, i))
            && (e == Err(StorageFailure) <==> OwnsImage(t, me, i) && category.Some? && category.value !in t.categories)
            && (e.Err? ==> e.error in {ImageNotEditable, StorageFailure, DuplicateKey})
            && (TagStore(t) ==>
                  (e.Ok? <==> OwnsImage(t, me, i) && (category.None? || category.value in t.categories) && Distinct(names)))
  {
    if TagStore(t) && OwnsImage(t, me, i) && (category.None? || category.value in t.categories) {
      AttachedFresh(Retagged(t, i, descricao, category), me, i, names);
    }
  }

  /**
   * A successful edit rewrites the description and category, replaces the
   * image's tag links by exactly the user's tags named in the text, and
   * leaves albums, links, shares and users alone.
   */
  lemma {:induction false} EditImageReplacesTags(t: Tables, me: UserId, i: ImageId, descricao: string,
                                                 category: Option<CategoryId>, names: seq<string>)
    requires TagStore(t)
    requires ImageEdited(t, me, i, descricao, category, names).Ok?
    ensures var t' := ImageEdited(t, me, i, descricao, category, names).value;
            && t'.images == t.images[i := t.images[i].(description := descricao, category := category)]
            && (forall x :: x in t'.imageTags <==>
                  (x in t.imageTags && x.image != i) ||
                  (x.image == i && x.tag in t'.tags && t'.tags[x.tag].owner == me && t'.tags[x.tag].name in names))
            && t'.albums == t.albums && t'.links == t.links && t'.shares == t.shares && t'.users == t.users
  {
    AttachedSpec(Retagged(t, i, descricao, category), me, i, names);
  }

  lemma {:induction false} EditImageConsistent(t: Tables, me: UserId, i: ImageId, descricao: string,
                                               category: Option<CategoryId>, names: seq<string>)
    requires Consistent(t)
    requires ImageEdited(t, me, i, descricao, category, names).Ok?
    ensures Consistent(ImageEdited(t, me, i, descricao, category, names).value)
  {
    var t1 := Retagged(t, i, descricao, category);
    assert ImagesIntact(t1.images, t1.users, t1.categories);
    assert ImageTagsIntact(t1.imageTags, t1.images, t1.tags);
    forall s | s in t1.shares ensures ShareRowIntact(s, t1.users, t1.albums, t1.images) {
      assert ShareRowIntact(s, t.users, t.albums, t.images);
    }
    assert Consistent(t1);
    AttachedConsistent(t1, me, i, names);
  }

  /** The names of the tags linked to an image: what the edit page lists. */
  ghost function TagNamesOf(t: Tables, i: ImageId): set<string> {
    set x | x in t.imageTags && x.image == i && x.tag in t.tags :: t.tags[x.tag].name
  }

  /**
   * Submitting the edit form with its tag field as the page filled it in
   * keeps the image's tag links: when the image's tags are the user's own
   * and their names are usable, the joined names, one per linked tag and so
   * without repeats, parse back and find the very same tags.
   */
  lemma {:induction false} EditKeepsListedTags(t: Tables, me: UserId, i: ImageId, descricao: string,
                                               category: Option<CategoryId>, names: seq<string>)
    requires TagStore(t) && ImageTagsIntact(t.imageTags, t.images, t.tags)
    requires OwnsImage(t, me, i) && (category.None? || category.value in t.categories)
    requires forall x :: x in t.imageTags && x.image == i && x.tag in t.tags ==> t.tags[x.tag].owner == me
    requires forall n :: n in names ==> TagName(n)
    requires Distinct(names) && (set n | n in names) == TagNamesOf(t, i)
    ensures var e := ImageEdited(t, me, i, descricao, category, ParseTags(Some(Join(names, ", "))));
            e.Ok? && e.value.imageTags == t.imageTags
  {
    ParseTagsOfJoined(names);
    ListedTagsReattached(t, me, i, descricao, category, names);
  }

  /** The tag loop over the listed names, after the DELETE, links exactly the tags that were linked before. */
  lemma {:induction false} ListedTagsReattached(t: Tables, me: UserId, i: ImageId, descricao: string,
                                                category: Option<CategoryId>, names: seq<string>)
    requires TagStore(t) && ImageTagsIntact(t.imageTags, t.images, t.tags) && i in t.images
    requires forall x :: x in t.imageTags && x.image == i && x.tag in t.tags ==> t.tags[x.tag].owner == me
    requires Distinct(names) && (set n | n in names) == TagNamesOf(t, i)
    ensures Attached(Retagged(t, i, descricao, category), me, i, names).Ok?
    ensures Attached(Retagged(t, i, descricao, category), me, i, names).value.imageTags == t.imageTags
  {
    var t1 := Retagged(t, i, descricao, category);
    AttachedFresh(t1, me, i, names);
    var r := Attached(t1, me, i, names).value;
    AttachedSpec(t1, me, i, names);
    forall x: ImageTag | x.image == i && x.tag in r.tags && r.tags[x.tag].owner == me && r.tags[x.tag].name in names
      ensures x in t.imageTags
    {
      var n := r.tags[x.tag].name;
      assert n in (set n | n in names);
      var y := NameSource(t, i, n);
      assert r.tags[y.tag] == t.tags[y.tag] == r.tags[x.tag];
      assert x.tag == y.tag;
    }
    forall x | x in t.imageTags && x.image == i
      ensures x.tag in r.tags && r.tags[x.tag].owner == me && r.tags[x.tag].name in names
    {
      assert t.tags[x.tag].name in TagNamesOf(t, i);
      assert t.tags[x.tag].name in (set n | n in names);
    }
  }

  /** A listed name comes from some tag link of the image. */
  lemma {:induction false} NameSource(t: Tables, i: ImageId, n: string) returns (y: ImageTag)
    requires n in TagNamesOf(t, i)
    ensures y in t.imageTags && y.image == i && y.tag in t.tags && t.tags[y.tag].name == n
  {
    y :| y in t.imageTags && y.image == i && y.tag in t.tags && t.tags[y.tag].name == n;
  }

  // ---------------------------------------------------------------------------
  // POST /imagem/:id/delete
  // ---------------------------------------------------------------------------

  /**
   * POST /imagem/:id/delete. Only the owner may delete; the blob is destroyed
   * first (a key in `blobFailures` makes that call throw), then the row goes,
   * taking its album links, tag links and shares with it.
   */
  method DeleteImage(db: Db, me: UserId, i: ImageId, blobFailures: set<string>) returns (r: Result<()>)
    modifies db`tables, db`blobLog
    ensures !OwnsImage(old(db.tables), me, i) ==>
              r == Err(Forbidden) && db.tables == old(db.tables) && db.blobLog == old(db.blobLog)
    ensures OwnsImage(old(db.tables), me, i) && old(db.tables).images[i].fileName in blobFailures ==>
              r == Err(StorageFailure) && db.tables == old(db.tables) && db.blobLog == old(db.blobLog)
    ensures OwnsImage(old(db.tables), me, i) && old(db.tables).images[i].fileName !in blobFailures ==>
              && r == Ok(())
              && db.blobLog == old(db.blobLog) + [Destroy(old(db.tables).images[i].fileName)]
              && db.tables == RemoveImages(old(db.tables), {i})
  {
    if !OwnsImage(db.tables, me, i) {
      return Err(Forbidden);
    }
    var key := db.tables.images[i].fileName;
    if key in blobFailures {
      return Err(StorageFailure);
    }
    db.blobLog := db.blobLog + [Destroy(key)];
    db.tables := RemoveImages(db.tables, {i});
    r := Ok(());
  }

  /**
   * Deleting an image leaves no trace of it, in links, tag links or shares,
   * and leaves every other image, album, link and share alone.
   */
  lemma {:induction false} ImageDeleted(t: Tables, i: ImageId)
    ensures var r := RemoveImages(t, {i});
            && i !in r.images
            && (forall j :: j != i && j in t.images ==> j in r.images && r.images[j] == t.images[j])
            && (forall l :: l in r.links <==> l in t.links && l.image != i)
            && (forall x :: x in r.imageTags <==> x in t.imageTags && x.image != i)
            && (forall s :: s in r.shares <==> s in t.shares && s.target != ImageTarget(i))
            && r.albums == t.albums && r.users == t.users
            && r.tags == t.tags && r.friendships == t.friendships && r.categories == t.categories
  {
  }

  // ---------------------------------------------------------------------------
  // POST /imagem/:id/share
  // ---------------------------------------------------------------------------

  /** `compartilhamentos` when it is an array; None stands for absent or not an array. */
  function Submitted(payload: Option<seq<ShareEntry>>): seq<ShareEntry> {
    if payload.Some? then payload.value else []
  }

  /**
   * POST /imagem/:id/share. The owner's image's share set is replaced by the
   * accepted entries' rows; no notification is sent. A row naming a user that
   * does not exist fails its insert and rolls everything back.
   */
  method ShareImage(db: Db, me: UserId, i: ImageId, payload: Option<seq<ShareEntry>>) returns (r: Result<Option<AlbumId>>)
    modifies db`tables
    ensures !OwnsImage(old(db.tables), me, i) ==> r == Err(Forbidden) && db.tables == old(db.tables)
    ensures OwnsImage(old(db.tables), me, i) ==>
              var rows := ShareRows(me, ImageTarget(i), Submitted(payload));
              && (KnownPrefix(old(db.tables).users, rows) == |rows| ==>
                    r.Ok? && db.tables == old(db.tables).(shares := Replace(old(db.tables).shares, ImageTarget(i), rows)))
              && (KnownPrefix(old(db.tables).users, rows) < |rows| ==>
                    r == Err(StorageFailure) && db.tables == old(db.tables))
    ensures r.Ok? && r.value.Some? ==> Link(i, r.value.value) in db.tables.links
    ensures r.Ok? && r.value.None? ==> forall x :: Link(i, x) !in db.tables.links
  {
    var t0 := db.tables;
    if !OwnsImage(t0, me, i) {
      return Err(Forbidden);
    }
    var target := ImageTarget(i);
    var kept := Without(t0.shares, Only(target));
    db.tables := t0.(shares := kept);
    var ok := InsertImageShares(db, t0, kept, me, target, Submitted(payload));
    if !ok {
      db.tables := t0;
      return Err(StorageFailure);
    }
    var a := SomeAlbumOf(db, i);
    r := Ok(a);
  }

  /**
   * The insert loop of POST /imagem/:id/share on the share set the DELETE
   * left. It stops at the first row whose recipient does not exist.
   */
  method InsertImageShares(db: Db, t0: Tables, kept: seq<Share>, me: UserId, target: Target, entries: seq<ShareEntry>)
    returns (ok: bool)
    requires db.tables == t0.(shares := kept)
    modifies db`tables
    ensures ok <==> KnownPrefix(t0.users, ShareRows(me, target, entries)) == |ShareRows(me, target, entries)|
    ensures ok ==> db.tables == t0.(shares := kept + ShareRows(me, target, entries))
  {
    var rest := entries;
    var rows: seq<Share> := [];
    while rest != []
      invariant ShareRows(me, target, entries) == rows + ShareRows(me, target, rest)
      invariant KnownPrefix(t0.users, rows) == |rows|
      invariant db.tables == t0.(shares := kept + rows)
      decreases |rest|
    {
      var e := rest[0];
      var next := RowOf(me, target, e);
      KnownPrefixAppend(t0.users, rows, ShareRows(me, target, rest));
      if e.friendId.Some? && ParsePermission(e.permissao).Some? {
        var row := Share(me, e.friendId.value, target, ParsePermission(e.permissao).value);
        assert next == [row];
        if row.recipient !in db.tables.users {
          return false;
        }
        db.tables := db.tables.(shares := db.tables.shares + [row]);
      }
      KnownPrefixAppend(t0.users, rows, next);
      SeqAssoc(kept, rows, next);
      SeqAssoc(rows, next, ShareRows(me, target, rest[1..]));
      rows := rows + next;
      rest := rest[1..];
    }
    assert rows + [] == rows;
    return true;
  }
}
