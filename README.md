# galeria-web: access and sharing, modelled in Dafny

galeria-web is a photo gallery served by Express route handlers over a MySQL
database. Users upload images into albums, tag and categorise them, make
friends, and share albums or single images with a permission of
`compartilhado` (view) or `editavel` (edit). This project models the rules
those handlers apply to the database and proves properties of them.

The whole database is one value, `Store.Tables`:
- users, albums, images, tags and categories are maps keyed by their
  auto-increment ids, each with a next-id counter;
- album links (IMAGEM_ALBUNS) and tag links (IMAGEM_TAGS) are sets;
- shares (COMPARTILHAMENTOS) and friendships (AMIZADES) are sequences kept
  in insertion order. That order is what the model uses for the "first row"
  of a SELECT without ORDER BY.

`Store.Db` is the handlers' connection. It holds the tables, plus two
append-only logs for what lies outside the transaction: `blobLog` records
the calls to the blob store (`destroy`, `delete_resources`) and `events`
records the socket notifications. A handler is a method on `Db`. It either
commits, by assigning the new tables, or fails with an `Error` and the
tables it started from, as the transaction's rollback does. The logs are
never rolled back. `Store.Consistent` states the referential integrity the
foreign keys give, fresh ids, unique tag names per owner, unique emails and
user names, and "a share is sent by the owner of its target".

Modules, by source file:
- `Store` (tables, cascades of the deletes) and `Sharing` (the
  delete-then-insert replacement of a target's shares), shared by all routes.
- `Text`: `trim`, `split(",")`, `join` and the substring test of `LIKE '%t%'`.
- `Albuns`: Projeto/routes/albuns.js.
- `Galeria`: Projeto/routes/galeria.js.
- `Amizades`: Projeto/routes/amizades.js.
- `AmizadesLegacy`: galeria-web/Projeto/routes/amizades.js.
- `Index`: Projeto/routes/index.js.
- `Compartilhados`: Projeto/routes/compartilhados.js.
- `TagSearch`: Projeto/routes/tag.js.
- `CadastroLogin`: both copies of cadastro_login.js, which differ only in
  comments.

Modelling conventions:
- An absent or empty request field is `None`, or `""` for a string field.
- A falsy id is `None`.
- Clocks (`NOW()`, `new Date()`) are `Timestamp` parameters.
- The password hash is a parameter, and the bcrypt comparison is a function
  parameter.
- Failures of the blob store are parameters: a set of keys whose `destroy`
  throws, or a flag for `delete_resources`.
- Foreign keys are assumed on every reference column, with `ON DELETE
  CASCADE` from albums, images and users to the rows that name them. The
  schema file is not part of this model, so these cascades are an
  assumption, written out in `Store.RemoveImages`, `Store.RemoveAlbum` and
  `Store.RemoveUser`. An insert that names a missing row fails, and the
  transaction rolls back.
- IMAGEM_TAGS is assumed to be keyed by the pair (ImagemID, TagID), as a
  junction table usually is. Linking a tag that the image already has
  therefore fails with `DuplicateKey`, and the upload or edit rolls back.
- String equality in SQL (`Email = ?`, `NomeUsuario = ?`, `Nome = ?`) is
  exact equality, as under a binary collation; see "## Left out".

## Model

| member | source | states |
|---|---|---|
| Store.Without | Projeto/routes/amizades.js:252-257 | A DELETE on COMPARTILHAMENTOS leaves no more rows than there were; which rows survive is `Store.WithoutMembers` |
| Store.WithoutMembers | Projeto/routes/albuns.js:342-344 | A share survives a DELETE exactly when it was present and the WHERE clause does not hit it |
| Store.WithoutAppend | Projeto/routes/albuns.js:342-344 | Deleting from a concatenation deletes from each part |
| Store.WithoutNoHits | Projeto/routes/galeria.js:432-434 | A DELETE whose clause hits no row changes nothing |
| Store.WithoutTargetsTwice | Projeto/routes/albuns.js:294-301 | Two cascaded share deletions, by album targets and by image targets, are one deletion by their union |
| Store.FriendshipsWithout | Projeto/routes/amizades.js:260 | `DELETE FROM AMIZADES WHERE AmizadeID = ?` removes exactly the rows with that id and keeps the others in order |
| Store.RemoveImages | Projeto/routes/galeria.js:333-335 | Deleting image rows removes exactly those images and, by cascade, exactly their album links, their tag links and their image shares |
| Store.RemoveAlbum | Projeto/routes/albuns.js:301 | Deleting an album row removes exactly it, its links and its album shares |
| Store.RemoveUser | Projeto/routes/cadastro_login.js:183 | Deleting a user removes exactly the user, their albums, images and tags, and, by cascade, exactly the links and tag links touching those, the shares they sent or received or that target their albums or images, and the friendships they are party to; every remaining user, album, image and tag keeps its values, and the categories are unchanged |
| Store.RemoveImagesConsistent | Projeto/routes/galeria.js:333-335 | Deleting images keeps the store consistent |
| Store.SharesChangedConsistent | Projeto/routes/albuns.js:342-357 | Any share set whose rows are intact (existing users, existing target owned by the sender) may replace the current one |
| Store.NewImageConsistent | Projeto/routes/galeria.js:125-134 | A new image of an existing owner and category, linked to an existing album under its next id, keeps the store consistent |
| Store.NewAlbumConsistent | Projeto/routes/galeria.js:101-106 | A new album of an existing owner under the next id keeps the store consistent |
| Store.NewTagsConsistent | Projeto/routes/galeria.js:141-160 | New tags and tag links that keep names unique per owner and point at existing rows keep the store consistent |
| Store.RemoveNoImages | Projeto/routes/albuns.js:284-298 | Deleting no image changes nothing: the state before the delete loop's first turn |
| Store.RemoveImagesTwice | Projeto/routes/albuns.js:284-298 | Deleting images one batch after another is deleting them all at once |
| Store.RemoveAlbumConsistent | Projeto/routes/albuns.js:301 | Deleting an album keeps the store consistent |
| Store.RemoveUserConsistent | Projeto/routes/cadastro_login.js:183 | Deleting a user with its cascades keeps the store consistent |
| Store.RemoveUserOwners | Projeto/routes/cadastro_login.js:183 | After a user is deleted, every remaining album, image and tag has an existing owner, every remaining image an existing category, every remaining friendship two existing parties, and tag names and accounts stay unique (that the remaining rows are unchanged is stated by `Store.RemoveUser`) |
| Store.RemoveUserLinks | Projeto/routes/cadastro_login.js:183 | After a user is deleted, every remaining album link and tag link joins remaining rows |
| Store.RemoveUserShares | Projeto/routes/cadastro_login.js:183 | After a user is deleted, every remaining share is intact |
| Sharing.ParsePermission | Projeto/routes/albuns.js:350-353 | `["compartilhado", "editavel"].includes(p)`: a permission is returned exactly for the string that names it |
| Sharing.RowOf | Projeto/routes/albuns.js:350-357 | An entry yields at most one row; which one is `Sharing.RowOfGrants` |
| Sharing.ShareRows | Projeto/routes/albuns.js:347-358 | The insert loop writes at most one row per entry; which rows is `Sharing.ShareRowsGrants` |
| Sharing.RowOfGrants | Projeto/routes/albuns.js:350-357 | An entry yields exactly the row it grants: from the sender to its friend id with its permission, when it has a friend id and an accepted permission |
| Sharing.ShareRowsGrants | Projeto/routes/albuns.js:347-358 | The rows written are exactly those some entry grants; entries such as `nao_compartilhado` write nothing |
| Sharing.OnlyHits | Projeto/routes/albuns.js:342-344 | The DELETE by AlbumID, or by ImagemID, hits exactly the shares of that target |
| Sharing.Replace | Projeto/routes/albuns.js:342-358 | Delete-then-insert leaves no more rows than the old ones and the new ones together; which rows is `Sharing.ReplaceMembers` |
| Sharing.ReplaceMembers | Projeto/routes/albuns.js:342-358 | After a replacement the target's shares are exactly the new rows, and every share of another target is kept |
| Sharing.FirstShare | Projeto/routes/albuns.js:42-53 | The permission of the first share row addressed to the user for the target; None exactly when there is no such row |
| Sharing.FirstShareAppend | Projeto/routes/albuns.js:42-53 | Rows appended later do not change the first matching row once one exists |
| Sharing.FirstShareOfRows | Projeto/routes/albuns.js:347-358 | The first written row addressed to a user carries the first accepted entry's permission for that user |
| Sharing.ReplaceDecidesAccess | Projeto/routes/albuns.js:342-358 | After a replacement a user's first share of the target comes from the submitted entries alone; earlier shares no longer count |
| Sharing.ReplaceKeepsOthers | Projeto/routes/galeria.js:432-448 | Replacing one target's shares leaves every user's first share of every other target as it was |
| Sharing.ReplaceKeepsOthersWithout | Projeto/routes/galeria.js:432-434 | The DELETE step alone leaves every other target's first share as it was |
| Sharing.ReplaceIdempotent | Projeto/routes/albuns.js:342-358 | Submitting the same entries twice leaves the same share set as submitting them once |
| Sharing.WithoutTwice | Projeto/routes/albuns.js:342-344 | Deleting by the same clause twice is deleting once |
| Sharing.WithoutNone | Projeto/routes/albuns.js:342-344 | A DELETE whose clause hits every row leaves none |
| Sharing.KnownPrefix | Projeto/routes/albuns.js:354-357 | How many rows go in before the first insert whose recipient does not exist: at most the number of rows; `Sharing.KnownPrefixStops` says where it stops |
| Sharing.KnownPrefixStops | Projeto/routes/albuns.js:354-357 | Every counted row names an existing recipient, and the row after them names a missing one |
| Sharing.KnownPrefixAppend | Projeto/routes/albuns.js:354-357 | When the whole first batch goes in, the count over both batches is the first batch's length plus the second batch's count |
| Sharing.ReplaceConsistent | Projeto/routes/albuns.js:342-368 | A committed replacement by the target's owner, whose rows name existing users, keeps the store consistent |
| Text.AllSpaceAppend | Projeto/routes/galeria.js:136 | Two all-white-space texts together are all white space |
| Text.TrimStart | Projeto/routes/galeria.js:139 | Removes exactly the leading white space: the result is a suffix and does not start with white space |
| Text.TrimEnd | Projeto/routes/galeria.js:139 | Removes exactly the trailing white space: the result is a prefix and does not end with white space |
| Text.Trim | Projeto/routes/galeria.js:139 | `trim()`: the result sits inside the input with only white space around it, and neither of its ends is white space |
| Text.TrimInside | Projeto/routes/galeria.js:139 | Trimming adds no character |
| Text.TrimTrimmed | Projeto/routes/galeria.js:139 | Trimming a trimmed text gives it back |
| Text.TrimEmptyIffAllSpace | Projeto/routes/galeria.js:136 | `tags.trim() !== ""` exactly when the text is not all white space |
| Text.TrimLeadingSpace | Projeto/routes/galeria.js:139 | A space before a trimmed word is dropped by trim |
| Text.Split | Projeto/routes/galeria.js:137-138 | `split(",")` gives at least one piece and no piece holds a comma |
| Text.SplitWord | Projeto/routes/galeria.js:137-138 | Splitting a comma-free word followed by a comma splits off that word |
| Text.SplitJoin | Projeto/routes/galeria.js:137-138 | `split(",")` undoes `join(",")` on non-empty lists of comma-free parts |
| Text.ContainsAt | Projeto/routes/tag.js:50-54 | `LIKE '%term%'` holds exactly when the term occurs at some position |
| Text.ContainsSelf | Projeto/routes/tag.js:50-54 | Every name contains itself |
| Text.ContainsTrans | Projeto/routes/tag.js:50-54 | A term found in a part of a name is found in the name |
| Albuns.ResolveAlbumAccess | Projeto/routes/albuns.js:31-61 | The owner gets owner access; otherwise access exists exactly when some share addresses the album to the viewer, with the permission of the first share row addressing the album to the viewer, as `rows[0]` is read; otherwise none |
| Albuns.AcceptedFriendsMutual | Projeto/routes/albuns.js:76-83 | The friend list is mutual: v is on u's list exactly when v exists and u is on v's list |
| Albuns.SharesOf | Projeto/routes/albuns.js:85-91 | The album's share rows: exactly the shares of that target |
| Albuns.SharesOfRecipientsExist | Projeto/routes/albuns.js:85-91 | In a consistent store every listed share's recipient exists, so the JOIN on USUARIOS drops no row |
| Albuns.ViewAlbum | Projeto/routes/albuns.js:22-121 | 404 exactly when access resolves to none. The page shows the album and exactly its linked images. The owner gets no permission, the friend list and the album's shares; anyone else gets the first share's permission and empty lists |
| Albuns.OrphanIffOnlyAlbum | Projeto/routes/albuns.js:284-290 | A link count of 1 means exactly that this album is the image's only album |
| Albuns.LinksOfAfterRemove | Projeto/routes/albuns.js:284-297 | Deleting other images in the loop leaves an image's link count as it was |
| Albuns.DestroyCalls | Projeto/routes/albuns.js:292 | One blob-store call per deleted image |
| Albuns.DestroyCallsSnoc | Projeto/routes/albuns.js:292 | Each deleted image adds one destroy call at the end |
| Albuns.EditAlbum | Projeto/routes/albuns.js:154-190 | An empty name is refused; a non-owner is refused with nothing changed; otherwise only the album's name and description change |
| Albuns.RenameConsistent | Projeto/routes/albuns.js:172-175 | Renaming keeps the store consistent |
| Albuns.DeleteAlbum | Projeto/routes/albuns.js:257-312 | A non-owner is refused and no row or blob changes. For the owner it succeeds exactly when no orphan's destroy throws. On success the tables are `AlbumDeleted` and one destroy per orphan was logged. On failure the tables are unchanged and only destroys of orphans were logged |
| Albuns.DeleteNext | Projeto/routes/albuns.js:284-298 | One loop turn keeps the progress invariant: it removes the visited image, deletes it and its blob when its count is 1, and stops on a throwing destroy |
| Albuns.AlbumDeleted | Projeto/routes/albuns.js:278-301 | The album and exactly its orphaned images are gone; the links and tag links left are exactly those naming neither; a share stays exactly when it targets neither the album nor an orphaned image; the remaining albums and images keep their values, and users, tags, friendships and categories are unchanged |
| Albuns.AlbumDeletedConsistent | Projeto/routes/albuns.js:278-303 | A committed album deletion keeps the store consistent |
| Albuns.AlbumDeletedKeepsShared | Projeto/routes/albuns.js:284-297 | An image is removed exactly when it was linked to this album and to no other |
| Albuns.FriendImageDeleted | Projeto/routes/albuns.js:278-297 | An image another user uploaded into this album only is an orphan and is deleted with the album: the orphan test does not look at the uploader |
| Albuns.Notices | Projeto/routes/albuns.js:359-363 | One event per inserted row |
| Albuns.ShareAlbum | Projeto/routes/albuns.js:317-383 | A non-owner is refused with no change. The notices of the rows inserted before a failing insert stay sent, recipients are never checked to be friends, and a failing insert rolls the share set back. Otherwise the album's shares are replaced by the entries' rows |
| Albuns.InsertShareRows | Projeto/routes/albuns.js:347-366 | The loop inserts rows up to the first missing recipient, notifying each recipient as its row goes in |
| Albuns.InsertNext | Projeto/routes/albuns.js:348-364 | One turn keeps the loop invariant, or stops at a missing recipient with the count settled |
| Albuns.InsertOne | Projeto/routes/albuns.js:350-363 | An entry inserts its row and notifies its recipient, writes nothing when not accepted, and fails with no change when the recipient does not exist |
| Albuns.NoticesAppend | Projeto/routes/albuns.js:359-363 | The notices of consecutive batches are the notices of the rows together |
| Galeria.ViewShareCannotEdit | Projeto/routes/galeria.js:21-37 | A non-owner whose shares on the album are all `compartilhado` may not add images |
| Galeria.EditImpliesView | Projeto/routes/galeria.js:21-37 | In a consistent store, whoever may add images to an album may also open its page |
| Galeria.ViewEditImpliesEdit | Projeto/routes/galeria.js:21-37 | A non-owner shown `editavel` on the album page passes the upload check |
| Galeria.ViewAndEditDisagree | Projeto/routes/galeria.js:31-36 | A `compartilhado` row before an `editavel` row: the album page shows view only while the upload check grants edit |
| Galeria.Clean | Projeto/routes/galeria.js:139-140 | Trimming and dropping empty pieces never gives more names than pieces; piece by piece it is `Galeria.CleanCons` |
| Galeria.CleanTagNames | Projeto/routes/galeria.js:137-140 | Every parsed name is non-empty, trimmed and comma-free |
| Galeria.ParseTagsNames | Projeto/routes/galeria.js:136-140 | Every name parsed from the tag field is usable |
| Galeria.CleanBlank | Projeto/routes/galeria.js:139-140 | Pieces that are all white space leave no name |
| Galeria.SplitBlank | Projeto/routes/galeria.js:137-138 | Every piece of an all-white-space text is white space |
| Galeria.BlankGuardRedundant | Projeto/routes/galeria.js:136-140 | The `tags.trim() !== ""` guard changes nothing: a blank text parses to no names without it |
| Galeria.Spaced | Projeto/routes/galeria.js:220 | A space in front of each name gives one piece per name; each piece is `Galeria.SpacedAt` |
| Galeria.JoinCommaSpace | Projeto/routes/galeria.js:220 | `join(", ")` is `join(",")` of the spaced names |
| Galeria.JoinPrefixSpace | Projeto/routes/galeria.js:220 | Joining with a spaced first part puts a space in front of the join |
| Galeria.CleanSpaced | Projeto/routes/galeria.js:139-140 | Cleaning spaced tag names gives the names back |
| Galeria.ParseTagsOfJoined | Projeto/routes/galeria.js:220 | The edit page's tag field, the names joined by ", ", parses back to those names |
| Galeria.CleanJoinedPieces | Projeto/routes/galeria.js:258-261 | The pieces `split(",")` leaves of the joined names clean back to the names |
| Galeria.CleanCons | Projeto/routes/galeria.js:139-140 | Clean works piece by piece from the front |
| Galeria.SpacedCommaFree | Projeto/routes/galeria.js:220 | A space in front of comma-free names adds no comma |
| Galeria.SpacedAt | Projeto/routes/galeria.js:220 | Each spaced piece is a space followed by the name |
| Galeria.JoinNotBlank | Projeto/routes/galeria.js:257 | A join of tag names is not blank, so the guard lets it through |
| Galeria.FirstTagFrom | Projeto/routes/galeria.js:142-148 | A tag id found in the range k..n-1 is a tag of that owner with that name |
| Galeria.FirstTag | Projeto/routes/galeria.js:142-148 | The first row of `SELECT TagID FROM TAGS WHERE Nome = ? AND UsuarioID = ?` has that name and owner |
| Galeria.FirstTagFromNone | Projeto/routes/galeria.js:142-148 | When the lookup finds nothing, no tag of that owner has that name |
| Galeria.FirstTagFinds | Projeto/routes/galeria.js:142-148 | In a well-kept tag table the lookup finds the owner's tag of that name whenever there is one |
| Galeria.AttachOne | Projeto/routes/galeria.js:141-160 | One turn of the tag loop changes only TAGS, IMAGEM_TAGS and the tag counter, and can fail only with DuplicateKey |
| Galeria.Attached | Projeto/routes/galeria.js:141-160 | The whole tag loop changes only TAGS, IMAGEM_TAGS and the tag counter, and can fail only with DuplicateKey |
| Galeria.AttachOneSpec | Projeto/routes/galeria.js:141-160 | A successful turn keeps names unique per owner, creates a tag only for a new name, and adds exactly the link to the owner's tag of that name |
| Galeria.AttachOneFails | Projeto/routes/galeria.js:142-159 | A turn fails exactly when the image is already linked to the owner's tag of that name |
| Galeria.AttachOneLinked | Projeto/routes/galeria.js:141-160 | After a successful turn the image is linked to the owner's tag of a name exactly when it was before or the name is the turn's |
| Galeria.AttachedOk | Projeto/routes/galeria.js:141-160 | The loop succeeds exactly when no name repeats and the image is linked to none of the owner's tags with those names |
| Galeria.AttachedFresh | Projeto/routes/galeria.js:141-160 | For an image with no tag links, the loop succeeds exactly when no name repeats |
| Galeria.AttachedSpec | Projeto/routes/galeria.js:141-160 | After a successful loop, old tags are unchanged, every new tag is the owner's with a listed name, and the image gains links to exactly the owner's tags with the listed names |
| Galeria.AttachTags | Projeto/routes/galeria.js:262-281 | The tag loop as statements: when `Attached` succeeds the tables become its result, and otherwise the loop stops with DuplicateKey |
| Galeria.AttachedConsistent | Projeto/routes/galeria.js:141-160 | A successful tag loop on an existing image and owner keeps the store consistent |
| Galeria.ChooseAlbum | Projeto/routes/galeria.js:100-123 | `novo` with a name inserts an album of the uploader; `existente` with an id requires the edit permission; anything else is refused |
| Galeria.InsertImage | Projeto/routes/galeria.js:124-134 | The two inserts have the effect `AddImage` describes: the image under the next id, linked to the album, or a failure on a dangling reference |
| Galeria.Upload | Projeto/routes/galeria.js:78-171 | The upload commits `Uploaded` of the parsed tags, or fails, a repeated tag name included, with the tables it started from |
| Galeria.UploadRefusals | Projeto/routes/galeria.js:101-123 | AlbumChoiceMissing exactly when neither a named new album nor an existing id was given; NoEditPermission exactly for an existing album without edit permission; any other failure is a storage failure or a duplicate key |
| Galeria.UploadSucceeds | Projeto/routes/galeria.js:101-160 | In a consistent store an upload succeeds exactly when the uploader and the category (if any) exist, the album is new or editable by them, and no tag name repeats; it fails with DuplicateKey exactly when only the last condition fails |
| Galeria.UploadTags | Projeto/routes/galeria.js:125-160 | Once the album and image rows are in, the upload fails exactly on a repeated tag name, with DuplicateKey |
| Galeria.UploadInsertsImage | Projeto/routes/galeria.js:125-160 | A successful upload adds one new image owned by the uploader, links it to exactly the chosen album, tags it with exactly the uploader's tags named in the text, and leaves users, shares and friendships alone |
| Galeria.UploadAlbum | Projeto/routes/galeria.js:101-108 | A new album, when chosen, belongs to the uploader; otherwise the albums are unchanged |
| Galeria.UploadConsistent | Projeto/routes/galeria.js:98-162 | A committed upload keeps the store consistent |
| Galeria.PickAlbumConsistent | Projeto/routes/galeria.js:101-118 | The album choice keeps the store consistent |
| Galeria.AddImageConsistent | Projeto/routes/galeria.js:125-134 | The image and link inserts keep the store consistent |
| Galeria.SomeAlbumOf | Projeto/routes/galeria.js:287-295 | The redirect target is an album the image is linked to, and is none only when it has no album |
| Galeria.EditImage | Projeto/routes/galeria.js:230-303 | The edit commits `ImageEdited` of the parsed tags or fails with the tables unchanged; the redirect goes to an album the image is linked to, if any |
| Galeria.EditImageOutcome | Projeto/routes/galeria.js:241-282 | ImageNotEditable exactly when the user does not own the image; StorageFailure exactly for the owner naming a missing category; no other error but DuplicateKey; in a well-kept tag table it succeeds exactly when, besides, no tag name repeats |
| Galeria.EditImageReplacesTags | Projeto/routes/galeria.js:241-282 | A successful edit rewrites description and category, replaces the image's tag links wholesale by exactly the user's tags named in the text, and leaves albums, links, shares and users alone |
| Galeria.EditImageConsistent | Projeto/routes/galeria.js:237-284 | A committed edit keeps the store consistent |
| Galeria.EditKeepsListedTags | Projeto/routes/galeria.js:194-199 | Resubmitting the tag field as the edit page filled it keeps the image's tag links, when those tags are the user's own, their names are usable and listed once each |
| Galeria.ListedTagsReattached | Projeto/routes/galeria.js:253-281 | After the DELETE, the tag loop over the listed names, each once, succeeds and links exactly the tags linked before |
| Galeria.NameSource | Projeto/routes/galeria.js:194-199 | A listed name comes from a tag link of the image |
| Galeria.DeleteImage | Projeto/routes/galeria.js:306-349 | A non-owner is refused with nothing changed. For the owner, a throwing destroy leaves rows and log unchanged; otherwise one destroy of its NomeArquivo is logged and the image is deleted with its links and shares |
| Galeria.ImageDeleted | Projeto/routes/galeria.js:333-335 | The deleted image leaves no album link, tag link or share; every other image keeps its values, exactly the other links, tag links and shares stay, and albums, users, tags, friendships and categories are unchanged |
| Galeria.ShareImage | Projeto/routes/galeria.js:410-470 | Owner only. The image's shares are replaced by the rows of the entries, only when the payload is an array; no notification is sent; a missing recipient rolls everything back; the redirect goes to an album of the image |
| Galeria.InsertImageShares | Projeto/routes/galeria.js:437-449 | The loop succeeds exactly when every row's recipient exists, and then appends all the entries' rows, with AlbumID NULL, to the kept shares |
| Amizades.First | Projeto/routes/amizades.js:138-145 | `rows[0]`: none exactly when no row matches; otherwise a matching row with no matching row before it |
| Amizades.FirstAppend | Projeto/routes/amizades.js:153-156 | Appending rows never changes the first match once one exists |
| Amizades.ExcludesJoins | Projeto/routes/amizades.js:76-85 | For anyone but me, the CASE in the NOT IN subquery yields v exactly when the row joins me and v |
| Amizades.SearchUsers | Projeto/routes/amizades.js:60-87 | None when the term is absent or blank. Otherwise exactly the existing users other than me whose name contains the term and who share no `pendente` or `aceita` row with me, in either direction. The copy at galeria-web/Projeto/routes/amizades.js:55-82 does the same |
| Amizades.RequestOutcome | Projeto/routes/amizades.js:132-156 | Only a request to oneself is a bad request. AlreadyPending and AlreadyFriends are returned exactly when the first row of the pair has that status, and a storage failure exactly when that row is absent or `recusada` but a user is missing. A request succeeds exactly when that row is absent or `recusada` and both users exist. It then appends one `pendente` row from me to the recipient, under an unused id, and touches nothing else |
| Amizades.RequestConsistent | Projeto/routes/amizades.js:153-156 | A request keeps the store consistent |
| Amizades.RequestHidesFromSearch | Projeto/routes/amizades.js:76-85 | After a request, neither user finds the other in the search |
| Amizades.RequestsAfterDecline | Projeto/routes/amizades.js:138-150 | When the first row of a pair is `recusada`, two further requests both go in: two `pendente` rows for one pair |
| Amizades.RequestFriendship | Projeto/routes/amizades.js:125-170 | The tables become `Requested`; on success one `nova_solicitacao` event goes to the recipient; a refusal changes nothing and sends nothing |
| Amizades.Answered | Projeto/routes/amizades.js:199-202 | The UPDATE rewrites status and date of exactly the rows with that id, keeping ids and parties |
| Amizades.ParseAnswer | Projeto/routes/amizades.js:180-182 | Accept exactly for `aceitar`, Decline exactly for `recusar`, none for any other action |
| Amizades.RespondOutcome | Projeto/routes/amizades.js:180-193 | A bad action is refused first. Then NotFound exactly when no row of that id is pending and addressed to me. No other error |
| Amizades.RespondRows | Projeto/routes/amizades.js:195-202 | On success exactly the rows of that id change: `aceitar` gives `aceita` with the answer's time, `recusar` gives `recusada` with no date; no other table changes |
| Amizades.RespondTransition | Projeto/routes/amizades.js:186-202 | With distinct ids, the changed row was `pendente` and addressed to me: only `pendente` rows are ever answered |
| Amizades.RespondOnce | Projeto/routes/amizades.js:186-193 | An answered request cannot be answered again, by anyone, either way |
| Amizades.AcceptMakesFriends | Projeto/routes/amizades.js:195-202 | Accepting a request puts each of the two users on the other's friend list |
| Amizades.AnsweredIntact | Projeto/routes/amizades.js:199-202 | Rewriting status and date keeps the rows' ids, parties and integrity |
| Amizades.RespondConsistent | Projeto/routes/amizades.js:195-202 | An answer keeps the store consistent |
| Amizades.RespondFriendship | Projeto/routes/amizades.js:173-221 | The tables become `Responded`; accepting sends `solicitacao_aceita` to the requester, declining sends nothing; a refusal changes nothing |
| Amizades.UnfriendOutcome | Projeto/routes/amizades.js:234-260 | Refused exactly when no row of that id has me as a party. Otherwise the other party is the other user of that row, every row of that id is gone and the others stay, a share survives exactly when it is not between the two users, and nothing else changes |
| Amizades.UnfriendRevokesAccess | Projeto/routes/amizades.js:250-257 | In a consistent store, after removal neither of the two reaches an album of the other |
| Amizades.UnfriendConsistent | Projeto/routes/amizades.js:250-262 | Removal keeps the store consistent |
| Amizades.Unfriend | Projeto/routes/amizades.js:224-278 | The tables become `Unfriended`; on success one `amizade_removida` event goes to the other party; a refusal changes nothing |
| AmizadesLegacy.RequestFriendship | galeria-web/Projeto/routes/amizades.js:121-157 | The same guards and insert as the newer request, with no event |
| AmizadesLegacy.RespondFriendship | galeria-web/Projeto/routes/amizades.js:160-194 | The same checks and update as the newer answer, with no event |
| AmizadesLegacy.UnfriendVariants | galeria-web/Projeto/routes/amizades.js:203-212 | The older removal refuses exactly what the newer one refuses and leaves the same friendship rows, but every share |
| AmizadesLegacy.UnfriendKeepsAccess | galeria-web/Projeto/routes/amizades.js:212 | After the older removal everyone's album access is what it was: shares outlive the friendship |
| AmizadesLegacy.UnfriendConsistent | galeria-web/Projeto/routes/amizades.js:212 | The older removal keeps the store consistent |
| AmizadesLegacy.Unfriend | galeria-web/Projeto/routes/amizades.js:197-220 | The tables become the older `Unfriended`, with no transaction around it and no event |
| Index.HeaderTags | Projeto/routes/index.js:57-68 | Exactly the tags linked to some image visible to me |
| Index.ShowDashboard | Projeto/routes/index.js:20-83 | Without a session everything is empty. With one: exactly my albums, every category and the header tags |
| Index.BuildConditions | Projeto/routes/index.js:107-130 | Visibility first; a tag condition exactly when a tag is given; a category condition exactly when a category is given; a date range exactly when both dates are given, from the start day's first second to the end day's 23:59:59 |
| Index.ConditionsSelect | Projeto/routes/index.js:101-136 | An image meets every condition exactly when it is visible and passes each given filter |
| Index.NewestExists | Projeto/routes/index.js:137 | Every non-empty set of images has a newest one |
| Index.OrderByNewest | Projeto/routes/index.js:102-137 | DISTINCT and ORDER BY DataUpload DESC: each selected image once, newest first |
| Index.Search | Projeto/routes/index.js:89-138 | Without any filter it redirects (None). Otherwise it lists exactly the selected images, once each, newest first |
| Index.StartDateAloneIgnored | Projeto/routes/index.js:127-130 | A start date without an end date filters nothing |
| Index.TagSearchWithinHeader | Projeto/routes/index.js:57-68 | Whatever a tag search finds carries a tag the header offers |
| Compartilhados.Collect | Projeto/routes/compartilhados.js:27-45 | A listing has at most one row per share; which rows is `Compartilhados.CollectMembers` |
| Compartilhados.CollectMembers | Projeto/routes/compartilhados.js:27-45 | A row is listed exactly when some share contributes it |
| Compartilhados.SharedWithMe | Projeto/routes/compartilhados.js:9-60 | Refused exactly without a session; otherwise the album listing and the image listing |
| Compartilhados.SharedWithMeListing | Projeto/routes/compartilhados.js:27-45 | An album, or image, is listed with a permission exactly when a share of it with that permission is addressed to me and it and its owner exist; the name shown is its owner's, not the sender's |
| Compartilhados.ListedAlbumsOpen | Projeto/routes/compartilhados.js:27-34 | Every listed album opens for me on the album page |
| Compartilhados.ListedImagesVisible | Projeto/routes/compartilhados.js:38-45 | Every listed image is visible to me under the search's visibility rule |
| TagSearch.SearchByTag | Projeto/routes/tag.js:18-67 | A missing or empty term is a bad request, even without a session. Then no session (or an id of 0) is NotLoggedIn. Otherwise it returns exactly my images with a tag whose name contains the term, each once |
| TagSearch.FullNameFinds | Projeto/routes/tag.js:47-54 | Searching by the full name of a tag on my image finds that image |
| TagSearch.LongerTermFindsLess | Projeto/routes/tag.js:50-54 | A term that contains another finds no more images than that other term |
| CadastroLogin.CheckRegistration | Projeto/routes/cadastro_login.js:49-56 | FieldsRequired exactly when a field is missing; PasswordMismatch exactly when all are given and the two passwords differ. The copy at galeria-web/Projeto/routes/cadastro_login.js:44-50 does the same |
| CadastroLogin.RegisterOutcome | Projeto/routes/cadastro_login.js:49-76 | The field checks come first. A taken email or user name is refused. Otherwise exactly one account is added, under an unused id, with the name, the email and the hash, and nothing else changes. The copy at galeria-web/Projeto/routes/cadastro_login.js:44-70 does the same |
| CadastroLogin.RegisterConsistent | Projeto/routes/cadastro_login.js:60-76 | A registration keeps emails and user names unique and the store consistent |
| CadastroLogin.Register | Projeto/routes/cadastro_login.js:44-85 | The tables become `Registered`; a refusal changes nothing |
| CadastroLogin.FirstUserFrom | Projeto/routes/cadastro_login.js:101-111 | The row found has that email; none found means no account in the range has it |
| CadastroLogin.Login | Projeto/routes/cadastro_login.js:90-127 | Missing fields are refused before the lookup; any other failure is InvalidCredentials; a session holds only the id, the name and the email of an account with that email whose hash matches |
| CadastroLogin.LoginFailuresAlike | Projeto/routes/cadastro_login.js:107-119 | An unknown email and a wrong password both give InvalidCredentials; a matching password opens that account's session. The copy at galeria-web/Projeto/routes/cadastro_login.js:103-115 does the same |
| CadastroLogin.RegisterThenLogin | Projeto/routes/cadastro_login.js:60-127 | Registering and then logging in with the same email and password opens a session for the new account |
| CadastroLogin.ImageKeysCover | Projeto/routes/cadastro_login.js:173-177 | The keys handed to delete_resources are exactly the NomeArquivo keys of the user's images, and there are some exactly when the user has images |
| CadastroLogin.DeleteAccount | Projeto/routes/cadastro_login.js:165-199 | With images: one `delete_resources` call for all their keys, and when it throws nothing changes. Without images: no call. Then the user and everything cascading from it is deleted. The copy at galeria-web/Projeto/routes/cadastro_login.js:158-188 does the same |
| CadastroLogin.DeletedAccountLeavesNoTrace | Projeto/routes/cadastro_login.js:183 | After deletion no account, album, image, tag, share or friendship of the user is left |

## Left out

- HTTP: status codes, rendered pages, JSON bodies and redirects become one
  `Error` constructor per distinct failure, or an `Ok` value.
- Display-only reads are not modelled:
  - the friends page lists (GET /amizades);
  - the upload, edit and share form pages (GET /upload, GET /imagem/:id/edit,
    GET /imagem/:id/share, GET /albuns/:id/edit, GET /albuns/:id/compartilhar);
  - the settings page, logout and the redirect of GET /galeria.
  The owner checks of those GET pages are the same lookups that
  `Store.OwnsAlbum` and `Store.OwnsImage` state.
- Ordering of display lists: album covers, `ORDER BY Nome` of categories and
  tags, and `ORDER BY DataCriacao` of albums. The dashboard's lists are sets.
- `DataModificacao = NOW()` and `DataUpload` defaults: timestamps other than
  the upload time and the friendship start date are not stored.
- `LIKE` patterns: `%` and `_` inside the term and the collation's case
  folding are not modelled; the term matches as a plain substring.
- The collation. The database is created without a CHARACTER SET or
  COLLATE clause (Projeto/db/db.js:31), so the server's default decides how
  `=` compares strings, and a `_ci` default ignores case. The model compares
  exactly, as a binary collation does; `Store.AccountsUnique` and
  `Store.TagNamesUnique` are exact as well. The lines below say what this
  leaves out.
- CadastroLogin.RegisterOutcome: a taken email or user name means an exactly
  equal one; under a case-insensitive collation the source also refuses a
  case variant, which the model admits.
- CadastroLogin.Register: admits a case variant of a taken email or user
  name, through `Registered`, for the same reason.
- CadastroLogin.Login: the email lookup is exact; under a case-insensitive
  collation a case variant of the stored email also finds the account.
- CadastroLogin.LoginFailuresAlike: an unknown email means no exactly equal
  email, not none equal under the collation.
- Galeria.FirstTag: the lookup by name is exact, so "Praia" and "praia" are
  two tags of one owner in the model. Under a case-insensitive collation the
  second finds the first, and the tag text "Praia, praia" then fails with a
  duplicate key. The model accepts it, because `Galeria.Distinct` compares
  names exactly. Galeria.AttachOne, Galeria.Attached, Galeria.AttachedOk,
  Galeria.AttachedFresh, Galeria.UploadTags, Galeria.UploadSucceeds and
  Galeria.EditImageOutcome inherit this.
- Galeria.AttachOne: assumes the (ImagemID, TagID) key of IMAGEM_TAGS.
  Without that key the source would store a repeated link twice, which the
  set of tag links cannot hold.
- Type coercion: route parameters are numbers. A non-numeric id and the
  loose `==` of the self-request check are not modelled.
- The socket.io rooms and the connection that joins them: an event is a
  record of the room it goes to and its kind.
- The multer upload: the file arrives as a key and a URL. A blob left behind
  when the upload's transaction rolls back is not recorded.
- Galeria.Upload: a POST /upload without a file is not modelled. The
  handler reads the missing `req.file` before its transaction starts and
  throws, with nothing written; the model always receives a key and a URL.
- Auto-increment counters: a rolled-back transaction restores the model's
  `next…Id` counters with the other tables, while MySQL does not hand back
  the ids a rolled-back INSERT used. Only the values of later ids differ.
- bcrypt: the hash is a parameter and the comparison a function parameter.
- Session saving and destruction after login and account deletion; a
  failing `session.save` is not modelled.
- Galeria.SomeAlbumOf: `LIMIT 1` without ORDER BY is any linked album; the
  contract does not say which one.
- Index.OrderByNewest: images uploaded in the same second come in an order
  the contract leaves open, as the database does.
- Two tags of one owner with one name are never created, so the model's
  `FirstTag` lookup by smallest id stands for `rows[0]`.
- The schema file with its foreign keys and cascades is not part of this
  model. The cascades are an assumption, stated in `Store.RemoveImages`,
  `Store.RemoveAlbum` and `Store.RemoveUser`. The ALBUNS cascade alone
  removes no image, but the album handler first deletes every image linked
  to that album only, whoever uploaded it (`Albuns.FriendImageDeleted`).
  Deleting a user keeps other users' images that sat in the user's albums,
  unlinked.
- Store.Consistent does not include "an image's tags belong to its owner".
  The handlers never link another user's tag, but the GET /search tag
  filter accepts any tag id.
- Galeria.ShareImage: a payload that is not an array (an object, or a
  single value) counts as absent; its share set is still deleted.
- Albuns.ShareAlbum: a non-array payload with a `length` is not modelled;
  the entries arrive as a sequence.
- Amizades.RequestFriendship: a database error other than a missing user is
  not modelled.
- Amizades.RespondFriendship: a failing UPDATE is not modelled; the
  UPDATE names no foreign key, so the model lets it always succeed.
- Connection pooling, async/await and connection release: each handler is
  one atomic, sequential operation.
