/**
 * The older copy of the friendship routes. Search, request and answer follow
 * the same rules as the newer copy but emit no socket event; removal deletes
 * only the friendship row and leaves every share between the two users in
 * place.
 */
module AmizadesLegacy {
  import opened Store
  import opened Sharing
  import opened Albuns
  import opened Amizades

  /** POST /amizades/solicitar/:destinatarioId without the notification. */
  method RequestFriendship(db: Db, me: UserId, to: UserId) returns (r: Result<()>)
    modifies db`tables
    ensures Requested(old(db.tables), me, to).Err? ==>
              r == Err(Requested(old(db.tables), me, to).error) && db.tables == old(db.tables)
    ensures Requested(old(db.tables), me, to).Ok? ==>
              r == Ok(()) && db.tables == Requested(old(db.tables), me, to).value
  {
    if me == to {
      return Err(BadRequest);
    }
    var existing := First(db.tables.friendships, PairRows(me, to));
    if existing.Some? && existing.value.status == Pendente {
      return Err(AlreadyPending);
    }
    if existing.Some? && existing.value.status == Aceita {
      return Err(AlreadyFriends);
    }
    if me !in db.tables.users || to !in db.tables.users {
      return Err(StorageFailure);
    }
    var row := Friendship(db.tables.nextFriendshipId, me, to, Pendente, None);
    db.tables := db.tables.(friendships := db.tables.friendships + [row], nextFriendshipId := db.tables.nextFriendshipId + 1);
    r := Ok(());
  }

  /** POST /amizades/responder/:amizadeId without the notification. */
  method RespondFriendship(db: Db, me: UserId, id: FriendshipId, acao: string, now: Timestamp) returns (r: Result<()>)
    modifies db`tables
    ensures Responded(old(db.tables), me, id, acao, now).Err? ==>
              r == Err(Responded(old(db.tables), me, id, acao, now).error) && db.tables == old(db.tables)
    ensures Responded(old(db.tables), me, id, acao, now).Ok? ==>
              r == Ok(()) && db.tables == Responded(old(db.tables), me, id, acao, now).value
  {
    var answer := ParseAnswer(acao);
    if answer.None? {
      return Err(BadRequest);
    }
    if First(db.tables.friendships, PendingTo(id, me)).None? {
      return Err(NotFound);
    }
    db.tables := db.tables.(friendships := Answered(db.tables.friendships, id, NewStatus(answer.value), NewSince(answer.value, now)));
    r := Ok(());
  }

  /** The older removal: the same check, then only `DELETE FROM AMIZADES WHERE AmizadeID = ?`. */
  function Unfriended(t: Tables, me: UserId, id: FriendshipId): (r: Result<Tables>)
  {
    if First(t.friendships, WithPartyId(id, me)).None? then Err(NotFound)
    else Ok(t.(friendships := FriendshipsWithout(t.friendships, WithId(id))))
  }

  /**
   * The two removals refuse the same calls and leave the same friendship
   * rows; they differ only in the shares, which the older one never touches.
   */
  lemma {:induction false} UnfriendVariants(t: Tables, me: UserId, id: FriendshipId)
    ensures Unfriended(t, me, id).Ok? <==> Amizades.Unfriended(t, me, id).Ok?
    ensures Unfriended(t, me, id).Err? ==> Unfriended(t, me, id).error == NotFound
    ensures Unfriended(t, me, id).Ok? ==>
              && Unfriended(t, me, id).value.friendships == Amizades.Unfriended(t, me, id).value.0.friendships
              && Unfriended(t, me, id).value.shares == t.shares
              && Amizades.Unfriended(t, me, id).value.0 == Unfriended(t, me, id).value.(shares := Amizades.Unfriended(t, me, id).value.0.shares)
  {
  }

  /**
   * After the older removal the former friend keeps exactly the album access
   * the shares gave: a share between the two outlives the friendship.
   */
  lemma {:induction false} UnfriendKeepsAccess(t: Tables, me: UserId, id: FriendshipId, viewer: UserId, a: AlbumId)
    requires Unfriended(t, me, id).Ok?
    ensures ResolveAlbumAccess(Unfriended(t, me, id).value, viewer, a) == ResolveAlbumAccess(t, viewer, a)
  {
  }

  /** The older removal keeps the store consistent. */
  lemma {:induction false} UnfriendConsistent(t: Tables, me: UserId, id: FriendshipId)
    requires Consistent(t)
    requires Unfriended(t, me, id).Ok?
    ensures Consistent(Unfriended(t, me, id).value)
  {
  }

  /** POST /amizades/remover/:amizadeId of the older copy: no transaction, no share cleanup, no event. */
  method Unfriend(db: Db, me: UserId, id: FriendshipId) returns (r: Result<()>)
    modifies db`tables
    ensures Unfriended(old(db.tables), me, id).Err? ==> r == Err(NotFound) && db.tables == old(db.tables)
    ensures Unfriended(old(db.tables), me, id).Ok? ==> r == Ok(()) && db.tables == Unfriended(old(db.tables), me, id).value
  {
    if First(db.tables.friendships, WithPartyId(id, me)).None? {
      return Err(NotFound);
    }
    db.tables := db.tables.(friendships := FriendshipsWithout(db.tables.friendships, WithId(id)));
    r := Ok(());
  }
}
