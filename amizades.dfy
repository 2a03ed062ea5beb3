/**
 * The friendship routes: the user search that hides everyone the caller is
 * already pending with or friends with, the friend request and its two
 * guards, the answer that moves a request from `pendente` to `aceita` or
 * `recusada`, and the removal that also withdraws every share between the two
 * users and notifies the other one.
 */
module Amizades {
  import opened Store
  import opened Text
  import opened Sharing
  import opened Albuns

  // ---------------------------------------------------------------------------
  // Reading AMIZADES.
  // ---------------------------------------------------------------------------

  /** The WHERE clauses of the handlers' SELECTs on AMIZADES. */
  datatype Query =
    | PairRows(u: UserId, v: UserId)          // the two users, in either direction
    | PendingTo(id: FriendshipId, me: UserId) // by AmizadeID, addressed to me, still pending
    | WithPartyId(id: FriendshipId, me: UserId) // by AmizadeID, with me as either party

  predicate Matches(q: Query, f: Friendship) {
    match q
    case PairRows(u, v) => Joins(f, u, v)
    case PendingTo(id, me) => f.id == id && f.accepter == me && f.status == Pendente
    case WithPartyId(id, me) => f.id == id && (f.requester == me || f.accepter == me)
  }

  /** `rows[0]` of the SELECT: the first matching row in insertion order. */
  function First(fs: seq<Friendship>, q: Query): (r: Option<Friendship>)
    ensures r.None? <==> forall f :: f in fs ==> !Matches(q, f)
    ensures r.Some? ==> r.value in fs && Matches(q, r.value)
    ensures r.Some? ==> exists k :: 0 <= k < |fs| && fs[k] == r.value && forall j :: 0 <= j < k ==> !Matches(q, fs[j])
  {
    if fs == [] then None
    else if Matches(q, fs[0]) then Some(fs[0])
    else
      assert forall f :: f in fs <==> f == fs[0] || f in fs[1..];
      var r := First(fs[1..], q);
      if r.Some? then
        var k :| 0 <= k < |fs[1..]| && fs[1..][k] == r.value && forall j :: 0 <= j < k ==> !Matches(q, fs[1..][j]);
        assert forall j :: 0 < j <= k ==> fs[j] == fs[1..][j - 1];
        assert fs[k + 1] == r.value;
        r
      else r
  }

  /** Rows appended later never change which row comes first, once one matches. */
  lemma {:induction false} FirstAppend(a: seq<Friendship>, b: seq<Friendship>, q: Query)
    ensures First(a + b, q) == if First(a, q).Some? then First(a, q) else First(b, q)
  {
    if a == [] {
      assert a + b == b;
    } else {
      assert (a + b)[0] == a[0];
      assert (a + b)[1..] == a[1..] + b;
      FirstAppend(a[1..], b, q);
    }
  }

  /** The other party of a row that involves me: the CASE of the search and `outroUsuarioId`. */
  function OtherParty(f: Friendship, me: UserId): UserId {
    if f.requester == me then f.accepter else f.requester
  }

  /** A pending or accepted row joins u and v: what hides v from u's search. */
  ghost predicate Related(fs: seq<Friendship>, u: UserId, v: UserId) {
    exists f :: f in fs && Joins(f, u, v) && (f.status == Pendente || f.status == Aceita)
  }

  // ---------------------------------------------------------------------------
  // POST /amizades/buscar
  // ---------------------------------------------------------------------------

  /**
   * A row of the NOT IN subquery that yields v: a pending or accepted row with
   * me as a party whose CASE picks v as the other party.
   */
  predicate Excludes(f: Friendship, me: UserId, v: UserId) {
    && (f.requester == me || f.accepter == me)
    && (f.status == Pendente || f.status == Aceita)
    && OtherParty(f, me) == v
  }

  /** For anyone but me, the CASE picks v exactly when the row joins me and v. */
  lemma {:induction false} ExcludesJoins(f: Friendship, me: UserId, v: UserId)
    requires v != me
    ensures Excludes(f, me, v) <==> Joins(f, me, v) && (f.status == Pendente || f.status == Aceita)
  {
  }

  /**
   * The users the search lists: None when the term is absent or blank (the
   * handler redirects); otherwise every user other than me whose name contains
   * the term and with whom I have no pending or accepted row, in either direction.
   */
  function SearchUsers(t: Tables, me: UserId, term: Option<string>): (r: Option<set<UserId>>)
    ensures r.None? <==> term.None? || Trim(term.value) == ""
    ensures r.Some? ==> forall v :: v in r.value <==>
              v in t.users && v != me && Contains(t.users[v].name, term.value) && !Related(t.friendships, me, v)
  {
    if term.None? || Trim(term.value) == "" then None
    else
      var found := set v | v in t.users && Contains(t.users[v].name, term.value) && v != me
                             && !exists f :: f in t.friendships && Excludes(f, me, v);
      assert forall v :: v != me ==> ((exists f :: f in t.friendships && Excludes(f, me, v)) <==> Related(t.friendships, me, v)) by {
        forall v, f | v != me {
          ExcludesJoins(f, me, v);
        }
      }
      Some(found)
  }

  // ---------------------------------------------------------------------------
  // POST /amizades/solicitar/:destinatarioId
  // ---------------------------------------------------------------------------

  /**
   * The request's effect on the tables. A request to oneself is refused
   * first; then only the first row between the two users is examined: pending
   * or accepted refuses the request, anything else lets a new pending row in.
   * The INSERT fails when either user does not exist.
   */
  function Requested(t: Tables, me: UserId, to: UserId): (r: Result<Tables>)
  {
    if me == to then Err(BadRequest)
    else
      var first := First(t.friendships, PairRows(me, to));
      if first.Some? && first.value.status == Pendente then Err(AlreadyPending)
      else if first.Some? && first.value.status == Aceita then Err(AlreadyFriends)
      else if me !in t.users || to !in t.users then Err(StorageFailure)
      else Ok(t.(friendships := t.friendships + [Friendship(t.nextFriendshipId, me, to, Pendente, None)],
                 nextFriendshipId := t.nextFriendshipId + 1))
  }

  /**
   * What a request does. Only a request to oneself is a bad request; each
   * refusal points at a row that joins the pair with that status; a request
   * goes through exactly when the first row between the two is absent or
   * declined and both users exist, and it then appends one pending row, from
   * me to the recipient, under an id no row had, and touches nothing else.
   * Each refusal is decided by the status of the first row of the pair alone.
   */
  lemma {:induction false} RequestOutcome(t: Tables, me: UserId, to: UserId)
    requires FriendshipIdsBelow(t.friendships, t.nextFriendshipId)
    ensures Requested(t, me, to) == Err(BadRequest) <==> me == to
    ensures Requested(t, me, to) == Err(AlreadyPending) ==>
              exists f :: f in t.friendships && Joins(f, me, to) && f.status == Pendente
    ensures Requested(t, me, to) == Err(AlreadyFriends) ==>
              exists f :: f in t.friendships && Joins(f, me, to) && f.status == Aceita
    ensures Requested(t, me, to) == Err(AlreadyPending) <==>
              me != to && First(t.friendships, PairRows(me, to)).Some? && First(t.friendships, PairRows(me, to)).value.status == Pendente
    ensures Requested(t, me, to) == Err(AlreadyFriends) <==>
              me != to && First(t.friendships, PairRows(me, to)).Some? && First(t.friendships, PairRows(me, to)).value.status == Aceita
    ensures Requested(t, me, to) == Err(StorageFailure) <==>
              && me != to && (me !in t.users || to !in t.users)
              && (First(t.friendships, PairRows(me, to)).None? || First(t.friendships, PairRows(me, to)).value.status == Recusada)
    ensures Requested(t, me, to).Ok? <==>
              && me != to && me in t.users && to in t.users
              && (First(t.friendships, PairRows(me, to)).None? || First(t.friendships, PairRows(me, to)).value.status == Recusada)
    ensures Requested(t, me, to).Ok? ==>
              var fs := Requested(t, me, to).value.friendships;
              && |fs| == |t.friendships| + 1
              && fs[..|t.friendships|] == t.friendships
              && fs[|t.friendships|].requester == me && fs[|t.friendships|].accepter == to
              && fs[|t.friendships|].status == Pendente && fs[|t.friendships|].since == None
              && (forall f :: f in t.friendships ==> f.id != fs[|t.friendships|].id)
              && Requested(t, me, to).value.(friendships := t.friendships, nextFriendshipId := t.nextFriendshipId) == t
  {
    if Requested(t, me, to).Ok? {
      var fs := Requested(t, me, to).value.friendships;
      assert fs[..|t.friendships|] == t.friendships;
    }
  }

  /** A new pending row between two existing users under the next id keeps the store consistent. */
  lemma {:induction false} RequestConsistent(t: Tables, me: UserId, to: UserId)
    requires Consistent(t)
    requires Requested(t, me, to).Ok?
    ensures Consistent(Requested(t, me, to).value)
  {
    var fs := t.friendships;
    var row := Friendship(t.nextFriendshipId, me, to, Pendente, None);
    var fs' := fs + [row];
    assert forall f :: f in fs' <==> f in fs || f == row;
    assert FriendshipIdsBelow(fs', t.nextFriendshipId + 1);
    assert FriendshipsIntact(fs', t.users);
    forall j, k | 0 <= j < k < |fs'| ensures fs'[j].id != fs'[k].id {
      if k == |fs| {
        assert fs'[j] in fs;
      } else {
        assert fs'[j] == fs[j] && fs'[k] == fs[k];
      }
    }
  }

  /** Once a request has gone in, neither user finds the other in the search. */
  lemma {:induction false} RequestHidesFromSearch(t: Tables, me: UserId, to: UserId, term: Option<string>)
    requires Requested(t, me, to).Ok?
    ensures SearchUsers(Requested(t, me, to).value, me, term).Some? ==> to !in SearchUsers(Requested(t, me, to).value, me, term).value
    ensures SearchUsers(Requested(t, me, to).value, to, term).Some? ==> me !in SearchUsers(Requested(t, me, to).value, to, term).value
  {
    var row := Friendship(t.nextFriendshipId, me, to, Pendente, None);
    var fs' := Requested(t, me, to).value.friendships;
    assert fs'[|fs'| - 1] == row;
    assert row in fs' && Joins(row, me, to) && Joins(row, to, me);
    assert Related(fs', me, to) && Related(fs', to, me);
  }

  /**
   * The guard reads only the first row between the two users. When that row
   * was declined, every further request goes in, so the same request can be
   * pending twice.
   */
  lemma {:induction false} RequestsAfterDecline(t: Tables, me: UserId, to: UserId)
    requires me != to && me in t.users && to in t.users
    requires First(t.friendships, PairRows(me, to)).Some? && First(t.friendships, PairRows(me, to)).value.status == Recusada
    ensures Requested(t, me, to).Ok?
    ensures Requested(Requested(t, me, to).value, me, to).Ok?
    ensures var fs := Requested(Requested(t, me, to).value, me, to).value.friendships;
            var n := |t.friendships|;
            && |fs| == n + 2
            && fs[n].status == Pendente && fs[n + 1].status == Pendente
            && Joins(fs[n], me, to) && Joins(fs[n + 1], me, to)
            && fs[n].id != fs[n + 1].id
  {
    var t1 := Requested(t, me, to).value;
    var row := Friendship(t.nextFriendshipId, me, to, Pendente, None);
    FirstAppend(t.friendships, [row], PairRows(me, to));
    var t2 := Requested(t1, me, to).value;
    var row2 := Friendship(t1.nextFriendshipId, me, to, Pendente, None);
    assert t2.friendships == t.friendships + [row] + [row2];
  }

  /**
   * The new variant of the handler: after the INSERT it emits
   * `nova_solicitacao` to the recipient's room. A refused or failed request
   * changes nothing and emits nothing.
   */
  method RequestFriendship(db: Db, me: Session, to: UserId) returns (r: Result<()>)
    modifies db`tables, db`events
    ensures Requested(old(db.tables), me.id, to).Err? ==>
              && r == Err(Requested(old(db.tables), me.id, to).error)
              && db.tables == old(db.tables) && db.events == old(db.events)
    ensures Requested(old(db.tables), me.id, to).Ok? ==>
              && r == Ok(())
              && db.tables == Requested(old(db.tables), me.id, to).value
              && db.events == old(db.events) + [Event(to, NovaSolicitacao(me.name))]
  {
    if me.id == to {
      return Err(BadRequest);
    }
    var existing := First(db.tables.friendships, PairRows(me.id, to));
    if existing.Some? && existing.value.status == Pendente {
      return Err(AlreadyPending);
    }
    if existing.Some? && existing.value.status == Aceita {
      return Err(AlreadyFriends);
    }
    if me.id !in db.tables.users || to !in db.tables.users {
      return Err(StorageFailure);
    }
    var row := Friendship(db.tables.nextFriendshipId, me.id, to, Pendente, None);
    db.tables := db.tables.(friendships := db.tables.friendships + [row], nextFriendshipId := db.tables.nextFriendshipId + 1);
    db.events := db.events + [Event(to, NovaSolicitacao(me.name))];
    r := Ok(());
  }

  // ---------------------------------------------------------------------------
  // POST /amizades/responder/:amizadeId
  // ---------------------------------------------------------------------------

  /** UPDATE AMIZADES SET Status = ?, DataInicioAmizade = ? WHERE AmizadeID = ?, row by row. */
  function Answered(fs: seq<Friendship>, id: FriendshipId, status: Status, since: Option<Timestamp>): (r: seq<Friendship>)
    ensures |r| == |fs|
    ensures forall k :: 0 <= k < |fs| ==>
              r[k] == if fs[k].id == id then fs[k].(status := status, since := since) else fs[k]
  {
    if fs == [] then []
    else [if fs[0].id == id then fs[0].(status := status, since := since) else fs[0]] + Answered(fs[1..], id, status, since)
  }

  /** The two answers the form's `acao` may carry. */
  datatype Answer = Accept | Decline

  function ParseAnswer(acao: string): (r: Option<Answer>)
    ensures r == Some(Accept) <==> acao == "aceitar"
    ensures r == Some(Decline) <==> acao == "recusar"
  {
    if acao == "aceitar" then Some(Accept)
    else if acao == "recusar" then Some(Decline)
    else None
  }

  /** `novoStatus`: accepted or declined. */
  function NewStatus(a: Answer): Status {
    if a == Accept then Aceita else Recusada
  }

  /** `dataInicioAmizade`: the answer's time for an acceptance, null for a refusal. */
  function NewSince(a: Answer, now: Timestamp): Option<Timestamp> {
    if a == Accept then Some(now) else None
  }

  /**
   * The answer's effect on the tables. Any action but `aceitar` and `recusar`
   * is refused first; then the row must be addressed to me and still pending.
   */
  function Responded(t: Tables, me: UserId, id: FriendshipId, acao: string, now: Timestamp): (r: Result<Tables>)
  {
    var a := ParseAnswer(acao);
    if a.None? then Err(BadRequest)
    else if First(t.friendships, PendingTo(id, me)).None? then Err(NotFound)
    else Ok(t.(friendships := Answered(t.friendships, id, NewStatus(a.value), NewSince(a.value, now))))
  }

  /**
   * When an answer is refused: a bad action before anything else, then a
   * request that is not pending and addressed to me.
   */
  lemma {:induction false} RespondOutcome(t: Tables, me: UserId, id: FriendshipId, acao: string, now: Timestamp)
    ensures Responded(t, me, id, acao, now) == Err(BadRequest) <==> acao != "aceitar" && acao != "recusar"
    ensures Responded(t, me, id, acao, now) == Err(NotFound) <==>
              (acao == "aceitar" || acao == "recusar") &&
              forall f :: f in t.friendships ==> !(f.id == id && f.accepter == me && f.status == Pendente)
    ensures Responded(t, me, id, acao, now).Err? ==> Responded(t, me, id, acao, now).error in {BadRequest, NotFound}
  {
  }

  /**
   * What an accepted answer writes: the rows of that id, and no other row and
   * no other table, take `aceita` with the answer's time, or `recusada` with
   * no date; every row keeps its id and its two parties.
   */
  lemma {:induction false} RespondRows(t: Tables, me: UserId, id: FriendshipId, acao: string, now: Timestamp)
    requires Responded(t, me, id, acao, now).Ok?
    ensures Responded(t, me, id, acao, now).value.(friendships := t.friendships) == t
    ensures var fs := Responded(t, me, id, acao, now).value.friendships;
            && |fs| == |t.friendships|
            && forall k :: 0 <= k < |fs| ==>
                 && fs[k].id == t.friendships[k].id
                 && fs[k].requester == t.friendships[k].requester && fs[k].accepter == t.friendships[k].accepter
                 && (fs[k].id != id ==> fs[k] == t.friendships[k])
                 && (fs[k].id == id && acao == "aceitar" ==> fs[k].status == Aceita && fs[k].since == Some(now))
                 && (fs[k].id == id && acao == "recusar" ==> fs[k].status == Recusada && fs[k].since == None)
  {
  }

  /**
   * With distinct ids, the row an answer changes is the one request that was
   * pending and addressed to me: `pendente` is the only state an answer leaves.
   */
  lemma {:induction false} RespondTransition(t: Tables, me: UserId, id: FriendshipId, acao: string, now: Timestamp)
    requires FriendshipIdsDistinct(t.friendships)
    requires Responded(t, me, id, acao, now).Ok?
    ensures forall k :: 0 <= k < |t.friendships| && t.friendships[k].id == id ==>
              t.friendships[k] == First(t.friendships, PendingTo(id, me)).value &&
              t.friendships[k].status == Pendente && t.friendships[k].accepter == me
  {
    var fs := t.friendships;
    var g := First(fs, PendingTo(id, me)).value;
    var j :| 0 <= j < |fs| && fs[j] == g;
    forall k | 0 <= k < |fs| && fs[k].id == id ensures k == j {
    }
  }

  /** An answered request cannot be answered again, by anyone, either way. */
  lemma {:induction false} RespondOnce(t: Tables, me: UserId, id: FriendshipId, acao: string, now: Timestamp,
                                       me': UserId, acao': string, now': Timestamp)
    requires Responded(t, me, id, acao, now).Ok?
    ensures Responded(Responded(t, me, id, acao, now).value, me', id, acao', now').Err?
  {
    var fs := Responded(t, me, id, acao, now).value.friendships;
    forall f | f in fs ensures !Matches(PendingTo(id, me'), f) {
      var k :| 0 <= k < |fs| && fs[k] == f;
    }
  }

  /** Accepting a request from an existing user puts each of the two on the other's friend list. */
  lemma {:induction false} AcceptMakesFriends(t: Tables, me: UserId, id: FriendshipId, now: Timestamp)
    requires Responded(t, me, id, "aceitar", now).Ok?
    requires me in t.users
    requires First(t.friendships, PendingTo(id, me)).value.requester in t.users
    requires First(t.friendships, PendingTo(id, me)).value.requester != me
    ensures First(t.friendships, PendingTo(id, me)).value.requester in AcceptedFriends(Responded(t, me, id, "aceitar", now).value, me)
    ensures me in AcceptedFriends(Responded(t, me, id, "aceitar", now).value, First(t.friendships, PendingTo(id, me)).value.requester)
  {
    var fs := t.friendships;
    var g := First(fs, PendingTo(id, me)).value;
    var j :| 0 <= j < |fs| && fs[j] == g;
    var fs' := Responded(t, me, id, "aceitar", now).value.friendships;
    assert fs'[j] in fs' && fs'[j].status == Aceita && Joins(fs'[j], me, g.requester) && Joins(fs'[j], g.requester, me);
  }

  /** Rewriting status and date keeps every row's id and parties, hence the rows' integrity. */
  lemma {:induction false} AnsweredIntact(fs: seq<Friendship>, id: FriendshipId, status: Status, since: Option<Timestamp>,
                                          users: map<UserId, User>, next: nat)
    requires FriendshipIdsBelow(fs, next) && FriendshipsIntact(fs, users) && FriendshipIdsDistinct(fs)
    ensures FriendshipIdsBelow(Answered(fs, id, status, since), next)
    ensures FriendshipsIntact(Answered(fs, id, status, since), users)
    ensures FriendshipIdsDistinct(Answered(fs, id, status, since))
  {
    var fs' := Answered(fs, id, status, since);
    forall f | f in fs' ensures f.id < next && f.requester in users && f.accepter in users {
      var k :| 0 <= k < |fs'| && fs'[k] == f;
      assert fs[k] in fs;
    }
  }

  /** An answer keeps the store consistent. */
  lemma {:induction false} RespondConsistent(t: Tables, me: UserId, id: FriendshipId, acao: string, now: Timestamp)
    requires Consistent(t)
    requires Responded(t, me, id, acao, now).Ok?
    ensures Consistent(Responded(t, me, id, acao, now).value)
  {
    var a := ParseAnswer(acao).value;
    AnsweredIntact(t.friendships, id, NewStatus(a), NewSince(a, now), t.users, t.nextFriendshipId);
  }

  /**
   * The new variant of the handler: accepting emits `solicitacao_aceita` to
   * the requester's room; declining emits nothing.
   */
  method RespondFriendship(db: Db, me: Session, id: FriendshipId, acao: string, now: Timestamp) returns (r: Result<()>)
    modifies db`tables, db`events
    ensures Responded(old(db.tables), me.id, id, acao, now).Err? ==>
              && r == Err(Responded(old(db.tables), me.id, id, acao, now).error)
              && db.tables == old(db.tables) && db.events == old(db.events)
    ensures Responded(old(db.tables), me.id, id, acao, now).Ok? ==>
              && r == Ok(())
              && db.tables == Responded(old(db.tables), me.id, id, acao, now).value
              && db.events == old(db.events) +
                   if acao == "aceitar"
                   then [Event(First(old(db.tables).friendships, PendingTo(id, me.id)).value.requester, SolicitacaoAceita(me.name))]
                   else []
  {
    var answer := ParseAnswer(acao);
    if answer.None? {
      return Err(BadRequest);
    }
    var amizade := First(db.tables.friendships, PendingTo(id, me.id));
    if amizade.None? {
      return Err(NotFound);
    }
    db.tables := db.tables.(friendships := Answered(db.tables.friendships, id, NewStatus(answer.value), NewSince(answer.value, now)));
    if answer.value == Accept {
      db.events := db.events + [Event(amizade.value.requester, SolicitacaoAceita(me.name))];
    } else {
      assert db.events == db.events + [];
    }
    r := Ok(());
  }

  // ---------------------------------------------------------------------------
  // POST /amizades/remover/:amizadeId
  // ---------------------------------------------------------------------------

  /**
   * The removal's effect on the tables, and the other party it notifies.
   * The row must have me as a party, whatever its status. In one transaction
   * the shares between the two users go, in both directions, and then every
   * row with that id.
   */
  function Unfriended(t: Tables, me: UserId, id: FriendshipId): (r: Result<(Tables, UserId)>)
  {
    var row := First(t.friendships, WithPartyId(id, me));
    if row.None? then Err(NotFound)
    else
      var other := OtherParty(row.value, me);
      Ok((t.(shares := Without(t.shares, Between(me, other)),
             friendships := FriendshipsWithout(t.friendships, WithId(id))), other))
  }

  /**
   * What a removal does: it is refused exactly when no row of that id has me
   * as a party; otherwise the other party is the other user of such a row, no
   * row of that id is left and every other row stays, a share survives
   * exactly when it is not between the two users, and no other table changes.
   */
  lemma {:induction false} UnfriendOutcome(t: Tables, me: UserId, id: FriendshipId)
    ensures Unfriended(t, me, id).Err? <==> forall f :: f in t.friendships ==> !(f.id == id && (f.requester == me || f.accepter == me))
    ensures Unfriended(t, me, id).Err? ==> Unfriended(t, me, id).error == NotFound
    ensures Unfriended(t, me, id).Ok? ==>
              var (t', other) := Unfriended(t, me, id).value;
              && (exists f :: f in t.friendships && f.id == id && Joins(f, me, other))
              && (forall f :: f in t'.friendships <==> f in t.friendships && f.id != id)
              && (forall s :: s in t'.shares <==> s in t.shares && !Hits(Between(me, other), s))
              && t'.(shares := t.shares, friendships := t.friendships) == t
  {
    if Unfriended(t, me, id).Ok? {
      var other := Unfriended(t, me, id).value.1;
      WithoutMembers(t.shares, Between(me, other));
      assert Joins(First(t.friendships, WithPartyId(id, me)).value, me, other);
    }
  }

  /**
   * Removal withdraws album access between the two users: in a consistent
   * store, neither reaches an album of the other one any more. Every share of
   * an album is sent by its owner, so each such share was between the two.
   */
  lemma {:induction false} UnfriendRevokesAccess(t: Tables, me: UserId, id: FriendshipId, a: AlbumId)
    requires Consistent(t)
    requires Unfriended(t, me, id).Ok?
    requires Unfriended(t, me, id).value.1 != me
    ensures OwnsAlbum(t, me, a) ==> ResolveAlbumAccess(Unfriended(t, me, id).value.0, Unfriended(t, me, id).value.1, a).None?
    ensures OwnsAlbum(t, Unfriended(t, me, id).value.1, a) ==> ResolveAlbumAccess(Unfriended(t, me, id).value.0, me, a).None?
  {
    var (t', other) := Unfriended(t, me, id).value;
    WithoutMembers(t.shares, Between(me, other));
    forall s | s in t'.shares && s.target == AlbumTarget(a) && a in t.albums
      ensures !Addresses(s, other, AlbumTarget(a)) || t.albums[a].owner != me
      ensures !Addresses(s, me, AlbumTarget(a)) || t.albums[a].owner != other
    {
      assert ShareIntact(t, s);
    }
  }

  /** Removal keeps the store consistent. */
  lemma {:induction false} UnfriendConsistent(t: Tables, me: UserId, id: FriendshipId)
    requires Consistent(t)
    requires Unfriended(t, me, id).Ok?
    ensures Consistent(Unfriended(t, me, id).value.0)
  {
    var other := Unfriended(t, me, id).value.1;
    var ss := Without(t.shares, Between(me, other));
    WithoutMembers(t.shares, Between(me, other));
    SharesChangedConsistent(t, ss);
  }

  /**
   * The new variant of the handler: after the commit it emits
   * `amizade_removida` to the other party's room.
   */
  method Unfriend(db: Db, me: Session, id: FriendshipId) returns (r: Result<()>)
    modifies db`tables, db`events
    ensures Unfriended(old(db.tables), me.id, id).Err? ==>
              r == Err(NotFound) && db.tables == old(db.tables) && db.events == old(db.events)
    ensures Unfriended(old(db.tables), me.id, id).Ok? ==>
              && r == Ok(())
              && db.tables == Unfriended(old(db.tables), me.id, id).value.0
              && db.events == old(db.events) + [Event(Unfriended(old(db.tables), me.id, id).value.1, AmizadeRemovida(me.name))]
  {
    var t0 := db.tables;
    var amizade := First(t0.friendships, WithPartyId(id, me.id));
    if amizade.None? {
      db.tables := t0;
      return Err(NotFound);
    }
    var other := OtherParty(amizade.value, me.id);
    db.tables := db.tables.(shares := Without(db.tables.shares, Between(me.id, other)));
    db.tables := db.tables.(friendships := FriendshipsWithout(db.tables.friendships, WithId(id)));
    db.events := db.events + [Event(other, AmizadeRemovida(me.name))];
    r := Ok(());
  }
}
