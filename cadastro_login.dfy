/**
 * Registration, login and account deletion. The two copies of these routes
 * (Projeto/routes/cadastro_login.js and galeria-web/Projeto/routes/cadastro_login.js)
 * differ only in comments, so one module models both.
 *
 * Form fields are strings; an absent field is the empty string, which the
 * handlers' truthiness tests treat the same way. The password hasher is
 * outside the model: registration receives the hash it produced, and login
 * receives its comparison as a function.
 */
module CadastroLogin {
  import opened Store

  // ---------------------------------------------------------------------------
  // POST /auth/cadastro
  // ---------------------------------------------------------------------------

  /** The checks made before the database is consulted, in their order. */
  function CheckRegistration(nome: string, email: string, senha: string, confirmar: string): (r: Option<Error>)
    ensures r == Some(FieldsRequired) <==> nome == "" || email == "" || senha == "" || confirmar == ""
    ensures r == Some(PasswordMismatch) <==> nome != "" && email != "" && senha != "" && confirmar != "" && senha != confirmar
    ensures r.None? || r == Some(FieldsRequired) || r == Some(PasswordMismatch)
  {
    if nome == "" || email == "" || senha == "" || confirmar == "" then Some(FieldsRequired)
    else if senha != confirmar then Some(PasswordMismatch)
    else None
  }

  /** Some account already has the email or the user name. */
  predicate Taken(users: map<UserId, User>, nome: string, email: string) {
    exists u :: u in users && (users[u].email == email || users[u].name == nome)
  }

  /** The registration's effect on the tables. */
  function Registered(t: Tables, nome: string, email: string, senha: string, confirmar: string, hash: string): (r: Result<Tables>)
  {
    if CheckRegistration(nome, email, senha, confirmar).Some? then Err(CheckRegistration(nome, email, senha, confirmar).value)
    else if Taken(t.users, nome, email) then Err(AlreadyRegistered)
    else Ok(t.(users := t.users[t.nextUserId := User(nome, email, hash)], nextUserId := t.nextUserId + 1))
  }

  /**
   * What a registration does: a missing field or a mismatched confirmation is
   * refused without a lookup; a taken email or name is refused; otherwise
   * exactly one account is added, under an id no account had, with the name,
   * the email and the hash, and nothing else changes.
   */
  lemma {:induction false} RegisterOutcome(t: Tables, nome: string, email: string, senha: string, confirmar: string, hash: string)
    requires KeysBelow(t.users.Keys, t.nextUserId)
    ensures Registered(t, nome, email, senha, confirmar, hash).Err? ==>
              Registered(t, nome, email, senha, confirmar, hash).error in {FieldsRequired, PasswordMismatch, AlreadyRegistered}
    ensures Registered(t, nome, email, senha, confirmar, hash) == Err(FieldsRequired) <==>
              nome == "" || email == "" || senha == "" || confirmar == ""
    ensures Registered(t, nome, email, senha, confirmar, hash) == Err(PasswordMismatch) <==>
              nome != "" && email != "" && senha != "" && confirmar != "" && senha != confirmar
    ensures Registered(t, nome, email, senha, confirmar, hash).Ok? <==>
              nome != "" && email != "" && senha != "" && senha == confirmar &&
              forall u :: u in t.users ==> t.users[u].email != email && t.users[u].name != nome
    ensures Registered(t, nome, email, senha, confirmar, hash).Ok? ==>
              var users := Registered(t, nome, email, senha, confirmar, hash).value.users;
              exists id: UserId :: id !in t.users && users == t.users[id := User(nome, email, hash)] &&
                Registered(t, nome, email, senha, confirmar, hash).value.(users := t.users, nextUserId := t.nextUserId) == t
  {
    if Registered(t, nome, email, senha, confirmar, hash).Ok? {
      assert t.nextUserId !in t.users;
    }
  }

  /** A registration keeps emails and user names unique, and the store consistent. */
  lemma {:induction false} RegisterConsistent(t: Tables, nome: string, email: string, senha: string, confirmar: string, hash: string)
    requires Consistent(t)
    requires Registered(t, nome, email, senha, confirmar, hash).Ok?
    ensures Consistent(Registered(t, nome, email, senha, confirmar, hash).value)
  {
    var id := t.nextUserId;
    var users := t.users[id := User(nome, email, hash)];
    assert id !in t.users;
    assert forall u :: u in t.users ==> u in users && users[u] == t.users[u];
    assert AccountsUnique(users);
    assert KeysBelow(users.Keys, id + 1);
  }

  /** POST /auth/cadastro. */
  method Register(db: Db, nome: string, email: string, senha: string, confirmar: string, hash: string) returns (r: Result<()>)
    modifies db`tables
    ensures Registered(old(db.tables), nome, email, senha, confirmar, hash).Err? ==>
              r == Err(Registered(old(db.tables), nome, email, senha, confirmar, hash).error) && db.tables == old(db.tables)
    ensures Registered(old(db.tables), nome, email, senha, confirmar, hash).Ok? ==>
              r == Ok(()) && db.tables == Registered(old(db.tables), nome, email, senha, confirmar, hash).value
  {
    var problem := CheckRegistration(nome, email, senha, confirmar);
    if problem.Some? {
      return Err(problem.value);
    }
    if exists u :: u in db.tables.users && (db.tables.users[u].email == email || db.tables.users[u].name == nome) {
      return Err(AlreadyRegistered);
    }
    var id := db.tables.nextUserId;
    db.tables := db.tables.(users := db.tables.users[id := User(nome, email, hash)], nextUserId := id + 1);
    r := Ok(());
  }

  // ---------------------------------------------------------------------------
  // POST /auth/login
  // ---------------------------------------------------------------------------

  /** `SELECT * FROM USUARIOS WHERE Email = ?` then `rows[0]`: the smallest id with that email among ids k..n-1. */
  function FirstUserFrom(users: map<UserId, User>, email: string, k: nat, n: nat): (r: Option<UserId>)
    ensures r.Some? ==> k <= r.value < n && r.value in users && users[r.value].email == email
    ensures r.None? ==> forall u :: k <= u < n && u in users ==> users[u].email != email
    decreases n - k
  {
    if k >= n then None
    else if k in users && users[k].email == email then Some(k)
    else FirstUserFrom(users, email, k + 1, n)
  }

  /**
   * The login outcome. Missing fields are refused before any lookup; an
   * unknown email and a wrong password both give InvalidCredentials. The
   * session holds the id, name and email, never the hash.
   */
  function Login(t: Tables, email: string, senha: string, compare: (string, string) -> bool): (r: Result<Session>)
    ensures r == Err(FieldsRequired) <==> email == "" || senha == ""
    ensures r.Err? ==> r.error in {FieldsRequired, InvalidCredentials}
    ensures r.Ok? ==> && r.value.id in t.users
                      && r.value == Session(r.value.id, t.users[r.value.id].name, t.users[r.value.id].email)
                      && t.users[r.value.id].email == email
                      && compare(senha, t.users[r.value.id].passwordHash)
  {
    if email == "" || senha == "" then Err(FieldsRequired)
    else
      var found := FirstUserFrom(t.users, email, 0, t.nextUserId);
      if found.None? then Err(InvalidCredentials)
      else
        var u := t.users[found.value];
        if !compare(senha, u.passwordHash) then Err(InvalidCredentials)
        else Ok(Session(found.value, u.name, u.email))
  }

  /**
   * The two failures look alike: with the fields given, an email no account
   * has and a password the account's hash rejects both give InvalidCredentials.
   * In a store with unique emails, that is the only way login fails.
   */
  lemma {:induction false} LoginFailuresAlike(t: Tables, email: string, senha: string, compare: (string, string) -> bool)
    requires KeysBelow(t.users.Keys, t.nextUserId) && AccountsUnique(t.users)
    requires email != "" && senha != ""
    ensures (forall u :: u in t.users ==> t.users[u].email != email) ==> Login(t, email, senha, compare) == Err(InvalidCredentials)
    ensures forall u :: u in t.users && t.users[u].email == email && !compare(senha, t.users[u].passwordHash) ==>
              Login(t, email, senha, compare) == Err(InvalidCredentials)
    ensures forall u :: u in t.users && t.users[u].email == email && compare(senha, t.users[u].passwordHash) ==>
              Login(t, email, senha, compare) == Ok(Session(u, t.users[u].name, email))
  {
    forall u | u in t.users && t.users[u].email == email
      ensures FirstUserFrom(t.users, email, 0, t.nextUserId) == Some(u)
    {
      var found := FirstUserFrom(t.users, email, 0, t.nextUserId);
      assert found.Some?;
      assert found.value == u;
    }
  }

  /** Registering and then logging in with the same email and password opens a session for the new account. */
  lemma {:induction false} RegisterThenLogin(t: Tables, nome: string, email: string, senha: string, hash: string,
                                             compare: (string, string) -> bool)
    requires Consistent(t)
    requires Registered(t, nome, email, senha, senha, hash).Ok?
    requires compare(senha, hash)
    ensures Login(Registered(t, nome, email, senha, senha, hash).value, email, senha, compare) ==
              Ok(Session(t.nextUserId, nome, email))
  {
    var t' := Registered(t, nome, email, senha, senha, hash).value;
    RegisterConsistent(t, nome, email, senha, senha, hash);
    LoginFailuresAlike(t', email, senha, compare);
    assert t'.users[t.nextUserId] == User(nome, email, hash);
  }

  // ---------------------------------------------------------------------------
  // POST /auth/delete
  // ---------------------------------------------------------------------------

  /** The NomeArquivo keys of the user's images: the public ids handed to delete_resources. */
  function ImageKeys(t: Tables, me: UserId): set<string> {
    set i | i in t.images && t.images[i].owner == me :: t.images[i].fileName
  }

  /**
   * The call names every image of the user and no other key, and it has keys
   * exactly when the user has images, which is when the handler makes it.
   */
  lemma {:induction false} ImageKeysCover(t: Tables, me: UserId)
    ensures forall i :: i in ImagesOf(t, me) ==> t.images[i].fileName in ImageKeys(t, me)
    ensures forall k :: k in ImageKeys(t, me) ==> exists i :: i in ImagesOf(t, me) && t.images[i].fileName == k
    ensures ImageKeys(t, me) == {} <==> ImagesOf(t, me) == {}
  {
    if ImagesOf(t, me) != {} {
      var i :| i in ImagesOf(t, me);
      assert t.images[i].fileName in ImageKeys(t, me);
    }
  }

  /**
   * POST /auth/delete. If the user has images, one delete_resources call asks
   * the blob store to drop all their keys; when it throws, the transaction
   * rolls back and nothing changes. Then the user row is deleted, and the
   * cascades take every album, image, tag, share and friendship of theirs.
   */
  method DeleteAccount(db: Db, me: UserId, remoteFails: bool) returns (r: Result<()>)
    modifies db`tables, db`blobLog
    ensures ImagesOf(old(db.tables), me) != {} && remoteFails ==>
              r == Err(StorageFailure) && db.tables == old(db.tables) && db.blobLog == old(db.blobLog)
    ensures ImagesOf(old(db.tables), me) != {} && !remoteFails ==>
              && r == Ok(())
              && db.blobLog == old(db.blobLog) + [DeleteResources(ImageKeys(old(db.tables), me))]
              && db.tables == RemoveUser(old(db.tables), me)
    ensures ImagesOf(old(db.tables), me) == {} ==>
              r == Ok(()) && db.blobLog == old(db.blobLog) && db.tables == RemoveUser(old(db.tables), me)
  {
    var t0 := db.tables;
    var imagens := ImagesOf(t0, me);
    if imagens != {} {
      if remoteFails {
        db.tables := t0;
        return Err(StorageFailure);
      }
      db.blobLog := db.blobLog + [DeleteResources(ImageKeys(t0, me))];
    }
    db.tables := RemoveUser(db.tables, me);
    r := Ok(());
  }

  /**
   * After the account is deleted nothing in the store names the user: no
   * account, album, image, tag, share or friendship of theirs is left.
   */
  lemma {:induction false} DeletedAccountLeavesNoTrace(t: Tables, me: UserId)
    ensures me !in RemoveUser(t, me).users
    ensures forall a :: a in RemoveUser(t, me).albums ==> RemoveUser(t, me).albums[a].owner != me
    ensures forall i :: i in RemoveUser(t, me).images ==> RemoveUser(t, me).images[i].owner != me
    ensures forall g :: g in RemoveUser(t, me).tags ==> RemoveUser(t, me).tags[g].owner != me
    ensures forall s :: s in RemoveUser(t, me).shares ==> s.sender != me && s.recipient != me
    ensures forall f :: f in RemoveUser(t, me).friendships ==> f.requester != me && f.accepter != me
  {
    var r := RemoveUser(t, me);
    forall a | a in r.albums ensures r.albums[a].owner != me {
      assert r.albums[a] == t.albums[a];
    }
    forall i | i in r.images ensures r.images[i].owner != me {
      assert r.images[i] == t.images[i];
    }
  }
}
