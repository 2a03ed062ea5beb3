/**
 * What the album and image share handlers have in common: the submitted
 * `compartilhamentos` entries, the rows they turn into, the delete-then-insert
 * replacement of a target's share set, and the "first share row" lookup that
 * an unordered SELECT ... [0] performs.
 */
module Sharing {
  import opened Store

  /**
   * One element of the submitted `compartilhamentos` array. `friendId` is None
   * when the field is absent or empty (falsy); `permissao` is the raw string.
   */
  datatype ShareEntry = ShareEntry(friendId: Option<UserId>, permissao: string)

  /** The string stored in COMPARTILHAMENTOS.Permissao. */
  function PermissionName(p: Permission): string {
    match p
    case Compartilhado => "compartilhado"
    case Editavel => "editavel"
  }

  /** `["compartilhado", "editavel"].includes(permissao)`, returning the permission it names. */
  function ParsePermission(s: string): (r: Option<Permission>)
    ensures r.Some? ==> PermissionName(r.value) == s
    ensures forall p :: PermissionName(p) == s ==> r == Some(p)
  {
    if s == "compartilhado" then Some(Compartilhado)
    else if s == "editavel" then Some(Editavel)
    else None
  }

  /** The entry makes the insert loop write the share row s (any other value, e.g. `nao_compartilhado`, writes nothing). */
  predicate Grants(e: ShareEntry, sender: UserId, target: Target, s: Share) {
    && e.friendId == Some(s.recipient)
    && ParsePermission(e.permissao) == Some(s.permission)
    && s.sender == sender
    && s.target == target
  }

  /** The row one entry inserts, if any. */
  function RowOf(sender: UserId, target: Target, e: ShareEntry): (r: seq<Share>)
    ensures |r| <= 1
  {
    if e.friendId.Some? && ParsePermission(e.permissao).Some? then
      [Share(sender, e.friendId.value, target, ParsePermission(e.permissao).value)]
    else []
  }

  /** The rows the insert loop writes, in entry order. */
  function ShareRows(sender: UserId, target: Target, entries: seq<ShareEntry>): (r: seq<Share>)
    ensures |r| <= |entries|
  {
    if entries == [] then []
    else RowOf(sender, target, entries[0]) + ShareRows(sender, target, entries[1..])
  }

  lemma {:induction false} RowOfGrants(sender: UserId, target: Target, e: ShareEntry)
    ensures forall s :: s in RowOf(sender, target, e) <==> Grants(e, sender, target, s)
  {
  }

  /** The rows written are exactly those some entry grants: one per entry with a friend id and an accepted permission. */
  lemma {:induction false} ShareRowsGrants(sender: UserId, target: Target, entries: seq<ShareEntry>)
    ensures forall s :: s in ShareRows(sender, target, entries) <==> exists e :: e in entries && Grants(e, sender, target, s)
  {
    if entries != [] {
      ShareRowsGrants(sender, target, entries[1..]);
      RowOfGrants(sender, target, entries[0]);
      assert forall e :: e in entries <==> e == entries[0] || e in entries[1..];
    }
  }

  /** The WHERE clause of `DELETE FROM COMPARTILHAMENTOS WHERE AlbumID = ?` / `WHERE ImagemID = ?`. */
  function Only(target: Target): Selector {
    match target
    case AlbumTarget(a) => TargetIn({a}, {})
    case ImageTarget(i) => TargetIn({}, {i})
  }

  lemma {:induction false} OnlyHits(target: Target, s: Share)
    ensures Hits(Only(target), s) <==> s.target == target
  {
  }

  /** Delete every share of the target, then append the new rows. */
  function Replace(ss: seq<Share>, target: Target, rows: seq<Share>): (r: seq<Share>)
    ensures |r| <= |ss| + |rows|
  {
    Without(ss, Only(target)) + rows
  }

  /** After the replacement the target's shares are exactly the new rows; every other share is kept. */
  lemma {:induction false} ReplaceMembers(ss: seq<Share>, target: Target, rows: seq<Share>)
    ensures forall s :: s in Replace(ss, target, rows) <==> (s in ss && s.target != target) || s in rows
  {
    WithoutMembers(ss, Only(target));
  }

  /** s is a share of the target addressed to the recipient. */
  predicate Addresses(s: Share, recipient: UserId, target: Target) {
    s.recipient == recipient && s.target == target
  }

  /** The permission of the first share row addressed to the recipient for the target. */
  function FirstShare(ss: seq<Share>, recipient: UserId, target: Target): (r: Option<Permission>)
    ensures r.None? <==> forall k :: 0 <= k < |ss| ==> !Addresses(ss[k], recipient, target)
    ensures r.Some? ==> exists k :: 0 <= k < |ss| && Addresses(ss[k], recipient, target) && ss[k].permission == r.value &&
                                  forall j :: 0 <= j < k ==> !Addresses(ss[j], recipient, target)
  {
    if ss == [] then None
    else if Addresses(ss[0], recipient, target) then Some(ss[0].permission)
    else
      var r := FirstShare(ss[1..], recipient, target);
      assert forall k :: 0 < k < |ss| ==> ss[k] == ss[1..][k - 1];
      if r.Some? then
        var k :| 0 <= k < |ss[1..]| && Addresses(ss[1..][k], recipient, target) && ss[1..][k].permission == r.value &&
                 forall j :: 0 <= j < k ==> !Addresses(ss[1..][j], recipient, target);
        assert Addresses(ss[k + 1], recipient, target);
        r
      else
        r
  }

  lemma {:induction false} FirstShareAppend(a: seq<Share>, b: seq<Share>, recipient: UserId, target: Target)
    ensures FirstShare(a + b, recipient, target) ==
            if FirstShare(a, recipient, target).Some? then FirstShare(a, recipient, target) else FirstShare(b, recipient, target)
  {
    if a == [] {
      assert a + b == b;
    } else {
      assert (a + b)[1..] == a[1..] + b;
      FirstShareAppend(a[1..], b, recipient, target);
    }
  }

  /** The permission of the first entry that names the recipient with a permission the loop accepts. */
  function FirstAccepted(entries: seq<ShareEntry>, recipient: UserId): Option<Permission> {
    if entries == [] then None
    else if entries[0].friendId == Some(recipient) && ParsePermission(entries[0].permissao).Some? then
      ParsePermission(entries[0].permissao)
    else FirstAccepted(entries[1..], recipient)
  }

  lemma {:induction false} FirstShareOfRows(sender: UserId, target: Target, entries: seq<ShareEntry>, recipient: UserId)
    ensures FirstShare(ShareRows(sender, target, entries), recipient, target) == FirstAccepted(entries, recipient)
  {
    if entries != [] {
      FirstShareOfRows(sender, target, entries[1..], recipient);
      FirstShareAppend(RowOf(sender, target, entries[0]), ShareRows(sender, target, entries[1..]), recipient, target);
    }
  }

  /**
   * After the share set of a target is replaced, a user's access to that
   * target is decided by the submitted entries alone: the first entry naming
   * them with an accepted permission, or none. Shares held before are gone.
   */
  lemma {:induction false} ReplaceDecidesAccess(ss: seq<Share>, sender: UserId, target: Target, entries: seq<ShareEntry>, recipient: UserId)
    ensures FirstShare(Replace(ss, target, ShareRows(sender, target, entries)), recipient, target) == FirstAccepted(entries, recipient)
  {
    var kept := Without(ss, Only(target));
    WithoutMembers(ss, Only(target));
    assert FirstShare(kept, recipient, target).None? by {
      forall k | 0 <= k < |kept| ensures !Addresses(kept[k], recipient, target) {
        assert kept[k] in kept;
      }
    }
    FirstShareAppend(kept, ShareRows(sender, target, entries), recipient, target);
    FirstShareOfRows(sender, target, entries, recipient);
  }

  /** Replacing one target's shares leaves every other target's access as it was. */
  lemma {:induction false} ReplaceKeepsOthers(ss: seq<Share>, target: Target, rows: seq<Share>, recipient: UserId, other: Target)
    requires other != target
    requires forall s :: s in rows ==> s.target == target
    ensures FirstShare(Replace(ss, target, rows), recipient, other) == FirstShare(ss, recipient, other)
  {
    ReplaceKeepsOthersWithout(ss, target, recipient, other);
    FirstShareAppend(Without(ss, Only(target)), rows, recipient, other);
    assert FirstShare(rows, recipient, other).None? by {
      forall k | 0 <= k < |rows| ensures !Addresses(rows[k], recipient, other) {
        assert rows[k] in rows;
      }
    }
  }

  lemma {:induction false} ReplaceKeepsOthersWithout(ss: seq<Share>, target: Target, recipient: UserId, other: Target)
    requires other != target
    ensures FirstShare(Without(ss, Only(target)), recipient, other) == FirstShare(ss, recipient, other)
  {
    if ss != [] {
      ReplaceKeepsOthersWithout(ss[1..], target, recipient, other);
      var head := if Hits(Only(target), ss[0]) then [] else [ss[0]];
      FirstShareAppend(head, Without(ss[1..], Only(target)), recipient, other);
    }
  }

  /** Submitting the same entries twice leaves the same share set as submitting them once. */
  lemma {:induction false} ReplaceIdempotent(ss: seq<Share>, target: Target, rows: seq<Share>)
    requires forall s :: s in rows ==> s.target == target
    ensures Replace(Replace(ss, target, rows), target, rows) == Replace(ss, target, rows)
  {
    var sel := Only(target);
    var kept := Without(ss, sel);
    WithoutTwice(ss, sel);
    WithoutAppend(kept, rows, sel);
    forall s | s in rows ensures Hits(sel, s) {
      OnlyHits(target, s);
    }
    WithoutNone(rows, sel);
    assert Without(kept + rows, sel) == kept;
  }

  lemma {:induction false} WithoutTwice(ss: seq<Share>, sel: Selector)
    ensures Without(Without(ss, sel), sel) == Without(ss, sel)
  {
    if ss != [] {
      WithoutTwice(ss[1..], sel);
      var head := if Hits(sel, ss[0]) then [] else [ss[0]];
      WithoutAppend(head, Without(ss[1..], sel), sel);
      if head != [] {
        assert Without(head, sel) == head + Without(head[1..], sel);
      }
    }
  }

  lemma {:induction false} WithoutNone(ss: seq<Share>, sel: Selector)
    requires forall s :: s in ss ==> Hits(sel, s)
    ensures Without(ss, sel) == []
  {
    if ss != [] {
      assert ss[0] in ss;
      assert forall s :: s in ss[1..] ==> s in ss;
      WithoutNone(ss[1..], sel);
    }
  }

  /** How many leading rows name a recipient that exists: the insert loop fails at the first that does not. */
  function KnownPrefix(users: map<UserId, User>, rows: seq<Share>): (k: nat)
    ensures k <= |rows|
  {
    if rows == [] || rows[0].recipient !in users then 0
    else 1 + KnownPrefix(users, rows[1..])
  }

  /** The prefix counted names only existing users, and the row after it names one that does not exist. */
  lemma {:induction false} KnownPrefixStops(users: map<UserId, User>, rows: seq<Share>)
    ensures forall j :: 0 <= j < KnownPrefix(users, rows) ==> rows[j].recipient in users
    ensures KnownPrefix(users, rows) < |rows| ==> rows[KnownPrefix(users, rows)].recipient !in users
  {
    if rows != [] && rows[0].recipient in users {
      KnownPrefixStops(users, rows[1..]);
      forall j | 0 < j < KnownPrefix(users, rows) ensures rows[j].recipient in users {
        assert rows[j] == rows[1..][j - 1];
      }
    }
  }

  lemma {:induction false} KnownPrefixAppend(users: map<UserId, User>, a: seq<Share>, b: seq<Share>)
    requires KnownPrefix(users, a) == |a|
    ensures KnownPrefix(users, a + b) == |a| + KnownPrefix(users, b)
  {
    if a == [] {
      assert a + b == b;
    } else {
      assert (a + b)[1..] == a[1..] + b;
      KnownPrefixAppend(users, a[1..], b);
    }
  }

  /**
   * A committed share replacement keeps the store consistent: every row it
   * writes comes from the target's owner and names an existing recipient.
   */
  lemma {:induction false} ReplaceConsistent(t: Tables, me: UserId, target: Target, entries: seq<ShareEntry>)
    requires Consistent(t)
    requires OwnsTarget(t, me, target)
    requires KnownPrefix(t.users, ShareRows(me, target, entries)) == |ShareRows(me, target, entries)|
    ensures Consistent(t.(shares := Replace(t.shares, target, ShareRows(me, target, entries))))
  {
    var rows := ShareRows(me, target, entries);
    ShareRowsGrants(me, target, entries);
    ReplaceMembers(t.shares, target, rows);
    KnownPrefixStops(t.users, rows);
    forall s | s in Replace(t.shares, target, rows) ensures ShareIntact(t, s) {
      if s in rows {
        var k :| 0 <= k < |rows| && rows[k] == s;
      }
    }
    SharesChangedConsistent(t, Replace(t.shares, target, rows));
  }
}
