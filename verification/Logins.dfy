/** How a host gets a new login: the statements `save_host` and `set_host_password` share. */
module Logins {
  import opened Wrappers
  import opened StoreRows
  import opened HostGraph

  /** The password secret after a change, sealing a new one if there is one. */
  function NewPassword(db: Db, change: PasswordChange, prior: Option<Id>): (Db, Option<Id>) {
    match change
    case Keep => (db, prior)
    case Set(value) =>
      var (sealed, s) := SealSecret(db, value);
      (sealed, Some(s))
    case Forget => (db, None)
  }

  /** The password a host logs in with after a change. */
  function PasswordAfter(db: Db, h: Id, change: PasswordChange): Option<string> {
    match change
    case Keep => LoginOf(db, h).password
    case Set(value) => Some(value)
    case Forget => None
  }

  /** The secret a change leaves to be released. */
  function ToRelease(change: PasswordChange, prior: Option<Id>): Option<Id> {
    if change.Keep? then None else prior
  }

  lemma NewPasswordKeepsGraph(db: Db, change: PasswordChange, prior: Option<Id>)
    requires Graph(db)
    requires prior.Some? ==> LiveSecret(db.secrets, prior.value) && !UsedByKey(db.keys, prior.value)
    ensures var (t, latest) := NewPassword(db, change, prior);
            && GraphBut(t, if change.Set? then Ids(latest) else {}) && SameLogins(db, t)
            && (latest.Some? ==> LiveSecret(t.secrets, latest.value) && !UsedByKey(t.keys, latest.value))
            && Reveal(t, latest)
               == (match change case Keep => Reveal(db, prior) case Set(value) => Some(value) case Forget => None)
            && t == db.(secrets := t.secrets, next := t.next) && db.next <= t.next
            && (prior.Some? ==> LiveSecret(t.secrets, prior.value))
            && (forall k :: k in db.keys && !db.keys[k].deleted ==> RevealKey(t, Some(k)) == RevealKey(db, Some(k)))
  {
    if change.Set? {
      SealKeepsGraph(db, change.value, {});
      var (t, s) := SealSecret(db, change.value);
      assert {} + {s} == {s};
      forall k | k in db.keys && !db.keys[k].deleted
        ensures RevealKey(t, Some(k)) == RevealKey(db, Some(k))
      {
        KeyLoginKept(db, t, k, {});
      }
    }
  }

  /** A host with a login changes it: only this host, and to exactly what was asked. */
  lemma ReloginKeepsGraph(db: Db, h: Id, i: Id, change: PasswordChange, row: IdentityRow)
    requires Graph(db) && LogsInWith(db.hosts, h, i)
    requires row.key.Some? ==> LiveKey(db.keys, row.key.value)
    ensures var (owned, own) := OwnIdentity(db, h, i);
            var prior := owned.identities[own].password;
            var (sealed, latest) := NewPassword(owned, change, prior);
            var t := UpdateIdentity(sealed, own, row.(password := latest));
            && GraphBut(t, Ids(ToRelease(change, prior)))
            && (prior.Some? ==> !UsedByKey(t.keys, prior.value))
            && OnlyHost(db, t, h) && LogsInWith(t.hosts, h, own) && own < t.next
            && LoginOf(t, h)
               == Login(row.username, row.auth, row.keyPath, RevealKey(db, row.key), PasswordAfter(db, h, change))
            && t == db.(identities := t.identities, hosts := t.hosts, secrets := t.secrets, next := t.next)
               && db.next <= t.next
            && t.hosts[h] == db.hosts[h].(identity := Some(own), rev := t.hosts[h].rev)
               && t.hosts[h].rev >= db.hosts[h].rev
  {
    OwnKeepsGraph(db, h, i);
    var (owned, own) := OwnIdentity(db, h, i);
    ChangeKeepsGraph(owned, h, own, change, row);
  }

  /** The change itself, once the identity is the host's own. */
  lemma ChangeKeepsGraph(db: Db, h: Id, own: Id, change: PasswordChange, row: IdentityRow)
    requires Graph(db) && LogsInWith(db.hosts, h, own) && !SharedIdentity(db.hosts, h, own)
    requires row.key.Some? ==> LiveKey(db.keys, row.key.value)
    ensures var prior := db.identities[own].password;
            var (sealed, latest) := NewPassword(db, change, prior);
            var t := UpdateIdentity(sealed, own, row.(password := latest));
            && GraphBut(t, Ids(ToRelease(change, prior)))
            && (prior.Some? ==> !UsedByKey(t.keys, prior.value))
            && OnlyHost(db, t, h)
            && LoginOf(t, h)
               == Login(row.username, row.auth, row.keyPath, RevealKey(db, row.key), PasswordAfter(db, h, change))
            && t == db.(identities := t.identities, secrets := t.secrets, next := t.next) && db.next <= t.next
  {
    var prior := db.identities[own].password;
    PasswordThroughIdentity(db, h, own, change);
    NewPasswordKeepsGraph(db, change, prior);
    var (sealed, latest) := NewPassword(db, change, prior);
    assert RevealKey(sealed, row.key) == RevealKey(db, row.key);
    var loose := if change.Set? then Ids(latest) else {};
    UpdateKeepsGraph(sealed, own, row.(password := latest), loose, Ids(ToRelease(change, prior)));
    var t := UpdateIdentity(sealed, own, row.(password := latest));
    ReloginIsOnly(db, db, sealed, t, h, own);
  }

  lemma PasswordThroughIdentity(db: Db, h: Id, own: Id, change: PasswordChange)
    requires Graph(db) && LogsInWith(db.hosts, h, own)
    ensures PasswordAfter(db, h, change)
         == match change
            case Keep => Reveal(db, db.identities[own].password)
            case Set(value) => Some(value)
            case Forget => None
  {
  }

  lemma ReloginIsOnly(db: Db, owned: Db, sealed: Db, t: Db, h: Id, own: Id)
    requires OnlyHost(db, owned, h) && SameLogins(owned, sealed) && sealed.hosts == owned.hosts
    requires t.hosts == owned.hosts
    requires LogsInWith(owned.hosts, h, own) && !SharedIdentity(owned.hosts, h, own)
    requires forall x :: x in sealed.hosts && sealed.hosts[x].identity != Some(own) ==>
               LoginOf(t, x) == LoginOf(sealed, x)
    ensures OnlyHost(db, t, h)
  {
    forall x | x in db.hosts && x != h
      ensures LoginOf(t, x) == LoginOf(db, x)
    {
      if owned.hosts[x].identity == Some(own) {
        assert owned.hosts[x].deleted;
      }
    }
  }

  /** A host without a login gets its first one. */
  lemma FirstLoginKeepsGraph(db: Db, h: Id, hostRow: HostRow, change: PasswordChange, row: IdentityRow, t: Db)
    requires Graph(db) && (LiveHost(db.hosts, h) ==> db.hosts[h].identity.None?)
    requires row.key.Some? ==> LiveKey(db.keys, row.key.value)
    requires var (sealed, latest) := NewPassword(db, change, None);
             && hostRow.identity == Some(sealed.next) && !hostRow.deleted && !row.deleted
             && h < t.next && sealed.next < t.next
             && t == sealed.(identities := sealed.identities[sealed.next := row.(password := latest)],
                             hosts := sealed.hosts[h := hostRow], next := t.next)
    ensures Graph(t) && OnlyHost(db, t, h)
    ensures LogsInWith(t.hosts, h, hostRow.identity.value) && !SharedIdentity(t.hosts, h, hostRow.identity.value)
    ensures LoginOf(t, h)
            == Login(row.username, row.auth, row.keyPath, RevealKey(db, row.key),
              if change.Set? then Some(change.value) else None)
  {
    NewPasswordKeepsGraph(db, change, None);
    var (sealed, latest) := NewPassword(db, change, None);
    var loose := if change.Set? then Ids(latest) else {};
    NewIdentityKeepsGraph(sealed, h, hostRow, row.(password := latest), t, loose);
    assert loose - Ids(latest) == {};
  }
}
