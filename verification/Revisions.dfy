/**
 Revisions: no row ever goes, and a row that is no longer what it was has a higher revision. That
 is what makes a change travel: another device is told of a row when its revision has risen.
 */
module Revisions {
  import opened Wrappers
  import opened StoreRows
  import opened HostGraph
  import opened Logins

  /** The rows with this id are still there, and each is unchanged or has a higher revision. */
  ghost predicate RowsRise(before: Db, after: Db, x: Id) {
    && (x in before.hosts ==>
          x in after.hosts && (after.hosts[x] == before.hosts[x] || after.hosts[x].rev > before.hosts[x].rev))
    && (x in before.identities ==>
          && x in after.identities
          && (after.identities[x] == before.identities[x] || after.identities[x].rev > before.identities[x].rev))
    && (x in before.keys ==>
          x in after.keys && (after.keys[x] == before.keys[x] || after.keys[x].rev > before.keys[x].rev))
    && (x in before.secrets ==>
          && x in after.secrets
          && (after.secrets[x] == before.secrets[x] || after.secrets[x].rev > before.secrets[x].rev))
    && (x in before.groups ==>
          x in after.groups && (after.groups[x] == before.groups[x] || after.groups[x].rev > before.groups[x].rev))
  }

  /** Every row of every table is still there, and is unchanged or has a higher revision. */
  ghost predicate Rises(before: Db, after: Db) {
    forall x: Id :: RowsRise(before, after, x)
  }

  lemma RisesOn(a: Db, b: Db, c: Db)
    requires Rises(a, b) && Rises(b, c)
    ensures Rises(a, c)
  {
    forall x: Id
      ensures RowsRise(a, c, x)
    {
      assert RowsRise(a, b, x) && RowsRise(b, c, x);
    }
  }

  lemma NothingRises(db: Db)
    ensures Rises(db, db)
  {
  }

  // ------------------------------------------------------------------ statements

  lemma SealRises(db: Db, text: string)
    requires IdsBelowNext(db)
    ensures Rises(db, SealSecret(db, text).0) && IdsBelowNext(SealSecret(db, text).0)
  {
  }

  lemma ForgetRises(db: Db, s: Id)
    ensures Rises(db, ForgetSecret(db, s))
  {
  }

  lemma ReleaseRises(db: Db, s: Option<Id>)
    ensures Rises(db, ReleaseIfAny(db, s))
  {
    if s.Some? {
      ForgetRises(db, s.value);
    }
    NothingRises(db);
  }

  lemma InsertIdentityRises(db: Db, row: IdentityRow)
    requires IdsBelowNext(db)
    ensures Rises(db, InsertIdentity(db, row).0) && IdsBelowNext(InsertIdentity(db, row).0)
  {
  }

  lemma PointAtRises(db: Db, h: Id, i: Id)
    requires h in db.hosts
    ensures Rises(db, PointAt(db, h, i))
  {
  }

  lemma OwnIdentityRises(db: Db, h: Id, i: Id)
    requires IdsBelowNext(db) && h in db.hosts && i in db.identities
    ensures Rises(db, OwnIdentity(db, h, i).0) && IdsBelowNext(OwnIdentity(db, h, i).0)
  {
    NothingRises(db);
    if SharedIdentity(db.hosts, h, i) {
      InsertIdentityRises(db, db.identities[i]);
      var (copied, copy) := InsertIdentity(db, db.identities[i]);
      PointAtRises(copied, h, copy);
      RisesOn(db, copied, PointAt(copied, h, copy));
    }
  }

  lemma NewPasswordRises(db: Db, change: PasswordChange, prior: Option<Id>)
    requires IdsBelowNext(db)
    ensures Rises(db, NewPassword(db, change, prior).0) && IdsBelowNext(NewPassword(db, change, prior).0)
  {
    NothingRises(db);
    if change.Set? {
      SealRises(db, change.value);
    }
  }

  lemma UpdateIdentityRises(db: Db, i: Id, row: IdentityRow)
    requires i in db.identities
    ensures Rises(db, UpdateIdentity(db, i, row))
  {
  }

  lemma TombstoneHostRises(db: Db, h: Id)
    requires h in db.hosts
    ensures Rises(db, TombstoneHost(db, h))
  {
  }

  lemma TombstoneIdentityRises(db: Db, i: Id)
    requires i in db.identities
    ensures Rises(db, TombstoneIdentity(db, i))
  {
  }

  lemma TombstoneKeyRises(db: Db, k: Id)
    requires k in db.keys
    ensures Rises(db, TombstoneKey(db, k))
  {
  }

  lemma InsertKeyRises(db: Db, row: KeyRow)
    requires IdsBelowNext(db)
    ensures Rises(db, InsertKey(db, row).0)
  {
  }

  lemma EnsureGroupRises(db: Db, w: Workspace, name: Option<string>)
    requires IdsBelowNext(db)
    ensures Rises(db, EnsureGroupIfAny(db, w, name).0)
  {
    NothingRises(db);
  }

  /** A host's row is new, or has a higher revision. */
  lemma HostRowRises(before: Db, after: Db, h: Id)
    requires h in after.hosts && after == before.(hosts := before.hosts[h := after.hosts[h]], next := after.next)
    requires h in before.hosts ==> after.hosts[h].rev > before.hosts[h].rev
    ensures Rises(before, after)
  {
  }

  /** The three statements a login is changed by. */
  lemma ReloginRises(db: Db, h: Id, i: Id, change: PasswordChange, row: IdentityRow)
    requires Graph(db) && LogsInWith(db.hosts, h, i)
    ensures var (owned, own) := OwnIdentity(db, h, i);
            var (sealed, latest) := NewPassword(owned, change, owned.identities[own].password);
            Rises(db, UpdateIdentity(sealed, own, row.(password := latest)))
  {
    OwnIdentityRises(db, h, i);
    var (owned, own) := OwnIdentity(db, h, i);
    var prior := owned.identities[own].password;
    NewPasswordRises(owned, change, prior);
    var (sealed, latest) := NewPassword(owned, change, prior);
    RisesOn(db, owned, sealed);
    UpdateIdentityRises(sealed, own, row.(password := latest));
    RisesOn(db, sealed, UpdateIdentity(sealed, own, row.(password := latest)));
  }

  /** A login is made for a host: a password sealed if there is one, an identity, and the host's row. */
  lemma FirstLoginRises(db: Db, change: PasswordChange, row: IdentityRow, after: Db, h: Id)
    requires IdsBelowNext(db) && h in after.hosts
    requires var (sealed, latest) := NewPassword(db, change, None);
             var made := InsertIdentity(sealed, row.(password := latest)).0;
             after == made.(hosts := made.hosts[h := after.hosts[h]], next := after.next)
    requires h in db.hosts ==> after.hosts[h].rev > db.hosts[h].rev
    ensures Rises(db, after)
  {
    NewPasswordRises(db, change, None);
    var (sealed, latest) := NewPassword(db, change, None);
    InsertIdentityRises(sealed, row.(password := latest));
    var made := InsertIdentity(sealed, row.(password := latest)).0;
    RisesOn(db, sealed, made);
    HostRowRises(made, after, h);
    RisesOn(db, made, after);
  }
}
