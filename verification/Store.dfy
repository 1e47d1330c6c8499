/**
 The host store: saving, re-passwording and deleting hosts, keeping keys, and dragging hosts
 and groups around. Each method is one transaction: it works on a copy of the database, and
 only its last statement commits it.
 */
module Store {
  import opened Wrappers
  import opened StoreRows
  import opened Drafts
  import opened HostGraph
  import opened Logins
  import opened Places
  import opened Outcomes
  import opened Revisions
  import opened Text

  /** Why a valid draft is not saved, in the order the store finds out. */
  function SaveRefusal(db: Db, unlocked: bool, d: HostDraft): Option<StoreError> {
    if d.password.Set? && !unlocked then Some(VaultLocked)
    else if d.key.Some? && !LiveKey(db.keys, d.key.value) then Some(Invalid("keyId", "unknown"))
    else if d.id.Some? && !LiveHost(db.hosts, d.id.value) then Some(UnknownHost(d.id.value))
    else None
  }

  /** The workspace a saved host is in: as asked, or where it was, or the private one. */
  function SavedWorkspace(db: Db, d: HostDraft): Workspace {
    if d.workspace.Some? then d.workspace.value
    else if d.id.Some? && d.id.value in db.hosts then db.hosts[d.id.value].workspace
    else Private
  }

  /** An existing host whose workspace and group stay the same keeps its position. */
  predicate StaysPut(db: Db, h: Id, d: HostDraft, group: Option<Id>) {
    d.id == Some(h) && h in db.hosts && db.hosts[h].workspace == SavedWorkspace(db, d) && db.hosts[h].group == group
  }

  /** What a saved host looks like: its row, its place, and how it logs in. */
  ghost predicate Saved(before: Db, after: Db, h: Id, d: HostDraft) {
    var (grouped, group) := EnsureGroupIfAny(before, SavedWorkspace(before, d), d.group);
    && LiveHost(after.hosts, h)
    && after.groups == grouped.groups
    && after.keys == before.keys
    && var row := after.hosts[h];
       && row.name == d.name && row.address == d.address && row.port == d.port
       && row.workspace == SavedWorkspace(before, d) && row.group == group
       && (h in before.hosts ==> row.rev > before.hosts[h].rev)
       && row.position == (if StaysPut(before, h, d, group) then before.hosts[h].position
                           else NextPosition(grouped, row.workspace, group))
       && LoginOf(after, h) == Login(d.username, d.auth, d.keyPath, RevealKey(before, d.key),
                                     if d.id.Some? then PasswordAfter(before, h, d.password)
                                     else if d.password.Set? then Some(d.password.value) else None)
  }

  predicate TitleIsValid(title: string) {
    |title| <= 120 && forall i :: 0 <= i < |title| ==> !IsControl(title[i])
  }

  ghost predicate Consistent(db: Db) {
    Graph(db) && InPlace(db)
  }

  class Store {
    var db: Db
    var unlocked: bool

    ghost predicate Valid()
      reads this
    {
      Consistent(db)
    }

    constructor ()
      ensures Valid() && db == Db(map[], map[], map[], map[], map[], 0) && !unlocked
    {
      db := Db(map[], map[], map[], map[], map[], 0);
      unlocked := false;
    }

    /** Whether the password opens the vault is up to the vault; if not, it stays as it was. */
    method Unlock(opens: bool) returns (ok: bool)
      requires Valid()
      modifies this`unlocked
      ensures Valid() && db == old(db)
      ensures ok == opens && unlocked == (old(unlocked) || opens)
    {
      if !opens {
        return false;
      }
      unlocked := true;
      ok := true;
    }

    method Lock()
      requires Valid()
      modifies this`unlocked
      ensures Valid() && db == old(db) && !unlocked
    {
      unlocked := false;
    }

    method SaveHost(draft: HostDraft) returns (r: Result<Id, StoreError>)
      requires Valid()
      modifies this`db
      ensures Valid()
      ensures r.Err? ==> db == old(db)
      ensures r.Err? ==> SaveProblem(old(db), unlocked, draft) == Some(r.error)
      ensures r.Ok? <==> SaveProblem(old(db), unlocked, draft).None?
      ensures r.Ok? ==> SavedAs(old(db), db, r.value, draft) && OnlyHost(old(db), db, r.value) && Rises(old(db), db)
    {
      var validated := Validate(draft);
      if validated.Err? {
        return Err(validated.error);
      }
      RefusedAsTyped(db, unlocked, draft, validated.value);
      r := SaveValid(validated.value);
      if r.Ok? {
        SavedAsTyped(old(db), db, r.value, draft, validated.value);
      }
    }

    static lemma RefusedAsTyped(db: Db, unlocked: bool, d: HostDraft, v: HostDraft)
      requires DraftProblem(d).None? && Cleaned(d, v)
      ensures SaveProblem(db, unlocked, d) == SaveRefusal(db, unlocked, v)
    {
    }

    /** Saving the cleaned draft is saving what was typed. */
    static lemma SavedAsTyped(before: Db, after: Db, h: Id, d: HostDraft, v: HostDraft)
      requires Cleaned(d, v) && GroupName(d.group) == Ok(v.group) && Consistent(before) && Saved(before, after, h, v)
      requires if d.id.Some? then h == d.id.value else h !in before.hosts
      requires v.key.Some? ==> LiveKey(before.keys, v.key.value)
      ensures SavedAs(before, after, h, d)
    {
      SavedRow(before, after, h, d, v);
      SavedLogin(before, after, h, d, v);
    }

    static lemma SavedRow(before: Db, after: Db, h: Id, d: HostDraft, v: HostDraft)
      requires Cleaned(d, v) && GroupName(d.group) == Ok(v.group) && Consistent(before) && Saved(before, after, h, v)
      requires if d.id.Some? then h == d.id.value else h !in before.hosts
      ensures RowAs(before, after.hosts[h], d) && PlacedAs(before, h, after.hosts[h])
      ensures GroupedAs(before.groups, after.groups, after.hosts[h].workspace, d.group, after.hosts[h].group)
    {
      var w := SavedWorkspace(before, v);
      var (grouped, group) := EnsureGroupIfAny(before, w, v.group);
      EnsuredGroupIs(before, w, d.group);
      EnsuredGroupIsNamed(before, w, v.group);
      NextPositionIsTheEnd(grouped, w, group);
    }

    static lemma SavedLogin(before: Db, after: Db, h: Id, d: HostDraft, v: HostDraft)
      requires Cleaned(d, v) && Saved(before, after, h, v) && (d.id.Some? ==> h == d.id.value)
      requires v.key.Some? ==> LiveKey(before.keys, v.key.value)
      ensures LogsInAs(before, LoginOf(after, h), d)
    {
    }

    method SaveValid(d: HostDraft) returns (r: Result<Id, StoreError>)
      requires Valid()
      modifies this`db
      ensures Valid()
      ensures SaveRefusal(old(db), unlocked, d).Some? ==>
                r == Err(SaveRefusal(old(db), unlocked, d).value) && db == old(db)
      ensures SaveRefusal(old(db), unlocked, d).None? ==>
                && r.Ok? && Saved(old(db), db, r.value, d) && OnlyHost(old(db), db, r.value)
                && (if d.id.Some? then r.value == d.id.value else r.value !in old(db).hosts)
      ensures r.Ok? ==> Rises(old(db), db)
    {
      if d.password.Set? && !unlocked {
        return Err(VaultLocked);
      }
      var tx := db;
      if d.key.Some? && !LiveKey(tx.keys, d.key.value) {
        return Err(Invalid("keyId", "unknown"));
      }
      if d.id.Some? && !LiveHost(tx.hosts, d.id.value) {
        return Err(UnknownHost(d.id.value));
      }
      var h;
      tx, h := SaveAccepted(tx, d);
      db := tx;
      r := Ok(h);
    }

    /** The rest of the transaction, once nothing can refuse the draft any more. */
    static method SaveAccepted(before: Db, d: HostDraft) returns (tx: Db, h: Id)
      requires Consistent(before)
      requires d.key.Some? ==> LiveKey(before.keys, d.key.value)
      requires d.id.Some? ==> LiveHost(before.hosts, d.id.value)
      ensures Consistent(tx) && Saved(before, tx, h, d) && OnlyHost(before, tx, h)
      ensures if d.id.Some? then h == d.id.value else h !in before.hosts
      ensures Rises(before, tx)
    {
      var workspace := SavedWorkspace(before, d);
      GroupForSave(before, workspace, d.group);
      var grouped, group := EnsureGroupIfAny(before, workspace, d.group).0,
          EnsureGroupIfAny(before, workspace, d.group).1;
      var stays := d.id.Some? && before.hosts[d.id.value].workspace == workspace
        && before.hosts[d.id.value].group == group;
      var position := if stays then before.hosts[d.id.value].position else NextPosition(grouped, workspace, group);
      var identity := IdentityRow(d.username + "@" + d.address, d.username, d.auth, d.keyPath, d.key, None, false, 1);
      tx, h := SaveGrouped(grouped, d, identity, workspace, group, position);
      SavedAfterGrouping(before, grouped, tx, h, d, group, position);
      EnsureGroupRises(before, workspace, d.group);
      RisesOn(before, grouped, tx);
    }

    /** Over the login the host has, or as its first one. */
    static method SaveGrouped(before: Db, d: HostDraft, identity: IdentityRow, workspace: Workspace,
                              group: Option<Id>, position: int) returns (tx: Db, h: Id)
      requires Consistent(before)
      requires d.id.Some? ==> LiveHost(before.hosts, d.id.value)
      requires d.key.Some? ==> LiveKey(before.keys, d.key.value)
      requires identity.key == d.key && !identity.deleted && BucketMayBe(before.groups, workspace, group)
      requires position >= 0
      requires (d.id.Some? && before.hosts[d.id.value].workspace == workspace && before.hosts[d.id.value].group == group
                && before.hosts[d.id.value].position == position)
            || forall x :: x in before.hosts && InBucket(before.hosts[x], workspace, group) ==>
                before.hosts[x].position < position
      ensures if d.id.Some? then h == d.id.value else h !in before.hosts
      ensures Consistent(tx) && OnlyHost(before, tx, h)
      ensures LiveHost(tx.hosts, h) && tx.groups == before.groups && tx.keys == before.keys
      ensures h in before.hosts ==> tx.hosts[h].rev > before.hosts[h].rev
      ensures tx.hosts[h]
              == HostRow(d.name, d.address, d.port, tx.hosts[h].identity, group, workspace, position, false,
                tx.hosts[h].rev)
      ensures LoginOf(tx, h) == Login(identity.username, identity.auth, identity.keyPath, RevealKey(before, d.key),
                                      if d.id.Some? then PasswordAfter(before, h, d.password)
                                      else if d.password.Set? then Some(d.password.value) else None)
      ensures Rises(before, tx)
    {
      if d.id.Some? && before.hosts[d.id.value].identity.Some? {
        h := d.id.value;
        tx := SaveOverLogin(before, h, before.hosts[h].identity.value, d, identity, workspace, group, position);
      } else {
        tx, h := SaveFirstLogin(before, d, identity, workspace, group, position);
      }
    }

    /** Naming a group creates it if need be; nothing else changes. */
    static lemma GroupForSave(before: Db, workspace: Workspace, name: Option<string>)
      requires Consistent(before)
      ensures var (grouped, group) := EnsureGroupIfAny(before, workspace, name);
              && Consistent(grouped) && SameLogins(before, grouped) && BucketMayBe(grouped.groups, workspace, group)
              && grouped == before.(groups := grouped.groups, next := grouped.next) && before.next <= grouped.next
              && NextPosition(grouped, workspace, group) >= 0
              && forall h :: h in before.hosts && InBucket(before.hosts[h], workspace, group) ==>
                   before.hosts[h].position < NextPosition(grouped, workspace, group)
    {
      EnsureGroupKeepsInPlace(before, workspace, name);
      var (grouped, group) := EnsureGroupIfAny(before, workspace, name);
      GraphIgnoresPlaces(before, grouped, {});
      NextPositionIsFree(grouped, workspace, group);
    }

    static lemma SavedAfterGrouping(before: Db, grouped: Db, after: Db, h: Id, d: HostDraft, group: Option<Id>,
            position: int)
      requires (grouped, group) == EnsureGroupIfAny(before, SavedWorkspace(before, d), d.group)
      requires SameLogins(before, grouped) && grouped == before.(groups := grouped.groups, next := grouped.next)
      requires OnlyHost(grouped, after, h) && LiveHost(after.hosts, h) && after.groups == grouped.groups
      requires after.keys == grouped.keys
      requires d.id.Some? ==> d.id.value == h && h in before.hosts
      requires h in before.hosts ==> after.hosts[h].rev > before.hosts[h].rev
      requires after.hosts[h]
               == HostRow(d.name, d.address, d.port, after.hosts[h].identity, group, SavedWorkspace(before, d),
                 position, false, after.hosts[h].rev)
      requires position == if StaysPut(before, h, d, group) then before.hosts[h].position
                           else NextPosition(grouped, SavedWorkspace(before, d), group)
      requires LoginOf(after, h) == Login(d.username, d.auth, d.keyPath, RevealKey(grouped, d.key),
                 if d.id.Some? then PasswordAfter(grouped, h, d.password)
                   else if d.password.Set? then Some(d.password.value) else None)
      ensures Saved(before, after, h, d) && OnlyHost(before, after, h)
    {
      assert d.key.Some? ==> RevealKey(grouped, d.key) == RevealKey(before, d.key);
    }

    /**
     Change a host's login through its own identity. `prior` is the password secret it had;
     unless the change keeps it, it may be loose now.
     */
    static method Relogin(before: Db, h: Id, i: Id, change: PasswordChange, fields: Option<IdentityRow>)
      returns (tx: Db, prior: Option<Id>)
      requires Graph(before) && LogsInWith(before.hosts, h, i)
      requires fields.Some? && fields.value.key.Some? ==> LiveKey(before.keys, fields.value.key.value)
      ensures GraphBut(tx, Ids(ToRelease(change, prior))) && (prior.Some? ==> !UsedByKey(tx.keys, prior.value))
      ensures OnlyHost(before, tx, h) && h in before.hosts && h in tx.hosts
      ensures tx == before.(identities := tx.identities, hosts := tx.hosts, secrets := tx.secrets, next := tx.next)
      ensures before.next <= tx.next
      ensures tx.hosts[h] == before.hosts[h].(identity := tx.hosts[h].identity, rev := tx.hosts[h].rev)
      ensures tx.hosts[h].identity.Some?
      ensures tx.hosts[h].rev >= before.hosts[h].rev
      ensures fields.Some? ==> LoginOf(tx, h) == Login(fields.value.username, fields.value.auth, fields.value.keyPath,
                                                       RevealKey(before, fields.value.key),
                                                           PasswordAfter(before, h, change))
      ensures fields.None? ==> LoginOf(tx, h) == LoginOf(before, h).(password := PasswordAfter(before, h, change))
      ensures Rises(before, tx)
    {
      OwnKeepsGraph(before, h, i);
      var own;
      tx, own := OwnIdentity(before, h, i).0, OwnIdentity(before, h, i).1;
      var row := if fields.Some? then fields.value else tx.identities[own];
      ReloginKeepsGraph(before, h, i, change, row);
      ReloginRises(before, h, i, change, row);
      prior := tx.identities[own].password;
      var password;
      tx, password := NewPassword(tx, change, prior).0, NewPassword(tx, change, prior).1;
      tx := UpdateIdentity(tx, own, row.(password := password));
    }

    /** Forget the password a host no longer uses, unless another identity still does. */
    static method Release(before: Db, change: PasswordChange, prior: Option<Id>) returns (tx: Db)
      requires GraphBut(before, Ids(ToRelease(change, prior))) && (prior.Some? ==> !UsedByKey(before.keys, prior.value))
      ensures Graph(tx) && SameLogins(before, tx) && tx == before.(secrets := tx.secrets)
      ensures Rises(before, tx)
    {
      tx := before;
      NothingRises(before);
      ReleaseRises(before, prior);
      if !change.Keep? {
        ReleaseIfAnyKeepsGraph(tx, prior);
        tx := ReleaseIfAny(tx, prior);
      }
    }

    static lemma RowKeepsGraph(before: Db, after: Db, h: Id, row: HostRow, loose: set<Id>)
      requires GraphBut(before, loose) && h in before.hosts && after == before.(hosts := before.hosts[h := row])
      requires row.identity == before.hosts[h].identity && row.deleted == before.hosts[h].deleted
      ensures GraphBut(after, loose) && OnlyHost(before, after, h) && LoginOf(after, h) == LoginOf(before, h)
    {
      GraphIgnoresPlaces(before, after, loose);
    }

    /** `save_host` for a host that has an identity. */
    static method SaveOverLogin(before: Db, h: Id, i: Id, d: HostDraft, identity: IdentityRow,
                                workspace: Workspace, group: Option<Id>, position: int) returns (tx: Db)
      requires Consistent(before) && LogsInWith(before.hosts, h, i)
      requires d.key.Some? ==> LiveKey(before.keys, d.key.value)
      requires identity.key == d.key && BucketMayBe(before.groups, workspace, group) && position >= 0
      requires (before.hosts[h].workspace == workspace && before.hosts[h].group == group
               && before.hosts[h].position == position)
            || forall x :: x in before.hosts && InBucket(before.hosts[x], workspace, group) ==>
                before.hosts[x].position < position
      ensures Consistent(tx) && OnlyHost(before, tx, h)
      ensures LiveHost(tx.hosts, h) && tx.groups == before.groups && tx.keys == before.keys
      ensures h in before.hosts ==> tx.hosts[h].rev > before.hosts[h].rev
      ensures tx.hosts[h]
              == HostRow(d.name, d.address, d.port, tx.hosts[h].identity, group, workspace, position, false,
                tx.hosts[h].rev)
      ensures LoginOf(tx, h)
              == Login(identity.username, identity.auth, identity.keyPath, RevealKey(before, d.key),
                PasswordAfter(before, h, d.password))
      ensures Rises(before, tx)
    {
      var relogged, prior := Relogin(before, h, i, d.password, Some(identity));
      var row := HostRow(d.name, d.address, d.port, relogged.hosts[h].identity, group, workspace, position, false,
          relogged.hosts[h].rev + 1);
      var placed := WriteHost(relogged, h, row, Ids(ToRelease(d.password, prior)));
      tx := Release(placed, d.password, prior);
      HostsInPlace(before, h, row, tx);
      OnlyHostOn(before, relogged, placed, tx, h);
      RisesOn(relogged, placed, tx);
      RisesOn(before, relogged, tx);
    }

    /** One host's row is written; who logs in how stays. */
    static method WriteHost(before: Db, h: Id, row: HostRow, ghost loose: set<Id>) returns (after: Db)
      requires GraphBut(before, loose) && h in before.hosts && row.rev > before.hosts[h].rev
      requires row.identity == before.hosts[h].identity && row.deleted == before.hosts[h].deleted
      ensures after == before.(hosts := before.hosts[h := row])
      ensures GraphBut(after, loose) && OnlyHost(before, after, h) && LoginOf(after, h) == LoginOf(before, h)
      ensures Rises(before, after)
    {
      after := before.(hosts := before.hosts[h := row]);
      RowKeepsGraph(before, after, h, row, loose);
      HostRowRises(before, after, h);
    }

    static lemma OnlyHostOn(a: Db, b: Db, c: Db, d: Db, h: Id)
      requires OnlyHost(a, b, h) && OnlyHost(b, c, h) && SameLogins(c, d) && d.hosts == c.hosts
      ensures OnlyHost(a, d, h)
    {
    }

    /** Only one host's row changed, and it is at a place of its own. */
    static lemma HostsInPlace(before: Db, h: Id, row: HostRow, after: Db)
      requires InPlace(before) && BucketMayBe(before.groups, row.workspace, row.group)
      requires !row.deleted && row.position >= 0
      requires (LiveHost(before.hosts, h) && SamePlace(before.hosts[h], row))
            || forall x :: x in before.hosts && InBucket(before.hosts[x], row.workspace, row.group) ==>
                before.hosts[x].position < row.position
      requires after.groups == before.groups && h in after.hosts && after.hosts[h] == row
      requires forall x :: x != h ==> (x in before.hosts <==> x in after.hosts)
      requires forall x :: x != h && x in before.hosts ==> after.hosts[x] == before.hosts[x]
      ensures InPlace(after)
    {
      PlaceHostKeepsInPlace(before, h, row, after.next);
      assert after.hosts == before.hosts[h := row];
    }

    /** `save_host` for a new host, or one imported without a login. */
    static method SaveFirstLogin(before: Db, d: HostDraft, identity: IdentityRow,
                                 workspace: Workspace, group: Option<Id>, position: int) returns (tx: Db, h: Id)
      requires Consistent(before)
      requires d.id.Some? ==> LiveHost(before.hosts, d.id.value) && before.hosts[d.id.value].identity.None?
      requires d.key.Some? ==> LiveKey(before.keys, d.key.value)
      requires identity.key == d.key && !identity.deleted && BucketMayBe(before.groups, workspace, group)
      requires position >= 0
      requires (d.id.Some? && before.hosts[d.id.value].workspace == workspace && before.hosts[d.id.value].group == group
                && before.hosts[d.id.value].position == position)
            || forall x :: x in before.hosts && InBucket(before.hosts[x], workspace, group) ==>
                before.hosts[x].position < position
      ensures if d.id.Some? then h == d.id.value else h !in before.hosts && h >= before.next
      ensures Consistent(tx) && OnlyHost(before, tx, h)
      ensures LiveHost(tx.hosts, h) && tx.groups == before.groups && tx.keys == before.keys
      ensures h in before.hosts ==> tx.hosts[h].rev > before.hosts[h].rev
      ensures tx.hosts[h]
              == HostRow(d.name, d.address, d.port, tx.hosts[h].identity, group, workspace, position, false,
                tx.hosts[h].rev)
      ensures LoginOf(tx, h) == Login(identity.username, identity.auth, identity.keyPath, RevealKey(before, d.key),
                                      if d.password.Set? then Some(d.password.value) else None)
      ensures Rises(before, tx)
    {
      NewPasswordKeepsGraph(before, d.password, None);
      var sealed, password := NewPassword(before, d.password, None).0, NewPassword(before, d.password, None).1;
      var created;
      tx, created := InsertIdentity(sealed, identity.(password := password)).0, sealed.next;
      var rev := 1;
      if d.id.Some? {
        h := d.id.value;
        rev := tx.hosts[h].rev + 1;
      } else {
        h := tx.next;
        tx := tx.(next := tx.next + 1);
      }
      var row := HostRow(d.name, d.address, d.port, Some(created), group, workspace, position, false, rev);
      tx := tx.(hosts := tx.hosts[h := row]);
      FirstLoginKeepsGraph(before, h, row, d.password, identity.(rev := 1), tx);
      FirstLoginRises(before, d.password, identity, tx, h);
      HostsInPlace(before, h, row, tx);
    }

    method SetHostPassword(h: Id, change: PasswordChange) returns (r: Result<Id, StoreError>)
      requires Valid()
      modifies this`db
      ensures Valid()
      ensures r.Err? ==> db == old(db)
      ensures r.Err? <==> change == Set("") || (change.Set? && !unlocked) || !LiveHost(old(db).hosts, h)
      ensures r.Err? ==>
                r.error == if change == Set("") then Invalid("password", "required")
                           else if change.Set? && !unlocked then VaultLocked else UnknownHost(h)
      ensures r.Ok? ==>
                r.value == h && OnlyHost(old(db), db, h) && db.keys == old(db).keys && db.groups == old(db).groups
      ensures r.Ok? ==> LiveHost(db.hosts, h)
                        && LoginOf(db, h) == LoginOf(old(db), h).(password := PasswordAfter(old(db), h, change))
                        && db.hosts[h] == old(db).hosts[h].(identity := db.hosts[h].identity, rev := db.hosts[h].rev)
      ensures r.Ok? ==> Rises(old(db), db)
    {
      if change == Set("") {
        return Err(Invalid("password", "required"));
      }
      if change.Set? && !unlocked {
        return Err(VaultLocked);
      }
      var tx := db;
      if !LiveHost(tx.hosts, h) {
        return Err(UnknownHost(h));
      }
      tx := WithIdentity(tx, h);
      ghost var started := tx;
      tx := ChangePassword(tx, h, change);
      RisesOn(db, started, tx);
      db := tx;
      r := Ok(h);
    }

    /** The host with an identity, an empty one if it had none. */
    static method WithIdentity(before: Db, h: Id) returns (tx: Db)
      requires Consistent(before) && LiveHost(before.hosts, h)
      ensures Consistent(tx) && OnlyHost(before, tx, h) && LoginOf(tx, h) == LoginOf(before, h) && Rises(before, tx)
      ensures LiveHost(tx.hosts, h) && tx.hosts[h].identity.Some?
      ensures tx == before.(identities := tx.identities, hosts := tx.hosts, next := tx.next)
      ensures tx.hosts[h] == before.hosts[h].(identity := tx.hosts[h].identity, rev := tx.hosts[h].rev)
    {
      tx := before;
      NothingRises(before);
      if tx.hosts[h].identity.None? {
        tx := GiveBlankIdentity(tx, h);
      }
    }

    static method ChangePassword(before: Db, h: Id, change: PasswordChange) returns (tx: Db)
      requires Consistent(before) && LiveHost(before.hosts, h) && before.hosts[h].identity.Some?
      ensures Consistent(tx) && OnlyHost(before, tx, h) && Rises(before, tx)
      ensures LiveHost(tx.hosts, h) && tx.keys == before.keys && tx.groups == before.groups
      ensures LoginOf(tx, h) == LoginOf(before, h).(password := PasswordAfter(before, h, change))
      ensures tx.hosts[h] == before.hosts[h].(identity := tx.hosts[h].identity, rev := tx.hosts[h].rev)
    {
      var relogged, prior := Relogin(before, h, before.hosts[h].identity.value, change, None);
      tx := Release(relogged, change, prior);
      HostsInPlace(before, h, tx.hosts[h], tx);
      RisesOn(before, relogged, tx);
    }

    /** A host imported without a login gets an empty one, to keep a password in. */
    static method GiveBlankIdentity(before: Db, h: Id) returns (tx: Db)
      requires Consistent(before) && LiveHost(before.hosts, h) && before.hosts[h].identity.None?
      ensures Consistent(tx) && OnlyHost(before, tx, h) && LoginOf(tx, h) == LoginOf(before, h)
      ensures LiveHost(tx.hosts, h) && tx.hosts[h].identity.Some?
      ensures tx == before.(identities := tx.identities, hosts := tx.hosts, next := tx.next)
      ensures tx.hosts[h] == before.hosts[h].(identity := tx.hosts[h].identity, rev := tx.hosts[h].rev)
      ensures Rises(before, tx)
    {
      var blank := IdentityRow("", "", ByPassword, None, None, None, false, 1);
      var created;
      tx, created := InsertIdentity(before, blank).0, before.next;
      tx := PointAt(tx, h, created);
      FirstLoginKeepsGraph(before, h, tx.hosts[h], Keep, blank, tx);
      FirstLoginRises(before, Keep, blank, tx, h);
      HostsInPlace(before, h, tx.hosts[h], tx);
    }

    method DeleteHost(h: Id) returns (r: Result<Id, StoreError>)
      requires Valid()
      modifies this`db
      ensures Valid()
      ensures r.Err? ==> db == old(db)
      ensures r.Ok? <==> LiveHost(old(db).hosts, h)
      ensures r.Err? ==> r.error == UnknownHost(h)
      ensures r.Ok? ==>
                r.value == h && h in db.hosts
                && db.hosts[h] == old(db).hosts[h].(deleted := true, rev := old(db).hosts[h].rev + 1)
      ensures r.Ok? ==> OnlyHost(old(db), db, h) && db.keys == old(db).keys && db.groups == old(db).groups
      ensures r.Ok? ==> Rises(old(db), db)
    {
      var tx := db;
      if !LiveHost(tx.hosts, h) {
        return Err(UnknownHost(h));
      }
      tx := DropLogin(tx, h);
      DeletedHostInPlace(db, h, tx);
      db := tx;
      r := Ok(h);
    }

    /** The row becomes a tombstone, and so does its identity unless somebody else logs in with it. */
    static method DropRows(before: Db, h: Id) returns (tx: Db, password: Option<Id>)
      requires LiveHost(before.hosts, h)
      requires before.hosts[h].identity.Some? ==> before.hosts[h].identity.value in before.identities
      ensures (tx, password) == DropHost(before, h) && tx.hosts == TombstoneHost(before, h).hosts
      ensures Rises(before, tx)
    {
      tx, password := TombstoneHost(before, h), None;
      TombstoneHostRises(before, h);
      var i := before.hosts[h].identity;
      if i.Some? {
        StillShared(before, h, i.value);
      }
      if i.Some? && !SharedIdentity(tx.hosts, h, i.value) {
        password := tx.identities[i.value].password;
        TombstoneIdentityRises(tx, i.value);
        RisesOn(before, tx, TombstoneIdentity(tx, i.value));
        tx := TombstoneIdentity(tx, i.value);
      }
    }

    static lemma StillShared(before: Db, h: Id, i: Id)
      requires h in before.hosts
      ensures SharedIdentity(TombstoneHost(before, h).hosts, h, i) == SharedIdentity(before.hosts, h, i)
    {
      var t := TombstoneHost(before, h);
      assert forall x :: x != h ==> (x in before.hosts <==> x in t.hosts);
      assert forall x :: x in before.hosts && x != h ==> t.hosts[x] == before.hosts[x];
    }

    static method DropLogin(before: Db, h: Id) returns (tx: Db)
      requires Graph(before) && LiveHost(before.hosts, h)
      ensures Graph(tx) && OnlyHost(before, tx, h) && tx.keys == before.keys && tx.groups == before.groups
      ensures tx.hosts == TombstoneHost(before, h).hosts && Rises(before, tx)
    {
      DropHostKeepsGraph(before, h);
      var dropped, password := DropRows(before, h);
      ReleaseIfAnyKeepsGraph(dropped, password);
      tx := ReleaseIfAny(dropped, password);
      ReleaseRises(dropped, password);
      RisesOn(before, dropped, tx);
    }

    static lemma DeletedHostInPlace(before: Db, h: Id, after: Db)
      requires InPlace(before) && h in before.hosts && after.groups == before.groups
      requires after.hosts == before.hosts[h := before.hosts[h].(deleted := true, rev := before.hosts[h].rev + 1)]
      ensures InPlace(after)
    {
    }

    method AddKey(title: string, keyType: string, privateHalf: string, passphrase: Option<string>)
      returns (r: Result<Id, StoreError>)
      requires Valid()
      modifies this`db
      ensures Valid()
      ensures r.Err? ==> db == old(db)
      ensures r.Err? <==> Blank(privateHalf) || ControlInside(title) || LongInside(title, 120) || !unlocked
      ensures r.Err? ==>
                r.error == if Blank(privateHalf) then Invalid("privateKey", "required")
                           else if ControlInside(title) || LongInside(title, 120) then Invalid("label", "invalid")
                           else VaultLocked
      ensures r.Ok? ==>
                LiveKey(db.keys, r.value)
                && if Blank(title) then db.keys[r.value].title == keyType else Trims(title, db.keys[r.value].title)
      ensures r.Ok? ==> unlocked && r.value !in old(db).keys && db.hosts == old(db).hosts && db.groups == old(db).groups
      ensures r.Ok? ==> SameLogins(old(db), db) && Rises(old(db), db)
      ensures r.Ok? ==>
                RevealKey(db, Some(r.value))
                == Some(KeyLogin(r.value, Some(privateHalf), if passphrase == Some("") then None else passphrase))
    {
      TrimmedText(privateHalf, 0);
      TrimmedText(title, 120);
      if Trim(privateHalf) == "" {
        return Err(Invalid("privateKey", "required"));
      }
      if !TitleIsValid(Trim(title)) {
        return Err(Invalid("label", "invalid"));
      }
      if !unlocked {
        return Err(VaultLocked);
      }
      var tx, k := StoreKey(db, if Trim(title) == "" then keyType else Trim(title), privateHalf,
                            if passphrase == Some("") then None else passphrase);
      db := tx;
      r := Ok(k);
    }

    /** A key's halves are sealed and its row made. */
    static method StoreKey(before: Db, title: string, privateHalf: string, passphrase: Option<string>)
      returns (tx: Db, k: Id)
      requires Graph(before)
      ensures Graph(tx) && SameLogins(before, tx) && Rises(before, tx)
      ensures tx.hosts == before.hosts && tx.groups == before.groups
      ensures k !in before.keys && LiveKey(tx.keys, k) && tx.keys[k].title == title
      ensures RevealKey(tx, Some(k)) == Some(KeyLogin(k, Some(privateHalf), passphrase))
    {
      var sealed, half, words := SealKey(before, privateHalf, passphrase);
      var row := KeyRow(title, Some(half), words, false, 1);
      InsertKeyKeepsGraph(sealed, row, Ids(row.privateHalf) + Ids(row.passphrase));
      InsertKeyRises(sealed, row);
      tx, k := InsertKey(sealed, row).0, InsertKey(sealed, row).1;
      RisesOn(before, sealed, tx);
    }

    /** Seal a key's halves: one or two fresh secrets nobody uses yet. */
    static method SealKey(before: Db, privateHalf: string, passphrase: Option<string>)
      returns (tx: Db, half: Id, words: Option<Id>)
      requires Graph(before)
      ensures GraphBut(tx, Ids(Some(half)) + Ids(words)) && SameLogins(before, tx)
      ensures tx == before.(secrets := tx.secrets, next := tx.next)
      ensures words != Some(half) && (words.Some? <==> passphrase.Some?)
      ensures forall s :: s == half || words == Some(s) ==>
                LiveSecret(tx.secrets, s) && !UsedByKey(tx.keys, s) && !UsedAsPassword(tx.identities, s)
      ensures Reveal(tx, Some(half)) == Some(privateHalf) && Reveal(tx, words) == passphrase
      ensures Rises(before, tx)
    {
      SealKeepsGraph(before, privateHalf, {});
      SealRises(before, privateHalf);
      tx, half, words := SealSecret(before, privateHalf).0, SealSecret(before, privateHalf).1, None;
      assert {} + {half} == Ids(Some(half)) + Ids(None);
      ghost var one := tx;
      if passphrase.Some? {
        SealKeepsGraph(tx, passphrase.value, {half});
        SealRises(tx, passphrase.value);
        RisesOn(before, tx, SealSecret(tx, passphrase.value).0);
        words := Some(SealSecret(tx, passphrase.value).1);
        tx := SealSecret(tx, passphrase.value).0;
        assert {half} + {words.value} == Ids(Some(half)) + Ids(words);
      }
      forall s | s == half || words == Some(s)
        ensures !UsedAsPassword(tx.identities, s)
      {
        FreshIsNoPassword(before, s);
      }
    }

    static lemma FreshIsNoPassword(db: Db, s: Id)
      requires Graph(db) && s !in db.secrets
      ensures !UsedAsPassword(db.identities, s)
    {
    }

    method DeleteKey(k: Id) returns (r: Result<Id, StoreError>)
      requires Valid()
      modifies this`db
      ensures Valid()
      ensures r.Err? ==> db == old(db)
      ensures r.Ok? <==> LiveKey(old(db).keys, k) && forall h :: h in old(db).hosts ==> !UsesKey(old(db), h, k)
      ensures r.Err? ==>
                r.error == if !LiveKey(old(db).keys, k) then UnknownKey(k)
                           else KeyInUse(|set h | h in old(db).hosts && UsesKey(old(db), h, k)|)
      ensures r.Ok? ==> db.hosts == old(db).hosts && db.groups == old(db).groups && SameLogins(old(db), db)
      ensures r.Ok? ==> Rises(old(db), db)
      ensures r.Ok? ==> !LiveKey(db.keys, k) && forall s :: Owns(old(db).keys[k], s) ==> !LiveSecret(db.secrets, s)
    {
      var tx := db;
      if !LiveKey(tx.keys, k) {
        return Err(UnknownKey(k));
      }
      KeyUsersLogIn(tx, k);
      var users := KeyUsers(tx, k);
      if |users| > 0 {
        return Err(KeyInUse(|users|));
      }
      db := DropKey(tx, k);
      r := Ok(k);
    }

    /** A key that nobody uses goes, with its sealed halves. */
    static method DropKey(before: Db, k: Id) returns (tx: Db)
      requires Graph(before) && LiveKey(before.keys, k) && KeyUsers(before, k) == {}
      ensures Graph(tx) && SameLogins(before, tx) && tx.hosts == before.hosts && tx.groups == before.groups
      ensures !LiveKey(tx.keys, k) && forall s :: Owns(before.keys[k], s) ==> !LiveSecret(tx.secrets, s)
      ensures Rises(before, tx)
    {
      ghost var row := before.keys[k];
      TombstoneKeyKeepsGraph(before, k);
      ForgetTwoKeepsGraph(TombstoneKey(before, k), row.privateHalf, row.passphrase);
      ForgetTwoThenKey(before, k);
      tx := ForgetHalves(before, k);
      TombstoneKeyRises(tx, k);
      RisesOn(before, tx, TombstoneKey(tx, k));
      tx := TombstoneKey(tx, k);
    }

    static method ForgetHalves(before: Db, k: Id) returns (tx: Db)
      requires k in before.keys
      ensures tx == ForgetTwo(before, before.keys[k].privateHalf, before.keys[k].passphrase)
      ensures tx == before.(secrets := tx.secrets) && Rises(before, tx)
    {
      ForgetTwoRises(before, before.keys[k].privateHalf, before.keys[k].passphrase);
      tx := before;
      if tx.keys[k].privateHalf.Some? {
        tx := ForgetSecret(tx, tx.keys[k].privateHalf.value);
      }
      if tx.keys[k].passphrase.Some? {
        tx := ForgetSecret(tx, tx.keys[k].passphrase.value);
      }
    }

    static lemma ForgetTwoRises(db: Db, a: Option<Id>, b: Option<Id>)
      ensures Rises(db, ForgetTwo(db, a, b))
    {
      NothingRises(db);
      var t := if a.Some? then ForgetSecret(db, a.value) else db;
      if a.Some? {
        ForgetRises(db, a.value);
      }
      if b.Some? {
        ForgetRises(t, b.value);
        RisesOn(db, t, ForgetSecret(t, b.value));
      }
    }

    static function ForgetTwo(db: Db, a: Option<Id>, b: Option<Id>): Db {
      var t := if a.Some? then ForgetSecret(db, a.value) else db;
      if b.Some? then ForgetSecret(t, b.value) else t
    }

    /** The tombstone may as well come before its secrets are forgotten. */
    static lemma ForgetTwoThenKey(db: Db, k: Id)
      requires k in db.keys
      ensures var row := db.keys[k];
              && TombstoneKey(ForgetTwo(db, row.privateHalf, row.passphrase), k)
                 == ForgetTwo(TombstoneKey(db, k), row.privateHalf, row.passphrase)
              && forall s :: Owns(row, s) ==> !LiveSecret(ForgetTwo(db, row.privateHalf, row.passphrase).secrets, s)
    {
      var row := db.keys[k];
      if row.privateHalf.Some? {
        ForgetThenKey(db, row.privateHalf.value, k);
      }
      if row.passphrase.Some? {
        var first := if row.privateHalf.Some? then ForgetSecret(db, row.privateHalf.value) else db;
        ForgetThenKey(first, row.passphrase.value, k);
      }
    }

    static lemma ForgetThenKey(db: Db, s: Id, k: Id)
      requires k in db.keys
      ensures TombstoneKey(ForgetSecret(db, s), k) == ForgetSecret(TombstoneKey(db, k), s)
      ensures !LiveSecret(ForgetSecret(db, s).secrets, s)
      ensures forall x :: LiveSecret(ForgetSecret(db, s).secrets, x) ==> LiveSecret(db.secrets, x)
    {
    }

    static lemma ForgetTwoKeepsGraph(db: Db, a: Option<Id>, b: Option<Id>)
      requires GraphBut(db, Ids(a) + Ids(b))
      requires forall s :: Some(s) == a || Some(s) == b ==> !UsedByKey(db.keys, s) && !UsedAsPassword(db.identities, s)
      ensures Graph(ForgetTwo(db, a, b)) && SameLogins(db, ForgetTwo(db, a, b))
    {
      assert a.Some? ==> Ids(a) + Ids(b) == Ids(b) + {a.value};
      if a.Some? {
        ForgetKeepsGraph(db, a.value, Ids(b));
      }
      var t := if a.Some? then ForgetSecret(db, a.value) else db;
      assert a.None? ==> Ids(a) + Ids(b) == Ids(b);
      if b.Some? {
        assert {} + {b.value} == Ids(b);
        ForgetKeepsGraph(t, b.value, {});
      }
    }

    // ---------------------------------------------------------------- dragging hosts and groups

    method MoveHost(h: Id, to: Workspace, group: Option<string>, before: Option<Id>) returns (r: Result<Id, StoreError>)
      requires Valid()
      modifies this`db
      ensures Valid()
      ensures r.Err? ==> db == old(db)
      ensures r.Ok? <==> GroupProblem(group).None? && LiveHost(old(db).hosts, h)
      ensures r.Err? ==> r.error == if GroupProblem(group).Some? then GroupProblem(group).value else UnknownHost(h)
      ensures r.Ok? ==>
                && r.value == h && h in db.hosts && SameLogins(old(db), db)
                && GroupedAs(old(db).groups, db.groups, to, group, db.hosts[h].group)
                && HostDragged(old(db).(groups := db.groups, next := db.next), db, h, to, db.hosts[h].group, before)
      ensures r.Ok? ==> Rises(old(db), db)
    {
      GroupNameIs(group);
      var name := GroupName(group);
      if name.Err? {
        return Err(name.error);
      }
      if !LiveHost(db.hosts, h) {
        return Err(UnknownHost(h));
      }
      GroupForSave(db, to, name.value);
      var tx, g := EnsureGroupIfAny(db, to, name.value).0, EnsureGroupIfAny(db, to, name.value).1;
      var current := tx.hosts[h];

      var order := Ordered(HostPlaces(tx, to, g) - {h}, tx.next);
      var at := if before.Some? then IndexOf(order, before.value) else |order|;
      var positions := ReadPositions(tx, order, to, g, at, ReadPosition(current, to, g, at));
      var moved := order[..at] + [h] + order[at..];
      StoredPositions(tx, order, before, h, to, g, positions);
      var hosts := WriteHostOrder(tx.hosts, moved, positions, to, g);
      EnsureGroupRises(db, to, name.value);
      MovedRises(db, tx, h, to, g, before);
      MoveKeepsInPlace(tx, h, to, g, before);
      MovedIsDragged(tx, h, to, g, before);
      EnsuredGroupIs(db, to, group);
      RenumberKeepsGraph(tx, moved, 0, to, g);
      db := tx.(hosts := hosts);
      r := Ok(h);
    }

    static lemma MovedRises(before: Db, tx: Db, h: Id, w: Workspace, g: Option<Id>, target: Option<Id>)
      requires Rises(before, tx) && InPlace(tx) && BucketMayBe(tx.groups, w, g) && LiveHost(tx.hosts, h)
      requires forall x :: x in tx.hosts ==> x < tx.next
      ensures Rises(before, tx.(hosts := MovedHosts(tx, h, w, g, target)))
    {
      var t := tx.(hosts := MovedHosts(tx, h, w, g, target));
      MovedIsDragged(tx, h, w, g, target);
      DraggedRises(tx, t, h, w, g, target);
      RisesOn(before, tx, t);
    }

    /** The positions the query read say for each row of the new order whether it has to be rewritten. */
    static lemma StoredPositions(tx: Db, order: seq<Id>, before: Option<Id>, h: Id, w: Workspace, g: Option<Id>,
            positions: seq<int>)
      requires HostPositionsDistinct(tx.hosts) && (forall x :: x in tx.hosts ==> x < tx.next) && LiveHost(tx.hosts, h)
      requires order == Ordered(HostPlaces(tx, w, g) - {h}, tx.next)
      requires var at := if before.Some? then IndexOf(order, before.value) else |order|;
               positions == ReadPositions(tx, order, w, g, at, ReadPosition(tx.hosts[h], w, g, at))
      ensures var moved := InsertBefore(order, h, before);
              && moved == MovedOrder(tx, h, w, g, before)
              && Distinct(moved) && |positions| == |moved|
              && forall i :: 0 <= i < |moved| ==>
                   moved[i] in tx.hosts && (positions[i] == i <==> StandsAt(tx.hosts[moved[i]], w, g, i))
    {
      HostPlacesInjective(tx, w, g);
      OrderedWithout(HostPlaces(tx, w, g), tx.next, h);
      MovedOrderIsGood(tx, h, w, g, before);
      var at := if before.Some? then IndexOf(order, before.value) else |order|;
      forall i | 0 <= i <= |order|
        ensures var moved := InsertBefore(order, h, before);
                moved[i] in tx.hosts && (positions[i] == i <==> StandsAt(tx.hosts[moved[i]], w, g, i))
      {
        StoredPosition(tx, order, at, h, w, g, i);
      }
    }

    /** The moved host's own entry: its position, or -1 if anything about its place is new. */
    static function ReadPosition(row: HostRow, w: Workspace, g: Option<Id>, at: int): int {
      if row.workspace != w || row.group != g || row.position != at then -1 else row.position
    }

    /** What the order query read, with the moved host's entry at its new index. */
    static function ReadPositions(tx: Db, order: seq<Id>, w: Workspace, g: Option<Id>, at: nat,
            position: int): (read: seq<int>)
      requires at <= |order|
    {
      var stored := seq(|order|, i requires 0 <= i < |order| => At(HostPlaces(tx, w, g), order[i]));
      stored[..at] + [position] + stored[at..]
    }

    static lemma StoredPosition(tx: Db, order: seq<Id>, at: nat, h: Id, w: Workspace, g: Option<Id>, i: nat)
      requires order == Ordered(HostPlaces(tx, w, g) - {h}, tx.next) && at <= |order| && i <= |order|
      requires LiveHost(tx.hosts, h)
      ensures var x := (order[..at] + [h] + order[at..])[i];
              var position := ReadPositions(tx, order, w, g, at, ReadPosition(tx.hosts[h], w, g, at))[i];
              x in tx.hosts && (position == i <==> StandsAt(tx.hosts[x], w, g, i))
    {
      if i != at {
        var x := if i < at then order[i] else order[i - 1];
        assert x in order;
        OrderedMembers(HostPlaces(tx, w, g) - {h}, tx.next);
        assert InBucket(tx.hosts[x], w, g) && At(HostPlaces(tx, w, g), x) == tx.hosts[x].position;
      }
    }

    /** Write an order: a row is rewritten unless it already stands where it should. */
    static method WriteHostOrder(hosts: map<Id, HostRow>, order: seq<Id>, positions: seq<int>, w: Workspace,
            g: Option<Id>)
      returns (written: map<Id, HostRow>)
      requires Distinct(order) && |positions| == |order|
      requires forall i :: 0 <= i < |order| ==>
                 order[i] in hosts && (positions[i] == i <==> StandsAt(hosts[order[i]], w, g, i))
      ensures written == Renumbered(hosts, order, |order|, 0, w, g)
    {
      written := hosts;
      RenumberNone(hosts, order, 0, w, g);
      for index := 0 to |order|
        invariant written == Renumbered(hosts, order, index, 0, w, g)
      {
        written := WriteRow(hosts, order, index, positions[index], w, g, written);
      }
    }

    static method WriteRow(ghost hosts: map<Id, HostRow>, order: seq<Id>, index: nat, read: int, w: Workspace,
            g: Option<Id>,
                           written: map<Id, HostRow>)
      returns (after: map<Id, HostRow>)
      requires Distinct(order) && index < |order| && order[index] in hosts
      requires read == index <==> StandsAt(hosts[order[index]], w, g, index)
      requires written == Renumbered(hosts, order, index, 0, w, g)
      ensures after == Renumbered(hosts, order, index + 1, 0, w, g)
    {
      WriteStep(hosts, order, index, w, g, written);
      if read == index {
        return written;
      }
      var h := order[index];
      after := written[h := RewriteRow(written[h], w, g, index)];
    }

    static lemma WriteStep(hosts: map<Id, HostRow>, order: seq<Id>, n: nat, w: Workspace, g: Option<Id>,
            written: map<Id, HostRow>)
      requires Distinct(order) && n < |order| && order[n] in hosts && written == Renumbered(hosts, order, n, 0, w, g)
      ensures order[n] in written
      ensures StandsAt(hosts[order[n]], w, g, n) ==> written == Renumbered(hosts, order, n + 1, 0, w, g)
      ensures !StandsAt(hosts[order[n]], w, g, n) ==>
                written[order[n] := RewriteRow(written[order[n]], w, g, n)] == Renumbered(hosts, order, n + 1, 0, w, g)
    {
      RenumberStep(hosts, order, n, 0, w, g);
      assert written[order[n] := written[order[n]]] == written;
    }

    /** Every host of one group joins another one, or none, at its end. */
    static method MoveMembers(before: Db, from: Id, w: Workspace, to: Option<Id>) returns (tx: Db)
      requires InPlace(before) && LiveGroup(before.groups, from) && to != Some(from)
      requires forall x :: x in before.hosts ==> x < before.next
      ensures tx == JoinMembers(before, from, w, to)
    {
      var order := MemberOrder(before, from);
      MemberOrderIsGood(before, from);
      tx := before;
      if order == [] {
        RenumberNone(before.hosts, order, NextPosition(before, w, to), w, to);
        return;
      }
      var first := NextPosition(before, w, to);
      assert forall i :: 0 <= i < |order| ==> order[i] in order;
      var hosts := WriteMembers(before.hosts, order, from, first, w, to);
      tx := before.(hosts := hosts);
    }

    static method WriteMembers(hosts: map<Id, HostRow>, order: seq<Id>, from: Id, first: int, w: Workspace,
            to: Option<Id>)
      returns (written: map<Id, HostRow>)
      requires Distinct(order) && to != Some(from)
      requires forall i :: 0 <= i < |order| ==> order[i] in hosts && hosts[order[i]].group == Some(from)
      ensures written == Renumbered(hosts, order, |order|, first, w, to)
    {
      written := hosts;
      RenumberNone(hosts, order, first, w, to);
      for index := 0 to |order|
        invariant written == Renumbered(hosts, order, index, first, w, to)
      {
        var h := order[index];
        MemberStep(hosts, order, index, from, first, w, to, written);
        written := written[h := RewriteRow(written[h], w, to, first + index)];
      }
    }

    /** A host that leaves its group is rewritten whatever its position. */
    static lemma MemberStep(hosts: map<Id, HostRow>, order: seq<Id>, n: nat, from: Id, first: int, w: Workspace,
            to: Option<Id>,
                            written: map<Id, HostRow>)
      requires Distinct(order) && n < |order| && order[n] in hosts && hosts[order[n]].group == Some(from)
      requires to != Some(from)
      requires written == Renumbered(hosts, order, n, first, w, to)
      ensures order[n] in written
      ensures written[order[n] := RewriteRow(written[order[n]], w, to, first + n)]
           == Renumbered(hosts, order, n + 1, first, w, to)
    {
      RenumberStep(hosts, order, n, first, w, to);
    }

    /** Renumbering never touches who logs in how. */
    static lemma RenumberKeepsGraph(before: Db, order: seq<Id>, first: int, w: Workspace, g: Option<Id>)
      requires Graph(before)
      ensures var t := before.(hosts := Renumbered(before.hosts, order, |order|, first, w, g));
              Graph(t) && SameLogins(before, t)
    {
      var hosts := Renumbered(before.hosts, order, |order|, first, w, g);
      assert hosts.Keys == before.hosts.Keys;
      GraphIgnoresPlaces(before, before.(hosts := hosts), {});
    }

    static lemma JoinKeepsConsistent(before: Db, from: Id, w: Workspace, to: Option<Id>)
      requires Consistent(before) && LiveGroup(before.groups, from)
      requires BucketMayBe(before.groups, w, to) && to != Some(from)
      ensures var t := TombstoneGroup(JoinMembers(before, from, w, to), from);
              Consistent(t) && SameLogins(before, t)
    {
      JoinKeepsInPlace(before, from, w, to);
      RenumberKeepsGraph(before, MemberOrder(before, from), NextPosition(before, w, to), w, to);
      var joined := JoinMembers(before, from, w, to);
      GraphIgnoresPlaces(joined, TombstoneGroup(joined, from), {});
    }

    /**
     A new name is one record; its hosts are not touched. Onto an existing group, the hosts
     join it at the end and the old record goes.
     */
    method RenameGroup(w: Workspace, from: string, to: string) returns (r: Result<(), StoreError>)
      requires Valid()
      modifies this`db
      ensures Valid() && SameLogins(old(db), db)
      ensures r.Err? ==> db == old(db)
      ensures r.Ok? <==> RenameProblem(old(db), w, from, to).None?
      ensures r.Err? ==> RenameProblem(old(db), w, from, to) == Some(r.error)
      ensures r.Ok? && Trims(to, from) ==> db == old(db)
      ensures r.Ok? && !Trims(to, from) ==>
                forall name :: Trims(to, name) ==> Renames(old(db), db, w, from, name)
      ensures Rises(old(db), db)
    {
      NothingRises(db);
      GroupNameIs(Some(to));
      TrimIs(to);
      var name := GroupName(Some(to));
      if name.Err? {
        return Err(name.error);
      }
      if name.value.None? {
        return Err(Invalid("groupPath", "required"));
      }
      if from == name.value.value {
        return Ok(());
      }
      var g := GroupId(db, w, from);
      if g.None? {
        return Err(Invalid("groupPath", "unknown"));
      }
      RenamedKeepsConsistent(db, w, g.value, name.value.value);
      RenamedIs(db, w, from, g.value, name.value.value);
      match GroupId(db, w, name.value.value) {
        case Some(target) =>
          var tx := MoveMembers(db, g.value, w, Some(target));
          db := TombstoneGroup(tx, g.value);
        case None =>
          db := Renamed(db, g.value, name.value.value);
      }
      r := Ok(());
    }

    static lemma RenamedIs(before: Db, w: Workspace, from: string, g: Id, name: string)
      requires Consistent(before) && GroupId(before, w, from) == Some(g) && from != name
      ensures var t := match GroupId(before, w, name)
                       case Some(target) => TombstoneGroup(JoinMembers(before, g, w, Some(target)), g)
                       case None => Renamed(before, g, name);
              Renames(before, t, w, from, name) && Rises(before, t)
    {
      RenamedKeepsConsistent(before, w, g, name);
      RenamedOneWay(before, w, from, g, name);
      RenamesRises(before, match GroupId(before, w, name)
                           case Some(target) => TombstoneGroup(JoinMembers(before, g, w, Some(target)), g)
                           case None => Renamed(before, g, name), w, from, name);
    }

    static lemma RenamedOneWay(before: Db, w: Workspace, from: string, g: Id, name: string)
      requires Consistent(before) && GroupId(before, w, from) == Some(g) && from != name
      ensures var t := match GroupId(before, w, name)
                       case Some(target) => TombstoneGroup(JoinMembers(before, g, w, Some(target)), g)
                       case None => Renamed(before, g, name);
              Renames(before, t, w, from, name)
    {
      RenamedKeepsConsistent(before, w, g, name);
      match GroupId(before, w, name) {
        case Some(target) =>
          JoinIs(before, g, w, Some(target));
          JoiningRenames(before, TombstoneGroup(JoinMembers(before, g, w, Some(target)), g), w, from, name, g, target);
        case None =>
          NewNameRenames(before, Renamed(before, g, name), w, from, name, g);
      }
    }

    static function Renamed(before: Db, g: Id, name: string): Db
      requires g in before.groups
    {
      before.(groups := before.groups[g := before.groups[g].(name := name, rev := before.groups[g].rev + 1)])
    }

    static lemma RenamedKeepsConsistent(before: Db, w: Workspace, g: Id, name: string)
      requires Consistent(before) && LiveGroup(before.groups, g) && before.groups[g].workspace == w
      requires before.groups[g].name != name
      ensures var t := match GroupId(before, w, name)
                       case Some(target) => TombstoneGroup(JoinMembers(before, g, w, Some(target)), g)
                       case None => Renamed(before, g, name);
              Consistent(t) && SameLogins(before, t)
    {
      match GroupId(before, w, name) {
        case Some(target) => JoinKeepsConsistent(before, g, w, Some(target));
        case None => NewNameKeepsConsistent(before, w, g, name);
      }
    }

    static lemma NewNameKeepsConsistent(before: Db, w: Workspace, g: Id, name: string)
      requires Consistent(before) && LiveGroup(before.groups, g) && before.groups[g].workspace == w
      requires GroupId(before, w, name).None?
      ensures Consistent(Renamed(before, g, name)) && SameLogins(before, Renamed(before, g, name))
    {
      assert forall x :: x in before.groups ==> !Named(before.groups[x], w, name);
      GraphIgnoresPlaces(before, Renamed(before, g, name), {});
    }

    /** Its hosts stay, without a group, at the end of the list. */
    method DeleteGroup(w: Workspace, name: string) returns (r: Result<(), StoreError>)
      requires Valid()
      modifies this`db
      ensures Valid() && SameLogins(old(db), db)
      ensures r.Ok? <==> GroupId(old(db), w, name).Some?
      ensures r.Err? ==> db == old(db)
      ensures r.Err? ==> r.error == Invalid("groupPath", "unknown")
      ensures r.Ok? ==>
                GroupId(db, w, name).None? && JoinedInto(old(db), db, GroupId(old(db), w, name).value, w, None)
      ensures Rises(old(db), db)
    {
      NothingRises(db);
      var g := GroupId(db, w, name);
      if g.None? {
        return Err(Invalid("groupPath", "unknown"));
      }
      JoinKeepsConsistent(db, g.value, w, None);
      JoinIs(db, g.value, w, None);
      FoundNever(TombstoneGroup(JoinMembers(db, g.value, w, None), g.value), w, name);
      JoinedRises(db, TombstoneGroup(JoinMembers(db, g.value, w, None), g.value), g.value, w, None);
      var tx := MoveMembers(db, g.value, w, None);
      db := TombstoneGroup(tx, g.value);
      r := Ok(());
    }

    /** What a group becomes in its target workspace, and the record that stands for it there. */
    static function Arrived(before: Db, g: Id, w: Workspace): (Db, Id)
      requires g in before.groups
    {
      if before.groups[g].workspace == w then (before, g)
      else
        match GroupId(before, w, before.groups[g].name)
        case Some(target) => (TombstoneGroup(JoinMembers(before, g, w, Some(target)), g), target)
        case None => (CrossOver(before, g, w), g)
    }

    /**
     The group goes before another one, or to the end, in the same or the other workspace. Its
     hosts go with it; onto a group of its name there, they merge.
     */
    method MoveGroup(w: Workspace, name: string, to: Workspace, before: Option<string>)
      returns (r: Result<(), StoreError>)
      requires Valid()
      modifies this`db
      ensures Valid() && SameLogins(old(db), db)
      ensures r.Ok? <==> GroupId(old(db), w, name).Some?
      ensures r.Err? ==> db == old(db)
      ensures r.Err? ==> r.error == Invalid("groupPath", "unknown")
      ensures r.Ok? ==>
                var (arrived, g) := Arrived(old(db), GroupId(old(db), w, name).value, to);
                && ArrivedAs(old(db), arrived, GroupId(old(db), w, name).value, to, g)
                && GroupDragged(arrived, db, g, to, if before.Some? then GroupId(arrived, to, before.value) else None)
      ensures Rises(old(db), db)
    {
      NothingRises(db);
      var found := GroupId(db, w, name);
      if found.None? {
        return Err(Invalid("groupPath", "unknown"));
      }
      ArrivedIsConsistent(db, found.value, to);
      ArrivedIs(db, found.value, to);
      var tx, g := Arrive(db, found.value, to);
      var beforeId := if before.Some? then GroupId(tx, to, before.value) else None;
      MovedGroupIsDragged(tx, g, to, beforeId);
      GroupDraggedRises(tx, MovedGroups(tx, g, to, beforeId), g, to, beforeId);
      ArrivedRises(db, tx, found.value, to, g);
      RisesOn(db, tx, MovedGroups(tx, g, to, beforeId));
      db := DragGroup(tx, g, to, beforeId);
      r := Ok(());
    }

    static lemma ArrivedIs(before: Db, g: Id, w: Workspace)
      requires Consistent(before) && LiveGroup(before.groups, g)
      ensures var (t, h) := Arrived(before, g, w); ArrivedAs(before, t, g, w, h)
    {
      if before.groups[g].workspace != w {
        match GroupId(before, w, before.groups[g].name) {
          case Some(target) => JoinIs(before, g, w, Some(target));
          case None => CrossOverIs(before, g, w);
        }
      }
    }

    /** To another workspace the group crosses over, or merges with its namesake there. */
    static method Arrive(before: Db, from: Id, w: Workspace) returns (tx: Db, g: Id)
      requires Consistent(before) && LiveGroup(before.groups, from)
      ensures (tx, g) == Arrived(before, from, w)
    {
      tx, g := before, from;
      if before.groups[from].workspace != w {
        var target := GroupId(tx, w, tx.groups[g].name);
        if target.Some? {
          tx := MoveMembers(tx, g, w, target);
          tx := TombstoneGroup(tx, g);
          g := target.value;
        } else {
          tx := CrossOver(tx, g, w);
        }
      }
    }

    /** The moved group is read along with the others, taken out, and inserted at its new place. */
    static method DragGroup(before: Db, g: Id, w: Workspace, beforeId: Option<Id>) returns (tx: Db)
      requires Graph(before) && InPlaceBut(before, g) && LiveGroup(before.groups, g) && before.groups[g].workspace == w
      ensures tx == MovedGroups(before, g, w, beforeId)
      ensures Consistent(tx) && SameLogins(before, tx)
    {
      var order := ListGroups(before, w);
      assert g in GroupPlaces(before, w);
      var from := IndexOf(order, g);
      OthersAreApart(before, g, w);
      ListingWithout(order, GroupPlaces(before, w), from, before.next);
      order := order[..from] + order[from + 1..];
      var at := if beforeId.Some? then IndexOf(order, beforeId.value) else |order|;
      order := order[..at] + [g] + order[at..];
      assert order == MovedGroupOrder(before, g, w, beforeId);
      MovedGroupOrderIsGood(before, g, w, beforeId);
      var groups := WriteGroupOrder(before.groups, order);
      tx := before.(groups := groups);
      DragKeepsConsistent(before, g, w, beforeId);
    }

    static lemma DragKeepsConsistent(before: Db, g: Id, w: Workspace, beforeId: Option<Id>)
      requires Graph(before) && InPlaceBut(before, g) && LiveGroup(before.groups, g) && before.groups[g].workspace == w
      ensures var t := MovedGroups(before, g, w, beforeId);
              Consistent(t) && SameLogins(before, t)
    {
      MoveGroupKeepsInPlace(before, g, w, beforeId);
      var t := MovedGroups(before, g, w, beforeId);
      assert t.groups.Keys == before.groups.Keys;
      GraphIgnoresPlaces(before, t, {});
    }

    /** The order query over the groups of a workspace; how it breaks a tie is not promised. */
    static method ListGroups(tx: Db, w: Workspace) returns (listing: seq<Id>)
      requires forall x :: x in tx.groups ==> x < tx.next
      ensures IsListing(listing, GroupPlaces(tx, w))
    {
      OrderedIsListing(GroupPlaces(tx, w), tx.next);
      OrderedMembers(GroupPlaces(tx, w), tx.next);
      listing := Ordered(GroupPlaces(tx, w), tx.next);
    }

    static lemma ArrivedIsConsistent(before: Db, g: Id, w: Workspace)
      requires Consistent(before) && LiveGroup(before.groups, g)
      ensures var (t, h) := Arrived(before, g, w);
              && Graph(t) && SameLogins(before, t) && InPlaceBut(t, h)
              && LiveGroup(t.groups, h) && t.groups[h].workspace == w
    {
      if before.groups[g].workspace != w {
        match GroupId(before, w, before.groups[g].name) {
          case Some(target) => JoinKeepsConsistent(before, g, w, Some(target));
          case None =>
            assert forall x :: x in before.groups ==> !Named(before.groups[x], w, before.groups[g].name);
            CrossOverKeepsInPlace(before, g, w);
            CrossOverKeepsGraph(before, g, w);
        }
      }
    }

    static lemma CrossOverKeepsGraph(before: Db, g: Id, w: Workspace)
      requires Graph(before) && g in before.groups
      ensures Graph(CrossOver(before, g, w)) && SameLogins(before, CrossOver(before, g, w))
    {
      var t := CrossOver(before, g, w);
      assert t.hosts.Keys == before.hosts.Keys;
      GraphIgnoresPlaces(before, t, {});
    }

    static method WriteGroupOrder(groups: map<Id, GroupRow>, order: seq<Id>) returns (written: map<Id, GroupRow>)
      requires Distinct(order) && forall x :: x in order ==> x in groups
      ensures written == RenumberedGroups(groups, order, |order|)
    {
      written := groups;
      for index := 0 to |order|
        invariant written == RenumberedGroups(groups, order, index)
      {
        assert order[index] in order;
        RenumberGroupStep(groups, order, index);
        var g := order[index];
        if written[g].position == index {
          continue;
        }
        written := written[g := written[g].(position := index, rev := written[g].rev + 1)];
      }
    }

    method CreateGroup(w: Workspace, name: string) returns (r: Result<Id, StoreError>)
      requires Valid()
      modifies this`db
      ensures Valid() && SameLogins(old(db), db)
      ensures r.Err? ==> db == old(db)
      ensures r.Ok? <==> CreateProblem(old(db), w, name).None?
      ensures r.Err? ==> CreateProblem(old(db), w, name) == Some(r.error)
      ensures r.Ok? ==>
                && db == old(db).(groups := db.groups, next := db.next) && r.value !in old(db).groups
                && GroupedAs(old(db).groups, db.groups, w, Some(name), Some(r.value)) && Rises(old(db), db)
    {
      GroupNameIs(Some(name));
      TrimIs(name);
      EnsuredWhenChecked(db, w, name);
      var checked := GroupName(Some(name));
      if checked.Err? {
        return Err(checked.error);
      }
      if checked.value.None? {
        return Err(Invalid("groupPath", "required"));
      }
      if GroupId(db, w, checked.value.value).Some? {
        return Err(Invalid("groupPath", "exists"));
      }
      GroupForSave(db, w, checked.value);
      EnsureGroupRises(db, w, checked.value);
      r := Ok(EnsureGroup(db, w, checked.value.value).1);
      db := EnsureGroup(db, w, checked.value.value).0;
    }
  
    static lemma EnsuredWhenChecked(db: Db, w: Workspace, name: string)
      requires forall x :: x in db.groups ==> x < db.next
      ensures GroupName(Some(name)).Ok? ==>
                var (t, g) := EnsureGroupIfAny(db, w, GroupName(Some(name)).value);
                GroupedAs(db.groups, t.groups, w, Some(name), g)
    {
      if GroupName(Some(name)).Ok? {
        EnsuredGroupIs(db, w, Some(name));
      }
    }
  }
}
