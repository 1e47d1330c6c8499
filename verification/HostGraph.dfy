/**
 The host store as a reference graph: hosts point at identities they may share, identities at
 keys and sealed passwords they may share, keys at sealed secrets of their own.

 `Graph` is what every operation keeps. `GraphBut(db, loose)` is the same except that the
 secrets in `loose` may be live without a user: the state in the middle of a transaction.
 */
module HostGraph {
  import opened Wrappers
  import opened StoreRows

  function Ids(id: Option<Id>): set<Id> {
    if id.Some? then {id.value} else {}
  }

  /** The key's private half or passphrase is this secret. */
  predicate Owns(row: KeyRow, s: Id) {
    row.privateHalf == Some(s) || row.passphrase == Some(s)
  }

  predicate OwnsNoneOf(row: KeyRow, other: KeyRow) {
    && (row.privateHalf.Some? ==> !Owns(other, row.privateHalf.value))
    && (row.passphrase.Some? ==> !Owns(other, row.passphrase.value))
  }

  predicate UsedByKey(keys: map<Id, KeyRow>, s: Id) {
    exists k :: k in keys && !keys[k].deleted && Owns(keys[k], s)
  }

  ghost predicate IdsBelowNext(db: Db) {
    && (forall x :: x in db.hosts ==> x < db.next)
    && (forall x :: x in db.identities ==> x < db.next)
    && (forall x :: x in db.keys ==> x < db.next)
    && (forall x :: x in db.secrets ==> x < db.next)
    && (forall x :: x in db.groups ==> x < db.next)
  }

  /** A live host's identity is live. */
  ghost predicate HostsHaveIdentities(hosts: map<Id, HostRow>, identities: map<Id, IdentityRow>) {
    forall h :: h in hosts && !hosts[h].deleted && hosts[h].identity.Some? ==>
             LiveIdentity(identities, hosts[h].identity.value)
  }

  /** Every live identity has a live host. */
  ghost predicate IdentitiesHaveHosts(hosts: map<Id, HostRow>, identities: map<Id, IdentityRow>) {
    forall i :: i in identities && !identities[i].deleted ==> exists h :: LogsInWith(hosts, h, i)
  }

  /** A live identity's key and password secret are live. */
  ghost predicate IdentitiesPointAtLive(identities: map<Id, IdentityRow>, keys: map<Id, KeyRow>, secrets: map<Id,
          SecretRow>) {
    forall i :: i in identities && !identities[i].deleted ==>
      && (identities[i].key.Some? ==> LiveKey(keys, identities[i].key.value))
      && (identities[i].password.Some? ==> LiveSecret(secrets, identities[i].password.value))
  }

  /** A live key's secrets are live and its own. */
  ghost predicate KeysOwnTheirSecrets(keys: map<Id, KeyRow>, secrets: map<Id, SecretRow>) {
    && (forall k :: k in keys && !keys[k].deleted ==>
          && (keys[k].privateHalf.Some? ==> LiveSecret(secrets, keys[k].privateHalf.value))
          && (keys[k].passphrase.Some? ==> LiveSecret(secrets, keys[k].passphrase.value))
          && (keys[k].privateHalf.Some? ==> keys[k].privateHalf != keys[k].passphrase))
    && (forall k, l :: k in keys && l in keys && !keys[k].deleted && !keys[l].deleted && k != l ==>
          OwnsNoneOf(keys[k], keys[l]))
  }

  /** Passwords and key secrets are never the same secret. */
  ghost predicate PasswordsAreNotKeySecrets(identities: map<Id, IdentityRow>, keys: map<Id, KeyRow>) {
    forall i :: i in identities && !identities[i].deleted && identities[i].password.Some? ==>
      !UsedByKey(keys, identities[i].password.value)
  }

  /** Every live secret has a user; a forgotten one has no ciphertext left. */
  ghost predicate SecretsAreUsed(identities: map<Id, IdentityRow>, keys: map<Id, KeyRow>, secrets: map<Id, SecretRow>,
          loose: set<Id>) {
    forall s :: s in secrets ==>
      && (!secrets[s].deleted && s !in loose ==> UsedAsPassword(identities, s) || UsedByKey(keys, s))
      && (secrets[s].deleted <==> secrets[s].sealed.None?)
  }

  ghost predicate GraphBut(db: Db, loose: set<Id>) {
    && IdsBelowNext(db)
    && HostsHaveIdentities(db.hosts, db.identities)
    && IdentitiesHaveHosts(db.hosts, db.identities)
    && IdentitiesPointAtLive(db.identities, db.keys, db.secrets)
    && KeysOwnTheirSecrets(db.keys, db.secrets)
    && PasswordsAreNotKeySecrets(db.identities, db.keys)
    && SecretsAreUsed(db.identities, db.keys, db.secrets, loose)
  }

  ghost predicate Graph(db: Db) {
    GraphBut(db, {})
  }

  // ------------------------------------------------------------------ how a host logs in

  datatype KeyLogin = KeyLogin(key: Id, privateHalf: Option<string>, passphrase: Option<string>)

  /** Everything that decides how a host logs in, opened. */
  datatype Login = Login(username: string, auth: AuthMethod, keyPath: Option<string>, key: Option<KeyLogin>,
      password: Option<string>)

  function Reveal(db: Db, s: Option<Id>): Option<string> {
    if s.Some? && LiveSecret(db.secrets, s.value) then db.secrets[s.value].sealed else None
  }

  function RevealKey(db: Db, k: Option<Id>): Option<KeyLogin> {
    if k.Some? && LiveKey(db.keys, k.value)
    then Some(KeyLogin(k.value, Reveal(db, db.keys[k.value].privateHalf), Reveal(db, db.keys[k.value].passphrase)))
    else None
  }

  function LoginOf(db: Db, h: Id): Login {
    if LiveHost(db.hosts, h) && db.hosts[h].identity.Some?
      && LiveIdentity(db.identities, db.hosts[h].identity.value) then
      IdentityLogin(db, db.identities[db.hosts[h].identity.value])
    else Login("", ByPassword, None, None, None)
  }

  function IdentityLogin(db: Db, row: IdentityRow): Login {
    Login(row.username, row.auth, row.keyPath, RevealKey(db, row.key), Reveal(db, row.password))
  }

  /** Nothing about any host but `h` has changed: neither its row nor how it logs in. */
  ghost predicate OnlyHost(before: Db, after: Db, h: Id) {
    forall x :: x != h ==>
      && (x in before.hosts <==> x in after.hosts)
      && (x in before.hosts ==> after.hosts[x] == before.hosts[x] && LoginOf(after, x) == LoginOf(before, x))
  }

  ghost predicate SameLogins(before: Db, after: Db) {
    forall x :: x in before.hosts ==> LoginOf(after, x) == LoginOf(before, x)
  }

  /** Every secret a live identity or key uses opens to the same text. */
  ghost predicate SecretsKept(before: Db, after: Db, but: set<Id>) {
    forall s :: LiveSecret(before.secrets, s) && s !in but ==>
             LiveSecret(after.secrets, s) && after.secrets[s].sealed == before.secrets[s].sealed
  }

  /** With keys untouched and used secrets kept, an untouched identity logs in as before. */
  lemma IdentityLoginKept(before: Db, after: Db, i: Id, but: set<Id>)
    requires IdentitiesPointAtLive(before.identities, before.keys, before.secrets)
    requires KeysOwnTheirSecrets(before.keys, before.secrets) && LiveIdentity(before.identities, i)
    requires after.keys == before.keys && SecretsKept(before, after, but)
    requires forall s :: s in but ==> !UsedByKey(before.keys, s)
    requires before.identities[i].password.Some? ==> before.identities[i].password.value !in but
    ensures IdentityLogin(after, before.identities[i]) == IdentityLogin(before, before.identities[i])
  {
    var row := before.identities[i];
    if row.key.Some? {
      var k := row.key.value;
      KeyLoginKept(before, after, k, but);
    }
  }

  lemma KeyLoginKept(before: Db, after: Db, k: Id, but: set<Id>)
    requires KeysOwnTheirSecrets(before.keys, before.secrets) && LiveKey(before.keys, k)
    requires after.keys == before.keys && SecretsKept(before, after, but)
    requires forall s :: s in but ==> !UsedByKey(before.keys, s)
    ensures RevealKey(after, Some(k)) == RevealKey(before, Some(k))
  {
    var row := before.keys[k];
    assert row.privateHalf.Some? ==> UsedByKey(before.keys, row.privateHalf.value);
    assert row.passphrase.Some? ==> UsedByKey(before.keys, row.passphrase.value);
  }

  // ------------------------------------------------------------------ statements keep the graph

  /** Everything but the places of hosts, and groups, is what the graph depends on. */
  lemma GraphIgnoresPlaces(before: Db, after: Db, loose: set<Id>)
    requires GraphBut(before, loose) && IdsBelowNext(after)
    requires after.identities == before.identities && after.keys == before.keys && after.secrets == before.secrets
    requires after.hosts.Keys == before.hosts.Keys
    requires forall h :: h in before.hosts ==>
               after.hosts[h].identity == before.hosts[h].identity && after.hosts[h].deleted == before.hosts[h].deleted
    ensures GraphBut(after, loose) && SameLogins(before, after)
  {
    forall i | i in after.identities && !after.identities[i].deleted
      ensures exists h :: LogsInWith(after.hosts, h, i)
    {
      var h :| LogsInWith(before.hosts, h, i);
      assert LogsInWith(after.hosts, h, i);
    }
    forall s: Id ensures UsedByKey(after.keys, s) == UsedByKey(before.keys, s) {}
    forall s: Id ensures UsedAsPassword(after.identities, s) == UsedAsPassword(before.identities, s) {}
  }

  lemma SealKeepsGraph(db: Db, text: string, loose: set<Id>)
    requires GraphBut(db, loose)
    ensures var (t, s) := SealSecret(db, text);
            && GraphBut(t, loose + {s}) && SameLogins(db, t)
            && LiveSecret(t.secrets, s) && t.secrets[s].sealed == Some(text) && !UsedByKey(t.keys, s)
            && s !in db.secrets
  {
    var (t, s) := SealSecret(db, text);
    SameUsers(db, t);
    forall h | h in db.hosts && db.hosts[h].identity.Some? && LiveIdentity(db.identities, db.hosts[h].identity.value)
      ensures LoginOf(t, h) == LoginOf(db, h)
    {
      IdentityLoginKept(db, t, db.hosts[h].identity.value, {});
    }
  }

  /** A live identity gets new contents; its old password becomes loose, its new one used. */
  lemma UpdateKeepsGraph(db: Db, i: Id, row: IdentityRow, loose: set<Id>, looser: set<Id>)
    requires GraphBut(db, loose) && LiveIdentity(db.identities, i)
    requires row.key.Some? ==> LiveKey(db.keys, row.key.value)
    requires row.password.Some? ==>
               LiveSecret(db.secrets, row.password.value) && !UsedByKey(db.keys, row.password.value)
    requires loose + Ids(db.identities[i].password) <= looser + Ids(row.password)
    ensures var t := UpdateIdentity(db, i, row);
            && GraphBut(t, looser)
            && LiveIdentity(t.identities, i) && IdentityLogin(t, t.identities[i]) == IdentityLogin(db, row)
            && forall x :: x in db.hosts && db.hosts[x].identity != Some(i) ==> LoginOf(t, x) == LoginOf(db, x)
  {
    var t := UpdateIdentity(db, i, row);
    forall j | j in t.identities && !t.identities[j].deleted
      ensures exists x :: LogsInWith(t.hosts, x, j)
    {
      var x :| LogsInWith(db.hosts, x, j);
      assert LogsInWith(t.hosts, x, j);
    }
    forall s: Id ensures UsedByKey(t.keys, s) == UsedByKey(db.keys, s) {}
    PasswordsAfterUpdate(db, i, row);
  }

  lemma PasswordsAfterUpdate(db: Db, i: Id, row: IdentityRow)
    requires LiveIdentity(db.identities, i)
    ensures forall s :: UsedAsPassword(db.identities, s) ==>
              UsedAsPassword(UpdateIdentity(db, i, row).identities, s) || s in Ids(db.identities[i].password)
    ensures forall s :: s in Ids(row.password) ==> UsedAsPassword(UpdateIdentity(db, i, row).identities, s)
  {
    var t := UpdateIdentity(db, i, row);
    assert i in t.identities && t.identities[i].password == row.password;
    forall s: Id | UsedAsPassword(db.identities, s) && s !in Ids(db.identities[i].password)
      ensures UsedAsPassword(t.identities, s)
    {
      var j :| j in db.identities && !db.identities[j].deleted && db.identities[j].password == Some(s);
      assert j != i && j in t.identities && t.identities[j] == db.identities[j];
    }
  }

  /** A host without a login, or with a shared one, gets a fresh identity of its own. */
  lemma NewIdentityKeepsGraph(db: Db, h: Id, hostRow: HostRow, row: IdentityRow, t: Db, loose: set<Id>)
    requires GraphBut(db, loose) && h < t.next && db.next < t.next
    requires t == db.(identities := db.identities[db.next := row], hosts := db.hosts[h := hostRow], next := t.next)
    requires hostRow.identity == Some(db.next) && !hostRow.deleted && !row.deleted
    requires LiveHost(db.hosts, h) && db.hosts[h].identity.Some? ==>
               SharedIdentity(db.hosts, h, db.hosts[h].identity.value)
    requires row.key.Some? ==> LiveKey(db.keys, row.key.value)
    requires row.password.Some? ==>
               LiveSecret(db.secrets, row.password.value) && !UsedByKey(db.keys, row.password.value)
    ensures GraphBut(t, loose - Ids(row.password))
    ensures OnlyHost(db, t, h) && LoginOf(t, h) == IdentityLogin(db, row)
    ensures LogsInWith(t.hosts, h, db.next) && !SharedIdentity(t.hosts, h, db.next)
  {
    NewIdentityHasHosts(db, h, hostRow, row, t, loose);
    forall s: Id ensures UsedByKey(t.keys, s) == UsedByKey(db.keys, s) {}
    assert db.next in t.identities && t.identities[db.next] == row;
    forall s: Id | UsedAsPassword(db.identities, s)
      ensures UsedAsPassword(t.identities, s)
    {
      var j :| j in db.identities && !db.identities[j].deleted && db.identities[j].password == Some(s);
      assert j in t.identities && t.identities[j] == db.identities[j];
    }
    NewIdentityKeepsLogins(db, h, hostRow, row, t);
  }

  lemma NewIdentityHasHosts(db: Db, h: Id, hostRow: HostRow, row: IdentityRow, t: Db, loose: set<Id>)
    requires GraphBut(db, loose)
    requires t == db.(identities := db.identities[db.next := row], hosts := db.hosts[h := hostRow], next := t.next)
    requires hostRow.identity == Some(db.next) && !hostRow.deleted
    requires LiveHost(db.hosts, h) && db.hosts[h].identity.Some? ==>
               SharedIdentity(db.hosts, h, db.hosts[h].identity.value)
    ensures IdentitiesHaveHosts(t.hosts, t.identities)
  {
    forall j | j in t.identities && !t.identities[j].deleted
      ensures exists x :: LogsInWith(t.hosts, x, j)
    {
      if j == db.next {
        assert LogsInWith(t.hosts, h, j);
      } else {
        var x :| LogsInWith(db.hosts, x, j);
        if x == h {
          var other :| other in db.hosts && other != h && !db.hosts[other].deleted
            && db.hosts[other].identity == Some(j);
          assert LogsInWith(t.hosts, other, j);
        } else {
          assert LogsInWith(t.hosts, x, j);
        }
      }
    }
  }

  lemma NewIdentityKeepsLogins(db: Db, h: Id, hostRow: HostRow, row: IdentityRow, t: Db)
    requires IdsBelowNext(db) && HostsHaveIdentities(db.hosts, db.identities)
    requires t == db.(identities := db.identities[db.next := row], hosts := db.hosts[h := hostRow], next := t.next)
    requires hostRow.identity == Some(db.next) && !hostRow.deleted && !row.deleted
    ensures OnlyHost(db, t, h) && LoginOf(t, h) == IdentityLogin(db, row)
    ensures !SharedIdentity(t.hosts, h, db.next)
  {
  }

  /** Making the identity a host's own changes no login at all, and leaves it to that host. */
  lemma OwnKeepsGraph(db: Db, h: Id, i: Id)
    requires Graph(db) && LogsInWith(db.hosts, h, i)
    ensures var (t, own) := OwnIdentity(db, h, i);
            && Graph(t) && OnlyHost(db, t, h) && LoginOf(t, h) == LoginOf(db, h)
            && LogsInWith(t.hosts, h, own) && LiveIdentity(t.identities, own) && !SharedIdentity(t.hosts, h, own)
            && t.identities[own].password == db.identities[i].password
            && t == db.(identities := t.identities, hosts := t.hosts, next := t.next)
            && t.hosts[h] == db.hosts[h].(identity := Some(own), rev := t.hosts[h].rev)
               && t.hosts[h].rev >= db.hosts[h].rev
  {
    var (t, own) := OwnIdentity(db, h, i);
    if SharedIdentity(db.hosts, h, i) {
      var hostRow := db.hosts[h].(identity := Some(db.next), rev := db.hosts[h].rev + 1);
      var copy := db.identities[i].(deleted := false, rev := 1);
      IdentityLoginKept(db, db, i, {});
      NewIdentityKeepsGraph(db, h, hostRow, copy, t, {});
      assert {} - Ids(copy.password) == {};
    }
  }

  /** What only touches secrets leaves every reference as it is. */
  lemma SameUsers(before: Db, after: Db)
    requires after == before.(secrets := after.secrets, next := after.next)
    ensures forall s :: UsedByKey(after.keys, s) == UsedByKey(before.keys, s)
    ensures forall s :: UsedAsPassword(after.identities, s) == UsedAsPassword(before.identities, s)
    ensures IdentitiesHaveHosts(before.hosts, before.identities) ==> IdentitiesHaveHosts(after.hosts, after.identities)
  {
    forall i | IdentitiesHaveHosts(before.hosts, before.identities) && i in after.identities
           && !after.identities[i].deleted
      ensures exists h :: LogsInWith(after.hosts, h, i)
    {
      var h :| LogsInWith(before.hosts, h, i);
      assert LogsInWith(after.hosts, h, i);
    }
  }

  /** Forgetting a live secret nobody uses. */
  lemma ForgetKeepsGraph(db: Db, s: Id, loose: set<Id>)
    requires GraphBut(db, loose + {s}) && !UsedByKey(db.keys, s) && !UsedAsPassword(db.identities, s)
    ensures GraphBut(ForgetSecret(db, s), loose) && SameLogins(db, ForgetSecret(db, s))
    ensures !LiveSecret(ForgetSecret(db, s).secrets, s)
  {
    var t := ForgetSecret(db, s);
    SameUsers(db, t);
    ForgetKeepsOwners(db, s);
    ForgetKeepsLogins(db, s);
  }

  lemma ForgetKeepsOwners(db: Db, s: Id)
    requires KeysOwnTheirSecrets(db.keys, db.secrets) && IdentitiesPointAtLive(db.identities, db.keys, db.secrets)
    requires !UsedByKey(db.keys, s) && !UsedAsPassword(db.identities, s)
    ensures KeysOwnTheirSecrets(db.keys, ForgetSecret(db, s).secrets)
    ensures IdentitiesPointAtLive(db.identities, db.keys, ForgetSecret(db, s).secrets)
  {
    forall k | k in db.keys && !db.keys[k].deleted
      ensures !Owns(db.keys[k], s)
    {
      assert Owns(db.keys[k], s) ==> UsedByKey(db.keys, s);
    }
  }

  lemma ForgetKeepsLogins(db: Db, s: Id)
    requires IdentitiesPointAtLive(db.identities, db.keys, db.secrets) && KeysOwnTheirSecrets(db.keys, db.secrets)
    requires !UsedByKey(db.keys, s) && !UsedAsPassword(db.identities, s)
    ensures SameLogins(db, ForgetSecret(db, s))
  {
    var t := ForgetSecret(db, s);
    forall h | h in db.hosts && db.hosts[h].identity.Some? && LiveIdentity(db.identities, db.hosts[h].identity.value)
      ensures LoginOf(t, h) == LoginOf(db, h)
    {
      IdentityLoginKept(db, t, db.hosts[h].identity.value, {s});
    }
  }

  /** Releasing a loose password secret closes the graph: forgotten, unless still used. */
  lemma ReleaseKeepsGraph(db: Db, s: Id)
    requires GraphBut(db, {s}) && !UsedByKey(db.keys, s)
    ensures Graph(ReleaseSecret(db, s)) && SameLogins(db, ReleaseSecret(db, s))
    ensures LiveSecret(ReleaseSecret(db, s).secrets, s) ==> UsedAsPassword(db.identities, s)
  {
    if !UsedAsPassword(db.identities, s) {
      assert {} + {s} == {s};
      ForgetKeepsGraph(db, s, {});
    }
  }

  lemma ReleaseIfAnyKeepsGraph(db: Db, s: Option<Id>)
    requires GraphBut(db, Ids(s)) && (s.Some? ==> !UsedByKey(db.keys, s.value))
    ensures Graph(ReleaseIfAny(db, s)) && SameLogins(db, ReleaseIfAny(db, s))
  {
    if s.Some? {
      ReleaseKeepsGraph(db, s.value);
    }
  }

  /** A host that goes takes its identity along when it was the last to log in with it. */
  function DropHost(db: Db, h: Id): (Db, Option<Id>)
    requires h in db.hosts
  {
    var dropped := TombstoneHost(db, h);
    var i := db.hosts[h].identity;
    if i.Some? && i.value in db.identities && !SharedIdentity(db.hosts, h, i.value)
    then (TombstoneIdentity(dropped, i.value), db.identities[i.value].password)
    else (dropped, None)
  }

  lemma DropHostKeepsGraph(db: Db, h: Id)
    requires Graph(db) && LiveHost(db.hosts, h)
    ensures var (t, password) := DropHost(db, h);
            && GraphBut(t, Ids(password)) && OnlyHost(db, t, h)
            && (password.Some? ==> !UsedByKey(t.keys, password.value))
            && t.keys == db.keys && t.secrets == db.secrets && t.groups == db.groups && t.next == db.next
  {
    var (t, password) := DropHost(db, h);
    DropHostHasHosts(db, h);
    DropHostOnly(db, h);
    DropHostKeepsSecrets(db, h);
    assert password.Some? ==> UsedAsPassword(db.identities, password.value);
  }

  lemma DropHostKeepsSecrets(db: Db, h: Id)
    requires Graph(db) && LiveHost(db.hosts, h)
    ensures var (t, password) := DropHost(db, h);
            && IdentitiesPointAtLive(t.identities, t.keys, t.secrets) && PasswordsAreNotKeySecrets(t.identities, t.keys)
            && SecretsAreUsed(t.identities, t.keys, t.secrets, Ids(password))
  {
    DropHostPasswords(db, h);
  }

  lemma DropHostHasHosts(db: Db, h: Id)
    requires Graph(db) && LiveHost(db.hosts, h)
    ensures IdentitiesHaveHosts(DropHost(db, h).0.hosts, DropHost(db, h).0.identities)
    ensures HostsHaveIdentities(DropHost(db, h).0.hosts, DropHost(db, h).0.identities)
  {
    var (t, password) := DropHost(db, h);
    forall i | i in t.identities && !t.identities[i].deleted
      ensures exists x :: LogsInWith(t.hosts, x, i)
    {
      var x :| LogsInWith(db.hosts, x, i);
      if x == h {
        var other :| other in db.hosts && other != h && !db.hosts[other].deleted && db.hosts[other].identity == Some(i);
        assert LogsInWith(t.hosts, other, i);
      } else {
        assert LogsInWith(t.hosts, x, i);
      }
    }
  }

  lemma DropHostOnly(db: Db, h: Id)
    requires LiveHost(db.hosts, h)
    ensures OnlyHost(db, DropHost(db, h).0, h)
  {
    var (t, password) := DropHost(db, h);
    forall x | x in db.hosts && x != h
      ensures LoginOf(t, x) == LoginOf(db, x)
    {
      if LiveHost(db.hosts, x) && db.hosts[x].identity.Some? && db.hosts[x].identity == db.hosts[h].identity {
        assert SharedIdentity(db.hosts, h, db.hosts[x].identity.value);
      }
    }
  }

  lemma DropHostPasswords(db: Db, h: Id)
    requires Graph(db) && LiveHost(db.hosts, h)
    ensures var (t, password) := DropHost(db, h);
            forall s: Id :: UsedAsPassword(db.identities, s) && password != Some(s) ==> UsedAsPassword(t.identities, s)
  {
    var (t, password) := DropHost(db, h);
    forall s: Id | UsedAsPassword(db.identities, s) && password != Some(s)
      ensures UsedAsPassword(t.identities, s)
    {
      var j :| j in db.identities && !db.identities[j].deleted && db.identities[j].password == Some(s);
      assert j in t.identities && t.identities[j].password == Some(s) && !t.identities[j].deleted;
    }
  }

  /** A new key with secrets of its own. */
  lemma InsertKeyKeepsGraph(db: Db, row: KeyRow, loose: set<Id>)
    requires GraphBut(db, loose) && loose == Ids(row.privateHalf) + Ids(row.passphrase)
    requires row.privateHalf.Some? ==> row.privateHalf != row.passphrase
    requires forall s :: Owns(row, s) ==>
               LiveSecret(db.secrets, s) && !UsedByKey(db.keys, s) && !UsedAsPassword(db.identities, s)
    ensures var (t, k) := InsertKey(db, row);
            Graph(t) && SameLogins(db, t) && LiveKey(t.keys, k)
  {
    var (t, k) := InsertKey(db, row);
    assert k in t.keys && t.keys[k] == row.(deleted := false, rev := 1);
    InsertKeyUsers(db, row);
    assert row.privateHalf.Some? ==> Owns(row, row.privateHalf.value);
    assert row.passphrase.Some? ==> Owns(row, row.passphrase.value);
    forall i | i in db.identities && !db.identities[i].deleted && db.identities[i].password.Some?
      ensures !UsedByKey(t.keys, db.identities[i].password.value)
    {
      assert UsedAsPassword(db.identities, db.identities[i].password.value);
    }
    InsertKeyOwns(db, row);
  }

  lemma InsertKeyOwns(db: Db, row: KeyRow)
    requires IdsBelowNext(db) && KeysOwnTheirSecrets(db.keys, db.secrets)
    requires row.privateHalf.Some? ==> row.privateHalf != row.passphrase
    requires forall s :: Owns(row, s) ==> LiveSecret(db.secrets, s) && !UsedByKey(db.keys, s)
    ensures KeysOwnTheirSecrets(InsertKey(db, row).0.keys, db.secrets)
  {
    assert row.privateHalf.Some? ==> Owns(row, row.privateHalf.value);
    assert row.passphrase.Some? ==> Owns(row, row.passphrase.value);
    forall l | l in db.keys && !db.keys[l].deleted
      ensures OwnsNoneOf(db.keys[l], row) && OwnsNoneOf(row, db.keys[l])
    {
      assert forall s :: Owns(db.keys[l], s) ==> UsedByKey(db.keys, s);
    }
  }

  lemma InsertKeyUsers(db: Db, row: KeyRow)
    requires IdsBelowNext(db)
    ensures var (t, _) := InsertKey(db, row);
            && (forall s :: UsedByKey(t.keys, s) <==> UsedByKey(db.keys, s) || Owns(row, s))
            && (forall s :: UsedAsPassword(t.identities, s) <==> UsedAsPassword(db.identities, s))
  {
    var (t, k) := InsertKey(db, row);
    assert k in t.keys && t.keys[k] == row.(deleted := false, rev := 1);
    forall s: Id | UsedByKey(db.keys, s)
      ensures UsedByKey(t.keys, s)
    {
      var l :| l in db.keys && !db.keys[l].deleted && Owns(db.keys[l], s);
      assert l in t.keys && t.keys[l] == db.keys[l];
    }
    forall s: Id | Owns(row, s) ensures UsedByKey(t.keys, s) {
      assert Owns(t.keys[k], s);
    }
  }

  /**
   A key nobody logs in with can go: no live identity still points at it, because every live
   identity has a live host that would have been counted.
   */
  lemma TombstoneKeyKeepsGraph(db: Db, k: Id)
    requires Graph(db) && LiveKey(db.keys, k) && KeyUsers(db, k) == {}
    ensures var t := TombstoneKey(db, k);
            && GraphBut(t, Ids(db.keys[k].privateHalf) + Ids(db.keys[k].passphrase)) && SameLogins(db, t)
            && forall s :: Owns(db.keys[k], s) ==> !UsedByKey(t.keys, s) && !UsedAsPassword(t.identities, s)
  {
    var t := TombstoneKey(db, k);
    forall i | i in t.identities && !t.identities[i].deleted
      ensures exists h :: LogsInWith(t.hosts, h, i)
      ensures t.identities[i].key != Some(k)
    {
      var h :| LogsInWith(db.hosts, h, i);
      assert LogsInWith(t.hosts, h, i);
      assert h !in KeyUsers(db, k);
    }
    forall s: Id | UsedByKey(db.keys, s) && !Owns(db.keys[k], s)
      ensures UsedByKey(t.keys, s)
    {
      var l :| l in db.keys && !db.keys[l].deleted && Owns(db.keys[l], s);
      assert l in t.keys && t.keys[l] == db.keys[l];
    }
    forall s: Id | Owns(db.keys[k], s)
      ensures !UsedByKey(t.keys, s) && !UsedAsPassword(t.identities, s)
    {
      TombstoneKeyFreesSecret(db, k, s);
    }
    forall s: Id ensures UsedAsPassword(t.identities, s) == UsedAsPassword(db.identities, s) {}
  }

  lemma TombstoneKeyFreesSecret(db: Db, k: Id, s: Id)
    requires KeysOwnTheirSecrets(db.keys, db.secrets) && PasswordsAreNotKeySecrets(db.identities, db.keys)
    requires LiveKey(db.keys, k) && Owns(db.keys[k], s)
    ensures !UsedByKey(TombstoneKey(db, k).keys, s) && !UsedAsPassword(db.identities, s)
  {
    assert UsedByKey(db.keys, s);
    var keys := TombstoneKey(db, k).keys;
    forall l | l in keys && !keys[l].deleted
      ensures !Owns(keys[l], s)
    {
      assert OwnsNoneOf(db.keys[k], db.keys[l]);
    }
  }

  /** With an orphaned identity the same refusal would let a key go that is still pointed at. */
  lemma OrphansWouldBreakTheRefusal() returns (db: Db, k: Id)
    ensures LiveKey(db.keys, k) && KeyUsers(db, k) == {}
    ensures IdentitiesPointAtLive(db.identities, db.keys, db.secrets) && !IdentitiesHaveHosts(db.hosts, db.identities)
    ensures !IdentitiesPointAtLive(db.identities, TombstoneKey(db, k).keys, db.secrets)
  {
    k := 0;
    var orphan := IdentityRow("", "root", ByKey, None, Some(0), None, false, 1);
    db := Db(map[], map[1 := orphan], map[0 := KeyRow("k", None, None, false, 1)], map[], map[], 2);
    assert 1 in db.identities && !db.identities[1].deleted;
    assert forall h :: !LogsInWith(db.hosts, h, 1);
    assert 1 in TombstoneKey(db, k).identities;
  }
}
