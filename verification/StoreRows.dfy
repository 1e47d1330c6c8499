/**
 The rows of the host store and the SQL statements its operations are made of.

 A database is a value, a statement a function from database to database, so a transaction is
 a local copy that is either committed or dropped. Ids stand for UUIDs: `next` is one no row
 uses yet. Sync bookkeeping other than the revision is left out.
 */
module StoreRows {
  import opened Wrappers

  type Id = nat

  datatype Workspace = Private | Business

  datatype AuthMethod = ByPassword | ByKey

  datatype HostRow = HostRow(
    name: string, address: string, port: nat, identity: Option<Id>,
    group: Option<Id>, workspace: Workspace, position: int, deleted: bool, rev: nat)

  datatype IdentityRow = IdentityRow(
    title: string, username: string, auth: AuthMethod, keyPath: Option<string>,
    key: Option<Id>, password: Option<Id>, deleted: bool, rev: nat)

  datatype KeyRow = KeyRow(title: string, privateHalf: Option<Id>, passphrase: Option<Id>, deleted: bool, rev: nat)

  /** A sealed value; what the vault would open it to, or nothing once it is forgotten. */
  datatype SecretRow = SecretRow(sealed: Option<string>, deleted: bool, rev: nat)

  datatype GroupRow = GroupRow(workspace: Workspace, name: string, position: int, deleted: bool, rev: nat)

  datatype Db = Db(
    hosts: map<Id, HostRow>,
    identities: map<Id, IdentityRow>,
    keys: map<Id, KeyRow>,
    secrets: map<Id, SecretRow>,
    groups: map<Id, GroupRow>,
    next: Id)

  datatype StoreError =
    | Invalid(field: string, problem: string)
    | VaultLocked
    | UnknownHost(id: Id)
    | UnknownKey(id: Id)
    | KeyInUse(hosts: nat)

  datatype PasswordChange = Keep | Set(value: string) | Forget

  datatype HostDraft = HostDraft(
    id: Option<Id>, name: string, address: string, port: nat, username: string, auth: AuthMethod,
    keyPath: Option<string>, group: Option<string>, workspace: Option<Workspace>,
    key: Option<Id>, password: PasswordChange)

  // ------------------------------------------------------------------ which rows count

  predicate LiveHost(hosts: map<Id, HostRow>, h: Id) { h in hosts && !hosts[h].deleted }

  predicate LiveIdentity(identities: map<Id, IdentityRow>, i: Id) { i in identities && !identities[i].deleted }

  predicate LiveKey(keys: map<Id, KeyRow>, k: Id) { k in keys && !keys[k].deleted }

  predicate LiveSecret(secrets: map<Id, SecretRow>, s: Id) { s in secrets && !secrets[s].deleted }

  predicate LiveGroup(groups: map<Id, GroupRow>, g: Id) { g in groups && !groups[g].deleted }

  predicate LogsInWith(hosts: map<Id, HostRow>, h: Id, i: Id) {
    LiveHost(hosts, h) && hosts[h].identity == Some(i)
  }

  // ------------------------------------------------------------------ secrets

  /** `seal_secret`: a fresh live secret. */
  function SealSecret(db: Db, text: string): (Db, Id) {
    (db.(secrets := db.secrets[db.next := SecretRow(Some(text), false, 1)], next := db.next + 1), db.next)
  }

  /** `forget_secret`: a tombstone without its ciphertext. */
  function ForgetSecret(db: Db, s: Id): Db {
    if LiveSecret(db.secrets, s)
    then db.(secrets := db.secrets[s := SecretRow(None, true, db.secrets[s].rev + 1)])
    else db
  }

  predicate UsedAsPassword(identities: map<Id, IdentityRow>, s: Id) {
    exists i :: i in identities && !identities[i].deleted && identities[i].password == Some(s)
  }

  /** Forget a password secret once no identity uses it any more. */
  function ReleaseSecret(db: Db, s: Id): Db {
    if UsedAsPassword(db.identities, s) then db else ForgetSecret(db, s)
  }

  function ReleaseIfAny(db: Db, s: Option<Id>): Db {
    if s.Some? then ReleaseSecret(db, s.value) else db
  }

  // ------------------------------------------------------------------ identities

  function InsertIdentity(db: Db, row: IdentityRow): (Db, Id) {
    (db.(identities := db.identities[db.next := row.(deleted := false, rev := 1)], next := db.next + 1), db.next)
  }

  function PointAt(db: Db, h: Id, i: Id): Db
    requires h in db.hosts
  {
    db.(hosts := db.hosts[h := db.hosts[h].(identity := Some(i), rev := db.hosts[h].rev + 1)])
  }

  predicate SharedIdentity(hosts: map<Id, HostRow>, h: Id, i: Id) {
    exists other :: other in hosts && other != h && !hosts[other].deleted && hosts[other].identity == Some(i)
  }

  /** The identity a host logs in with, as its own: a shared one is copied first. */
  function OwnIdentity(db: Db, h: Id, i: Id): (Db, Id)
    requires h in db.hosts && i in db.identities
  {
    if SharedIdentity(db.hosts, h, i) then
      var (copied, copy) := InsertIdentity(db, db.identities[i]);
      (PointAt(copied, h, copy), copy)
    else (db, i)
  }

  function UpdateIdentity(db: Db, i: Id, row: IdentityRow): Db
    requires i in db.identities
  {
    db.(identities := db.identities[i := row.(deleted := db.identities[i].deleted, rev := db.identities[i].rev + 1)])
  }

  function TombstoneHost(db: Db, h: Id): Db
    requires h in db.hosts
  {
    db.(hosts := db.hosts[h := db.hosts[h].(deleted := true, rev := db.hosts[h].rev + 1)])
  }

  function TombstoneIdentity(db: Db, i: Id): Db
    requires i in db.identities
  {
    db.(identities := db.identities[i := db.identities[i].(deleted := true, rev := db.identities[i].rev + 1)])
  }

  // ------------------------------------------------------------------ keys

  function InsertKey(db: Db, row: KeyRow): (Db, Id) {
    (db.(keys := db.keys[db.next := row.(deleted := false, rev := 1)], next := db.next + 1), db.next)
  }

  function TombstoneKey(db: Db, k: Id): Db
    requires k in db.keys
  {
    db.(keys := db.keys[k := db.keys[k].(deleted := true, rev := db.keys[k].rev + 1)])
  }

  /** The live hosts that log in with a key, through a live identity. */
  function KeyUsers(db: Db, k: Id): set<Id> {
    set h | h in db.hosts && !db.hosts[h].deleted && db.hosts[h].identity.Some?
            && LiveIdentity(db.identities, db.hosts[h].identity.value)
               && db.identities[db.hosts[h].identity.value].key == Some(k)
  }

  // ------------------------------------------------------------------ groups and positions

  /** The largest of these places with an id below `n`, if there is one. */
  function MaxPlace(places: map<Id, int>, n: Id): (m: Option<int>)
    ensures m.None? ==> forall x :: x in places ==> x >= n
    ensures m.Some? ==> (exists x :: x in places && x < n && places[x] == m.value)
    ensures m.Some? ==> forall x :: x in places && x < n ==> places[x] <= m.value
  {
    if n == 0 then None
    else
      var m := MaxPlace(places, n - 1);
      if n - 1 in places && (m.None? || m.value < places[n - 1]) then Some(places[n - 1]) else m
  }

  /** `coalesce(max(position) + 1, 0)`. */
  function PositionAfter(places: map<Id, int>, n: Id): (p: int)
    ensures forall x :: x in places && x < n ==> places[x] < p
    ensures (exists x :: x in places && x < n && places[x] + 1 == p) || (p == 0 && forall x :: x in places ==> x >= n)
  {
    var m := MaxPlace(places, n);
    if m.None? then 0 else m.value + 1
  }

  /** Where the live hosts of one bucket are: one workspace, one group or none. */
  function HostPlaces(db: Db, w: Workspace, g: Option<Id>): map<Id, int> {
    map h | h in db.hosts && InBucket(db.hosts[h], w, g) :: db.hosts[h].position
  }

  predicate InBucket(row: HostRow, w: Workspace, g: Option<Id>) {
    !row.deleted && row.workspace == w && row.group == g
  }

  function GroupPlaces(db: Db, w: Workspace): map<Id, int> {
    map g | g in db.groups && !db.groups[g].deleted && db.groups[g].workspace == w :: db.groups[g].position
  }

  function NextPosition(db: Db, w: Workspace, g: Option<Id>): int {
    PositionAfter(HostPlaces(db, w, g), db.next)
  }

  predicate Named(row: GroupRow, w: Workspace, name: string) {
    !row.deleted && row.workspace == w && row.name == name
  }

  /** The live group of that name with the least id from `from` on. */
  function FindGroup(db: Db, w: Workspace, name: string, from: Id): (g: Option<Id>)
    requires from <= db.next
    decreases db.next - from
    ensures g.Some? ==> from <= g.value < db.next && g.value in db.groups && Named(db.groups[g.value], w, name)
    ensures g.None? ==> forall x :: x in db.groups && from <= x < db.next ==> !Named(db.groups[x], w, name)
  {
    if from == db.next then None
    else if from in db.groups && Named(db.groups[from], w, name) then Some(from)
    else FindGroup(db, w, name, from + 1)
  }

  function GroupId(db: Db, w: Workspace, name: string): Option<Id> {
    FindGroup(db, w, name, 0)
  }

  /** The id of the group a host names, creating the record at the end if it is new. */
  function EnsureGroup(db: Db, w: Workspace, name: string): (Db, Id) {
    match GroupId(db, w, name)
    case Some(g) => (db, g)
    case None =>
      var row := GroupRow(w, name, PositionAfter(GroupPlaces(db, w), db.next), false, 1);
      (db.(groups := db.groups[db.next := row], next := db.next + 1), db.next)
  }

  function EnsureGroupIfAny(db: Db, w: Workspace, name: Option<string>): (Db, Option<Id>) {
    if name.None? then (db, None)
    else
      var (ensured, g) := EnsureGroup(db, w, name.value);
      (ensured, Some(g))
  }
}
