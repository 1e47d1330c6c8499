/**
 Where hosts and groups are in the list: orders, renumbering, and what every drag keeps.

 An order is the ids of one bucket by ascending position. Within a bucket positions are
 distinct, so there is exactly one order, however the query breaks ties.
 */
module Places {
  import opened Wrappers
  import opened StoreRows

  ghost predicate Injective(places: map<Id, int>) {
    forall x, y :: x in places && y in places && x != y ==> places[x] != places[y]
  }

  function At(places: map<Id, int>, x: Id): int {
    if x in places then places[x] else 0
  }

  ghost predicate Ascending(order: seq<Id>, places: map<Id, int>) {
    forall i, j :: 0 <= i < j < |order| ==> At(places, order[i]) < At(places, order[j])
  }

  /** The bucket's ids, each once, by strictly ascending position. */
  ghost predicate IsOrder(order: seq<Id>, places: map<Id, int>) {
    && (forall x :: x in places <==> x in order)
    && Ascending(order, places)
  }

  function InsertByPlace(order: seq<Id>, x: Id, places: map<Id, int>): seq<Id> {
    if order == [] || At(places, x) < At(places, order[0]) then [x] + order
    else [order[0]] + InsertByPlace(order[1..], x, places)
  }

  /** `SELECT id … ORDER BY position` over the rows with an id below `n`. */
  function Ordered(places: map<Id, int>, n: Id): seq<Id> {
    if n == 0 then []
    else if n - 1 in places then InsertByPlace(Ordered(places, n - 1), n - 1, places)
    else Ordered(places, n - 1)
  }

  lemma {:induction false} InsertMembers(order: seq<Id>, x: Id, places: map<Id, int>)
    ensures forall y :: y in InsertByPlace(order, x, places) <==> y == x || y in order
  {
    if order != [] && At(places, x) >= At(places, order[0]) {
      InsertMembers(order[1..], x, places);
      assert order == [order[0]] + order[1..];
    }
  }

  lemma {:induction false} InsertAscending(order: seq<Id>, x: Id, places: map<Id, int>)
    requires Ascending(order, places)
    requires forall y :: y in order ==> At(places, y) != At(places, x)
    ensures Ascending(InsertByPlace(order, x, places), places)
  {
    if order != [] && At(places, x) >= At(places, order[0]) {
      var tail := order[1..];
      assert order == [order[0]] + tail;
      InsertAscending(tail, x, places);
      InsertMembers(tail, x, places);
      var rest := InsertByPlace(tail, x, places);
      forall i | 0 <= i < |rest| ensures At(places, order[0]) < At(places, rest[i]) {
        assert rest[i] in rest;
        if rest[i] != x {
          var k :| 0 <= k < |tail| && tail[k] == rest[i];
          assert order[k + 1] == rest[i];
        }
      }
    }
  }

  lemma {:induction false} OrderedMembers(places: map<Id, int>, n: Id)
    ensures forall x :: x in Ordered(places, n) <==> x in places && x < n
  {
    if n > 0 {
      OrderedMembers(places, n - 1);
      InsertMembers(Ordered(places, n - 1), n - 1, places);
    }
  }

  lemma {:induction false} OrderedIsAscending(places: map<Id, int>, n: Id)
    requires Injective(places)
    ensures Ascending(Ordered(places, n), places)
  {
    if n > 0 {
      OrderedIsAscending(places, n - 1);
      if n - 1 in places {
        OrderedMembers(places, n - 1);
        InsertAscending(Ordered(places, n - 1), n - 1, places);
      }
    }
  }

  lemma OrderedIsOrder(places: map<Id, int>, n: Id)
    requires Injective(places) && forall x :: x in places ==> x < n
    ensures IsOrder(Ordered(places, n), places)
  {
    OrderedIsAscending(places, n);
    OrderedMembers(places, n);
  }

  /** A bucket has only one order. */
  lemma {:induction false} OrderIsUnique(a: seq<Id>, b: seq<Id>, places: map<Id, int>)
    requires IsOrder(a, places) && IsOrder(b, places)
    ensures a == b
  {
    PrefixAgrees(a, b, places, |a|);
    PrefixAgrees(b, a, places, |b|);
  }

  lemma {:induction false} PrefixAgrees(a: seq<Id>, b: seq<Id>, places: map<Id, int>, n: nat)
    requires IsOrder(a, places) && IsOrder(b, places) && n <= |a|
    ensures n <= |b| && a[..n] == b[..n]
  {
    if n > 0 {
      var k := n - 1;
      PrefixAgrees(a, b, places, k);
      var j := FirstNotBefore(b, places, a, k);
      var i := FirstNotBefore(a, places, b, k);
      NextAgrees(a, b, places, i, j, k);
      assert a[..n] == a[..k] + [a[k]] && b[..n] == b[..k] + [b[k]];
    }
  }

  lemma NextAgrees(a: seq<Id>, b: seq<Id>, places: map<Id, int>, i: nat, j: nat, k: nat)
    requires Ascending(a, places) && Ascending(b, places)
    requires k <= i < |a| && k <= j < |b| && b[j] == a[k] && a[i] == b[k]
    ensures a[k] == b[k]
  {
    assert At(places, b[k]) <= At(places, b[j]) && At(places, a[k]) <= At(places, a[i]);
  }

  /** The place in `b` of the next id of `a`, when both agree before it. */
  lemma FirstNotBefore(b: seq<Id>, places: map<Id, int>, a: seq<Id>, k: nat) returns (j: nat)
    requires IsOrder(a, places) && IsOrder(b, places) && k < |a| && k <= |b| && a[..k] == b[..k]
    ensures k <= j < |b| && b[j] == a[k]
  {
    assert a[k] in a;
    assert forall i | 0 <= i < k :: a[i] == a[..k][i] && b[i] == b[..k][i];
    j :| 0 <= j < |b| && b[j] == a[k];
  }

  // ------------------------------------------------------------------ drag and drop

  function IndexOf(order: seq<Id>, x: Id): (i: nat)
    ensures i <= |order|
    ensures i < |order| <==> x in order
    ensures i < |order| ==> order[i] == x
  {
    if order == [] || order[0] == x then 0 else 1 + IndexOf(order[1..], x)
  }

  /** The order without one id. */
  function Without(order: seq<Id>, x: Id): seq<Id> {
    if order == [] then []
    else if order[0] == x then Without(order[1..], x)
    else [order[0]] + Without(order[1..], x)
  }

  /** Put `x` before another id of the order, or at the end. */
  function InsertBefore(order: seq<Id>, x: Id, before: Option<Id>): seq<Id> {
    var at := if before.Some? then IndexOf(order, before.value) else |order|;
    order[..at] + [x] + order[at..]
  }

  lemma {:induction false} WithoutMembers(order: seq<Id>, x: Id)
    ensures forall y :: y in Without(order, x) <==> y in order && y != x
  {
    if order != [] {
      WithoutMembers(order[1..], x);
      assert order == [order[0]] + order[1..];
    }
  }

  lemma {:induction false} WithoutAscending(order: seq<Id>, places: map<Id, int>, x: Id)
    requires Ascending(order, places)
    ensures Ascending(Without(order, x), places)
  {
    if order != [] {
      var tail := order[1..];
      WithoutAscending(tail, places, x);
      WithoutMembers(tail, x);
      var rest := Without(tail, x);
      forall i | 0 <= i < |rest| ensures At(places, order[0]) < At(places, rest[i]) {
        assert rest[i] in rest;
        var k :| 0 <= k < |tail| && tail[k] == rest[i];
        assert order[k + 1] == rest[i];
      }
    }
  }

  /** Leaving a row out of the query leaves it out of the order, and nothing else. */
  lemma OrderedWithout(places: map<Id, int>, n: Id, x: Id)
    requires Injective(places) && forall y :: y in places ==> y < n
    ensures Ordered(places - {x}, n) == Without(Ordered(places, n), x)
  {
    var rest := Without(Ordered(places, n), x);
    OrderedIsOrder(places, n);
    OrderedIsOrder(places - {x}, n);
    WithoutAscending(Ordered(places, n), places, x);
    WithoutMembers(Ordered(places, n), x);
    forall i | 0 <= i < |rest| ensures At(places - {x}, rest[i]) == At(places, rest[i]) {
      assert rest[i] in rest;
    }
    OrderIsUnique(Ordered(places - {x}, n), rest, places - {x});
  }

  // ------------------------------------------------------------------ renumbering

  predicate StandsAt(row: HostRow, w: Workspace, g: Option<Id>, position: int) {
    row.workspace == w && row.group == g && row.position == position
  }

  /** The statement that puts a row at a place. */
  function RewriteRow(row: HostRow, w: Workspace, g: Option<Id>, position: int): HostRow {
    row.(workspace := w, group := g, position := position, rev := row.rev + 1)
  }

  /** A row at a place: a new revision exactly when its workspace, group or position is new. */
  function PlaceRow(row: HostRow, w: Workspace, g: Option<Id>, position: int): HostRow {
    if StandsAt(row, w, g, position) then row
    else RewriteRow(row, w, g, position)
  }

  /** A row whose id is at this index of an order, once the first `n` of it are renumbered. */
  function RenumberedRow(row: HostRow, index: nat, n: nat, first: int, w: Workspace, g: Option<Id>): HostRow {
    if index < n then PlaceRow(row, w, g, first + index) else row
  }

  /** The hosts with the first `n` of `order` numbered `first`, `first + 1`, … in one bucket. */
  function Renumbered(hosts: map<Id, HostRow>, order: seq<Id>, n: nat, first: int, w: Workspace,
          g: Option<Id>): map<Id, HostRow>
    requires n <= |order|
  {
    map h | h in hosts :: RenumberedRow(hosts[h], IndexOf(order, h), n, first, w, g)
  }

  ghost predicate Distinct(order: seq<Id>) {
    forall i, j :: 0 <= i < j < |order| ==> order[i] != order[j]
  }

  lemma IndexOfAt(order: seq<Id>, i: nat)
    requires Distinct(order) && i < |order|
    ensures IndexOf(order, order[i]) == i
  {
    assert order[i] in order;
  }

  ghost predicate GroupNamesUnique(groups: map<Id, GroupRow>) {
    forall a, b :: a in groups && b in groups && a != b && !groups[a].deleted && !groups[b].deleted ==>
      groups[a].workspace != groups[b].workspace || groups[a].name != groups[b].name
  }

  ghost predicate GroupPositionsDistinct(groups: map<Id, GroupRow>) {
    && (forall a, b :: a in groups && b in groups && a != b && !groups[a].deleted && !groups[b].deleted ==>
          groups[a].workspace != groups[b].workspace || groups[a].position != groups[b].position)
    && (forall a :: a in groups && !groups[a].deleted ==> groups[a].position >= 0)
  }

  /** A grouped live host is in a live group of its own workspace. */
  ghost predicate HostsShareWorkspace(hosts: map<Id, HostRow>, groups: map<Id, GroupRow>) {
    forall h :: h in hosts && !hosts[h].deleted && hosts[h].group.Some? ==>
      LiveGroup(groups, hosts[h].group.value) && groups[hosts[h].group.value].workspace == hosts[h].workspace
  }

  predicate SamePlace(a: HostRow, b: HostRow) {
    a.workspace == b.workspace && a.group == b.group && a.position == b.position
  }

  ghost predicate HostPositionsDistinct(hosts: map<Id, HostRow>) {
    && (forall a, b :: a in hosts && b in hosts && a != b && !hosts[a].deleted && !hosts[b].deleted ==>
          !SamePlace(hosts[a], hosts[b]))
    && (forall a :: a in hosts && !hosts[a].deleted ==> hosts[a].position >= 0)
  }

  ghost predicate InPlace(db: Db) {
    && GroupNamesUnique(db.groups)
    && GroupPositionsDistinct(db.groups)
    && HostsShareWorkspace(db.hosts, db.groups)
    && HostPositionsDistinct(db.hosts)
  }

  /** The live hosts of one bucket, in order. */
  function BucketOrder(db: Db, w: Workspace, g: Option<Id>): seq<Id> {
    Ordered(HostPlaces(db, w, g), db.next)
  }

  predicate BucketMayBe(groups: map<Id, GroupRow>, w: Workspace, g: Option<Id>) {
    g.Some? ==> LiveGroup(groups, g.value) && groups[g.value].workspace == w
  }

  /**
   Renumbering keeps everything in place when, afterwards, nobody else is in the bucket: the
   order lists the bucket's hosts, and whoever joins, each once.
   */
  lemma RenumberKeepsInPlace(db: Db, order: seq<Id>, first: nat, w: Workspace, g: Option<Id>)
    requires InPlace(db) && BucketMayBe(db.groups, w, g) && Distinct(order)
    requires forall h :: h in order ==> LiveHost(db.hosts, h)
    requires forall h :: h in db.hosts && InBucket(db.hosts[h], w, g) && h !in order ==> db.hosts[h].position < first
    ensures InPlace(db.(hosts := Renumbered(db.hosts, order, |order|, first, w, g)))
  {
    var hosts := Renumbered(db.hosts, order, |order|, first, w, g);
    forall a, b | a in hosts && b in hosts && a != b && !hosts[a].deleted && !hosts[b].deleted
      ensures !SamePlace(hosts[a], hosts[b])
    {
      RenumberedApart(db.hosts, order, first, w, g, a, b);
    }
    RenumberedShare(db, order, first, w, g);
  }

  lemma RenumberedShare(db: Db, order: seq<Id>, first: nat, w: Workspace, g: Option<Id>)
    requires InPlace(db) && BucketMayBe(db.groups, w, g)
    ensures var hosts := Renumbered(db.hosts, order, |order|, first, w, g);
            && HostsShareWorkspace(hosts, db.groups)
            && forall a :: a in hosts && !hosts[a].deleted ==> hosts[a].position >= 0
  {
  }

  lemma RenumberedApart(hosts: map<Id, HostRow>, order: seq<Id>, first: nat, w: Workspace, g: Option<Id>, a: Id, b: Id)
    requires HostPositionsDistinct(hosts) && Distinct(order)
    requires a in hosts && b in hosts && a != b && !hosts[a].deleted && !hosts[b].deleted
    requires forall h :: h in hosts && InBucket(hosts[h], w, g) && h !in order ==> hosts[h].position < first
    ensures var t := Renumbered(hosts, order, |order|, first, w, g);
            !SamePlace(t[a], t[b])
  {
    var i, j := IndexOf(order, a), IndexOf(order, b);
    RenumberedAt(hosts, order, first, w, g, a, i);
    RenumberedAt(hosts, order, first, w, g, b, j);
    if i < |order| && j < |order| {
      assert order[i] == a && order[j] == b;
    }
    RowsApart(hosts[a], hosts[b], i, j, |order|, first, w, g);
  }

  /** Two rows of different places and indices, neither in the way of the other's new place. */
  lemma RowsApart(a: HostRow, b: HostRow, i: nat, j: nat, n: nat, first: nat, w: Workspace, g: Option<Id>)
    requires !a.deleted && !b.deleted && !SamePlace(a, b) && (i < n && j < n ==> i != j)
    requires InBucket(a, w, g) && i >= n ==> a.position < first
    requires InBucket(b, w, g) && j >= n ==> b.position < first
    ensures !SamePlace(RenumberedRow(a, i, n, first, w, g), RenumberedRow(b, j, n, first, w, g))
  {
  }

  lemma RenumberedAt(hosts: map<Id, HostRow>, order: seq<Id>, first: nat, w: Workspace, g: Option<Id>, h: Id, i: nat)
    requires h in hosts && i == IndexOf(order, h)
    ensures Renumbered(hosts, order, |order|, first, w, g)[h] == RenumberedRow(hosts[h], i, |order|, first, w, g)
  {
  }

  /** After renumbering a bucket from zero its order is exactly the given one. */
  lemma RenumberedOrder(db: Db, order: seq<Id>, w: Workspace, g: Option<Id>)
    requires Distinct(order)
    requires forall h :: h in order ==> LiveHost(db.hosts, h) && h < db.next
    requires forall h :: h in db.hosts && InBucket(db.hosts[h], w, g) ==> h in order
    ensures var t := db.(hosts := Renumbered(db.hosts, order, |order|, 0, w, g));
            && BucketOrder(t, w, g) == order
            && forall i :: 0 <= i < |order| ==> order[i] in t.hosts && t.hosts[order[i]].position == i
  {
    var t := db.(hosts := Renumbered(db.hosts, order, |order|, 0, w, g));
    var places := HostPlaces(t, w, g);
    forall i | 0 <= i < |order| ensures order[i] in places && places[order[i]] == i {
      assert order[i] in order;
      IndexOfAt(order, i);
    }
    forall x | x in places ensures x in order && places[x] == IndexOf(order, x) {
      assert InBucket(t.hosts[x], w, g);
    }
    assert IsOrder(order, places);
    assert Injective(places);
    OrderedIsOrder(places, db.next);
    OrderIsUnique(Ordered(places, db.next), order, places);
  }

  // ------------------------------------------------------------------ moving one host

  /** The order a moved host ends up in. */
  function MovedOrder(db: Db, h: Id, w: Workspace, g: Option<Id>, before: Option<Id>): seq<Id> {
    InsertBefore(Without(BucketOrder(db, w, g), h), h, before)
  }

  /** The hosts after a drag: the target bucket without the host, with it reinserted, from zero. */
  function MovedHosts(db: Db, h: Id, w: Workspace, g: Option<Id>, before: Option<Id>): map<Id, HostRow> {
    var order := MovedOrder(db, h, w, g, before);
    Renumbered(db.hosts, order, |order|, 0, w, g)
  }

  lemma HostPlacesInjective(db: Db, w: Workspace, g: Option<Id>)
    requires HostPositionsDistinct(db.hosts)
    ensures Injective(HostPlaces(db, w, g))
  {
  }

  lemma MovedOrderIsGood(db: Db, h: Id, w: Workspace, g: Option<Id>, before: Option<Id>)
    requires HostPositionsDistinct(db.hosts) && forall x :: x in db.hosts ==> x < db.next
    requires LiveHost(db.hosts, h)
    ensures var order := MovedOrder(db, h, w, g, before);
            && Distinct(order) && h in order
            && (forall x :: x in order ==> LiveHost(db.hosts, x))
            && (forall x :: x in db.hosts && InBucket(db.hosts[x], w, g) ==> x in order)
            && Without(order, h) == Without(BucketOrder(db, w, g), h)
  {
    var places := HostPlaces(db, w, g);
    HostPlacesInjective(db, w, g);
    OrderedIsOrder(places, db.next);
    var rest := Without(BucketOrder(db, w, g), h);
    WithoutAscending(BucketOrder(db, w, g), places, h);
    WithoutMembers(BucketOrder(db, w, g), h);
    var at := if before.Some? then IndexOf(rest, before.value) else |rest|;
    WithoutInserted(rest, h, at);
    InsertedMembers(rest, h, at);
    assert Distinct(rest) by {
      assert forall i, j :: 0 <= i < j < |rest| ==> At(places, rest[i]) < At(places, rest[j]);
    }
    InsertedDistinct(rest, h, at);
    forall x | x in rest ensures LiveHost(db.hosts, x) {
      assert x in places;
    }
    forall x | x in db.hosts && InBucket(db.hosts[x], w, g) ensures x in rest || x == h {
      assert x in places;
    }
  }

  lemma InsertedMembers(rest: seq<Id>, h: Id, at: nat)
    requires at <= |rest|
    ensures forall x :: x in rest[..at] + [h] + rest[at..] <==> x == h || x in rest
  {
    assert rest == rest[..at] + rest[at..];
  }

  lemma InsertedDistinct(rest: seq<Id>, h: Id, at: nat)
    requires at <= |rest| && h !in rest && Distinct(rest)
    ensures Distinct(rest[..at] + [h] + rest[at..])
  {
    var order := rest[..at] + [h] + rest[at..];
    assert forall i :: 0 <= i < |rest| ==> rest[i] in rest;
    assert forall i :: 0 <= i < |order| ==> order[i] == if i < at then rest[i] else if i == at then h else rest[i - 1];
  }

  lemma {:induction false} WithoutInserted(rest: seq<Id>, h: Id, at: nat)
    requires at <= |rest| && h !in rest
    ensures Without(rest[..at] + [h] + rest[at..], h) == rest
  {
    var order := rest[..at] + [h] + rest[at..];
    if at == 0 {
      assert order[1..] == rest;
      WithoutAbsent(rest, h);
    } else {
      assert order[1..] == rest[1..][..at - 1] + [h] + rest[1..][at - 1..];
      assert rest == [rest[0]] + rest[1..];
      WithoutInserted(rest[1..], h, at - 1);
    }
  }

  lemma {:induction false} WithoutAbsent(order: seq<Id>, h: Id)
    requires h !in order
    ensures Without(order, h) == order
  {
    if order != [] {
      assert order == [order[0]] + order[1..];
      WithoutAbsent(order[1..], h);
    }
  }

  /** A drag keeps everything in place and leaves the bucket in exactly the dragged order. */
  lemma MoveKeepsInPlace(db: Db, h: Id, w: Workspace, g: Option<Id>, before: Option<Id>)
    requires InPlace(db) && BucketMayBe(db.groups, w, g) && LiveHost(db.hosts, h)
    requires forall x :: x in db.hosts ==> x < db.next
    ensures var t := db.(hosts := MovedHosts(db, h, w, g, before));
            && InPlace(t) && InBucket(t.hosts[h], w, g)
            && BucketOrder(t, w, g) == MovedOrder(db, h, w, g, before)
            && var order := BucketOrder(t, w, g);
               forall i :: 0 <= i < |order| ==> order[i] in t.hosts && t.hosts[order[i]].position == i
  {
    MovedOrderIsGood(db, h, w, g, before);
    RenumberKeepsInPlace(db, MovedOrder(db, h, w, g, before), 0, w, g);
    MovedIsThere(db, h, w, g, before);
    MovedLeavesTheOrder(db, h, w, g, before);
  }

  lemma MovedIsThere(db: Db, h: Id, w: Workspace, g: Option<Id>, before: Option<Id>)
    requires LiveHost(db.hosts, h) && h in MovedOrder(db, h, w, g, before)
    ensures InBucket(MovedHosts(db, h, w, g, before)[h], w, g)
  {
  }

  lemma MovedLeavesTheOrder(db: Db, h: Id, w: Workspace, g: Option<Id>, before: Option<Id>)
    requires HostPositionsDistinct(db.hosts) && (forall x :: x in db.hosts ==> x < db.next) && LiveHost(db.hosts, h)
    ensures var t, order := db.(hosts := MovedHosts(db, h, w, g, before)), MovedOrder(db, h, w, g, before);
            && BucketOrder(t, w, g) == order
            && forall i :: 0 <= i < |order| ==> order[i] in t.hosts && t.hosts[order[i]].position == i
  {
    MovedOrderIsGood(db, h, w, g, before);
    RenumberedOrder(db, MovedOrder(db, h, w, g, before), w, g);
  }

  /** The same drag again writes nothing. */
  lemma MoveIsIdempotent(db: Db, h: Id, w: Workspace, g: Option<Id>, before: Option<Id>)
    requires InPlace(db) && BucketMayBe(db.groups, w, g) && LiveHost(db.hosts, h)
    requires forall x :: x in db.hosts ==> x < db.next
    ensures var t := db.(hosts := MovedHosts(db, h, w, g, before));
            MovedHosts(t, h, w, g, before) == t.hosts
  {
    MovedOrderIsGood(db, h, w, g, before);
    MoveKeepsInPlace(db, h, w, g, before);
    var order := MovedOrder(db, h, w, g, before);
    assert MovedOrder(db.(hosts := MovedHosts(db, h, w, g, before)), h, w, g, before) == order;
    RenumberAgain(db.hosts, order, w, g);
  }

  /** A drag changes nothing but places, and bumps a row's revision exactly when its place is new. */
  lemma MoveBumpsWhatMoved(db: Db, h: Id, w: Workspace, g: Option<Id>, before: Option<Id>, x: Id)
    requires x in db.hosts
    ensures var row := MovedHosts(db, h, w, g, before)[x];
            && row == db.hosts[x].(workspace := row.workspace, group := row.group, position := row.position,
                 rev := row.rev)
            && row.rev == db.hosts[x].rev + if SamePlace(row, db.hosts[x]) then 0 else 1
  {
  }

  lemma RenumberAgain(hosts: map<Id, HostRow>, order: seq<Id>, w: Workspace, g: Option<Id>)
    ensures var t := Renumbered(hosts, order, |order|, 0, w, g);
            Renumbered(t, order, |order|, 0, w, g) == t
  {
  }

  lemma RenumberNone(hosts: map<Id, HostRow>, order: seq<Id>, first: int, w: Workspace, g: Option<Id>)
    ensures hosts == Renumbered(hosts, order, 0, first, w, g)
  {
  }

  /** One more row renumbered. */
  lemma RenumberStep(hosts: map<Id, HostRow>, order: seq<Id>, n: nat, first: int, w: Workspace, g: Option<Id>)
    requires Distinct(order) && n < |order| && order[n] in hosts
    ensures Renumbered(hosts, order, n, first, w, g)[order[n]] == hosts[order[n]]
    ensures Renumbered(hosts, order, n + 1, first, w, g)
         == Renumbered(hosts, order, n, first, w, g)[order[n] := PlaceRow(hosts[order[n]], w, g, first + n)]
  {
    var now := Renumbered(hosts, order, n + 1, first, w, g);
    var step := Renumbered(hosts, order, n, first, w, g)[order[n] := PlaceRow(hosts[order[n]], w, g, first + n)];
    IndexOfAt(order, n);
    assert now.Keys == hosts.Keys == step.Keys;
    forall h | h in hosts ensures now[h] == step[h] {
      RenumberStepAt(hosts, order, n, first, w, g, h);
    }
  }

  lemma RenumberStepAt(hosts: map<Id, HostRow>, order: seq<Id>, n: nat, first: int, w: Workspace, g: Option<Id>, h: Id)
    requires Distinct(order) && n < |order| && h in hosts
    ensures Renumbered(hosts, order, n + 1, first, w, g)[h]
         == if h == order[n] then PlaceRow(hosts[h], w, g, first + n) else Renumbered(hosts, order, n, first, w, g)[h]
  {
    OnlyAtItsIndex(order, n, h);
  }

  lemma OnlyAtItsIndex(order: seq<Id>, n: nat, h: Id)
    requires Distinct(order) && n < |order|
    ensures IndexOf(order, h) == n <==> h == order[n]
  {
    IndexOfAt(order, n);
    if IndexOf(order, h) == n {
      assert order[n] == h;
    }
  }

  // ------------------------------------------------------------------ one host at a new place

  lemma NextPositionIsFree(db: Db, w: Workspace, g: Option<Id>)
    requires HostPositionsDistinct(db.hosts) && forall x :: x in db.hosts ==> x < db.next
    ensures NextPosition(db, w, g) >= 0
    ensures forall h :: h in db.hosts && InBucket(db.hosts[h], w, g) ==> db.hosts[h].position < NextPosition(db, w, g)
  {
    var places := HostPlaces(db, w, g);
    assert forall h :: h in db.hosts && InBucket(db.hosts[h], w, g) ==> h in places;
  }

  lemma EnsureGroupKeepsInPlace(db: Db, w: Workspace, name: Option<string>)
    requires InPlace(db) && forall x :: x in db.groups ==> x < db.next
    ensures var (t, g) := EnsureGroupIfAny(db, w, name);
            && InPlace(t) && BucketMayBe(t.groups, w, g)
            && t == db.(groups := t.groups, next := t.next) && db.next <= t.next
            && (forall x :: x in t.groups ==> x < t.next)
            && (g.Some? <==> name.Some?)
            && (g.Some? ==> Named(t.groups[g.value], w, name.value))
            && (forall x :: x in db.groups ==> x in t.groups && t.groups[x] == db.groups[x])
            && (forall x :: x in t.groups && x !in db.groups ==> g == Some(x))
  {
    EnsuredGroupIsNamed(db, w, name);
    if name.Some? && GroupId(db, w, name.value).None? {
      NewGroupKeepsInPlace(db, w, name.value);
    }
  }

  /** The group named is there; at most it is new, and nothing else is. */
  lemma EnsuredGroupIsNamed(db: Db, w: Workspace, name: Option<string>)
    requires forall x :: x in db.groups ==> x < db.next
    ensures var (t, g) := EnsureGroupIfAny(db, w, name);
            && t == db.(groups := t.groups, next := t.next) && db.next <= t.next
            && (forall x :: x in t.groups ==> x < t.next)
            && (g.Some? <==> name.Some?)
            && (g.Some? ==> g.value in t.groups && Named(t.groups[g.value], w, name.value))
            && (forall x :: x in db.groups ==> x in t.groups && t.groups[x] == db.groups[x])
            && (forall x :: x in t.groups && x !in db.groups ==> g == Some(x))
  {
  }

  lemma NewGroupKeepsInPlace(db: Db, w: Workspace, name: string)
    requires InPlace(db) && (forall x :: x in db.groups ==> x < db.next) && GroupId(db, w, name).None?
    ensures InPlace(EnsureGroup(db, w, name).0)
  {
    var (t, g) := EnsureGroup(db, w, name);
    var places := GroupPlaces(db, w);
    forall a, b | a in t.groups && b in t.groups && a != b && !t.groups[a].deleted && !t.groups[b].deleted
      ensures t.groups[a].workspace != t.groups[b].workspace || t.groups[a].name != t.groups[b].name
      ensures t.groups[a].workspace != t.groups[b].workspace || t.groups[a].position != t.groups[b].position
    {
      var other := if a == g then b else a;
      if a == g || b == g {
        assert !Named(db.groups[other], w, name);
        assert db.groups[other].workspace == w ==> other in places;
      }
    }
  }

  /** A live host gets a place: the one it had, or one after everybody in its bucket. */
  lemma PlaceHostKeepsInPlace(db: Db, h: Id, row: HostRow, next: Id)
    requires InPlace(db) && BucketMayBe(db.groups, row.workspace, row.group)
    requires !row.deleted && row.position >= 0
    requires (LiveHost(db.hosts, h) && SamePlace(db.hosts[h], row))
          || forall x :: x in db.hosts && InBucket(db.hosts[x], row.workspace, row.group) ==>
              db.hosts[x].position < row.position
    ensures InPlace(db.(hosts := db.hosts[h := row], next := next))
  {
    var hosts := db.hosts[h := row];
    forall a, b | a in hosts && b in hosts && a != b && !hosts[a].deleted && !hosts[b].deleted
      ensures !SamePlace(hosts[a], hosts[b])
    {
      if a == h {
        assert !LiveHost(db.hosts, h) || !SamePlace(db.hosts[h], db.hosts[b]);
      } else if b == h {
        assert !LiveHost(db.hosts, h) || !SamePlace(db.hosts[a], db.hosts[h]);
      }
    }
  }

  // ------------------------------------------------------------------ whole groups

  function MemberPlaces(db: Db, g: Id): map<Id, int> {
    map h | h in db.hosts && !db.hosts[h].deleted && db.hosts[h].group == Some(g) :: db.hosts[h].position
  }

  /** A group's live hosts, in order. */
  function MemberOrder(db: Db, g: Id): seq<Id> {
    Ordered(MemberPlaces(db, g), db.next)
  }

  /** Every host of one group joins another bucket at its end. */
  function JoinMembers(db: Db, from: Id, w: Workspace, to: Option<Id>): Db {
    db.(hosts := Renumbered(db.hosts, MemberOrder(db, from), |MemberOrder(db, from)|, NextPosition(db, w, to), w, to))
  }

  function TombstoneGroup(db: Db, g: Id): Db {
    if LiveGroup(db.groups, g)
    then db.(groups := db.groups[g := db.groups[g].(deleted := true, rev := db.groups[g].rev + 1)])
    else db
  }

  lemma MemberOrderIsGood(db: Db, from: Id)
    requires InPlace(db) && LiveGroup(db.groups, from) && forall x :: x in db.hosts ==> x < db.next
    ensures Distinct(MemberOrder(db, from)) && IsOrder(MemberOrder(db, from), MemberPlaces(db, from))
    ensures forall h :: h in MemberOrder(db, from) <==> LiveHost(db.hosts, h) && db.hosts[h].group == Some(from)
    ensures MemberOrder(db, from) == BucketOrder(db, db.groups[from].workspace, Some(from))
  {
    var places := MemberPlaces(db, from);
    assert places == HostPlaces(db, db.groups[from].workspace, Some(from));
    HostPlacesInjective(db, db.groups[from].workspace, Some(from));
    OrderedIsOrder(places, db.next);
    var order := MemberOrder(db, from);
    assert forall h :: h in order <==> h in places;
    assert forall i, j :: 0 <= i < j < |order| ==> At(places, order[i]) < At(places, order[j]);
  }

  /** Merging or dissolving a group keeps everything in place. */
  lemma JoinKeepsInPlace(db: Db, from: Id, w: Workspace, to: Option<Id>)
    requires InPlace(db) && LiveGroup(db.groups, from) && forall x :: x in db.hosts ==> x < db.next
    requires BucketMayBe(db.groups, w, to) && to != Some(from)
    ensures InPlace(TombstoneGroup(JoinMembers(db, from, w, to), from))
  {
    MemberOrderIsGood(db, from);
    JoinMembersKeepsInPlace(db, from, w, to);
    var order := MemberOrder(db, from);
    var hosts := Renumbered(db.hosts, order, |order|, NextPosition(db, w, to), w, to);
    forall h | LiveHost(hosts, h) ensures hosts[h].group != Some(from) {
      RenumberedGroup(db.hosts, order, NextPosition(db, w, to), w, to, h);
    }
    TombstoneGroupKeepsInPlace(JoinMembers(db, from, w, to), from);
  }

  lemma JoinMembersKeepsInPlace(db: Db, from: Id, w: Workspace, to: Option<Id>)
    requires InPlace(db) && LiveGroup(db.groups, from) && forall x :: x in db.hosts ==> x < db.next
    requires BucketMayBe(db.groups, w, to)
    ensures InPlace(JoinMembers(db, from, w, to))
  {
    MemberOrderIsGood(db, from);
    NextPositionIsFree(db, w, to);
    RenumberKeepsInPlace(db, MemberOrder(db, from), NextPosition(db, w, to), w, to);
  }

  lemma RenumberedGroup(hosts: map<Id, HostRow>, order: seq<Id>, first: int, w: Workspace, g: Option<Id>, h: Id)
    requires h in hosts
    ensures var row := Renumbered(hosts, order, |order|, first, w, g)[h];
            row.group == (if h in order then g else hosts[h].group) && row.deleted == hosts[h].deleted
  {
  }

  lemma TombstoneGroupKeepsInPlace(db: Db, g: Id)
    requires InPlace(db) && forall h :: LiveHost(db.hosts, h) ==> db.hosts[h].group != Some(g)
    ensures InPlace(TombstoneGroup(db, g))
  {
  }

  /** The bucket they join keeps its order and continues with theirs. */
  lemma JoinedOrder(db: Db, from: Id, w: Workspace, to: Option<Id>)
    requires InPlace(db) && LiveGroup(db.groups, from) && forall x :: x in db.hosts ==> x < db.next
    requires BucketMayBe(db.groups, w, to) && to != Some(from)
    ensures BucketOrder(JoinMembers(db, from, w, to), w, to) == BucketOrder(db, w, to) + MemberOrder(db, from)
  {
    var t := JoinMembers(db, from, w, to);
    var earlier, joined := BucketOrder(db, w, to), MemberOrder(db, from);
    var after := HostPlaces(t, w, to);
    var both := earlier + joined;
    JoinedPlaces(db, from, w, to);
    assert forall x :: x in both <==> x in earlier || x in joined;
    assert IsOrder(both, after) by {
      forall i, j | 0 <= i < j < |both| ensures At(after, both[i]) < At(after, both[j]) {
        if j < |earlier| {
          EarlierAscends(db, w, to, i, j);
        }
      }
    }
    JoinedInjective(both, after);
    OrderedIsOrder(after, t.next);
    OrderIsUnique(Ordered(after, t.next), both, after);
  }

  lemma EarlierAscends(db: Db, w: Workspace, g: Option<Id>, i: nat, j: nat)
    requires HostPositionsDistinct(db.hosts) && (forall x :: x in db.hosts ==> x < db.next)
    requires i < j < |BucketOrder(db, w, g)|
    ensures At(HostPlaces(db, w, g), BucketOrder(db, w, g)[i]) < At(HostPlaces(db, w, g), BucketOrder(db, w, g)[j])
  {
    HostPlacesInjective(db, w, g);
    OrderedIsOrder(HostPlaces(db, w, g), db.next);
  }

  lemma RenumberedPlace(hosts: map<Id, HostRow>, order: seq<Id>, first: int, w: Workspace, g: Option<Id>, i: nat)
    requires Distinct(order) && i < |order| && LiveHost(hosts, order[i])
    ensures var row := Renumbered(hosts, order, |order|, first, w, g)[order[i]];
            InBucket(row, w, g) && row.position == first + i
  {
    IndexOfAt(order, i);
  }

  lemma JoinedPlaces(db: Db, from: Id, w: Workspace, to: Option<Id>)
    requires InPlace(db) && LiveGroup(db.groups, from) && forall x :: x in db.hosts ==> x < db.next
    requires BucketMayBe(db.groups, w, to) && to != Some(from)
    ensures var t := JoinMembers(db, from, w, to);
            var earlier, joined, first := BucketOrder(db, w, to), MemberOrder(db, from), NextPosition(db, w, to);
            && (forall i :: 0 <= i < |joined| ==> At(HostPlaces(t, w, to), joined[i]) == first + i)
            && (forall i :: 0 <= i < |earlier| ==>
                 At(HostPlaces(t, w, to), earlier[i]) == At(HostPlaces(db, w, to), earlier[i]) < first)
            && (forall x :: x in HostPlaces(t, w, to) <==> x in earlier || x in joined)
  {
    MemberOrderIsGood(db, from);
    NextPositionIsFree(db, w, to);
    var t := JoinMembers(db, from, w, to);
    var earlier, joined, first := BucketOrder(db, w, to), MemberOrder(db, from), NextPosition(db, w, to);
    var before, after := HostPlaces(db, w, to), HostPlaces(t, w, to);
    OrderedMembers(before, db.next);
    forall i | 0 <= i < |joined| ensures At(after, joined[i]) == first + i && joined[i] in after {
      assert joined[i] in joined;
      RenumberedPlace(db.hosts, joined, first, w, to, i);
    }
    forall i | 0 <= i < |earlier| ensures earlier[i] in after
           && At(after, earlier[i]) == At(before, earlier[i]) < first {
      assert earlier[i] in earlier;
      assert earlier[i] in before && earlier[i] !in joined;
    }
    forall x | x in after ensures x in earlier || x in joined {
      if x !in joined {
        assert x in before;
      }
    }
  }

  lemma JoinedInjective(order: seq<Id>, places: map<Id, int>)
    requires IsOrder(order, places)
    ensures Injective(places)
  {
    forall x, y | x in places && y in places && x != y ensures places[x] != places[y] {
      assert x in order && y in order;
      var i :| 0 <= i < |order| && order[i] == x;
      var j :| 0 <= j < |order| && order[j] == y;
      assert i < j || j < i;
    }
  }

  // ------------------------------------------------------------------ moving a group

  /** A group and its hosts go to another workspace, with their places. */
  function CrossOver(db: Db, g: Id, w: Workspace): Db
    requires g in db.groups
  {
    db.(groups := db.groups[g := db.groups[g].(workspace := w, rev := db.groups[g].rev + 1)],
        hosts := map h | h in db.hosts ::
          if !db.hosts[h].deleted && db.hosts[h].group == Some(g)
          then db.hosts[h].(workspace := w, rev := db.hosts[h].rev + 1) else db.hosts[h])
  }

  function PlaceGroup(row: GroupRow, position: int): GroupRow {
    if row.position == position then row else row.(position := position, rev := row.rev + 1)
  }

  function RenumberedGroups(groups: map<Id, GroupRow>, order: seq<Id>, n: nat): map<Id, GroupRow>
    requires n <= |order|
  {
    map g | g in groups :: RenumberedGroupRow(groups[g], IndexOf(order, g), n)
  }

  /** A group's row when its id is at this index of an order, once the first `n` of it are renumbered. */
  function RenumberedGroupRow(row: GroupRow, index: nat, n: nat): GroupRow {
    if index < n then PlaceGroup(row, index) else row
  }

  /** One more group renumbered. */
  lemma RenumberGroupStep(groups: map<Id, GroupRow>, order: seq<Id>, n: nat)
    requires Distinct(order) && n < |order| && order[n] in groups
    ensures RenumberedGroups(groups, order, n)[order[n]] == groups[order[n]]
    ensures RenumberedGroups(groups, order, n + 1)
            == RenumberedGroups(groups, order, n)[order[n] := PlaceGroup(groups[order[n]], n)]
  {
    IndexOfAt(order, n);
    forall g | g in groups ensures IndexOf(order, g) < n + 1 <==> IndexOf(order, g) < n || g == order[n] {
      if IndexOf(order, g) == n {
        assert order[n] == g;
      }
    }
    var step := RenumberedGroups(groups, order, n)[order[n] := PlaceGroup(groups[order[n]], n)];
    assert RenumberedGroups(groups, order, n + 1).Keys == step.Keys;
  }

  /** What an order query may return when positions can be tied: each id once, by ascending position. */
  ghost predicate IsListing(listing: seq<Id>, places: map<Id, int>) {
    && (forall x :: x in places <==> x in listing)
    && Distinct(listing)
    && forall i, j :: 0 <= i < j < |listing| ==> At(places, listing[i]) <= At(places, listing[j])
  }

  /** Taking out the one id that may be tied leaves the only order there is, however the tie was broken. */
  lemma ListingWithout(listing: seq<Id>, places: map<Id, int>, from: nat, n: Id)
    requires IsListing(listing, places) && from < |listing|
    requires Injective(places - {listing[from]}) && forall x :: x in places ==> x < n
    ensures listing[..from] + listing[from + 1..] == Ordered(places - {listing[from]}, n)
  {
    var rest := listing[..from] + listing[from + 1..];
    var left := places - {listing[from]};
    TakenOutMembers(listing, places, from);
    forall i, j | 0 <= i < j < |rest| ensures At(left, rest[i]) < At(left, rest[j]) {
      TakenOutAscends(listing, places, from, if i < from then i else i + 1, if j < from then j else j + 1);
    }
    OrderedIsOrder(left, n);
    OrderIsUnique(rest, Ordered(left, n), left);
  }

  lemma TakenOutMembers(listing: seq<Id>, places: map<Id, int>, from: nat)
    requires IsListing(listing, places) && from < |listing|
    ensures forall x :: x in places - {listing[from]} <==> x in listing[..from] + listing[from + 1..]
  {
    var rest := listing[..from] + listing[from + 1..];
    forall x ensures x in listing && x != listing[from] <==> x in rest {
      TakenOutMember(listing, from, x);
    }
  }

  lemma TakenOutMember(listing: seq<Id>, from: nat, x: Id)
    requires from < |listing| && Distinct(listing)
    ensures x in listing && x != listing[from] <==> x in listing[..from] + listing[from + 1..]
  {
    var rest := listing[..from] + listing[from + 1..];
    if x in rest {
      var i :| 0 <= i < |rest| && rest[i] == x;
      assert rest[i] == listing[if i < from then i else i + 1];
    }
    if x in listing && x != listing[from] {
      var i :| 0 <= i < |listing| && listing[i] == x;
      assert rest[if i < from then i else i - 1] == x;
    }
  }

  lemma TakenOutAscends(listing: seq<Id>, places: map<Id, int>, from: nat, i: nat, j: nat)
    requires IsListing(listing, places) && from < |listing| && Injective(places - {listing[from]})
    requires i < j < |listing| && i != from && j != from
    ensures At(places - {listing[from]}, listing[i]) < At(places - {listing[from]}, listing[j])
  {
    var left := places - {listing[from]};
    assert listing[i] in listing && listing[j] in listing;
    assert listing[i] in left && listing[j] in left && left[listing[i]] != left[listing[j]];
  }

  lemma {:induction false} InsertNonDescending(order: seq<Id>, x: Id, places: map<Id, int>)
    requires forall i, j :: 0 <= i < j < |order| ==> At(places, order[i]) <= At(places, order[j])
    requires Distinct(order) && x !in order
    ensures var longer := InsertByPlace(order, x, places);
            Distinct(longer) && forall i, j :: 0 <= i < j < |longer| ==> At(places, longer[i]) <= At(places, longer[j])
  {
    if order != [] && At(places, x) >= At(places, order[0]) {
      var tail := order[1..];
      assert order == [order[0]] + tail;
      InsertNonDescending(tail, x, places);
      InsertMembers(tail, x, places);
      var rest := InsertByPlace(tail, x, places);
      forall i | 0 <= i < |rest| ensures At(places, order[0]) <= At(places, rest[i]) && rest[i] != order[0] {
        assert rest[i] in rest;
        if rest[i] != x {
          var k :| 0 <= k < |tail| && tail[k] == rest[i];
          assert order[k + 1] == rest[i];
        }
      }
    }
  }

  lemma {:induction false} OrderedIsListing(places: map<Id, int>, n: Id)
    ensures var listing := Ordered(places, n);
            Distinct(listing) && forall i, j :: 0 <= i < j < |listing| ==>
                At(places, listing[i]) <= At(places, listing[j])
  {
    if n > 0 {
      OrderedIsListing(places, n - 1);
      OrderedMembers(places, n - 1);
      if n - 1 in places {
        InsertNonDescending(Ordered(places, n - 1), n - 1, places);
      }
    }
  }

  /** The groups of a workspace without one, in order, with it reinserted. */
  function MovedGroupOrder(db: Db, g: Id, w: Workspace, before: Option<Id>): seq<Id> {
    InsertBefore(Ordered(GroupPlaces(db, w) - {g}, db.next), g, before)
  }

  function MovedGroups(db: Db, g: Id, w: Workspace, before: Option<Id>): Db {
    var order := MovedGroupOrder(db, g, w, before);
    db.(groups := RenumberedGroups(db.groups, order, |order|))
  }

  /** Everything in place, except that one group may share its position with another. */
  ghost predicate InPlaceBut(db: Db, g: Id) {
    && GroupNamesUnique(db.groups)
    && HostsShareWorkspace(db.hosts, db.groups)
    && HostPositionsDistinct(db.hosts)
    && (forall a, b :: a != b && LiveGroup(db.groups - {g}, a) && LiveGroup(db.groups - {g}, b) ==>
          db.groups[a].workspace != db.groups[b].workspace || db.groups[a].position != db.groups[b].position)
    && (forall a :: a in db.groups && !db.groups[a].deleted ==> db.groups[a].position >= 0)
  }

  lemma CrossOverKeepsInPlace(db: Db, g: Id, w: Workspace)
    requires InPlace(db) && LiveGroup(db.groups, g)
    requires forall x :: x in db.groups ==> !Named(db.groups[x], w, db.groups[g].name)
    ensures InPlaceBut(CrossOver(db, g, w), g)
  {
    var t := CrossOver(db, g, w);
    forall a, b | a in t.hosts && b in t.hosts && a != b && !t.hosts[a].deleted && !t.hosts[b].deleted
      ensures !SamePlace(t.hosts[a], t.hosts[b])
    {
      assert !SamePlace(db.hosts[a], db.hosts[b]);
      assert db.hosts[a].group == Some(g) ==> db.hosts[a].workspace == db.groups[g].workspace;
      assert db.hosts[b].group == Some(g) ==> db.hosts[b].workspace == db.groups[g].workspace;
    }
  }

  lemma OthersAreApart(db: Db, g: Id, w: Workspace)
    requires InPlaceBut(db, g)
    ensures Injective(GroupPlaces(db, w) - {g})
  {
    var places := GroupPlaces(db, w) - {g};
    forall x, y | x in places && y in places && x != y ensures places[x] != places[y] {
      assert LiveGroup(db.groups - {g}, x) && LiveGroup(db.groups - {g}, y);
    }
  }

  lemma MovedGroupOrderIsGood(db: Db, g: Id, w: Workspace, before: Option<Id>)
    requires InPlaceBut(db, g) && LiveGroup(db.groups, g) && db.groups[g].workspace == w
    requires forall x :: x in db.groups ==> x < db.next
    ensures var order := MovedGroupOrder(db, g, w, before);
            && Distinct(order) && g in order
            && forall x :: x in order <==> LiveGroup(db.groups, x) && db.groups[x].workspace == w
  {
    var places := GroupPlaces(db, w) - {g};
    var rest := Ordered(places, db.next);
    OthersAreApart(db, g, w);
    OrderedIsOrder(places, db.next);
    var at := if before.Some? then IndexOf(rest, before.value) else |rest|;
    InsertedMembers(rest, g, at);
    assert forall i, j :: 0 <= i < j < |rest| ==> At(places, rest[i]) < At(places, rest[j]);
    assert Distinct(rest);
    InsertedDistinct(rest, g, at);
  }

  /** Renumbering the groups after a move leaves their positions distinct: 0, 1, … in the new order. */
  lemma MoveGroupKeepsInPlace(db: Db, g: Id, w: Workspace, before: Option<Id>)
    requires InPlaceBut(db, g) && LiveGroup(db.groups, g) && db.groups[g].workspace == w
    requires forall x :: x in db.groups ==> x < db.next
    ensures var t := MovedGroups(db, g, w, before);
            && InPlace(t)
            && Ordered(GroupPlaces(t, w), t.next) == MovedGroupOrder(db, g, w, before)
  {
    MovedGroupOrderIsGood(db, g, w, before);
    var order := MovedGroupOrder(db, g, w, before);
    var t := MovedGroups(db, g, w, before);
    var places := GroupPlaces(t, w);
    RenumberedGroupPlaces(db, order, w);
    RenumberedGroupsInPlace(db, g, order, w);
    JoinedInjective(order, places);
    OrderedIsOrder(places, t.next);
    OrderIsUnique(Ordered(places, t.next), order, places);
  }

  lemma RenumberedGroupsInPlace(db: Db, g: Id, order: seq<Id>, w: Workspace)
    requires InPlaceBut(db, g) && LiveGroup(db.groups, g) && db.groups[g].workspace == w && Distinct(order)
    requires forall x :: x in order <==> LiveGroup(db.groups, x) && db.groups[x].workspace == w
    ensures InPlace(db.(groups := RenumberedGroups(db.groups, order, |order|)))
  {
    var groups := RenumberedGroups(db.groups, order, |order|);
    forall a, b | a in groups && b in groups && a != b && !groups[a].deleted && !groups[b].deleted
      ensures groups[a].workspace != groups[b].workspace || groups[a].position != groups[b].position
    {
      if a in order && b in order {
        assert order[IndexOf(order, a)] == a && order[IndexOf(order, b)] == b;
      } else if groups[a].workspace == groups[b].workspace {
        assert a !in order && b !in order;
        assert a in db.groups - {g} && b in db.groups - {g};
      }
    }
    RenumberedGroupsKeepNames(db, order);
  }

  lemma RenumberedGroupsKeepNames(db: Db, order: seq<Id>)
    requires GroupNamesUnique(db.groups) && HostsShareWorkspace(db.hosts, db.groups)
    requires forall a :: a in db.groups && !db.groups[a].deleted ==> db.groups[a].position >= 0
    ensures var groups := RenumberedGroups(db.groups, order, |order|);
            && GroupNamesUnique(groups) && HostsShareWorkspace(db.hosts, groups)
            && forall a :: a in groups && !groups[a].deleted ==> groups[a].position >= 0
  {
  }

  lemma RenumberedGroupPlaces(db: Db, order: seq<Id>, w: Workspace)
    requires Distinct(order)
    requires forall x :: x in order <==> LiveGroup(db.groups, x) && db.groups[x].workspace == w
    ensures var t := db.(groups := RenumberedGroups(db.groups, order, |order|));
            && IsOrder(order, GroupPlaces(t, w))
            && forall x :: x in order ==> t.groups[x].position == IndexOf(order, x) && order[IndexOf(order, x)] == x
  {
    var groups := RenumberedGroups(db.groups, order, |order|);
    var places := GroupPlaces(db.(groups := groups), w);
    forall i | 0 <= i < |order| ensures order[i] in places && At(places, order[i]) == i {
      assert order[i] in order;
      RenumberedGroupAt(db.groups, order, i);
    }
  }

  lemma RenumberedGroupAt(groups: map<Id, GroupRow>, order: seq<Id>, i: nat)
    requires Distinct(order) && i < |order| && order[i] in groups
    ensures var row := RenumberedGroups(groups, order, |order|)[order[i]];
            row.position == i && row.workspace == groups[order[i]].workspace && row.deleted == groups[order[i]].deleted
  {
    IndexOfAt(order, i);
  }
}
