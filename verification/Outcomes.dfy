/**
 What the store's transactions leave behind, said of rows alone: where a saved host is and how it
 logs in, what a drag does to an order, what becomes of the hosts of a group that goes.
 */
module Outcomes {
  import opened Wrappers
  import opened StoreRows
  import opened Text
  import opened Drafts
  import opened HostGraph
  import opened Places
  import opened Revisions

  // ------------------------------------------------------------------ places

  /** One past everybody in the bucket, or the first place of an empty one. */
  ghost predicate AtTheEnd(hosts: map<Id, HostRow>, w: Workspace, g: Option<Id>, position: int) {
    && (forall x :: x in hosts && InBucket(hosts[x], w, g) ==> hosts[x].position < position)
    && (position == 0 || exists x :: x in hosts && InBucket(hosts[x], w, g) && hosts[x].position + 1 == position)
  }

  predicate GroupIn(row: GroupRow, w: Workspace) {
    !row.deleted && row.workspace == w
  }

  ghost predicate GroupAtTheEnd(groups: map<Id, GroupRow>, w: Workspace, position: int) {
    && (forall x :: x in groups && GroupIn(groups[x], w) ==> groups[x].position < position)
    && (position == 0 || exists x :: x in groups && GroupIn(groups[x], w) && groups[x].position + 1 == position)
  }

  /**
   `g` is the group of that name as typed, if any was: a live one of the workspace that was
   there, or else the one new record, at the end.
   */
  ghost predicate GroupedAs(before: map<Id, GroupRow>, after: map<Id, GroupRow>, w: Workspace, name: Option<string>,
                            g: Option<Id>) {
    if NoText(name) then g.None? && after == before
    else
      && g.Some? && g.value in after && GroupIn(after[g.value], w) && Trims(name.value, after[g.value].name)
      && if g.value in before then after == before
         else
           && after == before[g.value := after[g.value]]
           && (forall x :: x in before && GroupIn(before[x], w) ==> before[x].name != after[g.value].name)
           && GroupAtTheEnd(before, w, after[g.value].position) && after[g.value].rev == 1
  }

  lemma NextPositionIsTheEnd(db: Db, w: Workspace, g: Option<Id>)
    requires forall x :: x in db.hosts ==> x < db.next
    ensures AtTheEnd(db.hosts, w, g, NextPosition(db, w, g))
  {
    var places, p := HostPlaces(db, w, g), NextPosition(db, w, g);
    assert forall x :: x in db.hosts && InBucket(db.hosts[x], w, g) ==>
             x in places && places[x] == db.hosts[x].position;
    if p != 0 {
      var x :| x in places && places[x] + 1 == p;
    }
  }

  lemma EnsuredGroupIsTheEnd(db: Db, w: Workspace, name: string)
    requires forall x :: x in db.groups ==> x < db.next
    ensures GroupId(db, w, name).None? ==>
              GroupAtTheEnd(db.groups, w, EnsureGroup(db, w, name).0.groups[db.next].position)
  {
    var places, p := GroupPlaces(db, w), PositionAfter(GroupPlaces(db, w), db.next);
    assert forall x :: x in db.groups && GroupIn(db.groups[x], w) ==> x in places && places[x] == db.groups[x].position;
    if p != 0 {
      var x :| x in places && places[x] + 1 == p;
    }
  }

  /** Ensuring a group by its checked name is finding or adding the one of the name as typed. */
  lemma EnsuredGroupIs(db: Db, w: Workspace, text: Option<string>)
    requires GroupName(text).Ok? && forall x :: x in db.groups ==> x < db.next
    ensures var (t, g) := EnsureGroupIfAny(db, w, GroupName(text).value);
            GroupedAs(db.groups, t.groups, w, text, g)
  {
    GroupNameIs(text);
    if !NoText(text) {
      EnsuredGroupIsTheEnd(db, w, GroupName(text).value.value);
    }
  }

  // ------------------------------------------------------------------ drags

  /** `x` stands directly before `target` if that is one of the others of the order, and last otherwise. */
  ghost predicate StandsBefore(order: seq<Id>, x: Id, target: Option<Id>) {
    && x in order
    && if target.Some? && target.value != x && target.value in order
       then IndexOf(order, target.value) == IndexOf(order, x) + 1
       else IndexOf(order, x) == |order| - 1
  }

  lemma InsertedAt(rest: seq<Id>, x: Id, at: nat, y: Id)
    requires at <= |rest| && x !in rest && Distinct(rest) && y in rest
    ensures IndexOf(rest[..at] + [x] + rest[at..], y)
         == IndexOf(rest, y) + (if IndexOf(rest, y) < at then 0 else 1)
  {
    var order, i := rest[..at] + [x] + rest[at..], IndexOf(rest, y);
    InsertedDistinct(rest, x, at);
    IndexOfAt(order, if i < at then i else i + 1);
  }

  lemma InsertedItself(rest: seq<Id>, x: Id, at: nat)
    requires at <= |rest| && x !in rest && Distinct(rest)
    ensures IndexOf(rest[..at] + [x] + rest[at..], x) == at
  {
    InsertedDistinct(rest, x, at);
    IndexOfAt(rest[..at] + [x] + rest[at..], at);
  }

  /** Inserting an id puts it where it was asked to be and leaves the others in their order. */
  lemma InsertedStands(rest: seq<Id>, x: Id, target: Option<Id>)
    requires Distinct(rest) && x !in rest
    ensures StandsBefore(InsertBefore(rest, x, target), x, target)
    ensures forall y, z :: y in rest && z in rest ==>
              (IndexOf(InsertBefore(rest, x, target), y) < IndexOf(InsertBefore(rest, x, target), z)
               <==> IndexOf(rest, y) < IndexOf(rest, z))
  {
    var at := if target.Some? then IndexOf(rest, target.value) else |rest|;
    var order := InsertBefore(rest, x, target);
    InsertedItself(rest, x, at);
    InsertedMembers(rest, x, at);
    forall y | y in rest
      ensures IndexOf(order, y) == IndexOf(rest, y) + (if IndexOf(rest, y) < at then 0 else 1)
    {
      InsertedAt(rest, x, at, y);
    }
  }

  lemma AscendingIndices(order: seq<Id>, places: map<Id, int>, x: Id, y: Id)
    requires Ascending(order, places) && x in order && y in order
    ensures IndexOf(order, x) < IndexOf(order, y) <==> At(places, x) < At(places, y)
  {
    var i, j := IndexOf(order, x), IndexOf(order, y);
    assert order[i] == x && order[j] == y;
  }

  /** Positions start at zero and leave no gap. */
  ghost predicate NoGaps(places: map<Id, int>) {
    forall x :: x in places && places[x] != 0 ==> places[x] > 0 && exists y :: y in places && places[y] + 1 == places[x]
  }

  /** Everybody but `x` is still there, in the same order. */
  ghost predicate OthersInOrder(before: map<Id, int>, after: map<Id, int>, x: Id) {
    && after.Keys == before.Keys + {x}
    && forall y, z :: y in before && z in before && y != x && z != x ==>
         (after[y] < after[z] <==> before[y] < before[z])
  }

  /** `x` is directly before `target` if that is one of the others, and after all of them otherwise. */
  ghost predicate IsBefore(places: map<Id, int>, x: Id, target: Option<Id>) {
    && x in places
    && if target.Some? && target.value != x && target.value in places
       then places[target.value] == places[x] + 1
       else forall y :: y in places && y != x ==> places[y] < places[x]
  }

  /** Numbering an order from zero. */
  ghost predicate Numbers(order: seq<Id>, places: map<Id, int>) {
    (forall x :: x in places <==> x in order) && forall x :: x in order ==> places[x] == IndexOf(order, x)
  }

  lemma NumberedStands(order: seq<Id>, places: map<Id, int>, x: Id, target: Option<Id>)
    requires Distinct(order) && Numbers(order, places) && StandsBefore(order, x, target)
    ensures IsBefore(places, x, target) && NoGaps(places)
  {
    forall y | y in places && places[y] != 0
      ensures places[y] > 0 && exists z :: z in places && places[z] + 1 == places[y]
    {
      var i := IndexOf(order, y);
      IndexOfAt(order, i - 1);
      assert order[i - 1] in order && places[order[i - 1]] + 1 == places[y];
    }
    forall y | y in places && y != x
      ensures IndexOf(order, y) != IndexOf(order, x)
    {
      assert order[IndexOf(order, y)] == y && order[IndexOf(order, x)] == x;
    }
  }

  lemma NumberedPair(rest: seq<Id>, order: seq<Id>, x: Id, target: Option<Id>, y: Id, z: Id, before: map<Id, int>,
                     after: map<Id, int>)
    requires Distinct(rest) && x !in rest && Ascending(rest, before) && y in rest && z in rest
    requires y in before && z in before && y in after && z in after
    requires order == InsertBefore(rest, x, target)
    requires after[y] == IndexOf(order, y) && after[z] == IndexOf(order, z)
    ensures after[y] < after[z] <==> before[y] < before[z]
  {
    InsertedStands(rest, x, target);
    AscendingIndices(rest, before, y, z);
  }

  lemma NumberedInOrder(rest: seq<Id>, order: seq<Id>, x: Id, target: Option<Id>, before: map<Id, int>,
                        after: map<Id, int>)
    requires Distinct(rest) && x !in rest && Ascending(rest, before)
    requires forall y :: y in rest <==> y in before && y != x
    requires order == InsertBefore(rest, x, target) && Numbers(order, after)
    ensures OthersInOrder(before, after, x)
  {
    InsertedMembers(rest, x, if target.Some? then IndexOf(rest, target.value) else |rest|);
    assert forall y :: y in order <==> y == x || y in rest;
    forall y, z | y in before && z in before && y != x && z != x
      ensures after[y] < after[z] <==> before[y] < before[z]
    {
      NumberedPair(rest, order, x, target, y, z, before, after);
    }
  }

  /**
   A host was dragged into a bucket: it stands before the target, or last, the others keep
   their order, places are counted from zero, and nothing but places has changed, a row's
   revision exactly when its place is new.
   */
  ghost predicate HostDragged(before: Db, after: Db, h: Id, w: Workspace, g: Option<Id>, target: Option<Id>) {
    && after == before.(hosts := after.hosts) && after.hosts.Keys == before.hosts.Keys
    && (forall x :: x in before.hosts ==> OnlyPlaced(before.hosts[x], after.hosts[x]))
    && (forall x :: x in before.hosts && x != h && !InBucket(before.hosts[x], w, g) ==>
          after.hosts[x] == before.hosts[x])
    && h in after.hosts && InBucket(after.hosts[h], w, g)
    && OthersInOrder(HostPlaces(before, w, g), HostPlaces(after, w, g), h)
    && NoGaps(HostPlaces(after, w, g)) && IsBefore(HostPlaces(after, w, g), h, target)
  }

  predicate OnlyPlaced(before: HostRow, after: HostRow) {
    && after == before.(workspace := after.workspace, group := after.group, position := after.position,
         rev := after.rev)
    && after.rev == before.rev + if SamePlace(before, after) then 0 else 1
  }

  /** An order in which one id was inserted into the others, numbered from zero. */
  lemma InsertedAndNumbered(rest: seq<Id>, order: seq<Id>, x: Id, target: Option<Id>, before: map<Id, int>,
                            after: map<Id, int>)
    requires Distinct(rest) && x !in rest && Ascending(rest, before)
    requires forall y :: y in rest <==> y in before && y != x
    requires order == InsertBefore(rest, x, target) && Distinct(order) && Numbers(order, after)
    ensures OthersInOrder(before, after, x) && NoGaps(after) && IsBefore(after, x, target)
  {
    InsertedStands(rest, x, target);
    NumberedStands(order, after, x, target);
    NumberedInOrder(rest, order, x, target, before, after);
  }

  lemma OthersOfTheBucket(db: Db, h: Id, w: Workspace, g: Option<Id>, rest: seq<Id>, places: map<Id, int>)
    requires HostPositionsDistinct(db.hosts) && forall x :: x in db.hosts ==> x < db.next
    requires rest == Without(BucketOrder(db, w, g), h) && places == HostPlaces(db, w, g)
    ensures Distinct(rest) && h !in rest && Ascending(rest, places)
    ensures forall y :: y in rest <==> y in places && y != h
  {
    HostPlacesInjective(db, w, g);
    OrderedIsOrder(places, db.next);
    WithoutAscending(BucketOrder(db, w, g), places, h);
    WithoutMembers(BucketOrder(db, w, g), h);
    assert forall i, j :: 0 <= i < j < |rest| ==> At(places, rest[i]) < At(places, rest[j]);
  }

  lemma MovedRows(db: Db, h: Id, w: Workspace, g: Option<Id>, target: Option<Id>)
    requires HostPositionsDistinct(db.hosts) && LiveHost(db.hosts, h) && forall x :: x in db.hosts ==> x < db.next
    ensures var hosts := MovedHosts(db, h, w, g, target);
            && hosts.Keys == db.hosts.Keys
            && (forall x :: x in db.hosts ==> OnlyPlaced(db.hosts[x], hosts[x]))
            && (forall x :: x in db.hosts && x != h && !InBucket(db.hosts[x], w, g) ==> hosts[x] == db.hosts[x])
  {
    var hosts, order := MovedHosts(db, h, w, g, target), MovedOrder(db, h, w, g, target);
    MovedOrderOnlyOf(db, h, w, g, target);
    forall x | x in db.hosts
      ensures OnlyPlaced(db.hosts[x], hosts[x])
      ensures x != h && !InBucket(db.hosts[x], w, g) ==> hosts[x] == db.hosts[x]
    {
      MovedRow(db.hosts, hosts, order, w, g, x);
    }
  }

  lemma MovedOrderOnlyOf(db: Db, h: Id, w: Workspace, g: Option<Id>, target: Option<Id>)
    requires HostPositionsDistinct(db.hosts) && forall x :: x in db.hosts ==> x < db.next
    ensures forall x :: x in MovedOrder(db, h, w, g, target) && x != h ==>
              x in db.hosts && InBucket(db.hosts[x], w, g)
  {
    var rest := Without(BucketOrder(db, w, g), h);
    OthersOfTheBucket(db, h, w, g, rest, HostPlaces(db, w, g));
    InsertedMembers(rest, h, if target.Some? then IndexOf(rest, target.value) else |rest|);
  }

  lemma MovedRow(before: map<Id, HostRow>, after: map<Id, HostRow>, order: seq<Id>, w: Workspace, g: Option<Id>, x: Id)
    requires x in before && after == Renumbered(before, order, |order|, 0, w, g)
    ensures OnlyPlaced(before[x], after[x])
    ensures if x in order then after[x].workspace == w && after[x].group == g && after[x].position == IndexOf(order, x)
            else after[x] == before[x]
  {
    RenumberedAt(before, order, 0, w, g, x, IndexOf(order, x));
  }

  lemma MovedIsDragged(db: Db, h: Id, w: Workspace, g: Option<Id>, target: Option<Id>)
    requires InPlace(db) && BucketMayBe(db.groups, w, g) && LiveHost(db.hosts, h)
    requires forall x :: x in db.hosts ==> x < db.next
    ensures HostDragged(db, db.(hosts := MovedHosts(db, h, w, g, target)), h, w, g, target)
  {
    var t := db.(hosts := MovedHosts(db, h, w, g, target));
    MovedRows(db, h, w, g, target);
    MovedPlaces(db, t, h, w, g, target);
    assert h in HostPlaces(t, w, g);
  }

  lemma MovedPlaces(db: Db, t: Db, h: Id, w: Workspace, g: Option<Id>, target: Option<Id>)
    requires HostPositionsDistinct(db.hosts) && LiveHost(db.hosts, h) && forall x :: x in db.hosts ==> x < db.next
    requires t == db.(hosts := MovedHosts(db, h, w, g, target))
    ensures OthersInOrder(HostPlaces(db, w, g), HostPlaces(t, w, g), h)
    ensures NoGaps(HostPlaces(t, w, g)) && IsBefore(HostPlaces(t, w, g), h, target)
  {
    var rest, order := Without(BucketOrder(db, w, g), h), MovedOrder(db, h, w, g, target);
    OthersOfTheBucket(db, h, w, g, rest, HostPlaces(db, w, g));
    MovedOrderIsGood(db, h, w, g, target);
    MovedNumbers(db, t, order, h, w, g, target);
    InsertedAndNumbered(rest, order, h, target, HostPlaces(db, w, g), HostPlaces(t, w, g));
  }

  lemma MovedNumbers(db: Db, t: Db, order: seq<Id>, h: Id, w: Workspace, g: Option<Id>, target: Option<Id>)
    requires HostPositionsDistinct(db.hosts) && LiveHost(db.hosts, h) && forall x :: x in db.hosts ==> x < db.next
    requires t == db.(hosts := MovedHosts(db, h, w, g, target)) && order == MovedOrder(db, h, w, g, target)
    ensures Numbers(order, HostPlaces(t, w, g))
  {
    MovedOrderIsGood(db, h, w, g, target);
    forall x | x in db.hosts
      ensures x in order ==> InBucket(t.hosts[x], w, g) && t.hosts[x].position == IndexOf(order, x)
      ensures x !in order ==> t.hosts[x] == db.hosts[x]
    {
      MovedRow(db.hosts, t.hosts, order, w, g, x);
    }
  }

  predicate OnlyGroupPlaced(before: GroupRow, after: GroupRow) {
    && after == before.(position := after.position, rev := after.rev)
    && after.rev == before.rev + if before.position == after.position then 0 else 1
  }

  /** The same of a group, among the groups of its workspace. */
  ghost predicate GroupDragged(before: Db, after: Db, g: Id, w: Workspace, target: Option<Id>) {
    && after == before.(groups := after.groups) && after.groups.Keys == before.groups.Keys
    && (forall x :: x in before.groups ==> OnlyGroupPlaced(before.groups[x], after.groups[x]))
    && (forall x :: x in before.groups && !GroupIn(before.groups[x], w) ==> after.groups[x] == before.groups[x])
    && OthersInOrder(GroupPlaces(before, w), GroupPlaces(after, w), g)
    && NoGaps(GroupPlaces(after, w)) && IsBefore(GroupPlaces(after, w), g, target)
  }

  lemma OtherGroups(db: Db, g: Id, w: Workspace, rest: seq<Id>, places: map<Id, int>)
    requires InPlaceBut(db, g) && forall x :: x in db.groups ==> x < db.next
    requires places == GroupPlaces(db, w) && rest == Ordered(places - {g}, db.next)
    ensures Distinct(rest) && g !in rest && Ascending(rest, places)
    ensures forall y :: y in rest <==> y in places && y != g
  {
    OthersAreApart(db, g, w);
    OrderedIsOrder(places - {g}, db.next);
    forall i, j | 0 <= i < j < |rest|
      ensures At(places, rest[i]) < At(places, rest[j])
    {
      assert rest[i] in rest && rest[j] in rest;
      assert At(places - {g}, rest[i]) < At(places - {g}, rest[j]);
    }
  }

  lemma MovedGroupRows(db: Db, g: Id, w: Workspace, target: Option<Id>)
    requires InPlaceBut(db, g) && LiveGroup(db.groups, g) && db.groups[g].workspace == w
    requires forall x :: x in db.groups ==> x < db.next
    ensures var t := MovedGroups(db, g, w, target);
            && t.groups.Keys == db.groups.Keys
            && (forall x :: x in db.groups ==> OnlyGroupPlaced(db.groups[x], t.groups[x]))
            && (forall x :: x in db.groups && !GroupIn(db.groups[x], w) ==> t.groups[x] == db.groups[x])
  {
    var t, order := MovedGroups(db, g, w, target), MovedGroupOrder(db, g, w, target);
    MovedGroupOrderIsGood(db, g, w, target);
    forall x | x in db.groups
      ensures OnlyGroupPlaced(db.groups[x], t.groups[x])
      ensures !GroupIn(db.groups[x], w) ==> t.groups[x] == db.groups[x]
    {
      MovedGroupRow(db.groups, t.groups, order, x);
    }
  }

  lemma MovedGroupRow(before: map<Id, GroupRow>, after: map<Id, GroupRow>, order: seq<Id>, x: Id)
    requires x in before && after == RenumberedGroups(before, order, |order|)
    ensures OnlyGroupPlaced(before[x], after[x]) && (x !in order ==> after[x] == before[x])
  {
  }

  lemma MovedGroupPlaces(db: Db, t: Db, g: Id, w: Workspace, target: Option<Id>)
    requires InPlaceBut(db, g) && LiveGroup(db.groups, g) && db.groups[g].workspace == w
    requires forall x :: x in db.groups ==> x < db.next
    requires t == MovedGroups(db, g, w, target)
    ensures OthersInOrder(GroupPlaces(db, w), GroupPlaces(t, w), g)
    ensures NoGaps(GroupPlaces(t, w)) && IsBefore(GroupPlaces(t, w), g, target)
  {
    var rest, order := Ordered(GroupPlaces(db, w) - {g}, db.next), MovedGroupOrder(db, g, w, target);
    OtherGroups(db, g, w, rest, GroupPlaces(db, w));
    MovedGroupOrderIsGood(db, g, w, target);
    MovedGroupNumbers(db, t, order, g, w, target);
    InsertedAndNumbered(rest, order, g, target, GroupPlaces(db, w), GroupPlaces(t, w));
  }

  lemma MovedGroupNumbers(db: Db, t: Db, order: seq<Id>, g: Id, w: Workspace, target: Option<Id>)
    requires InPlaceBut(db, g) && LiveGroup(db.groups, g) && db.groups[g].workspace == w
    requires forall x :: x in db.groups ==> x < db.next
    requires t == MovedGroups(db, g, w, target) && order == MovedGroupOrder(db, g, w, target)
    ensures Numbers(order, GroupPlaces(t, w))
  {
    MovedGroupOrderIsGood(db, g, w, target);
    RenumberedGroupPlaces(db, order, w);
  }

  lemma MovedGroupIsDragged(db: Db, g: Id, w: Workspace, target: Option<Id>)
    requires InPlaceBut(db, g) && LiveGroup(db.groups, g) && db.groups[g].workspace == w
    requires forall x :: x in db.groups ==> x < db.next
    ensures GroupDragged(db, MovedGroups(db, g, w, target), g, w, target)
  {
    MovedGroupRows(db, g, w, target);
    MovedGroupPlaces(db, MovedGroups(db, g, w, target), g, w, target);
  }

  // ------------------------------------------------------------------ a group that goes

  predicate Member(row: HostRow, g: Id) {
    !row.deleted && row.group == Some(g)
  }

  /** A member's row in its new bucket. */
  predicate Joined(before: HostRow, after: HostRow, w: Workspace, g: Option<Id>) {
    && after == before.(workspace := w, group := g, position := after.position, rev := after.rev)
    && after.rev == before.rev + 1
  }

  /** The first place after everybody in a bucket, or the next one after another member's. */
  ghost predicate NextInLine(before: map<Id, HostRow>, after: map<Id, HostRow>, from: Id, w: Workspace, to: Option<Id>,
                             position: int) {
    || AtTheEnd(before, w, to, position)
    || exists y :: y in before && y in after && Member(before[y], from) && after[y].position + 1 == position
  }

  /**
   The hosts of a group have joined another one, or none, at its end and in their order, and its
   record is a tombstone. Nobody else has changed.
   */
  ghost predicate JoinedInto(before: Db, after: Db, from: Id, w: Workspace, to: Option<Id>) {
    && after == before.(hosts := after.hosts, groups := after.groups) && after.hosts.Keys == before.hosts.Keys
    && from in before.groups
    && after.groups == before.groups[from := before.groups[from].(deleted := true, rev := before.groups[from].rev + 1)]
    && (forall x :: x in before.hosts && !Member(before.hosts[x], from) ==> after.hosts[x] == before.hosts[x])
    && (forall x :: x in before.hosts && Member(before.hosts[x], from) ==>
          Joined(before.hosts[x], after.hosts[x], w, to))
    && JoinedInTurn(before.hosts, after.hosts, from, w, to)
  }

  /** Members follow everybody who was there, without a gap and in the order they had. */
  ghost predicate JoinedInTurn(before: map<Id, HostRow>, after: map<Id, HostRow>, from: Id, w: Workspace,
                               to: Option<Id>)
    requires after.Keys == before.Keys
  {
    && (forall x :: x in before && Member(before[x], from) ==>
          NextInLine(before, after, from, w, to, after[x].position))
    && (forall x, y :: x in before && y in before && Member(before[x], from) && Member(before[y], from) ==>
          (after[x].position < after[y].position <==> before[x].position < before[y].position))
  }

  lemma JoinedRow(db: Db, t: Db, order: seq<Id>, from: Id, first: int, w: Workspace, to: Option<Id>, x: Id)
    requires x in db.hosts && order == MemberOrder(db, from) && first == NextPosition(db, w, to) && to != Some(from)
    requires t == JoinMembers(db, from, w, to) && (x in order <==> Member(db.hosts[x], from))
    ensures x in t.hosts
    ensures Member(db.hosts[x], from) ==>
              Joined(db.hosts[x], t.hosts[x], w, to) && t.hosts[x].position == first + IndexOf(order, x)
    ensures !Member(db.hosts[x], from) ==> t.hosts[x] == db.hosts[x]
  {
  }

  lemma JoinedInLine(db: Db, t: Db, order: seq<Id>, from: Id, w: Workspace, to: Option<Id>, x: Id)
    requires order == MemberOrder(db, from) && t == JoinMembers(db, from, w, to) && to != Some(from)
    requires Distinct(order) && forall y :: y in order <==> y in db.hosts && Member(db.hosts[y], from)
    requires AtTheEnd(db.hosts, w, to, NextPosition(db, w, to))
    requires x in order
    ensures x in t.hosts && NextInLine(db.hosts, t.hosts, from, w, to, t.hosts[x].position)
  {
    JoinedRow(db, t, order, from, NextPosition(db, w, to), w, to, x);
    var i := IndexOf(order, x);
    if i > 0 {
      var y := order[i - 1];
      assert y in order;
      IndexOfAt(order, i - 1);
      JoinedRow(db, t, order, from, NextPosition(db, w, to), w, to, y);
    }
  }

  lemma JoinedKeepOrder(db: Db, t: Db, order: seq<Id>, from: Id, w: Workspace, to: Option<Id>, x: Id, y: Id)
    requires InPlace(db) && LiveGroup(db.groups, from) && forall z :: z in db.hosts ==> z < db.next
    requires order == MemberOrder(db, from) && t == JoinMembers(db, from, w, to) && to != Some(from)
    requires x in db.hosts && Member(db.hosts[x], from) && y in db.hosts && Member(db.hosts[y], from)
    ensures x in t.hosts && y in t.hosts
    ensures t.hosts[x].position < t.hosts[y].position <==> db.hosts[x].position < db.hosts[y].position
  {
    MemberOrderIsGood(db, from);
    JoinedRow(db, t, order, from, NextPosition(db, w, to), w, to, x);
    JoinedRow(db, t, order, from, NextPosition(db, w, to), w, to, y);
    AscendingIndices(order, MemberPlaces(db, from), x, y);
  }

  lemma JoinIsInTurn(db: Db, t: Db, order: seq<Id>, from: Id, w: Workspace, to: Option<Id>)
    requires InPlace(db) && LiveGroup(db.groups, from) && to != Some(from)
    requires forall x :: x in db.hosts ==> x < db.next
    requires order == MemberOrder(db, from) && t == JoinMembers(db, from, w, to)
    ensures t.hosts.Keys == db.hosts.Keys && JoinedInTurn(db.hosts, t.hosts, from, w, to)
  {
    MemberOrderIsGood(db, from);
    NextPositionIsTheEnd(db, w, to);
    forall x | x in db.hosts && Member(db.hosts[x], from)
      ensures NextInLine(db.hosts, t.hosts, from, w, to, t.hosts[x].position)
    {
      JoinedInLine(db, t, order, from, w, to, x);
    }
    forall x, y | x in db.hosts && y in db.hosts && Member(db.hosts[x], from) && Member(db.hosts[y], from)
      ensures t.hosts[x].position < t.hosts[y].position <==> db.hosts[x].position < db.hosts[y].position
    {
      JoinedKeepOrder(db, t, order, from, w, to, x, y);
    }
  }

  lemma JoinIs(db: Db, from: Id, w: Workspace, to: Option<Id>)
    requires InPlace(db) && LiveGroup(db.groups, from) && to != Some(from)
    requires forall x :: x in db.hosts ==> x < db.next
    ensures JoinedInto(db, TombstoneGroup(JoinMembers(db, from, w, to), from), from, w, to)
  {
    var t, order := JoinMembers(db, from, w, to), MemberOrder(db, from);
    MemberOrderIsGood(db, from);
    JoinIsInTurn(db, t, order, from, w, to);
    forall x | x in db.hosts
      ensures Member(db.hosts[x], from) ==> Joined(db.hosts[x], t.hosts[x], w, to)
      ensures !Member(db.hosts[x], from) ==> t.hosts[x] == db.hosts[x]
    {
      JoinedRow(db, t, order, from, NextPosition(db, w, to), w, to, x);
    }
  }

  /** A group and its hosts are in another workspace, at their places; nothing else has changed. */
  ghost predicate CrossedOver(before: Db, after: Db, g: Id, w: Workspace) {
    && after == before.(hosts := after.hosts, groups := after.groups) && after.hosts.Keys == before.hosts.Keys
    && g in before.groups
    && after.groups == before.groups[g := before.groups[g].(workspace := w, rev := before.groups[g].rev + 1)]
    && forall x :: x in before.hosts ==>
         after.hosts[x] == if Member(before.hosts[x], g)
                           then before.hosts[x].(workspace := w, rev := before.hosts[x].rev + 1) else before.hosts[x]
  }

  lemma CrossOverIs(db: Db, g: Id, w: Workspace)
    requires g in db.groups
    ensures CrossedOver(db, CrossOver(db, g, w), g, w)
  {
  }

  // ------------------------------------------------------------------ names of groups

  /** Only the name of one group is new, and its revision. */
  ghost predicate OnlyRenamed(before: Db, after: Db, g: Id) {
    && after == before.(groups := after.groups) && after.groups.Keys == before.groups.Keys && g in before.groups
    && after.groups[g] == before.groups[g].(name := after.groups[g].name, rev := before.groups[g].rev + 1)
    && forall x :: x in before.groups && x != g ==> after.groups[x] == before.groups[x]
  }

  /**
   The group is found under its new name and no longer under the old one: the same record, or
   the one of that name that its hosts have joined.
   */
  ghost predicate Renames(before: Db, after: Db, w: Workspace, from: string, name: string) {
    var g, target := GroupId(before, w, from), GroupId(before, w, name);
    && g.Some? && GroupId(after, w, from).None?
    && if target.Some? then GroupId(after, w, name) == target && JoinedInto(before, after, g.value, w, target)
       else GroupId(after, w, name) == g && OnlyRenamed(before, after, g.value)
  }

  ghost function RenameProblem(db: Db, w: Workspace, from: string, to: string): Option<StoreError> {
    if GroupProblem(Some(to)).Some? then GroupProblem(Some(to))
    else if Blank(to) then Some(Invalid("groupPath", "required"))
    else if !Trims(to, from) && GroupId(db, w, from).None? then Some(Invalid("groupPath", "unknown"))
    else None
  }

  ghost function CreateProblem(db: Db, w: Workspace, name: string): Option<StoreError> {
    if GroupProblem(Some(name)).Some? then GroupProblem(Some(name))
    else if Blank(name) then Some(Invalid("groupPath", "required"))
    else if exists typed :: Trims(name, typed) && GroupId(db, w, typed).Some? then Some(Invalid("groupPath", "exists"))
    else None
  }

  lemma FoundOnce(db: Db, w: Workspace, name: string, g: Id)
    requires GroupNamesUnique(db.groups) && g in db.groups && Named(db.groups[g], w, name)
    requires forall x :: x in db.groups ==> x < db.next
    ensures GroupId(db, w, name) == Some(g)
  {
  }

  lemma FoundNever(db: Db, w: Workspace, name: string)
    requires forall x :: x in db.groups ==> !Named(db.groups[x], w, name)
    ensures GroupId(db, w, name).None?
  {
  }

  lemma NewNameRenames(before: Db, after: Db, w: Workspace, from: string, name: string, g: Id)
    requires GroupNamesUnique(before.groups) && GroupNamesUnique(after.groups) && from != name
    requires forall x :: x in before.groups ==> x < before.next
    requires GroupId(before, w, from) == Some(g) && GroupId(before, w, name).None?
    requires OnlyRenamed(before, after, g) && after.groups[g].name == name
    ensures Renames(before, after, w, from, name)
  {
    FoundOnce(after, w, name, g);
    FoundNever(after, w, from);
  }

  lemma JoiningRenames(before: Db, after: Db, w: Workspace, from: string, name: string, g: Id, target: Id)
    requires GroupNamesUnique(before.groups) && GroupNamesUnique(after.groups) && from != name
    requires forall x :: x in before.groups ==> x < before.next
    requires GroupId(before, w, from) == Some(g) && GroupId(before, w, name) == Some(target)
    requires JoinedInto(before, after, g, w, Some(target))
    ensures Renames(before, after, w, from, name)
  {
    FoundOnce(after, w, name, target);
    FoundNever(after, w, from);
  }

  /** Where a group is before its new place among others is found: there already, merged, or crossed over. */
  ghost predicate ArrivedAs(before: Db, after: Db, g: Id, w: Workspace, arrived: Id) {
    && g in before.groups
    && if before.groups[g].workspace == w then after == before && arrived == g
       else
         var target := GroupId(before, w, before.groups[g].name);
         if target.Some? then arrived == target.value && JoinedInto(before, after, g, w, target)
         else arrived == g && CrossedOver(before, after, g, w)
  }

  // ------------------------------------------------------------------ a saved host

  /** The password a saved host logs in with: as submitted, none, or the one it had. */
  function PasswordSaved(before: Db, d: HostDraft): Option<string> {
    match d.password
    case Set(value) => Some(value)
    case Forget => None
    case Keep => if d.id.Some? then LoginOf(before, d.id.value).password else None
  }

  /** It logs in as typed. */
  ghost predicate LogsInAs(before: Db, login: Login, d: HostDraft) {
    && Trims(d.username, login.username) && login.auth == d.auth
    && (if d.auth.ByKey? && d.key.Some? then login.key.Some? && login.key == RevealKey(before, d.key)
        else login.key.None?)
    && (if d.auth.ByKey? && d.key.None?
        then d.keyPath.Some? && login.keyPath.Some? && Trims(d.keyPath.value, login.keyPath.value)
        else login.keyPath.None?)
    && login.password == PasswordSaved(before, d)
  }

  /** Its row is as typed, and without a name it is called by its address. */
  ghost predicate RowAs(before: Db, row: HostRow, d: HostDraft) {
    && !row.deleted
    && Trims(d.address, row.address) && row.port == d.port
    && (if Blank(d.name) then row.name == row.address else Trims(d.name, row.name))
    && row.workspace == (if d.workspace.Some? then d.workspace.value
                         else if d.id.Some? && d.id.value in before.hosts then before.hosts[d.id.value].workspace
                         else Private)
  }

  /** A host that stays in its bucket keeps its place there, any other one goes to the end. */
  ghost predicate PlacedAs(before: Db, h: Id, row: HostRow) {
    if h in before.hosts && before.hosts[h].workspace == row.workspace && before.hosts[h].group == row.group
    then row.position == before.hosts[h].position
    else AtTheEnd(before.hosts, row.workspace, row.group, row.position)
  }

  /** A draft is saved as it was typed, but for white space around its texts. */
  ghost predicate SavedAs(before: Db, after: Db, h: Id, d: HostDraft) {
    && h in after.hosts && RowAs(before, after.hosts[h], d) && LogsInAs(before, LoginOf(after, h), d)
    && GroupedAs(before.groups, after.groups, after.hosts[h].workspace, d.group, after.hosts[h].group)
    && PlacedAs(before, h, after.hosts[h])
    && (if d.id.Some? then h == d.id.value else h !in before.hosts)
    && (h in before.hosts ==> after.hosts[h].rev > before.hosts[h].rev)
    && after.keys == before.keys
  }

  /** Why a draft is not saved, the first reason there is. */
  ghost function SaveProblem(db: Db, unlocked: bool, d: HostDraft): Option<StoreError> {
    if DraftProblem(d).Some? then DraftProblem(d)
    else if d.password.Set? && !unlocked then Some(VaultLocked)
    else if d.auth.ByKey? && d.key.Some? && !LiveKey(db.keys, d.key.value) then Some(Invalid("keyId", "unknown"))
    else if d.id.Some? && !LiveHost(db.hosts, d.id.value) then Some(UnknownHost(d.id.value))
    else None
  }

  // ------------------------------------------------------------------ keys

  /** The host logs in with the key. */
  predicate UsesKey(db: Db, h: Id, k: Id) {
    LiveHost(db.hosts, h) && LoginOf(db, h).key.Some? && LoginOf(db, h).key.value.key == k
  }

  /** The hosts that keep a key from being deleted are exactly the live ones that log in with it. */
  lemma KeyUsersLogIn(db: Db, k: Id)
    requires Graph(db) && LiveKey(db.keys, k)
    ensures KeyUsers(db, k) == set h | h in db.hosts && UsesKey(db, h, k)
  {
  }

  // ------------------------------------------------------------------ revisions

  lemma DraggedRises(before: Db, after: Db, h: Id, w: Workspace, g: Option<Id>, target: Option<Id>)
    requires HostDragged(before, after, h, w, g, target)
    ensures Rises(before, after)
  {
    forall x: Id
      ensures RowsRise(before, after, x)
    {
      assert x in before.hosts ==> OnlyPlaced(before.hosts[x], after.hosts[x]);
    }
  }

  lemma GroupDraggedRises(before: Db, after: Db, g: Id, w: Workspace, target: Option<Id>)
    requires GroupDragged(before, after, g, w, target)
    ensures Rises(before, after)
  {
    forall x: Id
      ensures RowsRise(before, after, x)
    {
      assert x in before.groups ==> OnlyGroupPlaced(before.groups[x], after.groups[x]);
    }
  }

  lemma JoinedRises(before: Db, after: Db, from: Id, w: Workspace, to: Option<Id>)
    requires JoinedInto(before, after, from, w, to)
    ensures Rises(before, after)
  {
    forall x: Id
      ensures RowsRise(before, after, x)
    {
      assert x in before.hosts && Member(before.hosts[x], from) ==> Joined(before.hosts[x], after.hosts[x], w, to);
    }
  }

  lemma ArrivedRises(before: Db, after: Db, g: Id, w: Workspace, arrived: Id)
    requires ArrivedAs(before, after, g, w, arrived)
    ensures Rises(before, after)
  {
    NothingRises(before);
    var target := GroupId(before, w, before.groups[g].name);
    if before.groups[g].workspace != w && target.Some? {
      JoinedRises(before, after, g, w, target);
    }
  }

  lemma RenamesRises(before: Db, after: Db, w: Workspace, from: string, name: string)
    requires Renames(before, after, w, from, name)
    ensures Rises(before, after)
  {
    var g, target := GroupId(before, w, from).value, GroupId(before, w, name);
    if target.Some? {
      JoinedRises(before, after, g, w, target);
    }
  }
}
