/** What a del message removes, point by point, and that it undoes the set message before it. */
module EntityUndo {
  import opened Common
  import opened OidOrder
  import opened EntityIndex
  import opened EntityCache
  import opened EntityTheory
  import opened EntityConfluence

  /** The names the indexes have in the cache. */
  function NamesOf(c: Cache, ids: seq<nat>): set<string> {
    set id | id in ids && (Name, id) in c.attrs && c.attrs[(Name, id)].Str? :: c.attrs[(Name, id)].s
  }

  /** Removing the indexes from `c` gives `r`: all their attributes but descriptions are gone,
      and so is what stood under their names in the name map and among the waiting callbacks;
      nothing else has changed. */
  ghost predicate Removed(c: Cache, ids: seq<nat>, r: Cache) {
    && (forall a: (Field, nat) :: Lookup(r.attrs, a) == if a.1 in ids && !a.0.Descr? then None else Lookup(c.attrs, a))
    && r.nameToOid == c.nameToOid - NamesOf(c, ids)
    && r.pending == c.pending - NamesOf(c, ids)
    && r.owned == c.owned
  }

  lemma {:induction false} RemovalExact(c: Cache, ids: seq<nat>)
    ensures Removed(c, ids, RemoveSubIds(c, ids))
    decreases |ids|
  {
    hide RemoveOne, Removed;
    if ids == [] {
      RemovedNone(c);
    } else {
      var front, last := ids[..|ids| - 1], ids[|ids| - 1];
      RemovalExact(c, front);
      RemoveOneExact(RemoveSubIds(c, front), last);
      RemovedOneMore(c, front, RemoveSubIds(c, front), last, RemoveSubIds(c, ids));
      assert ids == front + [last];
    }
  }

  lemma RemovedNone(c: Cache)
    ensures Removed(c, [], c)
  {
    assert NamesOf(c, []) == {};
  }

  lemma RemovedOneMore(c: Cache, front: seq<nat>, r: Cache, last: nat, r': Cache)
    requires Removed(c, front, r) && Removed(r, [last], r')
    ensures Removed(c, front + [last], r')
  {
    hide NamesOf;
    NamesSplit(c, front, r, last);
    var names, more := NamesOf(c, front), NamesOf(r, [last]);
    assert c.nameToOid - names - more == c.nameToOid - (names + more);
    assert c.pending - names - more == c.pending - (names + more);
    forall a: (Field, nat) ensures
      Lookup(r'.attrs, a) == if a.1 in front + [last] && !a.0.Descr? then None else Lookup(c.attrs, a) { }
  }

  lemma NamesSplit(c: Cache, front: seq<nat>, r: Cache, last: nat)
    requires Removed(c, front, r)
    ensures NamesOf(c, front + [last]) == NamesOf(c, front) + NamesOf(r, [last])
  {
    assert Lookup(r.attrs, (Name, last)) == if last in front then None else Lookup(c.attrs, (Name, last));
    forall id ensures id in front + [last] <==> id in front || id == last { }
  }

  lemma RemoveOneExact(c: Cache, id: nat)
    ensures Removed(c, [id], RemoveOne(c, id))
  {
    if (Name, id) in c.attrs && c.attrs[(Name, id)].Str? {
      assert NamesOf(c, [id]) == {c.attrs[(Name, id)].s};
    } else {
      assert NamesOf(c, [id]) == {};
    }
  }

  // ---------------------------------------------------------------- entering, then removing

  /** No attribute is set for any of the indexes. */
  ghost predicate Unused(c: Cache, ids: seq<nat>) {
    forall f, id :: id in ids ==> (f, id) !in c.attrs
  }

  /** The caches agree except for descriptions. */
  ghost predicate SameButDescriptions(c: Cache, d: Cache) {
    && c.entities == d.entities && c.owned == d.owned && c.nameToOid == d.nameToOid && c.pending == d.pending
    && forall a: (Field, nat) :: !a.0.Descr? ==> Lookup(c.attrs, a) == Lookup(d.attrs, a)
  }

  lemma EntitiesRestored(c: Cache, k: Key, items: seq<Item>)
    requires Sorted(c.entities)
    ensures RemoveSubIds(EnterAll(c, k, items), IdsOf(items)).entities == c.entities
  {
    hide Sorted, EnterAll, RemoveSubIds, Tuples, CountIn, IdsOf;
    var d := EnterAll(c, k, items);
    EnterAllEntities(c, k, items);
    RemoveSubIdsRemoves(d, IdsOf(items));
    var r := RemoveSubIds(d, IdsOf(items)).entities;
    forall x ensures multiset(r)[x] == multiset(c.entities)[x] { TuplesCount(items, x); }
    assert multiset(r) == multiset(c.entities);
    SortedUnique(r, c.entities);
  }

  lemma AttrsRestored(c: Cache, k: Key, items: seq<Item>, a: (Field, nat))
    requires Unused(c, IdsOf(items)) && !a.0.Descr?
    ensures Lookup(RemoveSubIds(EnterAll(c, k, items), IdsOf(items)).attrs, a) == Lookup(c.attrs, a)
  {
    hide EnterAll, RemoveSubIds, AttrsOf;
    RemovalExact(EnterAll(c, k, items), IdsOf(items));
    EnterAllAttrs(c, k, items);
    AttrsOfOver(c.attrs, map[], items);
    assert c.attrs + map[] == c.attrs;
    if a in AttrsOf(map[], items) {
      AttrsElsewhere(items, a);
      var i :| 0 <= i < |items| && items[i].id == a.1;
      assert IdsOf(items)[i] == a.1;
    }
  }

  /** Removing a key right after its items were entered restores the cache, but for
      descriptions and for whatever stood under the items' names. */
  lemma EnterThenRemove(c: Cache, k: Key, items: seq<Item>)
    requires Sorted(c.entities) && k !in c.owned && Unused(c, IdsOf(items))
    ensures var d := EnterAll(c, k, items);
      var names := NamesOf(d, IdsOf(items));
      SameButDescriptions(RemoveEntity(d, k), c.(nameToOid := c.nameToOid - names, pending := c.pending - names))
  {
    hide EnterAll, RemoveSubIds, Sorted, NamesOf, Unused, IdsOf;
    var d := EnterAll(c, k, items);
    EnterAllOwned(c, k, items);
    EnterAllKeepNames(c, k, items);
    if items == [] {
      assert d == c by { NothingToRemove(c, k); }
      assert NamesOf(d, IdsOf(items)) == {} by { NoNames(d); }
      assert c.nameToOid - {} == c.nameToOid && c.pending - {} == c.pending;
    } else {
      var ids := IdsOf(items);
      assert d.owned[k] == ids by { assert [] + ids == ids; }
      RemovalExact(d, ids);
      EntitiesRestored(c, k, items);
      assert d.owned - {k} == c.owned;
      forall a: (Field, nat) | !a.0.Descr? ensures Lookup(RemoveSubIds(d, ids).attrs, a) == Lookup(c.attrs, a) {
        AttrsRestored(c, k, items, a);
      }
    }
  }

  lemma NoNames(c: Cache)
    ensures NamesOf(c, IdsOf([])) == {}
  {
  }

  // ---------------------------------------------------------------- set, then del

  /** What is set last for a field stays. */
  lemma {:induction false} SetAllGet(attrs: Attrs, id: nat, s: Settings, i: nat)
    requires i < |s| && forall j :: i < j < |s| ==> s[j].0 != s[i].0
    ensures Lookup(SetAll(attrs, id, s), (s[i].0, id)) == Some(s[i].1)
    decreases |s|
  {
    if i < |s| - 1 { SetAllGet(attrs, id, s[..|s| - 1], i); }
  }

  lemma {:induction false} SetAllOther(attrs: Attrs, id: nat, s: Settings, a: (Field, nat))
    requires a.1 != id
    ensures Lookup(SetAll(attrs, id, s), a) == Lookup(attrs, a)
  {
    if s != [] { SetAllOther(attrs, id, s[..|s| - 1], a); }
  }

  /** The name an item gets: the last one set for it, no other item having its index. */
  ghost predicate FirstIsCalled(items: seq<Item>, name: string) {
    && items != [] && (forall i :: 1 <= i < |items| ==> items[i].id != items[0].id)
    && exists i :: 0 <= i < |items[0].settings| && items[0].settings[i] == (Name, Str(name)) &&
         forall j :: i < j < |items[0].settings| ==> items[0].settings[j].0 != Name
  }

  lemma {:induction false} FirstName(items: seq<Item>, name: string)
    requires FirstIsCalled(items, name)
    ensures Lookup(AttrsOf(map[], items), (Name, items[0].id)) == Some(Str(name))
    decreases |items|
  {
    hide SetAll;
    var front, last := items[..|items| - 1], items[|items| - 1];
    if front == [] {
      var i :| 0 <= i < |last.settings| && last.settings[i] == (Name, Str(name)) &&
        forall j :: i < j < |last.settings| ==> last.settings[j].0 != Name;
      SetAllGet(map[], last.id, last.settings, i);
    } else {
      assert front[0] == items[0];
      FirstName(front, name);
      SetAllOther(AttrsOf(map[], front), last.id, last.settings, (Name, items[0].id));
    }
  }

  /** A PSU or drawer nobody waits for: its name is registered, then its items are entered. */
  lemma NamedEnters(c: Cache, k: Key, id: nat, before: Settings, parent: string, after: Settings, sensors: seq<Item>)
    returns (parentId: nat)
    requires !k.kind.FanUpdater? && k.name !in c.pending && EnterNamed(c, k, id, before, parent, after, sensors).ok
    ensures EnterNamed(c, k, id, before, parent, after, sensors).cache ==
            EnterAll(c.(nameToOid := c.nameToOid[k.name := id]), k, [NamedItem(id, before, parentId, after)] + sensors)
  {
    hide EnterAll, Own, SetAll, Insort, RunCallbacks;
    RegisterNames(c, k.name, id);
    OwnKeeps(c, k, id);
    RegisterNames(Own(c, k, id), k.name, id);
    parentId := Register(c, k.name, id).nameToOid[parent];
    EnterNamedIsRegisterThenEnter(c, k, id, before, parent, after, sensors);
  }

  /** What is set before the parent names the item if nothing after it does. */
  lemma NamedFirst(id: nat, before: Settings, parentId: nat, after: Settings, sensors: seq<Item>, name: string)
    requires |before| > 2 && before[2] == (Name, Str(name))
    requires forall j :: 2 < j < |before| ==> before[j].0 != Name
    requires forall j :: 0 <= j < |after| ==> after[j].0 != Name
    requires forall i :: 0 <= i < |sensors| ==> sensors[i].id != id
    ensures FirstIsCalled([NamedItem(id, before, parentId, after)] + sensors, name)
  {
    var items := [NamedItem(id, before, parentId, after)] + sensors;
    var s := items[0].settings;
    assert s[2] == before[2];
    forall i | 1 <= i < |items| ensures items[i].id != items[0].id {
      assert items[i] == sensors[i - 1];
    }
    forall j | 2 < j < |s| ensures s[j].0 != Name {
      if j < |before| {
        assert s[j] == before[j];
      } else if j > |before| {
        assert s[j] == after[j - |before| - 1];
      }
    }
  }

  /** What a set message about a new key enters, and the index it registers its name with. */
  ghost predicate Enters(c: Cache, d: Cache, k: Key, named: Option<nat>, items: seq<Item>) {
    if named.None? then d == EnterAll(c, k, items)
    else d == EnterAll(c.(nameToOid := c.nameToOid[k.name := named.value]), k, items) && FirstIsCalled(items, k.name)
  }

  lemma MessageEnters(c: Cache, db: Db, k: Key) returns (named: Option<nat>, items: seq<Item>)
    requires k !in c.owned && k.name !in c.pending
    requires UpdateEntity(c, db, k).ok && k in UpdateEntity(c, db, k).cache.owned
    ensures Enters(c, UpdateEntity(c, db, k).cache, k, named, items)
  {
    hide EnterAll, RemoveEntity, EnterNamed, XcvrItems, FanItems, Enters;
    named, items := None, [];
    NothingToRemove(c, k);
    var name := k.name;
    match k.kind
    case XcvrUpdater => items := XcvrItems(db.ifindex[name], name, db.xcvr[name]); EntersPlain(c, k, items);
    case FanUpdater =>
      var cb := Callback(db.relation[name].parent, db.relation[name].position.value, name, db.fan[name]);
      items := FanItems(c.nameToOid[cb.parent], cb);
      EntersPlain(c, k, items);
    case ThermalUpdater =>
      items := [ThermalItem(db.relation[name].position.value, name, db.thermal[name])];
      EntersPlain(c, k, items);
    case PsuUpdater => named, items := PsuEnters(c, db, k);
    case DrawerUpdater => named, items := DrawerEnters(c, db, k);
  }

  lemma EntersPlain(c: Cache, k: Key, items: seq<Item>)
    ensures Enters(c, EnterAll(c, k, items), k, None, items)
  {
  }

  lemma PsuEnters(c: Cache, db: Db, k: Key) returns (named: Option<nat>, items: seq<Item>)
    requires k.kind.PsuUpdater? && k !in c.owned && k.name !in c.pending
    requires UpdatePsu(c, db, k.name).ok && k in UpdatePsu(c, db, k.name).cache.owned
    ensures Enters(c, UpdatePsu(c, db, k.name).cache, k, named, items)
  {
    hide EnterAll, RemoveEntity, EnterNamed, PsuSensors, NamedItem, FirstIsCalled;
    NothingToRemove(c, k);
    var name := k.name;
    var (position, info) := (db.relation[name].position.value, db.psu[name]);
    var id, before, after := PsuId(position), PsuSettings(name, position, info), [(Fru, FruOf(info.removable))];
    var sensors := PsuSensors(id, name, info);
    var parentId := NamedEnters(c, k, id, before, db.relation[name].parent, after, sensors);
    SensorsApart(id, name, info);
    NamedFirst(id, before, parentId, after, sensors, name);
    named, items := Some(id), [NamedItem(id, before, parentId, after)] + sensors;
  }

  lemma SensorsApart(psu: nat, name: string, info: PsuInfo)
    ensures forall i :: 0 <= i < |PsuSensors(psu, name, info)| ==> PsuSensors(psu, name, info)[i].id != psu
  {
  }

  lemma DrawerEnters(c: Cache, db: Db, k: Key) returns (named: Option<nat>, items: seq<Item>)
    requires k.kind.DrawerUpdater? && k !in c.owned && k.name !in c.pending
    requires UpdateDrawer(c, db, k.name).ok && k in UpdateDrawer(c, db, k.name).cache.owned
    ensures Enters(c, UpdateDrawer(c, db, k.name).cache, k, named, items)
  {
    hide EnterAll, RemoveEntity, EnterNamed, NamedItem, FirstIsCalled;
    NothingToRemove(c, k);
    var name := k.name;
    var (position, info) := (db.relation[name].position.value, db.drawer[name]);
    var id, before, after := FanDrawerId(position), DrawerSettings(name, position), DrawerDetails(info);
    var parentId := NamedEnters(c, k, id, before, db.relation[name].parent, after, []);
    NamedFirst(id, before, parentId, after, [], name);
    named, items := Some(id), [NamedItem(id, before, parentId, after)] + [];
  }

  /** A del message right after the set message of a new entity restores the cache, except
      that descriptions stay: whatever the entity is, if its indexes had no attributes, none of
      its names was taken, and it was not a fan that only left a callback. */
  lemma DelUndoesSet(c: Cache, db: Db, k: Key)
    requires Sorted(c.entities) && k !in c.owned && k.name !in c.pending
    requires UpdateEntity(c, db, k).ok && k in UpdateEntity(c, db, k).cache.owned
    requires var d := UpdateEntity(c, db, k).cache;
      Unused(c, d.owned[k]) && forall n :: n in NamesOf(d, d.owned[k]) ==> n !in c.nameToOid && n !in c.pending
    ensures SameButDescriptions(HandleMessage(UpdateEntity(c, db, k).cache, db, DelMsg(k)).cache, c)
  {
    hide UpdateEntity, RemoveEntity, EnterAll, Sorted, Unused, FirstIsCalled;
    var d := UpdateEntity(c, db, k).cache;
    var named, items := MessageEnters(c, db, k);
    var base := if named.None? then c else c.(nameToOid := c.nameToOid[k.name := named.value]);
    EnterAllOwned(base, k, items);
    assert d.owned[k] == IdsOf(items) by { assert [] + IdsOf(items) == IdsOf(items); }
    assert Unused(base, IdsOf(items)) by { UnusedSame(c, base, IdsOf(items)); }
    EnterThenRemove(base, k, items);
    var names := NamesOf(d, IdsOf(items));
    if named.Some? { NameAmong(base, k, items); }
    assert base.nameToOid - names == c.nameToOid;
    assert base.pending - names == c.pending;
  }

  lemma UnusedSame(c: Cache, d: Cache, ids: seq<nat>)
    requires Unused(c, ids) && c.attrs == d.attrs
    ensures Unused(d, ids)
  {
  }

  lemma NameAmong(c: Cache, k: Key, items: seq<Item>)
    requires FirstIsCalled(items, k.name)
    ensures k.name in NamesOf(EnterAll(c, k, items), IdsOf(items))
  {
    hide EnterAll, AttrsOf;
    EnterAllAttrs(c, k, items);
    AttrsOfOver(c.attrs, map[], items);
    assert c.attrs + map[] == c.attrs;
    FirstName(items, k.name);
    assert IdsOf(items)[0] == items[0].id;
  }
}
