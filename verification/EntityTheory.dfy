/** What updates of the entity cache keep: the sorted list holds exactly the chassis, its
    management node and what the updaters own. */
module EntityTheory {
  import opened Common
  import opened OidOrder
  import opened EntityIndex
  import opened EntityCache

  /** The sub-ids as they stand in the list, with multiplicity. */
  ghost function Tuples(ids: seq<nat>): multiset<Oid> {
    if ids == [] then multiset{} else Tuples(ids[..|ids| - 1]) + multiset{[ids[|ids| - 1]]}
  }

  lemma TuplesAppend(ids: seq<nat>, id: nat)
    ensures Tuples(ids + [id]) == Tuples(ids) + multiset{[id]}
  {
    assert (ids + [id])[..|ids|] == ids;
  }

  lemma {:induction false} TuplesHold(ids: seq<nat>, id: nat)
    ensures [id] in Tuples(ids) <==> id in ids
  {
    if ids != [] {
      TuplesHold(ids[..|ids| - 1], id);
      assert ids == ids[..|ids| - 1] + [ids[|ids| - 1]];
      assert [id] == [ids[|ids| - 1]] ==> [id][0] == [ids[|ids| - 1]][0];
    }
  }

  /** Everything the updaters own, with multiplicity. */
  ghost function Total(owned: map<Key, seq<nat>>): multiset<Oid>
    decreases |owned|
  {
    if owned == map[] then multiset{}
    else
      var k :| k in owned;
      Tuples(owned[k]) + Total(owned - {k})
  }

  lemma {:induction false} TotalSplit(owned: map<Key, seq<nat>>, k: Key)
    requires k in owned
    ensures Total(owned) == Tuples(owned[k]) + Total(owned - {k})
    decreases |owned|
  {
    hide Tuples;
    var l :| l in owned && Total(owned) == Tuples(owned[l]) + Total(owned - {l});
    if l != k {
      TotalSplit(owned - {l}, k);
      TotalSplit(owned - {k}, l);
      assert owned - {l} - {k} == owned - {k} - {l};
    }
  }

  lemma TotalUpdate(owned: map<Key, seq<nat>>, k: Key, ids: seq<nat>)
    ensures Total(owned[k := ids]) == Tuples(ids) + Total(owned - {k})
  {
    hide Tuples, Total;
    TotalSplit(owned[k := ids], k);
    assert owned[k := ids] - {k} == owned - {k};
  }

  lemma TotalOwn(owned: map<Key, seq<nat>>, k: Key, id: nat)
    ensures Total(owned[k := (if k in owned then owned[k] else []) + [id]]) == Total(owned) + multiset{[id]}
  {
    hide Total;
    var was := if k in owned then owned[k] else [];
    TuplesAppend(was, id);
    TotalUpdate(owned, k, was + [id]);
    if k in owned { TotalSplit(owned, k); } else { assert owned - {k} == owned; }
  }

  /** The list is sorted and, together with what is still missing from it, holds the two
      fixed nodes and everything owned. */
  ghost predicate Balanced(c: Cache, missing: multiset<Oid>) {
    && Sorted(c.entities)
    && multiset(c.entities) + missing == multiset{[CHASSIS_SUB_ID], [CHASSIS_MGMT_SUB_ID]} + Total(c.owned)
  }

  ghost predicate Conserved(c: Cache) {
    Balanced(c, multiset{})
  }

  lemma Shift(a: multiset<Oid>, b: multiset<Oid>, c: multiset<Oid>, d: multiset<Oid>, x: multiset<Oid>)
    ensures a + b == c + d ==> a + (b + x) == c + (d + x)
    ensures a == c + (x + d) ==> a - x == c + d
    ensures a + multiset{} == a
  {
    if a + b == c + d { assert a + (b + x) == (a + b) + x == c + (d + x); }
    if a == c + (x + d) { assert a == (c + d) + x; }
    assert a + multiset{} == a;
  }

  lemma OwnBalanced(c: Cache, missing: multiset<Oid>, k: Key, id: nat)
    requires Balanced(c, missing)
    ensures Balanced(Own(c, k, id), missing + multiset{[id]})
  {
    hide Total, Sorted;
    TotalOwn(c.owned, k, id);
    Shift(multiset(c.entities), missing, multiset{[CHASSIS_SUB_ID], [CHASSIS_MGMT_SUB_ID]}, Total(c.owned),
      multiset{[id]});
  }

  lemma EnterBalanced(c: Cache, missing: multiset<Oid>, item: Item)
    requires Balanced(c, missing + multiset{[item.id]})
    ensures Balanced(Enter(c, item), missing)
  {
    InsortKeepsSorted(c.entities, [item.id]);
  }

  lemma {:induction false} EnterAllBalanced(c: Cache, missing: multiset<Oid>, k: Key, items: seq<Item>)
    requires Balanced(c, missing)
    ensures Balanced(EnterAll(c, k, items), missing)
    decreases |items|
  {
    if items != [] {
      var last := items[|items| - 1];
      var c1 := EnterAll(c, k, items[..|items| - 1]);
      EnterAllBalanced(c, missing, k, items[..|items| - 1]);
      OwnBalanced(c1, missing, k, last.id);
      EnterBalanced(Own(c1, k, last.id), missing, last);
    }
  }

  lemma {:induction false} CallbacksBalanced(c: Cache, missing: multiset<Oid>, id: nat, cbs: seq<Callback>)
    requires Balanced(c, missing)
    ensures Balanced(RunCallbacks(c, id, cbs), missing)
    decreases |cbs|
  {
    if cbs != [] {
      var cb := cbs[|cbs| - 1];
      CallbacksBalanced(c, missing, id, cbs[..|cbs| - 1]);
      EnterAllBalanced(RunCallbacks(c, id, cbs[..|cbs| - 1]), missing, Key(FanUpdater, cb.fan), FanItems(id, cb));
    }
  }

  lemma RegisterBalanced(c: Cache, missing: multiset<Oid>, name: string, id: nat)
    requires Balanced(c, missing)
    ensures Balanced(Register(c, name, id), missing)
  {
    if name in c.pending { CallbacksBalanced(c.(nameToOid := c.nameToOid[name := id]), missing, id, c.pending[name]); }
  }

  /** Whether or not the parent is known. */
  lemma EnterNamedBalanced(c: Cache, missing: multiset<Oid>, k: Key, id: nat, before: Settings, parent: string,
                           after: Settings, sensors: seq<Item>)
    requires Balanced(c, missing)
    ensures Balanced(EnterNamed(c, k, id, before, parent, after, sensors).cache, missing)
  {
    hide SetAll, Total, Register, EnterAll;
    OwnBalanced(c, missing, k, id);
    var c1 := Register(Own(c, k, id), k.name, id);
    RegisterBalanced(Own(c, k, id), missing + multiset{[id]}, k.name, id);
    EnterBalanced(c1, missing, Item(id, before));
    var c2 := Enter(c1, Item(id, before));
    if parent in c2.nameToOid {
      var c3 := c2.(attrs := SetAll(c2.attrs, id, [(ContainedIn, Int(c2.nameToOid[parent]))] + after));
      EnterAllBalanced(c3, missing, k, sensors);
    }
  }

  // ---------------------------------------------------------------- removal

  lemma {:induction false} RemoveFirstCounts(s: seq<Oid>, x: Oid)
    ensures multiset(RemoveFirst(s, x)) == multiset(s) - multiset{x}
    ensures forall y :: y in RemoveFirst(s, x) ==> y in s
  {
    if s != [] {
      assert s == [s[0]] + s[1..];
      if s[0] != x { RemoveFirstCounts(s[1..], x); }
    }
  }

  lemma {:induction false} RemoveFirstSorted(s: seq<Oid>, x: Oid)
    requires Sorted(s)
    ensures Sorted(RemoveFirst(s, x))
  {
    hide Less;
    if s != [] && s[0] != x {
      RemoveFirstSorted(s[1..], x);
      RemoveFirstCounts(s[1..], x);
      var r := RemoveFirst(s[1..], x);
      forall j | 0 <= j < |r| ensures AtMost(s[0], r[j]) {
        assert r[j] in s[1..];
        var l :| 0 <= l < |s[1..]| && s[1..][l] == r[j];
        assert AtMost(s[0], s[l + 1]);
      }
    }
  }

  lemma {:induction false} RemoveSubIdsRemoves(c: Cache, ids: seq<nat>)
    requires Sorted(c.entities)
    ensures Sorted(RemoveSubIds(c, ids).entities)
    ensures multiset(RemoveSubIds(c, ids).entities) == multiset(c.entities) - Tuples(ids)
    ensures RemoveSubIds(c, ids).owned == c.owned
    decreases |ids|
  {
    hide Sorted;
    if ids != [] {
      var front, last := ids[..|ids| - 1], ids[|ids| - 1];
      RemoveSubIdsRemoves(c, front);
      RemoveOneRemoves(RemoveSubIds(c, front), last);
    }
  }

  lemma RemoveOneRemoves(c: Cache, id: nat)
    requires Sorted(c.entities)
    ensures Sorted(RemoveOne(c, id).entities)
    ensures multiset(RemoveOne(c, id).entities) == multiset(c.entities) - multiset{[id]}
    ensures RemoveOne(c, id).owned == c.owned
  {
    hide Sorted, RemoveFirst;
    RemoveFirstCounts(c.entities, [id]);
    RemoveFirstSorted(c.entities, [id]);
  }

  /** If what is missing from the list is owned under other keys. */
  lemma RemoveBalanced(c: Cache, missing: multiset<Oid>, k: Key)
    requires Balanced(c, missing) && missing <= Total(c.owned - {k})
    ensures Balanced(RemoveEntity(c, k), missing)
    ensures k in c.owned ==> multiset(RemoveEntity(c, k).entities) == multiset(c.entities) - Tuples(c.owned[k])
  {
    hide Tuples, Total, RemoveSubIds;
    if k in c.owned {
      RemoveSubIdsRemoves(c, c.owned[k]);
      TotalSplit(c.owned, k);
      Drop(multiset(c.entities), missing, multiset{[CHASSIS_SUB_ID], [CHASSIS_MGMT_SUB_ID]}, Tuples(c.owned[k]),
           Total(c.owned - {k}));
    }
  }

  lemma Drop(e: multiset<Oid>, missing: multiset<Oid>, base: multiset<Oid>, gone: multiset<Oid>, rest: multiset<Oid>)
    requires e + missing == base + (gone + rest) && missing <= rest
    ensures e - gone + missing == base + rest
  {
    forall x ensures (e - gone + missing)[x] == (base + rest)[x] {
      assert (e + missing)[x] == (base + (gone + rest))[x];
    }
  }

  // ---------------------------------------------------------------- updates

  lemma UpdateBalanced(c: Cache, missing: multiset<Oid>, db: Db, k: Key)
    requires Balanced(c, missing) && missing <= Total(c.owned - {k})
    ensures Balanced(UpdateEntity(c, db, k).cache, missing)
  {
    hide Balanced, EnterAll, EnterNamed, RemoveEntity, FanItems, XcvrItems, PsuSensors, PsuSettings, ThermalItem;
    RemoveBalanced(c, missing, k);
    var name := k.name;
    match k.kind
    case XcvrUpdater =>
      if name in db.ifindex && name in db.xcvr {
        EnterAllBalanced(c, missing, k, XcvrItems(db.ifindex[name], name, db.xcvr[name]));
      }
    case PsuUpdater =>
      if name in db.psu && name in db.relation && db.relation[name].position.Some? {
        var (position, info) := (db.relation[name].position.value, db.psu[name]);
        EnterNamedBalanced(c, missing, k, PsuId(position), PsuSettings(name, position, info), db.relation[name].parent,
                           [(Fru, FruOf(info.removable))], PsuSensors(PsuId(position), name, info));
      }
    case DrawerUpdater =>
      if name in db.drawer && name in db.relation && db.relation[name].position.Some? {
        var (position, info) := (db.relation[name].position.value, db.drawer[name]);
        EnterNamedBalanced(c, missing, k, FanDrawerId(position), DrawerSettings(name, position),
          db.relation[name].parent,
          DrawerDetails(info), []);
      }
    case FanUpdater =>
      if name in db.fan && name in db.relation && db.relation[name].position.Some? {
        var cb := Callback(db.relation[name].parent, db.relation[name].position.value, name, db.fan[name]);
        if cb.parent in c.nameToOid { EnterAllBalanced(c, missing, k, FanItems(c.nameToOid[cb.parent], cb)); }
        DeferBalanced(c, missing, cb);
      }
    case ThermalUpdater =>
      if name in db.thermal && name in db.relation && db.relation[name].position.Some? {
        EnterAllBalanced(c, missing, k, [ThermalItem(db.relation[name].position.value, name, db.thermal[name])]);
      }
  }

  lemma DeferBalanced(c: Cache, missing: multiset<Oid>, cb: Callback)
    requires Balanced(c, missing)
    ensures Balanced(Defer(c, cb), missing)
  {
  }

  ghost predicate Owned(owned: map<Key, seq<nat>>, id: nat) {
    exists k :: k in owned && id in owned[k]
  }

  lemma {:induction false} TotalHolds(owned: map<Key, seq<nat>>, id: nat)
    ensures [id] in Total(owned) <==> Owned(owned, id)
    decreases |owned|
  {
    if owned != map[] {
      hide Tuples;
      var k :| k in owned && Total(owned) == Tuples(owned[k]) + Total(owned - {k});
      TotalHolds(owned - {k}, id);
      TuplesHold(owned[k], id);
      assert forall l :: l in owned && l != k ==> l in owned - {k} && (owned - {k})[l] == owned[l];
    }
  }

  /** The list has an index if and only if it is one of the fixed nodes or some key owns it. */
  lemma ListedIffOwned(c: Cache, id: nat)
    requires Conserved(c)
    ensures [id] in c.entities <==> id == CHASSIS_SUB_ID || id == CHASSIS_MGMT_SUB_ID || Owned(c.owned, id)
  {
    hide Total, Sorted, Owned;
    TotalHolds(c.owned, id);
    assert [id] in c.entities <==> [id] in multiset(c.entities) + multiset{};
    assert [id] == [CHASSIS_SUB_ID] || [id] == [CHASSIS_MGMT_SUB_ID] ==>
      [id][0] in {CHASSIS_SUB_ID, CHASSIS_MGMT_SUB_ID};
  }

  /** Only `k` owns the index, and it is not one of the fixed nodes. */
  ghost predicate OwnedOnlyBy(c: Cache, k: Key, id: nat) {
    k in c.owned && id in c.owned[k] && id != CHASSIS_SUB_ID && id != CHASSIS_MGMT_SUB_ID &&
    forall l :: l in c.owned && l != k ==> id !in c.owned[l]
  }

  /** After a del message an index only that entity owned is not returned by GetNext. */
  lemma DeletedIsGone(c: Cache, db: Db, k: Key, id: nat, subId: Oid)
    requires Conserved(c) && OwnedOnlyBy(c, k, id)
    ensures NextEntity(HandleMessage(c, db, DelMsg(k)).cache, subId) != Some([id])
  {
    hide Total, Tuples, Less, RemoveOne, Balanced;
    var c' := RemoveEntity(c, k);
    RemoveBalanced(c, multiset{}, k);
    RemoveSubIdsRemoves(c, c.owned[k]) by { SortedList(c); }
    ListedIffOwned(c', id);
    SortedList(c');
    NextInIsNext(c'.entities, subId);
  }

  lemma SortedList(c: Cache)
    requires Conserved(c)
    ensures Sorted(c.entities)
  {
  }
}
