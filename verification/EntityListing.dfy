/** A reinit that goes through forgets the past: its result depends neither on the cache before it
    nor on the order in which the updaters list their keys. */
module EntityListing {
  import opened Common
  import opened OidOrder
  import opened EntityIndex
  import opened EntityCache
  import opened EntityConfluence
  import opened EntityKeys
  import R = EntityRuns

  // ---------------------------------------------------------------- what updaters yet to come own

  function Without(owned: map<Key, seq<nat>>, kinds: set<Kind>): map<Key, seq<nat>> {
    map k | k in owned && k.kind !in kinds :: owned[k]
  }

  /** The cache as if the updaters of these kinds owned nothing. */
  function Strip(c: Cache, kinds: set<Kind>): Cache {
    c.(owned := Without(c.owned, kinds))
  }

  lemma StripOwn(c: Cache, kinds: set<Kind>, k: Key, id: nat)
    requires k.kind !in kinds
    ensures Strip(Own(c, k, id), kinds) == Own(Strip(c, kinds), k, id)
  {
  }

  lemma StripEnter(c: Cache, kinds: set<Kind>, item: Item)
    ensures Strip(Enter(c, item), kinds) == Enter(Strip(c, kinds), item)
  {
    hide SetAll, Insort;
  }

  lemma {:induction false} StripEnterAll(c: Cache, kinds: set<Kind>, k: Key, items: seq<Item>)
    requires k.kind !in kinds
    ensures Strip(EnterAll(c, k, items), kinds) == EnterAll(Strip(c, kinds), k, items)
    decreases |items|
  {
    hide Strip, Own, Enter;
    if items != [] {
      var front, last := items[..|items| - 1], items[|items| - 1];
      StripEnterAll(c, kinds, k, front);
      StripOwn(EnterAll(c, k, front), kinds, k, last.id);
      StripEnter(Own(EnterAll(c, k, front), k, last.id), kinds, last);
    }
  }

  lemma {:induction false} StripCallbacks(c: Cache, kinds: set<Kind>, id: nat, cbs: seq<Callback>)
    requires FanUpdater !in kinds
    ensures Strip(RunCallbacks(c, id, cbs), kinds) == RunCallbacks(Strip(c, kinds), id, cbs)
    decreases |cbs|
  {
    hide Strip, EnterAll, FanItems;
    if cbs != [] {
      var front, cb := cbs[..|cbs| - 1], cbs[|cbs| - 1];
      StripCallbacks(c, kinds, id, front);
      StripEnterAll(RunCallbacks(c, id, front), kinds, Key(FanUpdater, cb.fan), FanItems(id, cb));
    }
  }

  lemma StripRegister(c: Cache, kinds: set<Kind>, name: string, id: nat)
    requires FanUpdater in kinds ==> c.pending == map[]
    ensures Strip(Register(c, name, id), kinds) == Register(Strip(c, kinds), name, id)
  {
    hide RunCallbacks, Without;
    if name in c.pending { StripCallbacks(c.(nameToOid := c.nameToOid[name := id]), kinds, id, c.pending[name]); }
  }

  lemma StripEnterNamed(c: Cache, kinds: set<Kind>, k: Key, id: nat, before: Settings, parent: string, after: Settings,
                        sensors: seq<Item>)
    requires k.kind !in kinds && (FanUpdater in kinds ==> c.pending == map[])
    ensures var s := EnterNamed(c, k, id, before, parent, after, sensors);
      EnterNamed(Strip(c, kinds), k, id, before, parent, after, sensors) == Step(Strip(s.cache, kinds), s.ok)
  {
    hide Register, SetAll, EnterAll, Insort, Without;
    StripOwn(c, kinds, k, id);
    StripRegister(Own(c, k, id), kinds, k.name, id);
    var c1 := Enter(Register(Own(c, k, id), k.name, id), Item(id, before));
    StripEnter(Register(Own(c, k, id), k.name, id), kinds, Item(id, before));
    if parent in c1.nameToOid {
      StripEnterAll(c1.(attrs := SetAll(c1.attrs, id, [(ContainedIn, Int(c1.nameToOid[parent]))] + after)), kinds, k,
                    sensors);
    }
  }

  lemma {:induction false} StripRemoveSubIds(c: Cache, kinds: set<Kind>, ids: seq<nat>)
    ensures Strip(RemoveSubIds(c, ids), kinds) == RemoveSubIds(Strip(c, kinds), ids)
    decreases |ids|
  {
    hide Without, RemoveFirst;
    if ids != [] { StripRemoveSubIds(c, kinds, ids[..|ids| - 1]); }
  }

  lemma StripRemove(c: Cache, kinds: set<Kind>, k: Key)
    requires k.kind !in kinds
    ensures Strip(RemoveEntity(c, k), kinds) == RemoveEntity(Strip(c, kinds), k)
  {
    hide RemoveSubIds;
    if k in c.owned {
      StripRemoveSubIds(c, kinds, c.owned[k]);
      R.RemoveSubIdsOwners(c, c.owned[k]);
      assert Without(c.owned - {k}, kinds) == Without(c.owned, kinds) - {k};
    }
  }

  /** An update neither reads nor changes what the updaters of other kinds own, unless it runs
      callbacks of fans. */
  lemma StripUpdate(c: Cache, kinds: set<Kind>, db: Db, k: Key)
    requires k.kind !in kinds && (FanUpdater in kinds ==> c.pending == map[])
    ensures var s := UpdateEntity(c, db, k);
      UpdateEntity(Strip(c, kinds), db, k) == Step(Strip(s.cache, kinds), s.ok)
  {
    hide EnterAll, EnterNamed, RemoveEntity, FanItems, XcvrItems, PsuSensors, PsuSettings, ThermalItem, DrawerSettings,
      DrawerDetails, Without;
    StripRemove(c, kinds, k);
    var name := k.name;
    match k.kind
    case XcvrUpdater =>
      if name in db.ifindex && name in db.xcvr {
        StripEnterAll(c, kinds, k, XcvrItems(db.ifindex[name], name, db.xcvr[name]));
      }
    case PsuUpdater =>
      if name in db.psu && name in db.relation && db.relation[name].position.Some? {
        var (position, info) := (db.relation[name].position.value, db.psu[name]);
        StripEnterNamed(c, kinds, k, PsuId(position), PsuSettings(name, position, info), db.relation[name].parent,
                        [(Fru, FruOf(info.removable))], PsuSensors(PsuId(position), name, info));
      }
    case DrawerUpdater =>
      if name in db.drawer && name in db.relation && db.relation[name].position.Some? {
        var (position, info) := (db.relation[name].position.value, db.drawer[name]);
        StripEnterNamed(c, kinds, k, FanDrawerId(position), DrawerSettings(name, position), db.relation[name].parent,
                        DrawerDetails(info), []);
      }
    case FanUpdater =>
      if name in db.fan && name in db.relation && db.relation[name].position.Some? {
        var cb := Callback(db.relation[name].parent, db.relation[name].position.value, name, db.fan[name]);
        if cb.parent in c.nameToOid { StripEnterAll(c, kinds, k, FanItems(c.nameToOid[cb.parent], cb)); }
      }
    case ThermalUpdater =>
      if name in db.thermal && name in db.relation && db.relation[name].position.Some? {
        StripEnterAll(c, kinds, k, [ThermalItem(db.relation[name].position.value, name, db.thermal[name])]);
      }
  }

  lemma {:induction false} StripRefill(c: Cache, kinds: set<Kind>, db: Db, keys: seq<Key>)
    requires forall i :: 0 <= i < |keys| ==> keys[i].kind !in kinds
    requires FanUpdater in kinds ==> c.pending == map[]
    ensures var s := Refill(c, db, keys);
      Refill(Strip(c, kinds), db, keys) == Step(Strip(s.cache, kinds), s.ok) &&
      (FanUpdater in kinds ==> s.cache.pending == map[])
    decreases |keys|
  {
    hide UpdateEntity, Strip;
    if keys != [] {
      StripUpdate(c, kinds, db, keys[0]);
      R.UpdateOthers(c, db, keys[0]);
      if UpdateEntity(c, db, keys[0]).ok { StripRefill(UpdateEntity(c, db, keys[0]).cache, kinds, db, keys[1..]); }
    }
  }

  // ---------------------------------------------------------------- all turns as one list of keys

  ghost predicate AllListed(l: Listing) {
    forall kind: Kind :: l.Of(kind).Lists?
  }

  /** The keys in the order in which a reinit goes through them. */
  function KeysOfTurns(l: Listing, kinds: seq<Kind>): seq<Key> {
    if kinds == [] then []
    else
      (if l.Of(kinds[0]).Lists? then KeysFor(kinds[0], l.Of(kinds[0]).names) else []) + KeysOfTurns(l, kinds[1..])
  }

  lemma {:induction false} RefillAppend(c: Cache, db: Db, a: seq<Key>, b: seq<Key>)
    ensures Refill(c, db, a + b) ==
            if Refill(c, db, a).ok then Refill(Refill(c, db, a).cache, db, b) else Refill(c, db, a)
    decreases |a|
  {
    hide UpdateEntity;
    if a == [] {
      assert a + b == b;
    } else {
      assert (a + b)[1..] == a[1..] + b;
      if UpdateEntity(c, db, a[0]).ok { RefillAppend(UpdateEntity(c, db, a[0]).cache, db, a[1..], b); }
    }
  }

  /** If going through all keys from a cache in which the updaters own nothing raises nowhere,
      the turns come to the same, whatever the updaters owned. */
  lemma {:induction false} TurnsAreRefill(s: Step, db: Db, l: Listing, kinds: seq<Kind>)
    requires AllListed(l) && R.Once(kinds) && (FanUpdater in kinds ==> s.cache.pending == map[])
    requires Refill(Strip(s.cache, set kind | kind in kinds), db, KeysOfTurns(l, kinds)).ok
    ensures TakeTurns(s, db, l, kinds) ==
            Step(Refill(Strip(s.cache, set kind | kind in kinds), db, KeysOfTurns(l, kinds)).cache, s.ok)
    decreases |kinds|
  {
    hide Refill, Disown, Without;
    if kinds == [] {
      StripNothing(s.cache);
      RefillNothing(s.cache, db);
      assert (set kind | kind in kinds) == {};
    } else {
      var kind, rest := kinds[0], kinds[1..];
      assert kinds == [kind] + rest;
      var stale, later := set k | k in kinds, set k | k in rest;
      assert kind !in rest;
      assert stale == {kind} + later;
      var keys := KeysFor(kind, l.Of(kind).names);
      var c := s.cache.(owned := Disown(s.cache.owned, kind));
      assert Strip(c, later) == Strip(s.cache, stale) by { StripDisowned(s.cache.owned, kind, later); }
      StripRefill(c, later, db, keys);
      RefillAppend(Strip(c, later), db, keys, KeysOfTurns(l, rest));
      var r := TakeTurn(s.cache, db, kind, l.Of(kind));
      TurnsAreRefill(Step(r.cache, s.ok && r.ok), db, l, rest);
    }
  }

  lemma StripNothing(c: Cache)
    ensures Strip(c, {}) == c
  {
    assert Without(c.owned, {}) == c.owned;
  }

  lemma RefillNothing(c: Cache, db: Db)
    ensures Refill(c, db, []) == Step(c, true)
  {
  }

  lemma StripDisowned(owned: map<Key, seq<nat>>, kind: Kind, later: set<Kind>)
    ensures Without(Disown(owned, kind), later) == Without(owned, {kind} + later)
  {
  }

  /** Whatever was there before, a reinit ends as if all keys were handled in turn from the state
      it starts the updaters from, no updater owning anything, if that raises nowhere. */
  lemma ReinitIsRefill(c: Cache, db: Db, l: Listing)
    requires AllListed(l) && Refill(Reset(db, map[]), db, KeysOfTurns(l, UPDATERS)).ok
    ensures Reinit(c, db, l) == Refill(Reset(db, map[]), db, KeysOfTurns(l, UPDATERS))
  {
    hide Refill, AllListed;
    var kinds := set kind | kind in UPDATERS;
    assert Strip(Reset(db, c.owned), kinds) == Reset(db, map[]) by {
      forall k | k in c.owned ensures k.kind in kinds { R.AllUpdaters(k.kind); }
      assert Without(c.owned, kinds) == map[];
      ResetStrips(db, c.owned, kinds);
    }
    hide Strip, Reset, KeysOfTurns;
    ResetPending(db, c.owned);
    TurnsAreRefill(Step(Reset(db, c.owned), true), db, l, UPDATERS);
  }

  lemma ResetStrips(db: Db, owned: map<Key, seq<nat>>, kinds: set<Kind>)
    ensures Strip(Reset(db, owned), kinds) == Reset(db, Without(owned, kinds))
  {
    hide SetAll, Insort, Without;
  }

  lemma ResetPending(db: Db, owned: map<Key, seq<nat>>)
    ensures Reset(db, owned).pending == map[]
  {
  }

  // ---------------------------------------------------------------- the order of the lists

  /** The listings agree up to order, and no key is listed twice. */
  ghost predicate Reordered(l: Listing, l': Listing) {
    && AllListed(l) && AllListed(l')
    && forall kind: Kind ::
         && (forall n :: n in l.Of(kind).names <==> n in l'.Of(kind).names)
         && NoRepeats(l.Of(kind).names) && NoRepeats(l'.Of(kind).names)
  }

  ghost predicate NoRepeats(names: seq<string>) {
    forall i, j :: 0 <= i < j < |names| ==> names[i] != names[j]
  }

  lemma {:induction false} TurnsHold(l: Listing, kinds: seq<Kind>, k: Key)
    requires AllListed(l)
    ensures k in KeysOfTurns(l, kinds) <==> k.kind in kinds && k.name in l.Of(k.kind).names
  {
    if kinds != [] {
      TurnsHold(l, kinds[1..], k);
      KeysForHold(kinds[0], l.Of(kinds[0]).names, k);
      assert kinds == [kinds[0]] + kinds[1..];
    }
  }

  lemma KeysForHold(kind: Kind, names: seq<string>, k: Key)
    ensures k in KeysFor(kind, names) <==> k.kind == kind && k.name in names
  {
    var keys := KeysFor(kind, names);
    if k.kind == kind && k.name in names {
      var i :| 0 <= i < |names| && names[i] == k.name;
      assert keys[i] == k;
    }
  }

  lemma {:induction false} TurnsDistinct(l: Listing, kinds: seq<Kind>)
    requires AllListed(l) && R.Once(kinds) && forall kind: Kind :: NoRepeats(l.Of(kind).names)
    ensures Distinct(KeysOfTurns(l, kinds))
  {
    if kinds != [] {
      var kind, rest := kinds[0], kinds[1..];
      TurnsDistinct(l, rest);
      var a, b := KeysFor(kind, l.Of(kind).names), KeysOfTurns(l, rest);
      assert NoRepeats(l.Of(kind).names);
      assert kind !in rest;
      forall k | k in a ensures k !in b {
        KeysForHold(kind, l.Of(kind).names, k);
        TurnsHold(l, rest, k);
      }
      DistinctAppend(a, b);
    }
  }

  lemma DistinctAppend(a: seq<Key>, b: seq<Key>)
    requires Distinct(a) && Distinct(b) && forall k :: k in a ==> k !in b
    ensures Distinct(a + b)
  {
    forall i, j | 0 <= i < j < |a + b| ensures (a + b)[i] != (a + b)[j] {
      if i < |a| && j >= |a| { assert a[i] in a && b[j - |a|] in b; }
    }
  }

  /** Two reinits from the same database, from any two caches and with the keys listed in any two
      orders, end in the same cache, if the listed keys are independent. */
  lemma ReinitForgets(c: Cache, c': Cache, db: Db, l: Listing, l': Listing)
    requires Reordered(l, l') && Independent(db, Reset(db, map[]), KeySet(KeysOfTurns(l, UPDATERS)))
    ensures Reinit(c, db, l).ok && Reinit(c', db, l').ok
    ensures SameButClashes(db, Reset(db, map[]), KeySet(KeysOfTurns(l, UPDATERS)), Reinit(c, db, l).cache,
                           Reinit(c', db, l').cache)
  {
    hide Reset, Reinit, Refill, Independent, SameButClashes, KeysOfTurns;
    var keys, keys' := KeysOfTurns(l, UPDATERS), KeysOfTurns(l', UPDATERS);
    forall k ensures k in keys <==> k in keys' {
      TurnsHold(l, UPDATERS, k);
      TurnsHold(l', UPDATERS, k);
    }
    TurnsDistinct(l, UPDATERS);
    TurnsDistinct(l', UPDATERS);
    assert KeySet(keys') == KeySet(keys);
    IndependentConfluence(db, Reset(db, map[]), keys, keys');
    ReinitIsRefill(c, db, l);
    ReinitIsRefill(c', db, l');
  }
}
