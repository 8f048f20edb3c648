/** The entity cache over whole runs of reinits and messages. */
module EntityRuns {
  import opened Common
  import opened OidOrder
  import opened EntityIndex
  import opened EntityCache
  import opened EntityTheory
  import C = EntityConfluence

  // ---------------------------------------------------------------- who owns what

  /** Of the keys of other updaters nothing has changed. */
  ghost predicate OthersKept(c: Cache, d: Cache, kinds: set<Kind>) {
    forall k: Key :: k.kind !in kinds ==> Lookup(c.owned, k) == Lookup(d.owned, k)
  }

  lemma EnterAllOthers(c: Cache, k: Key, items: seq<Item>)
    ensures OthersKept(c, EnterAll(c, k, items), {k.kind})
  {
    C.EnterAllOwned(c, k, items);
  }

  lemma {:induction false} CallbacksOthers(c: Cache, id: nat, cbs: seq<Callback>)
    ensures OthersKept(c, RunCallbacks(c, id, cbs), {FanUpdater})
  {
    if cbs != [] {
      hide EnterAll, FanItems;
      var front, cb := cbs[..|cbs| - 1], cbs[|cbs| - 1];
      CallbacksOthers(c, id, front);
      EnterAllOthers(RunCallbacks(c, id, front), Key(FanUpdater, cb.fan), FanItems(id, cb));
    }
  }

  /** The updaters an update can touch: its own and, if callbacks wait, the one of fans. */
  function Touched(c: Cache, kind: Kind): set<Kind> {
    {kind} + if c.pending == map[] then {} else {FanUpdater}
  }

  lemma EnterNamedOthers(c: Cache, k: Key, id: nat, before: Settings, parent: string, after: Settings,
                         sensors: seq<Item>)
    ensures OthersKept(c, EnterNamed(c, k, id, before, parent, after, sensors).cache, Touched(c, k.kind))
    ensures c.pending == map[] ==> EnterNamed(c, k, id, before, parent, after, sensors).cache.pending == map[]
  {
    hide EnterAll, SetAll, Insort, RunCallbacks;
    var c1 := Own(c, k, id);
    var c2 := c1.(nameToOid := c1.nameToOid[k.name := id]);
    if k.name in c2.pending { CallbacksOthers(c2, id, c2.pending[k.name]); }
    C.RegisterNames(c1, k.name, id);
    var c4 := Enter(Register(c1, k.name, id), Item(id, before));
    if parent in c4.nameToOid {
      var c5 := c4.(attrs := SetAll(c4.attrs, id, [(ContainedIn, Int(c4.nameToOid[parent]))] + after));
      EnterAllOthers(c5, k, sensors);
      C.EnterAllKeepNames(c5, k, sensors);
    }
  }

  lemma RemoveOthers(c: Cache, k: Key)
    ensures OthersKept(c, RemoveEntity(c, k), {k.kind})
    ensures RemoveEntity(c, k).pending.Keys <= c.pending.Keys
  {
    hide RemoveSubIds;
    if k in c.owned { RemoveSubIdsOwners(c, c.owned[k]); }
  }

  lemma {:induction false} RemoveSubIdsOwners(c: Cache, ids: seq<nat>)
    ensures RemoveSubIds(c, ids).owned == c.owned && RemoveSubIds(c, ids).pending.Keys <= c.pending.Keys
  {
    if ids != [] { RemoveSubIdsOwners(c, ids[..|ids| - 1]); }
  }

  /** An update touches no other updater's keys, and only the one of fans defers callbacks. */
  lemma UpdateOthers(c: Cache, db: Db, k: Key)
    ensures OthersKept(c, UpdateEntity(c, db, k).cache, Touched(c, k.kind))
    ensures c.pending == map[] && !k.kind.FanUpdater? ==> UpdateEntity(c, db, k).cache.pending == map[]
  {
    hide EnterAll, EnterNamed, RemoveEntity, FanItems, XcvrItems, PsuSensors, PsuSettings, ThermalItem, DrawerSettings,
      DrawerDetails, OthersKept;
    RemoveOthers(c, k);
    OthersSame(c, k.kind);
    OthersMore(c, RemoveEntity(c, k), k.kind);
    var name := k.name;
    match k.kind
    case XcvrUpdater =>
      if name in db.ifindex && name in db.xcvr { EntersOthers(c, k, XcvrItems(db.ifindex[name], name, db.xcvr[name])); }
    case PsuUpdater =>
      if name in db.psu && name in db.relation && db.relation[name].position.Some? {
        var (position, info) := (db.relation[name].position.value, db.psu[name]);
        EnterNamedOthers(c, k, PsuId(position), PsuSettings(name, position, info), db.relation[name].parent,
                         [(Fru, FruOf(info.removable))], PsuSensors(PsuId(position), name, info));
      }
    case DrawerUpdater =>
      if name in db.drawer && name in db.relation && db.relation[name].position.Some? {
        var (position, info) := (db.relation[name].position.value, db.drawer[name]);
        EnterNamedOthers(c, k, FanDrawerId(position), DrawerSettings(name, position), db.relation[name].parent,
                         DrawerDetails(info), []);
      }
    case FanUpdater =>
      if name in db.fan && name in db.relation && db.relation[name].position.Some? {
        var cb := Callback(db.relation[name].parent, db.relation[name].position.value, name, db.fan[name]);
        if cb.parent in c.nameToOid { EntersOthers(c, k, FanItems(c.nameToOid[cb.parent], cb)); }
        DeferOthers(c, cb, k.kind);
      }
    case ThermalUpdater =>
      if name in db.thermal && name in db.relation && db.relation[name].position.Some? {
        EntersOthers(c, k, [ThermalItem(db.relation[name].position.value, name, db.thermal[name])]);
      }
  }

  lemma OthersSame(c: Cache, kind: Kind)
    ensures OthersKept(c, c, Touched(c, kind))
  {
  }

  lemma OthersMore(c: Cache, d: Cache, kind: Kind)
    requires OthersKept(c, d, {kind})
    ensures OthersKept(c, d, Touched(c, kind))
  {
  }

  lemma DeferOthers(c: Cache, cb: Callback, kind: Kind)
    ensures OthersKept(c, Defer(c, cb), Touched(c, kind))
  {
  }

  lemma EntersOthers(c: Cache, k: Key, items: seq<Item>)
    ensures OthersKept(c, EnterAll(c, k, items), Touched(c, k.kind)) && EnterAll(c, k, items).pending == c.pending
  {
    EnterAllOthers(c, k, items);
    C.EnterAllKeepNames(c, k, items);
  }

  // ---------------------------------------------------------------- reinit

  /** The part of the owners that some updaters hold. */
  function Part(owned: map<Key, seq<nat>>, kinds: set<Kind>): map<Key, seq<nat>> {
    map k | k in owned && k.kind in kinds :: owned[k]
  }

  lemma {:induction false} TotalPart(owned: map<Key, seq<nat>>, kinds: set<Kind>)
    ensures Total(owned) == Total(Part(owned, kinds)) + Total(owned - Part(owned, kinds).Keys)
    decreases |owned|
  {
    hide Total, Tuples;
    var part := Part(owned, kinds);
    if part == map[] {
      assert owned - part.Keys == owned;
      TotalNone();
    } else {
      var k :| k in part;
      TotalSplit(owned, k);
      TotalSplit(part, k);
      assert owned - {k} == owned - {k};
      assert |owned - {k}| < |owned|;
      TotalPart(owned - {k}, kinds);
      assert Part(owned - {k}, kinds) == part - {k};
      assert (owned - {k}) - (part - {k}).Keys == owned - part.Keys;
    }
  }

  lemma TotalNone()
    ensures Total(map[]) == multiset{}
  {
  }

  /** During a reinit the updaters in `stale` still own what they owned before, which is missing
      from the new list; and no fan waits before the updater of fans has had its turn. */
  ghost predicate Turning(c: Cache, was: map<Key, seq<nat>>, stale: set<Kind>) {
    && Balanced(c, Total(Part(was, stale)))
    && (forall k: Key :: k.kind in stale ==> Lookup(c.owned, k) == Lookup(was, k))
    && (FanUpdater in stale ==> c.pending == map[])
  }

  lemma StaleElsewhere(owned: map<Key, seq<nat>>, was: map<Key, seq<nat>>, stale: set<Kind>, k: Key)
    requires k.kind !in stale && forall l: Key :: l.kind in stale ==> Lookup(owned, l) == Lookup(was, l)
    ensures Total(Part(was, stale)) <= Total(owned - {k})
  {
    hide Total;
    forall l: Key | l.kind in stale ensures Lookup(owned - {k}, l) == Lookup(was, l) {
      assert Lookup(owned, l) == Lookup(was, l);
    }
    SamePart(owned - {k}, was, stale);
    TotalPart(owned - {k}, stale);
  }

  lemma {:induction false} RefillTurning(c: Cache, was: map<Key, seq<nat>>, stale: set<Kind>, db: Db, kind: Kind,
                                         keys: seq<Key>)
    requires Turning(c, was, stale) && kind !in stale && forall i :: 0 <= i < |keys| ==> keys[i].kind == kind
    ensures Turning(Refill(c, db, keys).cache, was, stale)
    decreases |keys|
  {
    hide UpdateEntity, Total, Balanced, Part;
    if keys != [] {
      var k := keys[0];
      StaleElsewhere(c.owned, was, stale, k);
      UpdateBalanced(c, Total(Part(was, stale)), db, k);
      UpdateOthers(c, db, k);
      var s := UpdateEntity(c, db, k);
      assert Turning(s.cache, was, stale);
      if s.ok { RefillTurning(s.cache, was, stale, db, kind, keys[1..]); }
    }
  }

  lemma SamePart(owned: map<Key, seq<nat>>, was: map<Key, seq<nat>>, kinds: set<Kind>)
    requires forall k: Key :: k.kind in kinds ==> Lookup(owned, k) == Lookup(was, k)
    ensures Part(owned, kinds) == Part(was, kinds)
  {
    forall k ensures Lookup(Part(owned, kinds), k) == Lookup(Part(was, kinds), k) {
      assert k.kind in kinds ==> Lookup(owned, k) == Lookup(was, k);
    }
    C.LookupUnique(Part(owned, kinds), Part(was, kinds));
  }

  /** What one updater owns, split off. */
  lemma PartSplit(owned: map<Key, seq<nat>>, stale: set<Kind>, kind: Kind)
    requires kind in stale
    ensures Total(Part(owned, stale)) == Total(Part(owned, {kind})) + Total(Part(owned, stale - {kind}))
    ensures Total(owned) == Total(Part(owned, {kind})) + Total(Disown(owned, kind))
  {
    hide Total;
    TotalPart(owned, {kind});
    assert owned - Part(owned, {kind}).Keys == Disown(owned, kind);
    var part := Part(owned, stale);
    TotalPart(part, {kind});
    assert Part(part, {kind}) == Part(owned, {kind});
    assert part - Part(part, {kind}).Keys == Part(owned, stale - {kind});
  }

  lemma DisownTurning(c: Cache, was: map<Key, seq<nat>>, stale: set<Kind>, kind: Kind)
    requires Turning(c, was, stale) && kind in stale
    ensures Turning(c.(owned := Disown(c.owned, kind)), was, stale - {kind})
  {
    hide Total, Sorted, Part;
    var d := Disown(c.owned, kind);
    SamePart(c.owned, was, stale);
    SamePart(c.owned, was, stale - {kind});
    PartSplit(c.owned, stale, kind);
    Cancel(multiset(c.entities), Total(Part(c.owned, {kind})), Total(Part(was, stale - {kind})),
           multiset{[CHASSIS_SUB_ID], [CHASSIS_MGMT_SUB_ID]}, Total(d));
    forall l: Key | l.kind in stale - {kind} ensures Lookup(d, l) == Lookup(was, l) {
      assert Lookup(c.owned, l) == Lookup(was, l);
    }
  }

  lemma Cancel(e: multiset<Oid>, mine: multiset<Oid>, others: multiset<Oid>, base: multiset<Oid>, rest: multiset<Oid>)
    requires e + (mine + others) == base + (mine + rest)
    ensures e + others == base + rest
  {
    forall x ensures (e + others)[x] == (base + rest)[x] {
      assert (e + (mine + others))[x] == (base + (mine + rest))[x];
    }
  }

  /** The updaters among `kinds` that raise before they clear what they own. */
  function Early(l: Listing, kinds: seq<Kind>): set<Kind> {
    set kind | kind in kinds && l.Of(kind).RaisesBefore?
  }

  lemma TurnTurning(c: Cache, was: map<Key, seq<nat>>, stale: set<Kind>, db: Db, kind: Kind, fate: Fate)
    requires Turning(c, was, stale) && kind in stale
    ensures Turning(TakeTurn(c, db, kind, fate).cache, was, if fate.RaisesBefore? then stale else stale - {kind})
  {
    hide Turning, Refill, Disown;
    if !fate.RaisesBefore? {
      DisownTurning(c, was, stale, kind);
      if fate.Lists? {
        RefillTurning(c.(owned := Disown(c.owned, kind)), was, stale - {kind}, db, kind, KeysFor(kind, fate.names));
      }
    }
  }

  ghost predicate Once(kinds: seq<Kind>) {
    forall i, j :: 0 <= i < j < |kinds| ==> kinds[i] != kinds[j]
  }

  lemma {:induction false} TurnsTurning(s: Step, was: map<Key, seq<nat>>, early: set<Kind>, db: Db, l: Listing,
                                        kinds: seq<Kind>)
    requires Once(kinds) && early !! set kind | kind in kinds
    requires Turning(s.cache, was, early + set kind | kind in kinds)
    ensures Turning(TakeTurns(s, db, l, kinds).cache, was, early + Early(l, kinds))
    decreases |kinds|
  {
    hide Turning, TakeTurn;
    if kinds == [] {
      assert early + Early(l, kinds) == early == early + set kind | kind in kinds;
    } else {
      var kind, rest := kinds[0], kinds[1..];
      var stale := early + set k | k in kinds;
      var early' := if l.Of(kind).RaisesBefore? then early + {kind} else early;
      assert kinds == [kind] + rest;
      assert kind !in rest;
      assert (if l.Of(kind).RaisesBefore? then stale else stale - {kind}) == early' + set k | k in rest;
      assert early' + Early(l, rest) == early + Early(l, kinds);
      TurnTurning(s.cache, was, stale, db, kind, l.Of(kind));
      var r := TakeTurn(s.cache, db, kind, l.Of(kind));
      TurnsTurning(Step(r.cache, s.ok && r.ok), was, early', db, l, rest);
    }
  }

  lemma ResetTurning(db: Db, owned: map<Key, seq<nat>>)
    ensures Turning(Reset(db, owned), owned, set kind | kind in UPDATERS)
  {
    hide SetAll, Total;
    var c := Reset(db, owned);
    InsortKeepsSorted([[CHASSIS_SUB_ID]], [CHASSIS_MGMT_SUB_ID]);
    assert multiset(c.entities) == multiset{[CHASSIS_SUB_ID], [CHASSIS_MGMT_SUB_ID]};
    forall kind: Kind ensures kind in UPDATERS { AllUpdaters(kind); }
    assert Part(owned, set kind | kind in UPDATERS) == owned;
  }

  lemma AllUpdaters(kind: Kind)
    ensures kind in UPDATERS
  {
    match kind
    case XcvrUpdater => assert UPDATERS[0] == kind;
    case PsuUpdater => assert UPDATERS[1] == kind;
    case DrawerUpdater => assert UPDATERS[2] == kind;
    case FanUpdater => assert UPDATERS[3] == kind;
    case ThermalUpdater => assert UPDATERS[4] == kind;
  }

  /** After a reinit, whatever was there before and wherever updates raise: the list together
      with what updaters that raised early still own is chassis, management node and everything
      owned, and those updaters own exactly what they did before. */
  lemma ReinitTurning(c: Cache, db: Db, l: Listing)
    ensures Turning(Reinit(c, db, l).cache, c.owned, Early(l, UPDATERS))
  {
    hide Turning, TakeTurns, Reset;
    ResetTurning(db, c.owned);
    assert {} + (set kind | kind in UPDATERS) == set kind | kind in UPDATERS;
    assert {} + Early(l, UPDATERS) == Early(l, UPDATERS);
    TurnsTurning(Step(Reset(db, c.owned), true), c.owned, {}, db, l, UPDATERS);
  }

  lemma {:induction false} TotalEmpty(owned: map<Key, seq<nat>>)
    ensures Total(owned) == multiset{} <==> forall k :: k in owned ==> owned[k] == []
    decreases |owned|
  {
    if owned != map[] {
      hide Tuples;
      var k :| k in owned && Total(owned) == Tuples(owned[k]) + Total(owned - {k});
      TotalEmpty(owned - {k});
      TuplesEmpty(owned[k]);
      SumEmpty(Tuples(owned[k]), Total(owned - {k}));
      assert forall l :: l in owned && l != k ==> l in owned - {k} && (owned - {k})[l] == owned[l];
    }
  }

  lemma SumEmpty(a: multiset<Oid>, b: multiset<Oid>)
    ensures a + b == multiset{} <==> a == multiset{} && b == multiset{}
  {
    if a + b == multiset{} {
      forall x ensures a[x] == 0 && b[x] == 0 {
        assert (a + b)[x] == 0;
      }
    }
  }

  lemma TuplesEmpty(ids: seq<nat>)
    ensures Tuples(ids) == multiset{} <==> ids == []
  {
    if ids != [] {
      TuplesHold(ids, ids[0]);
    }
  }

  /** A reinit leaves the list in step with the owners if and only if no updater that raised
      before clearing still owned anything. */
  lemma ReinitConservedIff(c: Cache, db: Db, l: Listing)
    ensures Conserved(Reinit(c, db, l).cache) <==>
            forall k :: k in c.owned && l.Of(k.kind).RaisesBefore? ==> c.owned[k] == []
  {
    hide Reinit, Total, Sorted;
    ReinitTurning(c, db, l);
    var early := Part(c.owned, Early(l, UPDATERS));
    TotalEmpty(early);
    var r := Reinit(c, db, l).cache;
    var base := multiset{[CHASSIS_SUB_ID], [CHASSIS_MGMT_SUB_ID]} + Total(r.owned);
    assert multiset(r.entities) + Total(early) == base;
    if multiset(r.entities) + multiset{} == base { Same(multiset(r.entities), Total(early), base); }
    forall kind: Kind ensures kind in UPDATERS { AllUpdaters(kind); }
    assert forall k :: k in early <==> k in c.owned && l.Of(k.kind).RaisesBefore?;
  }

  lemma Same(e: multiset<Oid>, more: multiset<Oid>, base: multiset<Oid>)
    requires e + more == base && e + multiset{} == base
    ensures more == multiset{}
  {
    forall x ensures more[x] == 0 {
      assert (e + more)[x] == (e + multiset{})[x];
    }
  }

  // ---------------------------------------------------------------- runs

  /** What happens to the cache: a reinit from a database, or a message about one. */
  datatype Happening = Reinitialized(db: Db, listing: Listing) | Arrived(db: Db, message: Message)

  function Happen(c: Cache, h: Happening): Cache {
    match h
    case Reinitialized(db, l) => Reinit(c, db, l).cache
    case Arrived(db, m) => HandleMessage(c, db, m).cache
  }

  function After(c: Cache, run: seq<Happening>): Cache
    decreases |run|
  {
    if run == [] then c else Happen(After(c, run[..|run| - 1]), run[|run| - 1])
  }

  /** Every updater gets as far as clearing what it owns. */
  ghost predicate Clears(l: Listing) {
    forall kind: Kind :: !l.Of(kind).RaisesBefore?
  }

  /** There was a reinit, and from some reinit on every updater cleared what it owns in each. */
  ghost predicate Settled(run: seq<Happening>) {
    exists i :: 0 <= i < |run| && run[i].Reinitialized? &&
      forall j :: i <= j < |run| && run[j].Reinitialized? ==> Clears(run[j].listing)
  }

  lemma SettledFront(run: seq<Happening>)
    requires Settled(run) && !run[|run| - 1].Reinitialized?
    ensures Settled(run[..|run| - 1])
  {
    var i :| 0 <= i < |run| && run[i].Reinitialized? &&
      forall j :: i <= j < |run| && run[j].Reinitialized? ==> Clears(run[j].listing);
    var front := run[..|run| - 1];
    assert front[i] == run[i];
    forall j | i <= j < |front| && front[j].Reinitialized? ensures Clears(front[j].listing) {
      assert front[j] == run[j];
    }
  }

  lemma HappenConserved(c: Cache, h: Happening)
    requires match h case Reinitialized(_, l) => Clears(l) case Arrived(_, _) => Conserved(c)
    ensures Conserved(Happen(c, h))
  {
    hide UpdateEntity, Balanced, RemoveEntity, Reinit, Total;
    match h
    case Reinitialized(db, l) => ReinitConservedIff(c, db, l);
    case Arrived(db, SetMsg(k)) => UpdateBalanced(c, multiset{}, db, k);
    case Arrived(db, DelMsg(k)) => RemoveBalanced(c, multiset{}, k);
  }

  /** In every settled run, whatever state it began in, whatever the databases say, whatever
      messages arrive and wherever updates raise: the list is sorted and its elements are, with
      multiplicity, chassis, management node and everything owned. */
  lemma {:induction false} EntityConservation(c: Cache, run: seq<Happening>)
    requires Settled(run)
    ensures Conserved(After(c, run))
    decreases |run|
  {
    hide Happen, Conserved, Clears;
    var front, last := run[..|run| - 1], run[|run| - 1];
    if last.Reinitialized? {
      assert Clears(last.listing);
    } else {
      SettledFront(run);
      EntityConservation(c, front);
    }
    HappenConserved(After(c, front), last);
  }
}
