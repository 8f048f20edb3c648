/** Order independence from premises on the database and the keys alone: the final names and
    the owner of each index are built from them, and indexes are told apart by their parts. */
module EntityKeys {
  import opened Common
  import opened OidOrder
  import opened EntityIndex
  import opened EntityCache
  import opened EntityConfluence
  import U = EntityUndo

  // ---------------------------------------------------------------- names and owners

  ghost function RegistrarOf(db: Db, u: set<Key>, n: string): Key
    requires Introduces(db, u, n)
  {
    if Key(PsuUpdater, n) in u && Registered(db, Key(PsuUpdater, n)).Some? then Key(PsuUpdater, n)
      else Key(DrawerUpdater, n)
  }

  /** The name map as it will be when all messages have been handled. */
  ghost function FinalNames(db: Db, c0: Cache, u: set<Key>): map<string, nat> {
    c0.nameToOid +
    map n | n in (set k | k in u :: k.name) && Introduces(db, u, n) :: Registered(db, RegistrarOf(db, u, n)).value
  }

  ghost predicate Generates(db: Db, names: map<string, nat>, k: Key, id: nat) {
    exists i :: 0 <= i < |ItemsOf(db, names, k)| && ItemsOf(db, names, k)[i].id == id
  }

  ghost function Owners(db: Db, names: map<string, nat>, u: set<Key>): Home {
    map id | id in (set k, i | k in u && 0 <= i < |ItemsOf(db, names, k)| :: ItemsOf(db, names, k)[i].id) ::
      OwnerOf(db, names, u, id)
  }

  ghost function OwnerOf(db: Db, names: map<string, nat>, u: set<Key>, id: nat): Option<Key> {
    if Clash(db, names, u, id) || !exists k :: k in u && Generates(db, names, k, id) then None
    else (var k :| k in u && Generates(db, names, k, id); Some(k))
  }

  /** Two keys generate the index. */
  ghost predicate Clash(db: Db, names: map<string, nat>, u: set<Key>, id: nat) {
    exists k, l :: k in u && l in u && k != l && Generates(db, names, k, id) && Generates(db, names, l, id)
  }

  ghost predicate IndexesDiffer(db: Db, names: map<string, nat>, u: set<Key>) {
    forall id: nat :: !Clash(db, names, u, id)
  }

  /** A start without waiting callbacks, and new keys whose messages do not raise and whose
      names do not clash.  Indexes may. */
  ghost predicate Independent(db: Db, c0: Cache, u: set<Key>) {
    && Sorted(c0.entities) && c0.pending == map[]
    && (forall k :: k in u ==> Usable(db, c0, k) && k !in c0.owned)
    && (forall k :: k in u && Registered(db, k).Some? ==> k.name !in c0.nameToOid)
    && OneRegistrar(db, u)
  }

  lemma RegisteredKind(db: Db, k: Key)
    requires Registered(db, k).Some?
    ensures k == Key(PsuUpdater, k.name) || k == Key(DrawerUpdater, k.name)
  {
  }

  lemma SettingBuilt(db: Db, c0: Cache, u: set<Key>)
    requires Independent(db, c0, u)
    ensures Setting(db, FinalNames(db, c0, u), Owners(db, FinalNames(db, c0, u), u), c0, u)
  {
    hide ItemsOf, Usable, Registered, Sorted;
    var names := FinalNames(db, c0, u);
    var home := Owners(db, names, u);
    forall n | Introduces(db, u, n) ensures n !in c0.nameToOid {
      var k := RegistrarOf(db, u, n);
      assert k in u && Registered(db, k).Some? && k.name == n;
    }
    forall k | k in u ensures Fits(db, names, home, c0, k) { FitsBuilt(db, c0, u, k); }
  }

  lemma FitsBuilt(db: Db, c0: Cache, u: set<Key>, k: Key)
    requires Independent(db, c0, u) && k in u
    ensures Fits(db, FinalNames(db, c0, u), Owners(db, FinalNames(db, c0, u), u), c0, k)
  {
    hide ItemsOf, Usable, Registered, Sorted, Owners, FinalNames, Homed, OneRegistrar;
    var names := FinalNames(db, c0, u);
    forall i | 0 <= i < |ItemsOf(db, names, k)|
      ensures Homed(Owners(db, names, u), k, ItemsOf(db, names, k)[i].id)
    {
      HomeBuilt(db, names, u, k, i);
    }
    if Registered(db, k).Some? { NameBuilt(db, c0, u, k); }
  }

  lemma HomeBuilt(db: Db, names: map<string, nat>, u: set<Key>, k: Key, i: nat)
    requires k in u && i < |ItemsOf(db, names, k)|
    ensures Homed(Owners(db, names, u), k, ItemsOf(db, names, k)[i].id)
  {
    hide ItemsOf;
    assert Generates(db, names, k, ItemsOf(db, names, k)[i].id);
  }

  lemma NameBuilt(db: Db, c0: Cache, u: set<Key>, k: Key)
    requires Independent(db, c0, u) && k in u && Registered(db, k).Some?
    ensures k.name in FinalNames(db, c0, u) && FinalNames(db, c0, u)[k.name] == Registered(db, k).value
  {
    hide ItemsOf, Usable, Registered, Sorted;
    RegisteredKind(db, k);
    assert Introduces(db, u, k.name);
    var l := RegistrarOf(db, u, k.name);
    assert l in u && Registered(db, l).Some? && l.name == k.name;
  }

  lemma ClashShared(db: Db, names: map<string, nat>, u: set<Key>, id: nat)
    ensures Shared(Owners(db, names, u), id) <==> Clash(db, names, u, id)
  {
    hide ItemsOf;
    var ids := set k, i | k in u && 0 <= i < |ItemsOf(db, names, k)| :: ItemsOf(db, names, k)[i].id;
    assert id in ids <==> exists k :: k in u && Generates(db, names, k, id);
  }

  /** The caches agree, but for the order of callbacks still waiting and for the attributes of
      the indexes that two of the keys generate. */
  ghost predicate SameButClashes(db: Db, c0: Cache, u: set<Key>, c: Cache, d: Cache) {
    && c.entities == d.entities && c.owned == d.owned && c.nameToOid == d.nameToOid
    && (forall n :: multiset(Waiting(c, n)) == multiset(Waiting(d, n)))
    && (forall a: (Field, nat) :: Clash(db, FinalNames(db, c0, u), u, a.1) || Lookup(c.attrs, a) == Lookup(d.attrs, a))
    && (IndexesDiffer(db, FinalNames(db, c0, u), u) ==> c.attrs == d.attrs)
  }

  /** Messages about the same independent keys, in any two orders. */
  lemma IndependentConfluence(db: Db, c0: Cache, keys: seq<Key>, keys': seq<Key>)
    requires Independent(db, c0, KeySet(keys)) && KeySet(keys') == KeySet(keys)
    requires Distinct(keys) && Distinct(keys')
    ensures Refill(c0, db, keys).ok && Refill(c0, db, keys').ok
    ensures SameButClashes(db, c0, KeySet(keys), Refill(c0, db, keys).cache, Refill(c0, db, keys').cache)
  {
    hide Independent, Setting, Refill, FinalNames, Owners, Shared, Clash;
    var u := KeySet(keys);
    var names := FinalNames(db, c0, u);
    SettingBuilt(db, c0, u);
    Confluence(db, names, Owners(db, names, u), c0, keys, keys');
    var c, d := Refill(c0, db, keys).cache, Refill(c0, db, keys').cache;
    forall a: (Field, nat) | !Clash(db, names, u, a.1) ensures Lookup(c.attrs, a) == Lookup(d.attrs, a) {
      ClashShared(db, names, u, a.1);
    }
    if IndexesDiffer(db, names, u) { LookupUnique(c.attrs, d.attrs); }
  }

  /** The fan can be entered at once, at this index. */
  ghost predicate EntersAt(c: Cache, db: Db, fan: string, id: nat) {
    var cb := FanCallback(db, Key(FanUpdater, fan));
    cb.Some? && cb.value.parent in c.nameToOid && FanId(c.nameToOid[cb.value.parent], cb.value.position) == id
  }

  lemma FanNames(c: Cache, db: Db, fan: string, id: nat)
    requires EntersAt(c, db, fan, id)
    ensures var s := UpdateEntity(c, db, Key(FanUpdater, fan));
      s.ok && s.cache.nameToOid == c.nameToOid && Lookup(s.cache.attrs, (Name, id)) == Some(Str(fan))
  {
    hide EnterAll, AttrsOf;
    var cb := FanCallback(db, Key(FanUpdater, fan)).value;
    var items := FanItems(c.nameToOid[cb.parent], cb);
    EnterAllKeepNames(c, Key(FanUpdater, fan), items);
    EnterAllAttrs(c, Key(FanUpdater, fan), items);
    AttrsOfOver(c.attrs, map[], items);
    assert c.attrs + map[] == c.attrs;
    assert items[0].settings[2] == (Name, Str(fan));
    assert U.FirstIsCalled(items, fan);
    U.FirstName(items, fan);
  }

  /** The attributes of a shared index do depend on the order: it is called by the fan that
      came last. */
  lemma ClashingFansDiffer(c: Cache, db: Db, fan: string, other: string, id: nat)
    requires EntersAt(c, db, fan, id) && EntersAt(c, db, other, id)
    ensures var (k, l) := (Key(FanUpdater, fan), Key(FanUpdater, other));
      Lookup(Refill(c, db, [k, l]).cache.attrs, (Name, id)) == Some(Str(other)) &&
      Lookup(Refill(c, db, [l, k]).cache.attrs, (Name, id)) == Some(Str(fan))
  {
    hide Refill;
    LastNames(c, db, fan, other, id);
    LastNames(c, db, other, fan, id);
  }

  lemma LastNames(c: Cache, db: Db, fan: string, other: string, id: nat)
    requires EntersAt(c, db, fan, id) && EntersAt(c, db, other, id)
    ensures Lookup(Refill(c, db, [Key(FanUpdater, fan), Key(FanUpdater, other)]).cache.attrs, (Name, id)) ==
            Some(Str(other))
  {
    hide UpdateEntity;
    var k, l := Key(FanUpdater, fan), Key(FanUpdater, other);
    FanNames(c, db, fan, id);
    var c1 := UpdateEntity(c, db, k).cache;
    FanNames(c1, db, other, id);
    assert [k, l][1..] == [l] && [l][1..] == [];
    assert Refill(c1, db, [l]).cache == UpdateEntity(c1, db, l).cache;
  }

  // ---------------------------------------------------------------- parts

  function PsuMonitors(psu: nat, info: PsuInfo): seq<Part> {
    (if Available(info.current) then [PsuMonitor(psu, PsuCurrent)] else [])
    + (if Available(info.power) then [PsuMonitor(psu, PsuPower)] else [])
    + (if Available(info.temperature) then [PsuMonitor(psu, PsuTemperature)] else [])
    + (if Available(info.voltage) then [PsuMonitor(psu, PsuVoltage)] else [])
  }

  /** The fan at a position of the chassis, a drawer or a PSU. */
  function FanOf(parent: Part, position: nat): Option<Part> {
    match parent
    case Chassis => Some(ChassisFan(position))
    case FanDrawer(d) => Some(DrawerFan(d, position))
    case Psu(p) => Some(PsuFan(p, position))
    case _ => None
  }

  /** The parts a message enters, the index of the parent of a fan being read with `DecodeId`. */
  function PartsOf(db: Db, names: map<string, nat>, k: Key): seq<Part> {
    if ItemsOf(db, names, k) == [] then []
    else
      match k.kind
      case XcvrUpdater =>
        var (i, dom) := (db.ifindex[k.name], db.xcvr[k.name].dom);
        [Transceiver(i)] + seq(|dom|, j requires 0 <= j < |dom| => TransceiverMonitor(i, dom[j].sensor))
      case PsuUpdater =>
        var position := db.relation[k.name].position.value;
        [Psu(position)] + PsuMonitors(position, db.psu[k.name])
      case DrawerUpdater => [FanDrawer(db.relation[k.name].position.value)]
      case FanUpdater =>
        var cb := FanCallback(db, k).value;
        var parent := DecodeId(names[cb.parent]);
        var fan := if parent.Some? then FanOf(parent.value, cb.position) else None;
        if fan.None? then []
        else [fan.value] + if Available(cb.info.speed) then [Tachometer(fan.value)] else []
      case ThermalUpdater => [ChassisThermal(db.relation[k.name].position.value)]
  }

  /** All parts are within bounds, and the parent of a fan is the chassis, a drawer or a PSU. */
  ghost predicate Regular(db: Db, names: map<string, nat>, k: Key) {
    && (forall i :: 0 <= i < |PartsOf(db, names, k)| ==> InBounds(PartsOf(db, names, k)[i]))
    && (k.kind.FanUpdater? && ItemsOf(db, names, k) != [] ==>
          PartsOf(db, names, k) != [] &&
          var parent := DecodeId(names[FanCallback(db, k).value.parent]).value;
          InBounds(parent) && Id(parent) == names[FanCallback(db, k).value.parent])
  }

  /** The indexes a message enters are those of its parts. */
  lemma IndexesOfParts(db: Db, names: map<string, nat>, k: Key)
    requires Regular(db, names, k)
    ensures |PartsOf(db, names, k)| == |ItemsOf(db, names, k)|
    ensures forall i :: 0 <= i < |PartsOf(db, names, k)| ==> ItemsOf(db, names, k)[i].id == Id(PartsOf(db, names, k)[i])
  {
    hide DecodeId;
    match k.kind
    case FanUpdater => if ItemsOf(db, names, k) != [] { FanIndexes(db, names, k); }
    case PsuUpdater =>
      if ItemsOf(db, names, k) != [] { PsuIndexes(k.name, db.relation[k.name].position.value, db.psu[k.name]); }
    case _ =>
  }

  lemma PsuIndexes(name: string, position: nat, info: PsuInfo)
    ensures |PsuMonitors(position, info)| == |PsuSensors(PsuId(position), name, info)|
    ensures forall i :: 0 <= i < |PsuMonitors(position, info)| ==>
              PsuSensors(PsuId(position), name, info)[i].id == Id(PsuMonitors(position, info)[i])
  {
    hide Available, SensorSettings, Id, PsuSensorId, PsuId, PsuSensorItem;
    forall s ensures PsuSensorItem(PsuId(position), name, s).id == Id(PsuMonitor(position, s)) {
      PsuIndex(name, position, s);
    }
  }

  lemma PsuIndex(name: string, position: nat, s: PsuSensor)
    ensures PsuSensorItem(PsuId(position), name, s).id == Id(PsuMonitor(position, s))
  {
  }

  lemma FanIndexes(db: Db, names: map<string, nat>, k: Key)
    requires Regular(db, names, k) && k.kind.FanUpdater? && ItemsOf(db, names, k) != []
    ensures |PartsOf(db, names, k)| == |ItemsOf(db, names, k)|
    ensures forall i :: 0 <= i < |PartsOf(db, names, k)| ==> ItemsOf(db, names, k)[i].id == Id(PartsOf(db, names, k)[i])
  {
    hide DecodeId;
    var cb := FanCallback(db, k).value;
    var parent := DecodeId(names[cb.parent]).value;
    match parent
    case Chassis =>
    case FanDrawer(d) =>
    case Psu(p) =>
    case _ =>
  }

  /** No part of one key is, up to a chassis fan borrowing a drawer fan's index, that of
      another. */
  ghost predicate PartsDiffer(db: Db, names: map<string, nat>, u: set<Key>) {
    forall k, l, p, q ::
      (k in u && l in u && p in PartsOf(db, names, k) && q in PartsOf(db, names, l) && Canonical(p) == Canonical(q)) ==>
        k == l
  }

  /** For regular keys different parts are all that different indexes take. */
  lemma PartsDecide(db: Db, names: map<string, nat>, u: set<Key>)
    requires forall k :: k in u ==> Regular(db, names, k)
    ensures IndexesDiffer(db, names, u) <==> PartsDiffer(db, names, u)
  {
    hide ItemsOf, PartsOf, Regular, Canonical, Id, InBounds, Generates;
    forall k, l, p, q | k in u && l in u && p in PartsOf(db, names, k) && q in PartsOf(db, names, l) &&
                        Canonical(p) == Canonical(q) && k != l
      ensures exists id :: Clash(db, names, u, id)
    {
      var i := PartIndex(db, names, k, p);
      var j := PartIndex(db, names, l, q);
      SharedIndex(p, q);
      assert Clash(db, names, u, Id(p));
    }
    forall id | Clash(db, names, u, id) ensures !PartsDiffer(db, names, u) {
      var k, l :| k in u && l in u && k != l && Generates(db, names, k, id) && Generates(db, names, l, id);
      var p := PartWith(db, names, k, id);
      var q := PartWith(db, names, l, id);
      SharedIndex(p, q);
    }
  }

  lemma PartIndex(db: Db, names: map<string, nat>, k: Key, p: Part) returns (i: nat)
    requires Regular(db, names, k) && p in PartsOf(db, names, k)
    ensures i < |ItemsOf(db, names, k)| && ItemsOf(db, names, k)[i].id == Id(p) && InBounds(p)
    ensures Generates(db, names, k, Id(p))
  {
    hide ItemsOf, PartsOf, Id;
    IndexesOfParts(db, names, k);
    i :| 0 <= i < |PartsOf(db, names, k)| && PartsOf(db, names, k)[i] == p;
  }

  lemma PartWith(db: Db, names: map<string, nat>, k: Key, id: nat) returns (p: Part)
    requires Regular(db, names, k) && Generates(db, names, k, id)
    ensures p in PartsOf(db, names, k) && Id(p) == id && InBounds(p)
  {
    hide ItemsOf, PartsOf, Id;
    IndexesOfParts(db, names, k);
    var i :| 0 <= i < |ItemsOf(db, names, k)| && ItemsOf(db, names, k)[i].id == id;
    p := PartsOf(db, names, k)[i];
  }
}
