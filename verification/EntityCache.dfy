/** The physical-entity cache (`rfc2737.py`): a sorted list of entity indexes, ten
    attribute maps, a name map, callbacks waiting for a parent's name, and per updater the
    indexes each database key owns, all driven by set and del messages.

    Entity sub-ids are one-element tuples in the source; here they are written as their
    number, except in the list, which is compared in tuple order.  The ten attribute maps are
    one map keyed by field and index, and the `entity_to_oid_map`s of the five updaters are
    one map keyed by updater and database key. */
module EntityCache {
  import opened Common
  import opened OidOrder
  import opened EntityIndex

  // ---------------------------------------------------------------- the database

  datatype DomSensor = DomSensor(sensor: XcvrSensor, descr: string)

  /** A transceiver's information (its type may be missing), description and sensors in
      sort order. */
  datatype XcvrInfo = XcvrInfo(sfpType: Option<string>, hwVersion: string, serial: string, mfg: string, model: string,
                               removable: bool, descr: string, dom: seq<DomSensor>)
  datatype PsuInfo = PsuInfo(present: bool, model: string, serial: string, current: string, power: string,
                             temperature: string, voltage: string, removable: bool)
  datatype DrawerInfo = DrawerInfo(present: bool, model: string, serial: string, removable: bool)
  datatype FanInfo = FanInfo(present: bool, model: string, serial: string, speed: string, removable: bool)
  datatype ThermalInfo = ThermalInfo(temperature: string, removable: bool)

  /** PHYSICAL_ENTITY_INFO; the position is `None` if it is not a number. */
  datatype Relation = Relation(position: Option<nat>, parent: string)

  datatype Db = Db(chassisSerial: string, ifindex: map<string, nat>, xcvr: map<string, XcvrInfo>,
                   psu: map<string, PsuInfo>, drawer: map<string, DrawerInfo>, fan: map<string, FanInfo>,
                     thermal: map<string, ThermalInfo>,
                   relation: map<string, Relation>)

  // ---------------------------------------------------------------- the cache

  datatype Field = Class | Descr | Name | HwVersion | Serial | MfgName | ModelName | ContainedIn | RelPos | Fru

  datatype Value = Int(n: int) | Str(s: string)

  /** The updater and the database key of an entity. */
  datatype Kind = XcvrUpdater | PsuUpdater | DrawerUpdater | FanUpdater | ThermalUpdater

  datatype Key = Key(kind: Kind, name: string)

  /** The arguments of a deferred `_update_fan_mib_info`. */
  datatype Callback = Callback(parent: string, position: nat, fan: string, info: FanInfo)

  type Attrs = map<(Field, nat), Value>

  datatype Cache = Cache(entities: seq<Oid>, attrs: Attrs, nameToOid: map<string, nat>,
                         pending: map<string, seq<Callback>>, owned: map<Key, seq<nat>>)

  /** The state after an operation, and whether it ended without an exception. */
  datatype Step = Step(cache: Cache, ok: bool)

  const PORT_CLASS := 10
  const CHASSIS_CLASS := 3
  const CONTAINER_CLASS := 5
  const POWERSUPPLY_CLASS := 6
  const FAN_CLASS := 7
  const SENSOR_CLASS := 8
  const CPU_CLASS := 12
  const CHASSIS_NAME := "chassis 1"

  function FruOf(removable: bool): Value {
    Int(if removable then 1 else 2)
  }

  /** `is_null_str`; contrary to its documentation the empty string is not null. */
  predicate NullStr(s: string) {
    s == "N/A" || s == "None"
  }

  predicate Available(s: string) {
    s != "" && !NullStr(s)
  }

  // ---------------------------------------------------------------- elementary operations

  type Settings = seq<(Field, Value)>

  /** A run of `set_phy_*` calls for one entity. */
  function SetAll(attrs: Attrs, id: nat, settings: Settings): Attrs {
    if settings == [] then attrs
    else SetAll(attrs, id, settings[..|settings| - 1])[(settings[|settings| - 1].0, id) := settings[|settings| - 1].1]
  }

  function AddSubId(c: Cache, id: nat): Cache {
    c.(entities := Insort(c.entities, [id]))
  }

  /** `_add_entity_related_oid`. */
  function Own(c: Cache, k: Key, id: nat): Cache {
    c.(owned := c.owned[k := (if k in c.owned then c.owned[k] else []) + [id]])
  }

  /** A physical entity: its index and what is set for it. */
  datatype Item = Item(id: nat, settings: Settings)

  function Enter(c: Cache, item: Item): Cache {
    AddSubId(c, item.id).(attrs := SetAll(c.attrs, item.id, item.settings))
  }

  function EnterAll(c: Cache, k: Key, items: seq<Item>): Cache {
    if items == [] then c
    else
      var last := items[|items| - 1];
      Enter(Own(EnterAll(c, k, items[..|items| - 1]), k, last.id), last)
  }

  function RemoveFirst(s: seq<Oid>, x: Oid): (r: seq<Oid>)
    ensures x !in s ==> r == s
  {
    if s == [] then [] else if s[0] == x then s[1..] else [s[0]] + RemoveFirst(s[1..], x)
  }

  /** One turn of `remove_sub_ids`; the description map is not touched. */
  function RemoveOne(c: Cache, id: nat): Cache {
    var c1 := c.(entities := RemoveFirst(c.entities, [id]),
                 attrs := map k | k in c.attrs && (k.1 != id || k.0.Descr?) :: c.attrs[k]);
    if (Name, id) in c.attrs && c.attrs[(Name, id)].Str? then
      var name := c.attrs[(Name, id)].s;
      c1.(nameToOid := c.nameToOid - {name}, pending := c.pending - {name})
    else c1
  }

  function RemoveSubIds(c: Cache, ids: seq<nat>): Cache {
    if ids == [] then c else RemoveOne(RemoveSubIds(c, ids[..|ids| - 1]), ids[|ids| - 1])
  }

  /** `_remove_entity_cache`. */
  function RemoveEntity(c: Cache, k: Key): Cache {
    if k in c.owned then
      var r := RemoveSubIds(c, c.owned[k]);
      r.(owned := r.owned - {k})
    else c
  }

  function Defer(c: Cache, cb: Callback): Cache {
    c.(pending := c.pending[cb.parent := (if cb.parent in c.pending then c.pending[cb.parent] else []) + [cb]])
  }

  // ---------------------------------------------------------------- fans

  function FanSettings(parentId: nat, cb: Callback): Settings {
    [(Class, Int(FAN_CLASS)), (Descr, Str(cb.fan)), (Name, Str(cb.fan)), (RelPos, Int(cb.position)),
     (ContainedIn, Int(parentId))]
    + (if Available(cb.info.serial) then [(Serial, Str(cb.info.serial))] else [])
    + (if Available(cb.info.model) then [(ModelName, Str(cb.info.model))] else [])
    + [(Fru, FruOf(cb.info.removable))]
  }

  function SensorSettings(descr: string, position: nat, parentId: nat): Settings {
    [(Class, Int(SENSOR_CLASS)), (Descr, Str(descr)), (Name, Str(descr)), (RelPos, Int(position)),
     (ContainedIn, Int(parentId)), (Fru, FruOf(false))]
  }

  /** The fan, and its tachometer if it reports a speed. */
  function FanItems(parentId: nat, cb: Callback): seq<Item> {
    var fan := FanId(parentId, cb.position);
    [Item(fan, FanSettings(parentId, cb))]
    + if Available(cb.info.speed)
      then [Item(TachometerId(fan), SensorSettings("Tachometers for " + cb.fan, 1, fan))] else []
  }

  /** `_update_fan_mib_info`, with the parent's index found in the name map. */
  function EnterFan(c: Cache, cb: Callback): Cache
    requires cb.parent in c.nameToOid
  {
    EnterAll(c, Key(FanUpdater, cb.fan), FanItems(c.nameToOid[cb.parent], cb))
  }

  function RunCallbacks(c: Cache, id: nat, cbs: seq<Callback>): Cache {
    if cbs == [] then c
    else
      var cb := cbs[|cbs| - 1];
      EnterAll(RunCallbacks(c, id, cbs[..|cbs| - 1]), Key(FanUpdater, cb.fan), FanItems(id, cb))
  }

  /** `update_name_to_oid_map`: the waiting callbacks run now that their parent is known. */
  function Register(c: Cache, name: string, id: nat): Cache {
    var c1 := c.(nameToOid := c.nameToOid[name := id]);
    if name !in c.pending then c1
    else
      var c2 := RunCallbacks(c1, id, c.pending[name]);
      c2.(pending := c2.pending - {name})
  }

  // ---------------------------------------------------------------- updaters

  function XcvrItems(ifindex: nat, name: string, info: XcvrInfo): seq<Item> {
    var id := TransceiverId(ifindex);
    [Item(id, [(Class, Int(PORT_CLASS)), (HwVersion, Str(info.hwVersion)), (Serial, Str(info.serial)),
               (MfgName, Str(info.mfg)), (ModelName, Str(info.model)), (ContainedIn, Int(CHASSIS_SUB_ID)),
               (Fru, FruOf(info.removable)), (RelPos, Int(-1)), (Descr, Str(info.descr)), (Name, Str(name))])]
    + seq(|info.dom|, i requires 0 <= i < |info.dom| =>
        Item(TransceiverSensorId(ifindex, OidOffset(info.dom[i].sensor)), SensorSettings(info.dom[i].descr, i + 1, id)))
  }

  function UpdateXcvr(c: Cache, db: Db, name: string): Step {
    if name !in db.ifindex || name !in db.xcvr then Step(c, true)
    else if db.xcvr[name].sfpType.None? then Step(c, false)
    else if db.xcvr[name].sfpType.value == "RJ45" then Step(c, true)
    else Step(EnterAll(c, Key(XcvrUpdater, name), XcvrItems(db.ifindex[name], name, db.xcvr[name])), true)
  }

  /** What is set for a PSU before its parent is looked up. */
  function PsuSettings(name: string, position: nat, info: PsuInfo): Settings {
    [(Class, Int(POWERSUPPLY_CLASS)), (Descr, Str(name)), (Name, Str(name))]
    + (if !NullStr(info.model) then [(ModelName, Str(info.model))] else [])
    + (if !NullStr(info.serial) then [(Serial, Str(info.serial))] else [])
    + [(RelPos, Int(position))]
  }

  function PsuSensorItem(psu: nat, name: string, s: PsuSensor): Item {
    var (descr, position) := match s
      case PsuTemperature => ("Temperature for ", 1)
      case PsuPower => ("Power for ", 2)
      case PsuCurrent => ("Current for ", 3)
      case PsuVoltage => ("Voltage for ", 4);
    Item(PsuSensorId(psu, s), SensorSettings(descr + name, position, psu))
  }

  function PsuSensors(psu: nat, name: string, info: PsuInfo): seq<Item> {
    (if Available(info.current) then [PsuSensorItem(psu, name, PsuCurrent)] else [])
    + (if Available(info.power) then [PsuSensorItem(psu, name, PsuPower)] else [])
    + (if Available(info.temperature) then [PsuSensorItem(psu, name, PsuTemperature)] else [])
    + (if Available(info.voltage) then [PsuSensorItem(psu, name, PsuVoltage)] else [])
  }

  /** The common course of a PSU and a fan drawer: own the index, register the name, enter
      the entity, look up the parent (an unknown one raises), set the rest, enter sensors. */
  function EnterNamed(c: Cache, k: Key, id: nat, before: Settings, parent: string, after: Settings,
                      sensors: seq<Item>): Step {
    var c1 := Enter(Register(Own(c, k, id), k.name, id), Item(id, before));
    if parent !in c1.nameToOid then Step(c1, false)
    else
      var c2 := c1.(attrs := SetAll(c1.attrs, id, [(ContainedIn, Int(c1.nameToOid[parent]))] + after));
      Step(EnterAll(c2, k, sensors), true)
  }

  function UpdatePsu(c: Cache, db: Db, name: string): Step {
    var k := Key(PsuUpdater, name);
    if name !in db.psu then Step(c, true)
    else
      var info := db.psu[name];
      if !info.present then Step(RemoveEntity(c, k), true)
      else if name !in db.relation || db.relation[name].position.None? then Step(c, false)
      else
        var position := db.relation[name].position.value;
        var id := PsuId(position);
        EnterNamed(c, k, id, PsuSettings(name, position, info), db.relation[name].parent,
          [(Fru, FruOf(info.removable))],
                   PsuSensors(id, name, info))
  }

  function DrawerSettings(name: string, position: nat): Settings {
    [(Class, Int(CONTAINER_CLASS)), (Descr, Str(name)), (Name, Str(name)), (RelPos, Int(position))]
  }

  /** What is set for a drawer after its parent is looked up. */
  function DrawerDetails(info: DrawerInfo): Settings {
    (if Available(info.model) then [(ModelName, Str(info.model))] else [])
    + (if Available(info.serial) then [(Serial, Str(info.serial))] else [])
    + [(Fru, FruOf(info.removable))]
  }

  function UpdateDrawer(c: Cache, db: Db, name: string): Step {
    var k := Key(DrawerUpdater, name);
    if name !in db.drawer then Step(c, true)
    else
      var info := db.drawer[name];
      if !info.present then Step(RemoveEntity(c, k), true)
      else if name !in db.relation then Step(c, true)
      else if db.relation[name].position.None? then Step(c, false)
      else
        var position := db.relation[name].position.value;
        EnterNamed(c, k, FanDrawerId(position), DrawerSettings(name, position), db.relation[name].parent,
          DrawerDetails(info), [])
  }

  function UpdateFan(c: Cache, db: Db, name: string): Step {
    if name !in db.fan then Step(c, true)
    else
      var info := db.fan[name];
      if !info.present then Step(RemoveEntity(c, Key(FanUpdater, name)), true)
      else if name !in db.relation || db.relation[name].position.None? then Step(c, false)
      else
        var cb := Callback(db.relation[name].parent, db.relation[name].position.value, name, info);
        Step(if cb.parent in c.nameToOid then EnterFan(c, cb) else Defer(c, cb), true)
  }

  function ThermalItem(position: nat, name: string, info: ThermalInfo): Item {
    Item(ChassisThermalId(position),
         [(Class, Int(SENSOR_CLASS)), (Descr, Str(name)), (Name, Str(name)), (RelPos, Int(position)),
          (ContainedIn, Int(CHASSIS_MGMT_SUB_ID)), (Fru, FruOf(info.removable))])
  }

  /** Only thermals of the chassis are entered. */
  function UpdateThermal(c: Cache, db: Db, name: string): Step {
    var k := Key(ThermalUpdater, name);
    if name !in db.thermal then Step(c, true)
    else if !Available(db.thermal[name].temperature) then Step(RemoveEntity(c, k), true)
    else if name !in db.relation then Step(c, true)
    else if db.relation[name].position.None? then Step(c, false)
    else
      var parent := db.relation[name].parent;
      if parent in c.nameToOid && c.nameToOid[parent] == CHASSIS_SUB_ID
      then Step(EnterAll(c, k, [ThermalItem(db.relation[name].position.value, name, db.thermal[name])]), true)
      else Step(c, true)
  }

  /** `_update_entity_cache` of the updater the key belongs to. */
  function UpdateEntity(c: Cache, db: Db, k: Key): Step {
    match k.kind
    case XcvrUpdater => UpdateXcvr(c, db, k.name)
    case PsuUpdater => UpdatePsu(c, db, k.name)
    case DrawerUpdater => UpdateDrawer(c, db, k.name)
    case FanUpdater => UpdateFan(c, db, k.name)
    case ThermalUpdater => UpdateThermal(c, db, k.name)
  }

  datatype Message = SetMsg(key: Key) | DelMsg(key: Key)

  function HandleMessage(c: Cache, db: Db, m: Message): Step {
    match m
    case SetMsg(k) => UpdateEntity(c, db, k)
    case DelMsg(k) => Step(RemoveEntity(c, k), true)
  }

  // ---------------------------------------------------------------- reinit

  /** The state `reinit_data` starts the updaters from: the chassis and its management node.
      (The description map, like the others, starts over.)  What the updaters own is theirs to
      clear. */
  function Reset(db: Db, owned: map<Key, seq<nat>>): Cache {
    var a := SetAll(map[], CHASSIS_SUB_ID,
                    [(Class, Int(CHASSIS_CLASS)), (Serial, Str(db.chassisSerial)), (Name, Str(CHASSIS_NAME)),
                     (Descr, Str(CHASSIS_NAME)), (ContainedIn, Int(0)), (Fru, FruOf(false))]);
    Enter(Cache([[CHASSIS_SUB_ID]], a, map[CHASSIS_NAME := CHASSIS_SUB_ID], map[], owned),
          Item(CHASSIS_MGMT_SUB_ID, [(Class, Int(CPU_CLASS)), (ContainedIn, Int(CHASSIS_SUB_ID)), (RelPos, Int(1)),
                                     (Descr, Str("MGMT")), (Name, Str("MGMT")), (Fru, FruOf(false))]))
  }

  /** How an updater's `reinit_data` goes: it raises before it clears what it owns (interface
      maps and subscriptions are handled first), or when it lists its keys, or it goes through
      the keys listed. */
  datatype Fate = RaisesBefore | RaisesListing | Lists(names: seq<string>)

  datatype Listing = Listing(xcvr: Fate, psu: Fate, drawer: Fate, fan: Fate, thermal: Fate) {
    function Of(kind: Kind): Fate {
      match kind
      case XcvrUpdater => xcvr
      case PsuUpdater => psu
      case DrawerUpdater => drawer
      case FanUpdater => fan
      case ThermalUpdater => thermal
    }
  }

  /** The updaters in the order in which they registered. */
  const UPDATERS: seq<Kind> := [XcvrUpdater, PsuUpdater, DrawerUpdater, FanUpdater, ThermalUpdater]

  function KeysFor(kind: Kind, names: seq<string>): seq<Key> {
    seq(|names|, i requires 0 <= i < |names| => Key(kind, names[i]))
  }

  function Disown(owned: map<Key, seq<nat>>, kind: Kind): map<Key, seq<nat>> {
    map k | k in owned && k.kind != kind :: owned[k]
  }

  /** One updater goes through its keys until one raises. */
  function Refill(c: Cache, db: Db, keys: seq<Key>): Step
    decreases |keys|
  {
    if keys == [] then Step(c, true)
    else
      var s := UpdateEntity(c, db, keys[0]);
      if s.ok then Refill(s.cache, db, keys[1..]) else s
  }

  function TakeTurn(c: Cache, db: Db, kind: Kind, fate: Fate): Step {
    match fate
    case RaisesBefore => Step(c, false)
    case RaisesListing => Step(c.(owned := Disown(c.owned, kind)), false)
    case Lists(names) => Refill(c.(owned := Disown(c.owned, kind)), db, KeysFor(kind, names))
  }

  /** Every updater gets its turn, even if an earlier one raised. */
  function TakeTurns(s: Step, db: Db, l: Listing, kinds: seq<Kind>): Step
    decreases |kinds|
  {
    if kinds == [] then s
    else
      var r := TakeTurn(s.cache, db, kinds[0], l.Of(kinds[0]));
      TakeTurns(Step(r.cache, s.ok && r.ok), db, l, kinds[1..])
  }

  function Reinit(c: Cache, db: Db, l: Listing): Step {
    TakeTurns(Step(Reset(db, c.owned), true), db, l, UPDATERS)
  }

  // ---------------------------------------------------------------- queries

  /** `get_next`. */
  function NextEntity(c: Cache, subId: Oid): Option<Oid> {
    NextIn(c.entities, subId)
  }

  // ---------------------------------------------------------------- the updater object

  class PhysicalTable {
    var entities: seq<Oid>
    var attrs: Attrs
    var nameToOid: map<string, nat>
    var pending: map<string, seq<Callback>>
    var owned: map<Key, seq<nat>>

    ghost function View(): Cache
      reads this
    {
      Cache(entities, attrs, nameToOid, pending, owned)
    }

    method SetAttributes(id: nat, settings: Settings)
      modifies this`attrs
      ensures attrs == SetAll(old(attrs), id, settings)
    {
      for i := 0 to |settings|
        invariant attrs == SetAll(old(attrs), id, settings[..i])
      {
        assert settings[..i + 1][..i] == settings[..i];
        attrs := attrs[(settings[i].0, id) := settings[i].1];
      }
      assert settings[..|settings|] == settings;
    }

    method EnterItems(k: Key, items: seq<Item>)
      modifies this
      ensures View() == EnterAll(old(View()), k, items)
    {
      for i := 0 to |items|
        invariant View() == EnterAll(old(View()), k, items[..i])
      {
        hide SetAll, Insort;
        assert items[..i + 1][..i] == items[..i];
        owned := owned[k := (if k in owned then owned[k] else []) + [items[i].id]];
        entities := Insort(entities, [items[i].id]);
        SetAttributes(items[i].id, items[i].settings);
      }
      assert items[..|items|] == items;
    }

    method RemoveIds(ids: seq<nat>)
      modifies this
      ensures View() == RemoveSubIds(old(View()), ids)
    {
      for i := 0 to |ids|
        invariant View() == RemoveSubIds(old(View()), ids[..i])
      {
        assert ids[..i + 1][..i] == ids[..i];
        var id := ids[i];
        if (Name, id) in attrs && attrs[(Name, id)].Str? {
          var name := attrs[(Name, id)].s;
          nameToOid := nameToOid - {name};
          pending := pending - {name};
        }
        entities := RemoveFirst(entities, [id]);
        attrs := map key | key in attrs && (key.1 != id || key.0.Descr?) :: attrs[key];
      }
      assert ids[..|ids|] == ids;
    }

    method RemoveEntityCache(k: Key)
      modifies this
      ensures View() == RemoveEntity(old(View()), k)
    {
      hide RemoveSubIds;
      if k in owned {
        RemoveIds(owned[k]);
        owned := owned - {k};
      }
    }

    method UpdateNameToOidMap(name: string, id: nat)
      modifies this
      ensures View() == Register(old(View()), name, id)
    {
      hide EnterAll, FanItems;
      nameToOid := nameToOid[name := id];
      if name in pending {
        var cbs := pending[name];
        ghost var start := View();
        for i := 0 to |cbs|
          invariant View() == RunCallbacks(start, id, cbs[..i])
        {
          assert cbs[..i + 1][..i] == cbs[..i];
          EnterItems(Key(FanUpdater, cbs[i].fan), FanItems(id, cbs[i]));
        }
        assert cbs[..|cbs|] == cbs;
        pending := pending - {name};
      }
    }

    method EnterNamedEntity(k: Key, id: nat, before: Settings, parent: string, after: Settings, sensors: seq<Item>)
      returns (ok: bool)
      modifies this
      ensures Step(View(), ok) == EnterNamed(old(View()), k, id, before, parent, after, sensors)
    {
      hide Register, SetAll, EnterAll, Insort;
      owned := owned[k := (if k in owned then owned[k] else []) + [id]];
      UpdateNameToOidMap(k.name, id);
      entities := Insort(entities, [id]);
      SetAttributes(id, before);
      if parent !in nameToOid { return false; }
      SetAttributes(id, [(ContainedIn, Int(nameToOid[parent]))] + after);
      EnterItems(k, sensors);
      return true;
    }

    method Update(db: Db, k: Key) returns (ok: bool)
      modifies this
      ensures Step(View(), ok) == UpdateEntity(old(View()), db, k)
    {
      hide EnterAll, EnterNamed, RemoveEntity, FanItems, XcvrItems, PsuSensors, PsuSettings, ThermalItem;
      var name := k.name;
      match k.kind
      case XcvrUpdater =>
        if name !in db.ifindex || name !in db.xcvr { return true; }
        if db.xcvr[name].sfpType.None? { return false; }
        if db.xcvr[name].sfpType.value != "RJ45" {
          EnterItems(k, XcvrItems(db.ifindex[name], name, db.xcvr[name]));
        }
        return true;
      case PsuUpdater =>
        if name !in db.psu { return true; }
        var info := db.psu[name];
        if !info.present { RemoveEntityCache(k); return true; }
        if name !in db.relation || db.relation[name].position.None? { return false; }
        var position := db.relation[name].position.value;
        ok := EnterNamedEntity(k, PsuId(position), PsuSettings(name, position, info), db.relation[name].parent,
                               [(Fru, FruOf(info.removable))], PsuSensors(PsuId(position), name, info));
      case DrawerUpdater =>
        if name !in db.drawer { return true; }
        var info := db.drawer[name];
        if !info.present { RemoveEntityCache(k); return true; }
        if name !in db.relation { return true; }
        if db.relation[name].position.None? { return false; }
        var position := db.relation[name].position.value;
        ok := EnterNamedEntity(k, FanDrawerId(position), DrawerSettings(name, position), db.relation[name].parent,
          DrawerDetails(info), []);
      case FanUpdater =>
        if name !in db.fan { return true; }
        var info := db.fan[name];
        if !info.present { RemoveEntityCache(k); return true; }
        if name !in db.relation || db.relation[name].position.None? { return false; }
        var cb := Callback(db.relation[name].parent, db.relation[name].position.value, name, info);
        if cb.parent in nameToOid {
          EnterItems(k, FanItems(nameToOid[cb.parent], cb));
        } else {
          pending := pending[cb.parent := (if cb.parent in pending then pending[cb.parent] else []) + [cb]];
        }
        return true;
      case ThermalUpdater =>
        if name !in db.thermal { return true; }
        if !Available(db.thermal[name].temperature) { RemoveEntityCache(k); return true; }
        if name !in db.relation { return true; }
        if db.relation[name].position.None? { return false; }
        var parent := db.relation[name].parent;
        if parent in nameToOid && nameToOid[parent] == CHASSIS_SUB_ID {
          EnterItems(k, [ThermalItem(db.relation[name].position.value, name, db.thermal[name])]);
        }
        return true;
    }

    /** The keys of one updater, until one raises. */
    method GoThrough(db: Db, kind: Kind, names: seq<string>) returns (ok: bool)
      modifies this
      ensures Step(View(), ok) == Refill(old(View()), db, KeysFor(kind, names))
    {
      hide UpdateEntity;
      ghost var keys := KeysFor(kind, names);
      for i := 0 to |names|
        invariant Refill(old(View()), db, keys) == Refill(View(), db, keys[i..])
      {
        var fine := Update(db, Key(kind, names[i]));
        if !fine { return false; }
      }
      return true;
    }

    method ReinitData(db: Db, l: Listing) returns (ok: bool)
      modifies this
      ensures Step(View(), ok) == Reinit(old(View()), db, l)
    {
      hide Refill, SetAll, Insort, Disown;
      var c := Reset(db, owned);
      assert c.owned == owned;
      hide Reset;
      entities, attrs, nameToOid, pending := c.entities, c.attrs, c.nameToOid, c.pending;
      ok := true;
      for u := 0 to |UPDATERS|
        invariant TakeTurns(Step(View(), ok), db, l, UPDATERS[u..]) == Reinit(old(View()), db, l)
      {
        var kind := UPDATERS[u];
        match l.Of(kind)
        case RaisesBefore => ok := false;
        case RaisesListing => owned, ok := Disown(owned, kind), false;
        case Lists(names) =>
          owned := Disown(owned, kind);
          var fine := GoThrough(db, kind, names);
          ok := ok && fine;
      }
    }
  }
}
