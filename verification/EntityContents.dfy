/** What the attribute maps hold: for every kind of entity the class, description, name, versions,
    position, container and replaceability it carries after an update, after a callback, after any
    sequence of messages and after a reinit. */
module EntityContents {
  import opened Common
  import opened OidOrder
  import opened EntityIndex
  import opened EntityCache
  import opened EntityConfluence
  import opened EntityKeys
  import opened EntityListing
  import A = EntityAttributes
  import R = EntityRuns
  import T = EntityTheory
  import U = EntityUndo

  // ---------------------------------------------------------------- tables

  /** The attributes of one entity (`entPhysicalTable` of RFC 2737); `None` is not set. */
  datatype Table = Table(class_: int, descr: string, name: string, container: int, fru: int,
                         position: Option<int>, hwVersion: Option<string>, serial: Option<string>,
                         mfgName: Option<string>, modelName: Option<string>) {

    function Of(f: Field): Option<Value> {
      match f
      case Class => Some(Int(class_))
      case Descr => Some(Str(descr))
      case Name => Some(Str(name))
      case ContainedIn => Some(Int(container))
      case Fru => Some(Int(fru))
      case RelPos => if position.Some? then Some(Int(position.value)) else None
      case HwVersion => Text(hwVersion)
      case Serial => Text(serial)
      case MfgName => Text(mfgName)
      case ModelName => Text(modelName)
    }

    static function Text(s: Option<string>): Option<Value> {
      if s.Some? then Some(Str(s.value)) else None
    }
  }

  datatype Entity = Entity(id: nat, table: Table)

  /** The database has a value. */
  predicate Known(s: string) {
    s != "" && s != "N/A" && s != "None"
  }

  function IfKnown(s: string): Option<string> {
    if Known(s) then Some(s) else None
  }

  /** A PSU's model and serial number may be empty. */
  function UnlessNull(s: string): Option<string> {
    if s != "N/A" && s != "None" then Some(s) else None
  }

  function Replaceable(removable: bool): int {
    if removable then 1 else 2
  }

  function ChassisTable(serial: string): Table {
    Table(3, "chassis 1", "chassis 1", 0, 2, None, None, Some(serial), None, None)
  }

  function MgmtTable(): Table {
    Table(12, "MGMT", "MGMT", 1, 2, Some(1), None, None, None, None)
  }

  function SensorTable(descr: string, position: nat, container: nat): Table {
    Table(8, descr, descr, container, 2, Some(position), None, None, None, None)
  }

  function PortTable(name: string, info: XcvrInfo): Table {
    Table(10, info.descr, name, 1, Replaceable(info.removable), Some(-1), Some(info.hwVersion), Some(info.serial),
          Some(info.mfg), Some(info.model))
  }

  function PsuTable(name: string, position: nat, container: nat, info: PsuInfo): Table {
    Table(6, name, name, container, Replaceable(info.removable), Some(position), None, UnlessNull(info.serial), None,
          UnlessNull(info.model))
  }

  function DrawerTable(name: string, position: nat, container: nat, info: DrawerInfo): Table {
    Table(5, name, name, container, Replaceable(info.removable), Some(position), None, IfKnown(info.serial), None,
          IfKnown(info.model))
  }

  function FanTable(name: string, position: nat, container: nat, info: FanInfo): Table {
    Table(7, name, name, container, Replaceable(info.removable), Some(position), None, IfKnown(info.serial), None,
          IfKnown(info.model))
  }

  function ThermalTable(name: string, position: nat, info: ThermalInfo): Table {
    Table(8, name, name, 200000000, Replaceable(info.removable), Some(position), None, None, None, None)
  }

  // ---------------------------------------------------------------- what a message is to enter

  function WantedPort(ifindex: nat, name: string, info: XcvrInfo): seq<Entity> {
    var id := 1000000000 + ifindex * 100;
    [Entity(id, PortTable(name, info))]
    + seq(|info.dom|, i requires 0 <= i < |info.dom| =>
        Entity(id + SensorDigits(info.dom[i].sensor), SensorTable(info.dom[i].descr, i + 1, id)))
  }

  function WantedMonitor(psu: nat, value: string, s: PsuSensor, descr: string, position: nat): seq<Entity> {
    if Known(value) then [Entity(psu + 240000 + MonitorDigits(s), SensorTable(descr, position, psu))] else []
  }

  function WantedPsu(name: string, position: nat, container: nat, info: PsuInfo): seq<Entity> {
    var id := 600000000 + position * 1000000;
    [Entity(id, PsuTable(name, position, container, info))]
    + WantedMonitor(id, info.current, PsuCurrent, "Current for " + name, 3)
    + WantedMonitor(id, info.power, PsuPower, "Power for " + name, 2)
    + WantedMonitor(id, info.temperature, PsuTemperature, "Temperature for " + name, 1)
    + WantedMonitor(id, info.voltage, PsuVoltage, "Voltage for " + name, 4)
  }

  function WantedFan(name: string, position: nat, container: nat, info: FanInfo): seq<Entity> {
    var id := FanDigits(container, position);
    [Entity(id, FanTable(name, position, container, info))]
    + if Known(info.speed) then [Entity(id + 20, SensorTable("Tachometers for " + name, 1, id))] else []
  }

  /** The parent and position of a key in PHYSICAL_ENTITY_INFO, once the parent has an index. */
  function Place(db: Db, names: map<string, nat>, name: string): Option<(nat, nat)> {
    if name in db.relation && db.relation[name].position.Some? && db.relation[name].parent in names
    then Some((names[db.relation[name].parent], db.relation[name].position.value)) else None
  }

  /** The entities a set message about the key is to enter, once the names are as in `names`. */
  function Wanted(db: Db, names: map<string, nat>, k: Key): seq<Entity> {
    var name := k.name;
    match k.kind
    case XcvrUpdater =>
      if name in db.ifindex && name in db.xcvr && db.xcvr[name].sfpType.Some? && db.xcvr[name].sfpType.value != "RJ45"
      then WantedPort(db.ifindex[name], name, db.xcvr[name]) else []
    case PsuUpdater =>
      if name in db.psu && db.psu[name].present && Place(db, names, name).Some?
      then
        var (container, position) := Place(db, names, name).value;
        WantedPsu(name, position, container, db.psu[name])
      else []
    case DrawerUpdater =>
      if name in db.drawer && db.drawer[name].present && Place(db, names, name).Some?
      then
        var (container, position) := Place(db, names, name).value;
        [Entity(500000000 + position * 1000000, DrawerTable(name, position, container, db.drawer[name]))]
      else []
    case FanUpdater =>
      if name in db.fan && db.fan[name].present && Place(db, names, name).Some?
      then
        var (container, position) := Place(db, names, name).value;
        WantedFan(name, position, container, db.fan[name])
      else []
    case ThermalUpdater =>
      if name in db.thermal && Known(db.thermal[name].temperature) && Place(db, names, name).Some? &&
         Place(db, names, name).value.0 == 1
      then
        var position := Place(db, names, name).value.1;
        [Entity(200990010 + position * 100, ThermalTable(name, position, db.thermal[name]))]
      else []
  }

  // ---------------------------------------------------------------- settings and tables

  /** The settings set exactly what the table says. */
  ghost predicate Sets(s: Settings, t: Table) {
    && (forall i :: 0 <= i < |s| ==> t.Of(s[i].0) == Some(s[i].1))
    && forall f :: t.Of(f).Some? ==> exists i :: 0 <= i < |s| && s[i].0 == f
  }

  /** Items that enter exactly these entities. */
  ghost predicate Enters(items: seq<Item>, es: seq<Entity>) {
    |items| == |es| && forall i :: 0 <= i < |items| ==> items[i].id == es[i].id && Sets(items[i].settings, es[i].table)
  }

  lemma {:induction false} SetAllTable(attrs: Attrs, id: nat, s: Settings, t: Table, f: Field)
    requires forall i :: 0 <= i < |s| ==> t.Of(s[i].0) == Some(s[i].1)
    ensures Lookup(SetAll(attrs, id, s), (f, id)) ==
            if exists i :: 0 <= i < |s| && s[i].0 == f then t.Of(f) else Lookup(attrs, (f, id))
  {
    if s != [] {
      var front := s[..|s| - 1];
      SetAllTable(attrs, id, front, t, f);
      assert forall i :: 0 <= i < |front| ==> front[i] == s[i];
    }
  }

  /** The entity carries the table, and what the table does not mention is as it was. */
  ghost predicate Carries(after: Attrs, before: Attrs, e: Entity) {
    forall f :: Lookup(after, (f, e.id)) == if e.table.Of(f).Some? then e.table.Of(f) else Lookup(before, (f, e.id))
  }

  ghost predicate Alone(es: seq<Entity>, i: nat) {
    i < |es| && forall j :: 0 <= j < |es| && j != i ==> es[j].id != es[i].id
  }

  lemma {:induction false} AttrsElsewhereKept(attrs: Attrs, items: seq<Item>, a: (Field, nat))
    requires forall j :: 0 <= j < |items| ==> items[j].id != a.1
    ensures Lookup(AttrsOf(attrs, items), a) == Lookup(attrs, a)
  {
    if items != [] {
      hide SetAll;
      var front, last := items[..|items| - 1], items[|items| - 1];
      AttrsElsewhereKept(attrs, front, a);
      U.SetAllOther(AttrsOf(attrs, front), last.id, last.settings, a);
    }
  }

  lemma {:induction false} AttrsOfTable(attrs: Attrs, items: seq<Item>, es: seq<Entity>, i: nat)
    requires Enters(items, es) && Alone(es, i)
    ensures Carries(AttrsOf(attrs, items), attrs, es[i])
    decreases |items|
  {
    hide SetAll, Sets;
    var n := |items| - 1;
    var front, last := items[..n], items[n];
    forall f ensures Lookup(AttrsOf(attrs, items), (f, es[i].id)) ==
                     if es[i].table.Of(f).Some? then es[i].table.Of(f) else Lookup(attrs, (f, es[i].id))
    {
      if i == n {
        AttrsElsewhereKept(attrs, front, (f, last.id));
        SetsTable(AttrsOf(attrs, front), last.id, last.settings, es[i].table, f);
      } else {
        AttrsOfTable(attrs, front, es[..n], i);
        U.SetAllOther(AttrsOf(attrs, front), last.id, last.settings, (f, es[i].id));
        assert es[..n][i] == es[i];
      }
    }
  }

  lemma SetsTable(attrs: Attrs, id: nat, s: Settings, t: Table, f: Field)
    requires Sets(s, t)
    ensures Lookup(SetAll(attrs, id, s), (f, id)) == if t.Of(f).Some? then t.Of(f) else Lookup(attrs, (f, id))
  {
    SetAllTable(attrs, id, s, t, f);
  }

  // ---------------------------------------------------------------- each kind enters its tables

  lemma SensorSets(descr: string, position: nat, container: nat)
    ensures Sets(SensorSettings(descr, position, container), SensorTable(descr, position, container))
  {
    var s := SensorSettings(descr, position, container);
    assert s[0].0 == Class && s[1].0 == Descr && s[2].0 == Name && s[3].0 == RelPos && s[4].0 == ContainedIn &&
           s[5].0 == Fru;
  }

  lemma FanSets(container: nat, cb: Callback)
    ensures Sets(FanSettings(container, cb), FanTable(cb.fan, cb.position, container, cb.info))
  {
    var s := FanSettings(container, cb);
    assert s[0].0 == Class && s[1].0 == Descr && s[2].0 == Name && s[3].0 == RelPos && s[4].0 == ContainedIn &&
           s[|s| - 1].0 == Fru;
    assert Known(cb.info.serial) ==> s[5].0 == Serial;
    assert Known(cb.info.model) ==> s[|s| - 2].0 == ModelName;
  }

  lemma FanEnters(container: nat, cb: Callback)
    ensures Enters(FanItems(container, cb), WantedFan(cb.fan, cb.position, container, cb.info))
  {
    hide Sets, FanSettings, FanTable, SensorSettings, SensorTable;
    FanSets(container, cb);
    SensorSets("Tachometers for " + cb.fan, 1, FanId(container, cb.position));
  }

  lemma PortSets(name: string, info: XcvrInfo)
    ensures Sets([(Class, Int(PORT_CLASS)), (HwVersion, Str(info.hwVersion)), (Serial, Str(info.serial)),
                  (MfgName, Str(info.mfg)), (ModelName, Str(info.model)), (ContainedIn, Int(CHASSIS_SUB_ID)),
                  (Fru, FruOf(info.removable)), (RelPos, Int(-1)), (Descr, Str(info.descr)), (Name, Str(name))],
                 PortTable(name, info))
  {
    var s: Settings := [(Class, Int(PORT_CLASS)), (HwVersion, Str(info.hwVersion)), (Serial, Str(info.serial)),
      (MfgName, Str(info.mfg)), (ModelName, Str(info.model)), (ContainedIn, Int(CHASSIS_SUB_ID)),
      (Fru, FruOf(info.removable)), (RelPos, Int(-1)), (Descr, Str(info.descr)), (Name, Str(name))];
    assert s[0].0 == Class && s[1].0 == HwVersion && s[2].0 == Serial && s[3].0 == MfgName && s[4].0 == ModelName &&
           s[5].0 == ContainedIn && s[6].0 == Fru && s[7].0 == RelPos && s[8].0 == Descr && s[9].0 == Name;
  }

  lemma PortEnters(ifindex: nat, name: string, info: XcvrInfo)
    ensures Enters(XcvrItems(ifindex, name, info), WantedPort(ifindex, name, info))
  {
    hide SensorSettings, SensorTable, Sets, PortTable;
    var id := TransceiverId(ifindex);
    PortSets(name, info);
    forall i | 0 <= i < |info.dom|
      ensures Sets(SensorSettings(info.dom[i].descr, i + 1, id), SensorTable(info.dom[i].descr, i + 1, id))
    {
      SensorSets(info.dom[i].descr, i + 1, id);
    }
  }

  function PsuFull(name: string, position: nat, container: nat, info: PsuInfo): Settings {
    PsuSettings(name, position, info) + ([(ContainedIn, Int(container))] + [(Fru, FruOf(info.removable))])
  }

  lemma PsuAgrees(name: string, position: nat, container: nat, info: PsuInfo, i: nat)
    requires i < |PsuFull(name, position, container, info)|
    ensures var s := PsuFull(name, position, container, info);
      PsuTable(name, position, container, info).Of(s[i].0) == Some(s[i].1)
  {
  }

  lemma PsuSets(id: nat, name: string, position: nat, container: nat, info: PsuInfo)
    ensures Sets(NamedItem(id, PsuSettings(name, position, info), container, [(Fru, FruOf(info.removable))]).settings,
                 PsuTable(name, position, container, info))
  {
    var s := PsuFull(name, position, container, info);
    assert s[0].0 == Class && s[1].0 == Descr && s[2].0 == Name && s[|s| - 3].0 == RelPos &&
           s[|s| - 2].0 == ContainedIn && s[|s| - 1].0 == Fru;
    assert !NullStr(info.model) ==> s[3].0 == ModelName;
    assert !NullStr(info.serial) ==> s[|s| - 4].0 == Serial;
    hide PsuSettings;
    forall i | 0 <= i < |s| ensures PsuTable(name, position, container, info).Of(s[i].0) == Some(s[i].1) {
      PsuAgrees(name, position, container, info, i);
    }
  }

  lemma MonitorEnters(psu: nat, name: string, value: string, s: PsuSensor)
    ensures Enters(if Available(value) then [PsuSensorItem(psu, name, s)] else [],
                   match s
                   case PsuCurrent => WantedMonitor(psu, value, s, "Current for " + name, 3)
                   case PsuPower => WantedMonitor(psu, value, s, "Power for " + name, 2)
                   case PsuTemperature => WantedMonitor(psu, value, s, "Temperature for " + name, 1)
                   case PsuVoltage => WantedMonitor(psu, value, s, "Voltage for " + name, 4))
  {
    hide Sets, SensorSettings, SensorTable;
    SensorSets("Current for " + name, 3, psu);
    SensorSets("Power for " + name, 2, psu);
    SensorSets("Temperature for " + name, 1, psu);
    SensorSets("Voltage for " + name, 4, psu);
  }

  lemma EntersAppend(a: seq<Item>, b: seq<Item>, es: seq<Entity>, fs: seq<Entity>)
    requires Enters(a, es) && Enters(b, fs)
    ensures Enters(a + b, es + fs)
  {
    hide Sets;
  }

  lemma PsuEnters(name: string, position: nat, container: nat, info: PsuInfo)
    ensures Enters([NamedItem(PsuId(position), PsuSettings(name, position, info), container,
                              [(Fru, FruOf(info.removable))])] + PsuSensors(PsuId(position), name, info),
                   WantedPsu(name, position, container, info))
  {
    hide Sets, PsuSettings, PsuTable, PsuSensorItem, WantedMonitor, Available, Enters;
    var id := PsuId(position);
    var item := NamedItem(id, PsuSettings(name, position, info), container, [(Fru, FruOf(info.removable))]);
    assert Enters([item], [Entity(id, PsuTable(name, position, container, info))]) by {
      PsuSets(id, name, position, container, info);
      OneEnters(item, Entity(id, PsuTable(name, position, container, info)));
    }
    MonitorEnters(id, name, info.current, PsuCurrent);
    MonitorEnters(id, name, info.power, PsuPower);
    MonitorEnters(id, name, info.temperature, PsuTemperature);
    MonitorEnters(id, name, info.voltage, PsuVoltage);
    var a := if Available(info.current) then [PsuSensorItem(id, name, PsuCurrent)] else [];
    var b := if Available(info.power) then [PsuSensorItem(id, name, PsuPower)] else [];
    var c := if Available(info.temperature) then [PsuSensorItem(id, name, PsuTemperature)] else [];
    var d := if Available(info.voltage) then [PsuSensorItem(id, name, PsuVoltage)] else [];
    var wa := WantedMonitor(id, info.current, PsuCurrent, "Current for " + name, 3);
    var wb := WantedMonitor(id, info.power, PsuPower, "Power for " + name, 2);
    var wc := WantedMonitor(id, info.temperature, PsuTemperature, "Temperature for " + name, 1);
    var wd := WantedMonitor(id, info.voltage, PsuVoltage, "Voltage for " + name, 4);
    var we := [Entity(id, PsuTable(name, position, container, info))];
    EntersAppend([item], a, we, wa);
    EntersAppend([item] + a, b, we + wa, wb);
    EntersAppend([item] + a + b, c, we + wa + wb, wc);
    EntersAppend([item] + a + b + c, d, we + wa + wb + wc, wd);
    assert [item] + (a + b + c + d) == [item] + a + b + c + d;
  }

  lemma OneEnters(item: Item, e: Entity)
    requires item.id == e.id && Sets(item.settings, e.table)
    ensures Enters([item], [e])
  {
    hide Sets;
  }

  lemma DrawerSets(name: string, position: nat, container: nat, info: DrawerInfo)
    ensures Sets(DrawerSettings(name, position) + ([(ContainedIn, Int(container))] + DrawerDetails(info)),
                 DrawerTable(name, position, container, info))
  {
    var s := DrawerSettings(name, position) + ([(ContainedIn, Int(container))] + DrawerDetails(info));
    assert s[0].0 == Class && s[1].0 == Descr && s[2].0 == Name && s[3].0 == RelPos && s[4].0 == ContainedIn &&
           s[|s| - 1].0 == Fru;
    assert Known(info.model) ==> s[5].0 == ModelName;
    assert Known(info.serial) ==> s[|s| - 2].0 == Serial;
  }

  lemma DrawerEnters(name: string, position: nat, container: nat, info: DrawerInfo)
    ensures Enters([NamedItem(FanDrawerId(position), DrawerSettings(name, position), container, DrawerDetails(info))],
                   [Entity(500000000 + position * 1000000, DrawerTable(name, position, container, info))])
  {
    hide Sets, DrawerSettings, DrawerDetails, DrawerTable;
    DrawerSets(name, position, container, info);
    OneEnters(NamedItem(FanDrawerId(position), DrawerSettings(name, position), container, DrawerDetails(info)),
              Entity(500000000 + position * 1000000, DrawerTable(name, position, container, info)));
  }

  lemma ThermalEnters(name: string, position: nat, info: ThermalInfo)
    ensures Enters([ThermalItem(position, name, info)],
                   [Entity(200990010 + position * 100, ThermalTable(name, position, info))])
  {
    var item := ThermalItem(position, name, info);
    var s := item.settings;
    assert s[0].0 == Class && s[1].0 == Descr && s[2].0 == Name && s[3].0 == RelPos && s[4].0 == ContainedIn &&
           s[5].0 == Fru;
    OneEnters(item, Entity(200990010 + position * 100, ThermalTable(name, position, info)));
  }

  /** The items of a set message are the wanted entities, index by index and attribute by
      attribute. */
  lemma ItemsWanted(db: Db, names: map<string, nat>, k: Key)
    ensures Enters(ItemsOf(db, names, k), Wanted(db, names, k))
  {
    hide Sets, XcvrItems, WantedPort, PsuSettings, PsuSensors, NamedItem, WantedPsu, DrawerSettings, DrawerDetails,
      DrawerTable, FanItems, WantedFan, ThermalItem, ThermalTable;
    var name := k.name;
    match k.kind
    case XcvrUpdater =>
      if name in db.ifindex && name in db.xcvr { PortEnters(db.ifindex[name], name, db.xcvr[name]); }
    case PsuUpdater =>
      if name in db.psu && Place(db, names, name).Some? {
        var (container, position) := Place(db, names, name).value;
        PsuEnters(name, position, container, db.psu[name]);
      }
    case DrawerUpdater =>
      if name in db.drawer && Place(db, names, name).Some? {
        var (container, position) := Place(db, names, name).value;
        DrawerEnters(name, position, container, db.drawer[name]);
      }
    case FanUpdater =>
      if name in db.fan && Place(db, names, name).Some? {
        var (container, position) := Place(db, names, name).value;
        FanEnters(container, Callback(db.relation[name].parent, position, name, db.fan[name]));
      }
    case ThermalUpdater =>
      if name in db.thermal && Place(db, names, name).Some? {
        ThermalEnters(name, Place(db, names, name).value.1, db.thermal[name]);
      }
  }

  // ---------------------------------------------------------------- one update

  /** The names once the message has registered its own, if it does. */
  function NamesThen(c: Cache, db: Db, k: Key): map<string, nat> {
    if Registered(db, k).Some? then c.nameToOid[k.name := Registered(db, k).value] else c.nameToOid
  }

  /** The cache once the message has registered its name, with waiting callbacks run. */
  function Named(c: Cache, db: Db, k: Key): Cache {
    if Registered(db, k).Some? then Register(c, k.name, Registered(db, k).value) else c
  }

  lemma NamedEntersAll(c: Cache, k: Key, id: nat, before: Settings, parent: string, after: Settings,
                       sensors: seq<Item>)
    requires !k.kind.FanUpdater? && EnterNamed(c, k, id, before, parent, after, sensors).ok
    ensures parent in c.nameToOid[k.name := id]
    ensures EnterNamed(c, k, id, before, parent, after, sensors).cache ==
            EnterAll(Register(c, k.name, id), k,
                     [NamedItem(id, before, c.nameToOid[k.name := id][parent], after)] + sensors)
  {
    hide Register, EnterAll, SetAll, Insort, Own, NamedItem;
    OwnKeeps(c, k, id);
    RegisterNames(c, k.name, id);
    RegisterNames(Own(c, k, id), k.name, id);
    EnterNamedIsRegisterThenEnter(c, k, id, before, parent, after, sensors);
  }

  /** Whatever the cache, a message that goes through and has something to enter enters it. */
  lemma UpdateEnters(c: Cache, db: Db, k: Key)
    requires UpdateEntity(c, db, k).ok && ItemsOf(db, NamesThen(c, db, k), k) != []
    ensures UpdateEntity(c, db, k).cache == EnterAll(Named(c, db, k), k, ItemsOf(db, NamesThen(c, db, k), k))
  {
    hide EnterAll, RemoveEntity, EnterNamed, Register, PsuSensors, PsuSettings, DrawerSettings, DrawerDetails,
      NamedItem, XcvrItems, FanItems, ThermalItem;
    var name := k.name;
    match k.kind
    case PsuUpdater =>
      var (position, info) := (db.relation[name].position.value, db.psu[name]);
      NamedEntersAll(c, k, PsuId(position), PsuSettings(name, position, info), db.relation[name].parent,
                     [(Fru, FruOf(info.removable))], PsuSensors(PsuId(position), name, info));
    case DrawerUpdater =>
      var (position, info) := (db.relation[name].position.value, db.drawer[name]);
      NamedEntersAll(c, k, FanDrawerId(position), DrawerSettings(name, position), db.relation[name].parent,
                     DrawerDetails(info), []);
      var item := NamedItem(FanDrawerId(position), DrawerSettings(name, position),
                            NamesThen(c, db, k)[db.relation[name].parent], DrawerDetails(info));
      assert [item] + [] == [item];
    case _ =>
  }

  /** An index that no fan of this container can have. */
  predicate NoFanOf(container: nat, id: nat) {
    id == container || id % 100 in {10, 30, 40, 50}
  }

  lemma FansMiss(container: nat, cb: Callback, id: nat)
    requires container > 1 && container % 100 == 0 && NoFanOf(container, id)
    ensures forall i :: 0 <= i < |FanItems(container, cb)| ==> FanItems(container, cb)[i].id != id
  {
  }

  lemma {:induction false} CallbacksMiss(c: Cache, container: nat, cbs: seq<Callback>, a: (Field, nat))
    requires forall m :: 0 <= m < |cbs| ==>
      forall i :: 0 <= i < |FanItems(container, cbs[m])| ==> FanItems(container, cbs[m])[i].id != a.1
    ensures Lookup(RunCallbacks(c, container, cbs).attrs, a) == Lookup(c.attrs, a)
    decreases |cbs|
  {
    hide EnterAll, FanItems;
    if cbs != [] {
      var front, cb := cbs[..|cbs| - 1], cbs[|cbs| - 1];
      forall m | 0 <= m < |front| ensures
        forall i :: 0 <= i < |FanItems(container, front[m])| ==> FanItems(container, front[m])[i].id != a.1 {
        assert front[m] == cbs[m];
      }
      CallbacksMiss(c, container, front, a);
      assert cbs[|cbs| - 1] == cb;
      A.EnterAllElsewhere(RunCallbacks(c, container, front), Key(FanUpdater, cb.fan), FanItems(container, cb), a);
    }
  }

  lemma RegisterMisses(c: Cache, name: string, id: nat, a: (Field, nat))
    requires id > 1 && id % 100 == 0 && NoFanOf(id, a.1)
    ensures Lookup(Register(c, name, id).attrs, a) == Lookup(c.attrs, a)
  {
    hide RunCallbacks, FanItems;
    if name in c.pending {
      var cbs := c.pending[name];
      forall m | 0 <= m < |cbs|
        ensures forall i :: 0 <= i < |FanItems(id, cbs[m])| ==> FanItems(id, cbs[m])[i].id != a.1
      {
        FansMiss(id, cbs[m], a.1);
      }
      CallbacksMiss(c.(nameToOid := c.nameToOid[name := id]), id, cbs, a);
    }
  }

  lemma PsuIds(name: string, position: nat, container: nat, info: PsuInfo, i: nat)
    requires i < |WantedPsu(name, position, container, info)|
    ensures var (id, e) := (600000000 + position * 1000000, WantedPsu(name, position, container, info)[i].id);
      e == id || exists s: PsuSensor :: e == id + 240000 + MonitorDigits(s)
  {
    hide PsuTable, SensorTable, Known, MonitorDigits;
  }

  lemma LastDigits(hundreds: nat, low: nat)
    requires low < 100
    ensures (hundreds * 100 + low) % 100 == low
  {
  }

  lemma PsuMisses(name: string, position: nat, container: nat, info: PsuInfo, i: nat)
    requires i < |WantedPsu(name, position, container, info)|
    ensures NoFanOf(600000000 + position * 1000000, WantedPsu(name, position, container, info)[i].id)
  {
    PsuIds(name, position, container, info, i);
    hide WantedPsu;
    var (id, e) := (600000000 + position * 1000000, WantedPsu(name, position, container, info)[i].id);
    if e != id {
      var s: PsuSensor :| e == id + 240000 + MonitorDigits(s);
      LastDigits(6002400 + position * 10000, MonitorDigits(s));
      assert e == (6002400 + position * 10000) * 100 + MonitorDigits(s);
    }
  }

  /** No entity of a PSU or drawer has the index of one of its fans. */
  lemma WantedMisses(db: Db, names: map<string, nat>, k: Key, i: nat)
    requires Registered(db, k).Some? && i < |Wanted(db, names, k)|
    ensures var id := Registered(db, k).value;
      id > 1 && id % 100 == 0 && NoFanOf(id, Wanted(db, names, k)[i].id)
  {
    hide WantedPsu, DrawerTable, NoFanOf;
    var (container, position) := Place(db, names, k.name).value;
    if k.kind.PsuUpdater? {
      PsuMisses(k.name, position, container, db.psu[k.name], i);
      LastDigits(6000000 + position * 10000, 0);
    } else {
      SelfMisses(500000000 + position * 1000000);
      LastDigits(5000000 + position * 10000, 0);
    }
  }

  lemma SelfMisses(id: nat)
    ensures NoFanOf(id, id)
  {
  }

  /** After a set message that went through, in whatever state it came, each entity it was to enter
      carries its table: class, description, name, position, container, replaceability and what
      the database knows of versions, serial number, manufacturer and model. */
  lemma UpdateCarries(c: Cache, db: Db, k: Key, i: nat)
    requires UpdateEntity(c, db, k).ok && Alone(Wanted(db, NamesThen(c, db, k), k), i)
    ensures Carries(UpdateEntity(c, db, k).cache.attrs, c.attrs, Wanted(db, NamesThen(c, db, k), k)[i])
  {
    hide UpdateEntity, ItemsOf, Wanted, EnterAll, AttrsOf, Alone, Register, Registered;
    var names := NamesThen(c, db, k);
    var items, es := ItemsOf(db, names, k), Wanted(db, names, k);
    ItemsWanted(db, names, k);
    AloneBound(es, i);
    assert items != [] by { EntersSize(items, es); }
    UpdateEnters(c, db, k);
    var base := Named(c, db, k);
    EnterAllAttrs(base, k, items);
    AttrsOfTable(base.attrs, items, es, i);
    forall f ensures Lookup(base.attrs, (f, es[i].id)) == Lookup(c.attrs, (f, es[i].id)) {
      if Registered(db, k).Some? {
        WantedMisses(db, names, k, i);
        RegisterMisses(c, k.name, Registered(db, k).value, (f, es[i].id));
      }
    }
  }

  lemma AloneBound(es: seq<Entity>, i: nat)
    requires Alone(es, i)
    ensures i < |es|
  {
  }

  lemma EntersSize(items: seq<Item>, es: seq<Entity>)
    requires Enters(items, es)
    ensures |items| == |es|
    ensures forall i :: 0 <= i < |items| ==> items[i].id == es[i].id
  {
  }

  /** Only sensors of one transceiver can share an index. */
  lemma WantedAlone(db: Db, names: map<string, nat>, k: Key, i: nat)
    requires i < |Wanted(db, names, k)|
    requires k.kind.XcvrUpdater? ==>
      forall m, n :: 0 <= m < n < |db.xcvr[k.name].dom| ==>
        SensorDigits(db.xcvr[k.name].dom[m].sensor) != SensorDigits(db.xcvr[k.name].dom[n].sensor)
    ensures Alone(Wanted(db, names, k), i)
  {
    hide PsuTable, DrawerTable, FanTable, ThermalTable, PortTable, SensorTable, Known;
  }

  // ---------------------------------------------------------------- every other outcome

  /** What the database lacks for the message to go through. */
  predicate Raises(c: Cache, db: Db, k: Key) {
    var name := k.name;
    var placed := name in db.relation && db.relation[name].position.Some?;
    match k.kind
    case XcvrUpdater => name in db.ifindex && name in db.xcvr && db.xcvr[name].sfpType.None?
    case PsuUpdater =>
      name in db.psu && db.psu[name].present && !(placed && db.relation[name].parent in NamesThen(c, db, k))
    case DrawerUpdater =>
      name in db.drawer && db.drawer[name].present && name in db.relation &&
      !(placed && db.relation[name].parent in NamesThen(c, db, k))
    case FanUpdater => name in db.fan && db.fan[name].present && !placed
    case ThermalUpdater =>
      name in db.thermal && Known(db.thermal[name].temperature) && name in db.relation && !placed
  }

  /** The database says that the entity is not there. */
  predicate Absent(db: Db, k: Key) {
    match k.kind
    case XcvrUpdater => false
    case PsuUpdater => k.name in db.psu && !db.psu[k.name].present
    case DrawerUpdater => k.name in db.drawer && !db.drawer[k.name].present
    case FanUpdater => k.name in db.fan && !db.fan[k.name].present
    case ThermalUpdater => k.name in db.thermal && !Known(db.thermal[k.name].temperature)
  }

  lemma NamedOk(c: Cache, k: Key, id: nat, before: Settings, parent: string, after: Settings, sensors: seq<Item>)
    requires !k.kind.FanUpdater?
    ensures EnterNamed(c, k, id, before, parent, after, sensors).ok <==> parent in c.nameToOid[k.name := id]
  {
    hide Register, EnterAll, SetAll, Insort, Own;
    OwnKeeps(c, k, id);
    RegisterNames(Own(c, k, id), k.name, id);
  }

  /** A set message raises exactly if something it needs is missing. */
  lemma RaisesIff(c: Cache, db: Db, k: Key)
    ensures UpdateEntity(c, db, k).ok <==> !Raises(c, db, k)
  {
    hide EnterAll, RemoveEntity, EnterNamed, XcvrItems, FanItems, ThermalItem, PsuSensors, PsuSettings, DrawerSettings,
      DrawerDetails;
    var name := k.name;
    if name in db.relation && db.relation[name].position.Some? {
      var (position, parent) := (db.relation[name].position.value, db.relation[name].parent);
      if k.kind.PsuUpdater? && name in db.psu {
        var info := db.psu[name];
        NamedOk(c, k, PsuId(position), PsuSettings(name, position, info), parent, [(Fru, FruOf(info.removable))],
                PsuSensors(PsuId(position), name, info));
      }
      if k.kind.DrawerUpdater? && name in db.drawer {
        NamedOk(c, k, FanDrawerId(position), DrawerSettings(name, position), parent, DrawerDetails(db.drawer[name]),
                []);
      }
    }
  }

  /** A set message about what is not there does what a del message does. */
  lemma AbsentIsDel(c: Cache, db: Db, k: Key)
    requires Absent(db, k)
    ensures UpdateEntity(c, db, k) == HandleMessage(c, db, DelMsg(k))
  {
    hide RemoveEntity;
  }

  /** A fan whose parent has no index waits for it. */
  lemma FanWaits(c: Cache, db: Db, k: Key)
    requires k.kind.FanUpdater? && k.name in db.fan && db.fan[k.name].present && !Raises(c, db, k)
    requires db.relation[k.name].parent !in c.nameToOid
    ensures var (parent, position) := (db.relation[k.name].parent, db.relation[k.name].position.value);
      var s := UpdateEntity(c, db, k);
      s.ok && s.cache == c.(pending := s.cache.pending) && s.cache.pending.Keys == c.pending.Keys + {parent} &&
      (forall n :: n != parent ==> Waiting(s.cache, n) == Waiting(c, n)) &&
      Waiting(s.cache, parent) == Waiting(c, parent) + [Callback(parent, position, k.name, db.fan[k.name])]
  {
  }

  /** Every other message with nothing to enter leaves the cache as it is. */
  lemma NothingToDo(c: Cache, db: Db, k: Key)
    requires !Raises(c, db, k) && !Absent(db, k) && Wanted(db, NamesThen(c, db, k), k) == []
    requires FanCallback(db, k).Some? ==> FanCallback(db, k).value.parent in c.nameToOid
    ensures UpdateEntity(c, db, k) == Step(c, true)
  {
    hide EnterAll, RemoveEntity, EnterNamed, XcvrItems, FanItems, ThermalItem, PsuSensors, PsuSettings, DrawerSettings,
      DrawerDetails;
  }

  // ---------------------------------------------------------------- callbacks

  ghost predicate PositionsDiffer(cbs: seq<Callback>, m: nat) {
    m < |cbs| && forall j :: 0 <= j < |cbs| && j != m ==> cbs[j].position != cbs[m].position
  }

  lemma FansDiffer(container: nat, a: Callback, b: Callback, i: nat)
    requires i < |WantedFan(a.fan, a.position, container, a.info)|
    requires a.position != b.position && container > 1 && container % 100 == 0
    ensures forall j :: 0 <= j < |FanItems(container, b)| ==>
              FanItems(container, b)[j].id != WantedFan(a.fan, a.position, container, a.info)[i].id
  {
  }

  lemma FanAlone(name: string, position: nat, container: nat, info: FanInfo, i: nat)
    requires i < |WantedFan(name, position, container, info)|
    ensures Alone(WantedFan(name, position, container, info), i)
  {
  }

  lemma {:induction false} CallbacksCarry(c: Cache, container: nat, cbs: seq<Callback>, m: nat, i: nat)
    requires PositionsDiffer(cbs, m) && container > 1 && container % 100 == 0
    requires i < |WantedFan(cbs[m].fan, cbs[m].position, container, cbs[m].info)|
    ensures Carries(RunCallbacks(c, container, cbs).attrs, c.attrs,
                    WantedFan(cbs[m].fan, cbs[m].position, container, cbs[m].info)[i])
    decreases |cbs|
  {
    hide EnterAll, FanItems, WantedFan, AttrsOf;
    var n := |cbs| - 1;
    var front, cb := cbs[..n], cbs[n];
    var c1, items := RunCallbacks(c, container, front), FanItems(container, cb);
    var es := WantedFan(cbs[m].fan, cbs[m].position, container, cbs[m].info);
    forall f ensures Lookup(RunCallbacks(c, container, cbs).attrs, (f, es[i].id)) ==
                     if es[i].table.Of(f).Some? then es[i].table.Of(f) else Lookup(c.attrs, (f, es[i].id))
    {
      if m == n {
        forall j | 0 <= j < |front| ensures
          forall l :: 0 <= l < |FanItems(container, front[j])| ==> FanItems(container, front[j])[l].id != es[i].id {
          assert front[j] == cbs[j];
          FansDiffer(container, cbs[m], cbs[j], i);
        }
        CallbacksMiss(c, container, front, (f, es[i].id));
        EnterAllAttrs(c1, Key(FanUpdater, cb.fan), items);
        FanEnters(container, cb);
        FanAlone(cb.fan, cb.position, container, cb.info, i);
        AttrsOfTable(c1.attrs, items, es, i);
      } else {
        assert front[m] == cbs[m];
        assert PositionsDiffer(front, m);
        CallbacksCarry(c, container, front, m, i);
        FansDiffer(container, cbs[m], cb, i);
        A.EnterAllElsewhere(c1, Key(FanUpdater, cb.fan), items, (f, es[i].id));
      }
    }
  }

  lemma NamedHasItems(c: Cache, db: Db, k: Key)
    requires UpdateEntity(c, db, k).ok && Registered(db, k).Some?
    ensures ItemsOf(db, NamesThen(c, db, k), k) != []
    ensures Registered(db, k).value > 1 && Registered(db, k).value % 100 == 0
  {
    hide EnterAll, RemoveEntity, EnterNamed, Register, PsuSensors, PsuSettings, DrawerSettings, DrawerDetails,
      NamedItem;
    var name := k.name;
    if k.kind.PsuUpdater? {
      var (position, info) := (db.relation[name].position.value, db.psu[name]);
      NamedEntersAll(c, k, PsuId(position), PsuSettings(name, position, info), db.relation[name].parent,
                     [(Fru, FruOf(info.removable))], PsuSensors(PsuId(position), name, info));
    } else {
      var (position, info) := (db.relation[name].position.value, db.drawer[name]);
      NamedEntersAll(c, k, FanDrawerId(position), DrawerSettings(name, position), db.relation[name].parent,
                     DrawerDetails(info), []);
    }
  }

  lemma WaitingFanIs(cb: Callback, container: nat, i: nat, id: nat)
    requires container > 1 && container % 100 == 0 && NoFanOf(container, id)
    requires i < |WantedFan(cb.fan, cb.position, container, cb.info)|
    ensures WantedFan(cb.fan, cb.position, container, cb.info)[i].id != id
  {
  }

  /** The parent's own entities leave a fan that waited as its callback entered it. */
  lemma CallbackKept(c: Cache, db: Db, k: Key, m: nat, i: nat, f: Field)
    requires UpdateEntity(c, db, k).ok && Registered(db, k).Some? && m < |Waiting(c, k.name)|
    requires var cb := Waiting(c, k.name)[m];
      i < |WantedFan(cb.fan, cb.position, Registered(db, k).value, cb.info)|
    ensures var (id, cb) := (Registered(db, k).value, Waiting(c, k.name)[m]);
      var e := WantedFan(cb.fan, cb.position, id, cb.info)[i];
      Lookup(UpdateEntity(c, db, k).cache.attrs, (f, e.id)) ==
      Lookup(RunCallbacks(c.(nameToOid := c.nameToOid[k.name := id]), id, Waiting(c, k.name)).attrs, (f, e.id))
  {
    var id, cbs := Registered(db, k).value, Waiting(c, k.name);
    var names := NamesThen(c, db, k);
    var items := ItemsOf(db, names, k);
    NamedHasItems(c, db, k);
    hide UpdateEntity, ItemsOf, WantedFan, EnterAll, RunCallbacks, Registered;
    UpdateEnters(c, db, k);
    var base, e := Register(c, k.name, id), WantedFan(cbs[m].fan, cbs[m].position, id, cbs[m].info)[i];
    RegisterRuns(c, k.name, id);
    forall j | 0 <= j < |items| ensures items[j].id != e.id {
      ItemsWanted(db, names, k);
      EntersSize(items, Wanted(db, names, k));
      WantedMisses(db, names, k, j);
      WaitingFanIs(cbs[m], id, i, items[j].id);
    }
    A.EnterAllElsewhere(base, k, items, (f, e.id));
  }

  /** A fan that waited for its parent carries, once the parent's message has gone through, the
      table it would carry had the parent come first; so does its tachometer. */
  lemma CallbackCarries(c: Cache, db: Db, k: Key, m: nat, i: nat)
    requires UpdateEntity(c, db, k).ok && Registered(db, k).Some? && PositionsDiffer(Waiting(c, k.name), m)
    requires var cb := Waiting(c, k.name)[m];
      i < |WantedFan(cb.fan, cb.position, Registered(db, k).value, cb.info)|
    ensures var cb := Waiting(c, k.name)[m];
      Carries(UpdateEntity(c, db, k).cache.attrs, c.attrs,
              WantedFan(cb.fan, cb.position, Registered(db, k).value, cb.info)[i])
  {
    NamedHasItems(c, db, k);
    hide UpdateEntity, WantedFan, RunCallbacks, Registered;
    var id, cbs := Registered(db, k).value, Waiting(c, k.name);
    var e := WantedFan(cbs[m].fan, cbs[m].position, id, cbs[m].info)[i];
    CallbacksCarry(c.(nameToOid := c.nameToOid[k.name := id]), id, cbs, m, i);
    forall f ensures Lookup(UpdateEntity(c, db, k).cache.attrs, (f, e.id)) ==
                     if e.table.Of(f).Some? then e.table.Of(f) else Lookup(c.attrs, (f, e.id))
    {
      CallbackKept(c, db, k, m, i, f);
    }
  }

  /** What the table mentions is as it says. */
  ghost predicate Shows(attrs: Attrs, e: Entity) {
    forall f :: e.table.Of(f).Some? ==> Lookup(attrs, (f, e.id)) == e.table.Of(f)
  }

  lemma {:induction false} CallbacksShow(c: Cache, container: nat, cbs: seq<Callback>, m: nat, i: nat)
    requires m < |cbs| && forall j :: m < j < |cbs| ==> cbs[j].position != cbs[m].position
    requires container > 1 && container % 100 == 0
    requires i < |WantedFan(cbs[m].fan, cbs[m].position, container, cbs[m].info)|
    ensures Shows(RunCallbacks(c, container, cbs).attrs,
                  WantedFan(cbs[m].fan, cbs[m].position, container, cbs[m].info)[i])
    decreases |cbs|
  {
    hide EnterAll, FanItems, WantedFan, AttrsOf;
    var n := |cbs| - 1;
    var front, cb := cbs[..n], cbs[n];
    var c1, items := RunCallbacks(c, container, front), FanItems(container, cb);
    var es := WantedFan(cbs[m].fan, cbs[m].position, container, cbs[m].info);
    if m == n {
      EnterAllAttrs(c1, Key(FanUpdater, cb.fan), items);
      FanEnters(container, cb);
      FanAlone(cb.fan, cb.position, container, cb.info, i);
      AttrsOfTable(c1.attrs, items, es, i);
    } else {
      assert front[m] == cbs[m];
      CallbacksShow(c, container, front, m, i);
      FansDiffer(container, cbs[m], cb, i);
      forall f | es[i].table.Of(f).Some?
        ensures Lookup(RunCallbacks(c, container, cbs).attrs, (f, es[i].id)) == es[i].table.Of(f)
      {
        A.EnterAllElsewhere(c1, Key(FanUpdater, cb.fan), items, (f, es[i].id));
      }
    }
  }

  /** Of fans that waited for one parent at the same position, the last one deferred shows: its
      callback ran last. */
  lemma LastCallbackShows(c: Cache, db: Db, k: Key, m: nat, i: nat)
    requires UpdateEntity(c, db, k).ok && Registered(db, k).Some? && m < |Waiting(c, k.name)|
    requires var cbs := Waiting(c, k.name);
      (forall j :: m < j < |cbs| ==> cbs[j].position != cbs[m].position) &&
      i < |WantedFan(cbs[m].fan, cbs[m].position, Registered(db, k).value, cbs[m].info)|
    ensures var cb := Waiting(c, k.name)[m];
      Shows(UpdateEntity(c, db, k).cache.attrs,
            WantedFan(cb.fan, cb.position, Registered(db, k).value, cb.info)[i])
  {
    NamedHasItems(c, db, k);
    hide UpdateEntity, WantedFan, RunCallbacks, Registered;
    var id, cbs := Registered(db, k).value, Waiting(c, k.name);
    var e := WantedFan(cbs[m].fan, cbs[m].position, id, cbs[m].info)[i];
    CallbacksShow(c.(nameToOid := c.nameToOid[k.name := id]), id, cbs, m, i);
    forall f | e.table.Of(f).Some? ensures Lookup(UpdateEntity(c, db, k).cache.attrs, (f, e.id)) == e.table.Of(f) {
      CallbackKept(c, db, k, m, i, f);
    }
  }

  /** The callbacks of those of the keys that are fans of the parent, in order. */
  function CallbacksFor(db: Db, keys: seq<Key>, parent: string): seq<Callback> {
    if keys == [] then []
    else
      var cb := FanCallback(db, keys[0]);
      (if cb.Some? && cb.value.parent == parent then [cb.value] else []) + CallbacksFor(db, keys[1..], parent)
  }

  /** Fans of unknown parents wait in the order in which their messages came. */
  lemma {:induction false} WaitingInOrder(c: Cache, db: Db, keys: seq<Key>, parent: string)
    requires forall k :: k in keys ==> FanCallback(db, k).Some? && FanCallback(db, k).value.parent !in c.nameToOid
    ensures Refill(c, db, keys).ok
    ensures Waiting(Refill(c, db, keys).cache, parent) == Waiting(c, parent) + CallbacksFor(db, keys, parent)
    decreases |keys|
  {
    hide EnterAll, RemoveEntity;
    if keys != [] {
      var cb := FanCallback(db, keys[0]).value;
      assert keys[0] in keys;
      var c1 := Defer(c, cb);
      assert UpdateEntity(c, db, keys[0]) == Step(c1, true);
      WaitingInOrder(c1, db, keys[1..], parent);
      assert Waiting(c1, parent) == Waiting(c, parent) + if cb.parent == parent then [cb] else [];
    }
  }

  // ---------------------------------------------------------------- any messages

  lemma Described(db: Db, c0: Cache, keys: seq<Key>)
    requires Independent(db, c0, KeySet(keys)) && Distinct(keys)
    ensures Refill(c0, db, keys).ok
    ensures var (u, names) := (KeySet(keys), FinalNames(db, c0, KeySet(keys)));
      var c := Refill(c0, db, keys).cache;
      Holds(db, names, Owners(db, names, u), c0, Entered(db, u, names.Keys), c) && c.nameToOid == names
  {
    hide Setting, Refill, Holds, Independent, Owners, Entered, Registered;
    var u := KeySet(keys);
    var names := FinalNames(db, c0, u);
    SettingBuilt(db, c0, u);
    InitiallyReflects(db, names, Owners(db, names, u), c0, u);
    assert {} + u == u;
    RefillReflects(db, names, Owners(db, names, u), c0, u, {}, c0, keys);
    var c := Refill(c0, db, keys).cache;
    forall n ensures n in c.nameToOid <==> n in names {
      if Introduces(db, u, n) {
        var k := Introducer(db, u, n);
        assert k in u && k.name == n;
      }
    }
    assert c.nameToOid.Keys == names.Keys;
  }

  lemma GeneratedByWanted(db: Db, names: map<string, nat>, k: Key, i: nat)
    requires i < |Wanted(db, names, k)|
    ensures i < |ItemsOf(db, names, k)| && ItemsOf(db, names, k)[i].id == Wanted(db, names, k)[i].id
    ensures FanCallback(db, k).Some? ==> FanCallback(db, k).value.parent in names
  {
    ItemsWanted(db, names, k);
    hide Wanted, ItemsOf, Enters;
    EntersSize(ItemsOf(db, names, k), Wanted(db, names, k));
    assert ItemsOf(db, names, k) != [];
    if FanCallback(db, k).Some? { FanKnown(db, names, k); }
  }

  lemma FanKnown(db: Db, names: map<string, nat>, k: Key)
    requires ItemsOf(db, names, k) != [] && FanCallback(db, k).Some?
    ensures FanCallback(db, k).value.parent in names
  {
  }

  /** After set messages about independent keys in any order, fans before or after their parents:
      each entity of each key carries its table, unless another key has the same index. */
  lemma MessagesCarry(db: Db, c0: Cache, keys: seq<Key>, k: Key, i: nat)
    requires Independent(db, c0, KeySet(keys)) && Distinct(keys) && k in keys
    requires var names := FinalNames(db, c0, KeySet(keys));
      Alone(Wanted(db, names, k), i) && !Clash(db, names, KeySet(keys), Wanted(db, names, k)[i].id)
    ensures Carries(Refill(c0, db, keys).cache.attrs, c0.attrs, Wanted(db, FinalNames(db, c0, KeySet(keys)), k)[i])
  {
    hide Refill, Independent, FinalNames, Owners, Clash, Wanted, ItemsOf, AttrsOf, FanCallback, Usable, Registered,
      Alone;
    var u := KeySet(keys);
    var names := FinalNames(db, c0, u);
    var home, es, items := Owners(db, names, u), Wanted(db, names, k), ItemsOf(db, names, k);
    AloneBound(es, i);
    var id := es[i].id;
    Described(db, c0, keys);
    GeneratedByWanted(db, names, k, i);
    FitsBuilt(db, c0, u, k);
    assert Homed(home, k, items[i].id);
    ClashShared(db, names, u, id);
    assert home[id] == Some(k) && k in Entered(db, u, names.Keys);
    ItemsWanted(db, names, k);
    AttrsOfTable(map[], items, es, i);
    var c := Refill(c0, db, keys).cache;
    forall f ensures Lookup(c.attrs, (f, id)) ==
                     if es[i].table.Of(f).Some? then es[i].table.Of(f) else Lookup(c0.attrs, (f, id))
    {
      assert Lookup(c.attrs, (f, id)) == AttrIn(db, names, home, c0, Entered(db, u, names.Keys), (f, id));
      assert Lookup(AttrsOf(map[], items), (f, id)) == es[i].table.Of(f);
    }
  }

  /** The attributes of every other index are as they were. */
  lemma MessagesKeep(db: Db, c0: Cache, keys: seq<Key>, id: nat, f: Field)
    requires Independent(db, c0, KeySet(keys)) && Distinct(keys)
    requires forall k, e :: k in keys && e in Wanted(db, FinalNames(db, c0, KeySet(keys)), k) ==> e.id != id
    ensures Lookup(Refill(c0, db, keys).cache.attrs, (f, id)) == Lookup(c0.attrs, (f, id))
  {
    hide Refill, Independent, FinalNames, Wanted, ItemsOf, AttrsOf;
    var u := KeySet(keys);
    var names := FinalNames(db, c0, u);
    Described(db, c0, keys);
    forall k, i | k in u && 0 <= i < |ItemsOf(db, names, k)| ensures ItemsOf(db, names, k)[i].id != id {
      ItemsWanted(db, names, k);
      EntersSize(ItemsOf(db, names, k), Wanted(db, names, k));
      assert Wanted(db, names, k)[i] in Wanted(db, names, k);
    }
    assert id !in Owners(db, names, u);
    var c := Refill(c0, db, keys).cache;
    assert Lookup(c.attrs, (f, id)) ==
           AttrIn(db, names, Owners(db, names, u), c0, Entered(db, u, names.Keys), (f, id));
  }

  // ---------------------------------------------------------------- a reinit

  /** The entity has exactly these attributes. */
  ghost predicate Holding(attrs: Attrs, e: Entity) {
    forall f :: Lookup(attrs, (f, e.id)) == e.table.Of(f)
  }

  lemma ChassisSets(serial: string)
    ensures Sets([(Class, Int(CHASSIS_CLASS)), (Serial, Str(serial)), (Name, Str(CHASSIS_NAME)),
                  (Descr, Str(CHASSIS_NAME)), (ContainedIn, Int(0)), (Fru, FruOf(false))], ChassisTable(serial))
    ensures Sets([(Class, Int(CPU_CLASS)), (ContainedIn, Int(CHASSIS_SUB_ID)), (RelPos, Int(1)),
                  (Descr, Str("MGMT")), (Name, Str("MGMT")), (Fru, FruOf(false))], MgmtTable())
  {
    var s: Settings := [(Class, Int(CHASSIS_CLASS)), (Serial, Str(serial)), (Name, Str(CHASSIS_NAME)),
                        (Descr, Str(CHASSIS_NAME)), (ContainedIn, Int(0)), (Fru, FruOf(false))];
    assert s[0].0 == Class && s[1].0 == Serial && s[2].0 == Name && s[3].0 == Descr && s[4].0 == ContainedIn &&
           s[5].0 == Fru;
    var m: Settings := [(Class, Int(CPU_CLASS)), (ContainedIn, Int(CHASSIS_SUB_ID)), (RelPos, Int(1)),
                        (Descr, Str("MGMT")), (Name, Str("MGMT")), (Fru, FruOf(false))];
    assert m[0].0 == Class && m[1].0 == ContainedIn && m[2].0 == RelPos && m[3].0 == Descr && m[4].0 == Name &&
           m[5].0 == Fru;
  }

  /** The state a reinit starts the updaters from: chassis and management node with their tables,
      and nothing else. */
  lemma ResetHolds(db: Db, owned: map<Key, seq<nat>>, id: nat, f: Field)
    ensures Lookup(Reset(db, owned).attrs, (f, id)) ==
            if id == 1 then ChassisTable(db.chassisSerial).Of(f)
            else if id == 200000000 then MgmtTable().Of(f) else None
  {
    hide SetAll, Insort, Sets, ChassisTable, MgmtTable;
    ChassisSets(db.chassisSerial);
    var chassis: Settings := [(Class, Int(CHASSIS_CLASS)), (Serial, Str(db.chassisSerial)), (Name, Str(CHASSIS_NAME)),
                              (Descr, Str(CHASSIS_NAME)), (ContainedIn, Int(0)), (Fru, FruOf(false))];
    var mgmt: Settings := [(Class, Int(CPU_CLASS)), (ContainedIn, Int(CHASSIS_SUB_ID)), (RelPos, Int(1)),
                           (Descr, Str("MGMT")), (Name, Str("MGMT")), (Fru, FruOf(false))];
    var a := SetAll(map[], 1, chassis);
    assert Reset(db, owned).attrs == SetAll(a, 200000000, mgmt);
    if id == 1 {
      SetsTable(map[], 1, chassis, ChassisTable(db.chassisSerial), f);
    } else {
      U.SetAllOther(map[], 1, chassis, (f, id));
    }
    if id == 200000000 {
      SetsTable(a, id, mgmt, MgmtTable(), f);
    } else {
      U.SetAllOther(a, 200000000, mgmt, (f, id));
    }
  }

  lemma NamesLarge(db: Db, u: set<Key>, n: string)
    requires n in FinalNames(db, Reset(db, map[]), u)
    ensures var id := FinalNames(db, Reset(db, map[]), u)[n];
      id == 1 || id >= 500000000
  {
    hide SetAll, Insort;
    assert Reset(db, map[]).nameToOid == map[CHASSIS_NAME := 1];
  }

  /** No key generates the index of the chassis or of the management node. */
  lemma FixedApart(db: Db, u: set<Key>, k: Key, i: nat)
    requires i < |Wanted(db, FinalNames(db, Reset(db, map[]), u), k)|
    ensures Wanted(db, FinalNames(db, Reset(db, map[]), u), k)[i].id !in {1, 200000000}
  {
    hide Reset, FinalNames, PsuTable, DrawerTable, FanTable, ThermalTable, PortTable, SensorTable, Known;
    var names := FinalNames(db, Reset(db, map[]), u);
    if Place(db, names, k.name).Some? { NamesLarge(db, u, db.relation[k.name].parent); }
  }

  /** The keys a reinit that goes through lists. */
  function Listed(l: Listing): seq<Key> {
    KeysOfTurns(l, UPDATERS)
  }

  /** A listing without repetitions of keys that are independent on their own. */
  ghost predicate GoesThrough(db: Db, l: Listing) {
    && AllListed(l) && (forall kind: Kind :: NoRepeats(l.Of(kind).names))
    && Independent(db, Reset(db, map[]), KeySet(Listed(l)))
  }

  ghost function NamesListed(db: Db, l: Listing): map<string, nat> {
    FinalNames(db, Reset(db, map[]), KeySet(Listed(l)))
  }

  lemma ReinitRuns(c: Cache, db: Db, l: Listing)
    requires GoesThrough(db, l)
    ensures Distinct(Listed(l)) && Refill(Reset(db, map[]), db, Listed(l)).ok
    ensures Reinit(c, db, l) == Refill(Reset(db, map[]), db, Listed(l))
  {
    hide Refill, Reinit, Reset, Independent, Holds;
    TurnsDistinct(l, UPDATERS);
    Described(db, Reset(db, map[]), Listed(l));
    ReinitIsRefill(c, db, l);
  }

  /** After a reinit, whatever was there before, chassis and management node have exactly their
      attributes. */
  lemma ReinitFixed(c: Cache, db: Db, l: Listing)
    requires GoesThrough(db, l)
    ensures Holding(Reinit(c, db, l).cache.attrs, Entity(1, ChassisTable(db.chassisSerial)))
    ensures Holding(Reinit(c, db, l).cache.attrs, Entity(200000000, MgmtTable()))
  {
    hide Reinit, Refill, Reset, Independent, Wanted, ChassisTable, MgmtTable;
    ReinitRuns(c, db, l);
    var names := NamesListed(db, l);
    forall k, e | k in Listed(l) && e in Wanted(db, names, k) ensures e.id !in {1, 200000000} {
      var i :| 0 <= i < |Wanted(db, names, k)| && Wanted(db, names, k)[i] == e;
      FixedApart(db, KeySet(Listed(l)), k, i);
    }
    forall f ensures Lookup(Reinit(c, db, l).cache.attrs, (f, 1)) == ChassisTable(db.chassisSerial).Of(f) {
      MessagesKeep(db, Reset(db, map[]), Listed(l), 1, f);
      ResetHolds(db, map[], 1, f);
    }
    forall f ensures Lookup(Reinit(c, db, l).cache.attrs, (f, 200000000)) == MgmtTable().Of(f) {
      MessagesKeep(db, Reset(db, map[]), Listed(l), 200000000, f);
      ResetHolds(db, map[], 200000000, f);
    }
  }

  /** Every entity of every listed key has exactly the attributes of its table, unless another key
      has the same index... */
  lemma ReinitHolds(c: Cache, db: Db, l: Listing, k: Key, i: nat)
    requires GoesThrough(db, l) && k in Listed(l) && Alone(Wanted(db, NamesListed(db, l), k), i)
    requires !Clash(db, NamesListed(db, l), KeySet(Listed(l)), Wanted(db, NamesListed(db, l), k)[i].id)
    ensures Holding(Reinit(c, db, l).cache.attrs, Wanted(db, NamesListed(db, l), k)[i])
  {
    hide Reinit, Refill, Reset, Independent, Wanted, Clash;
    ReinitRuns(c, db, l);
    var e := Wanted(db, NamesListed(db, l), k)[i];
    MessagesCarry(db, Reset(db, map[]), Listed(l), k, i);
    FixedApart(db, KeySet(Listed(l)), k, i);
    forall f ensures Lookup(Reinit(c, db, l).cache.attrs, (f, e.id)) == e.table.Of(f) {
      ResetHolds(db, map[], e.id, f);
    }
  }

  /** ...and no other index has any attribute. */
  lemma ReinitNothingElse(c: Cache, db: Db, l: Listing, id: nat, f: Field)
    requires GoesThrough(db, l) && id != 1 && id != 200000000
    requires forall k, e :: k in Listed(l) && e in Wanted(db, NamesListed(db, l), k) ==> e.id != id
    ensures (f, id) !in Reinit(c, db, l).cache.attrs
  {
    hide Reinit, Refill, Reset, Independent, Wanted;
    ReinitRuns(c, db, l);
    MessagesKeep(db, Reset(db, map[]), Listed(l), id, f);
    ResetHolds(db, map[], id, f);
  }

  lemma FirstRegistered(db: Db, names: map<string, nat>, k: Key)
    requires (k.kind.PsuUpdater? || k.kind.DrawerUpdater?) && Wanted(db, names, k) != []
    ensures Registered(db, k) == Some(Wanted(db, names, k)[0].id)
  {
    hide PsuTable, DrawerTable, WantedMonitor;
  }

  lemma ChassisNamed(db: Db, u: set<Key>)
    requires Independent(db, Reset(db, map[]), u)
    ensures Lookup(FinalNames(db, Reset(db, map[]), u), "chassis 1") == Some(1)
  {
    hide SetAll, Insort, Usable, Registered, Sorted;
    assert Reset(db, map[]).nameToOid == map[CHASSIS_NAME := 1];
    if Introduces(db, u, CHASSIS_NAME) {
      var k := Introducer(db, u, CHASSIS_NAME);
    }
  }

  /** The name map has the chassis, and each PSU and drawer under the index of its entity. */
  lemma ReinitNames(c: Cache, db: Db, l: Listing, k: Key)
    requires GoesThrough(db, l) && k in Listed(l) && (k.kind.PsuUpdater? || k.kind.DrawerUpdater?)
    requires Wanted(db, NamesListed(db, l), k) != []
    ensures Lookup(NamesListed(db, l), "chassis 1") == Some(1)
    ensures Lookup(NamesListed(db, l), k.name) == Some(Wanted(db, NamesListed(db, l), k)[0].id)
    ensures Reinit(c, db, l).cache.nameToOid == NamesListed(db, l)
  {
    hide Reinit, Refill, Independent, Wanted, Registered, Reset, FinalNames, Holds;
    ReinitRuns(c, db, l);
    Described(db, Reset(db, map[]), Listed(l));
    FirstRegistered(db, NamesListed(db, l), k);
    NameBuilt(db, Reset(db, map[]), KeySet(Listed(l)), k);
    ChassisNamed(db, KeySet(Listed(l)));
  }

  // ---------------------------------------------------------------- the list after a reinit

  ghost predicate WantedSomewhere(db: Db, names: map<string, nat>, u: set<Key>, id: nat) {
    exists k, i :: k in u && 0 <= i < |Wanted(db, names, k)| && Wanted(db, names, k)[i].id == id
  }

  lemma OwnsWanted(db: Db, c0: Cache, keys: seq<Key>, id: nat)
    requires Independent(db, c0, KeySet(keys)) && Distinct(keys) && c0.owned == map[]
    ensures T.Owned(Refill(c0, db, keys).cache.owned, id) <==>
            WantedSomewhere(db, FinalNames(db, c0, KeySet(keys)), KeySet(keys), id)
  {
    hide Refill, Independent, FinalNames, Wanted, ItemsOf, AttrIn, Owners, FanCallback, Enters;
    var u := KeySet(keys);
    var names, c := FinalNames(db, c0, u), Refill(c0, db, keys).cache;
    var done := Entered(db, u, names.Keys);
    Described(db, c0, keys);
    if T.Owned(c.owned, id) {
      var k :| k in c.owned && id in c.owned[k];
      assert Lookup(c.owned, k) == OwnedIn(db, names, c0, done, k);
      var i :| 0 <= i < |IdsOf(ItemsOf(db, names, k))| && IdsOf(ItemsOf(db, names, k))[i] == id;
      ItemsWanted(db, names, k);
      EntersSize(ItemsOf(db, names, k), Wanted(db, names, k));
      assert Wanted(db, names, k)[i].id == id;
    }
    if WantedSomewhere(db, names, u, id) {
      var k, i :| k in u && 0 <= i < |Wanted(db, names, k)| && Wanted(db, names, k)[i].id == id;
      GeneratedByWanted(db, names, k, i);
      assert k in done;
      assert Lookup(c.owned, k) == OwnedIn(db, names, c0, done, k);
      assert IdsOf(ItemsOf(db, names, k))[i] == id;
    }
  }

  /** After a reinit the list has exactly the indexes of chassis, management node and the entities
      of the listed keys. */
  lemma ReinitLists(c: Cache, db: Db, l: Listing, id: nat)
    requires GoesThrough(db, l)
    ensures [id] in Reinit(c, db, l).cache.entities <==>
            id == 1 || id == 200000000 || WantedSomewhere(db, NamesListed(db, l), KeySet(Listed(l)), id)
  {
    hide Reinit, Refill, Independent, WantedSomewhere, T.Owned, T.Conserved;
    ReinitRuns(c, db, l);
    ResetOwned(db);
    OwnsWanted(db, Reset(db, map[]), Listed(l), id);
    R.ReinitConservedIff(c, db, l);
    T.ListedIffOwned(Reinit(c, db, l).cache, id);
  }

  lemma ResetOwned(db: Db)
    ensures Reset(db, map[]).owned == map[]
  {
  }
}
