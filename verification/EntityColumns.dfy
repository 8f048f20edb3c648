/** The columns of the physical table: after any run of the entity cache, a walk through one
    of them lists every entity present once, though the list repeats shared indexes. */
module EntityColumns {
  import opened Common
  import opened OidOrder
  import Encodings
  import opened Mib
  import opened MibTheory
  import opened MibWalk
  import opened ColumnWalk
  import opened ListColumns
  import opened EntityIndex
  import opened EntityCache
  import opened EntityTheory
  import opened EntityRuns
  import Struct

  predicate IsNumeric(f: Field) {
    f.Class? || f.ContainedIn? || f.RelPos? || f.Fru?
  }

  function ColumnType(f: Field): Encodings.ValueType {
    if IsNumeric(f) then Encodings.INTEGER else Encodings.OCTET_STRING
  }

  /** What the getters give for an entity without the attribute. */
  function Default(f: Field): Value {
    match f
    case Class => Int(2)
    case RelPos => Int(2)
    case ContainedIn => Int(-1)
    case Fru => Int(2)
    case _ => Str("")
  }

  /** The getter of a column (`get_phy_class` and so on); `encode` is the text encoding. */
  function Cell(c: Cache, f: Field, encode: string -> Struct.Bytes): Oid -> Option<Raw> {
    k => if k !in c.entities then None
         else match if |k| == 1 && (f, k[0]) in c.attrs then c.attrs[(f, k[0])] else Default(f)
              case Int(n) => Some(Integer(n))
              case Str(s) => Some(Text(encode(s)))
  }

  // ---------------------------------------------------------------- attributes suit their columns

  ghost predicate Suits(f: Field, v: Value) {
    v.Int? <==> IsNumeric(f)
  }

  ghost predicate Suited(attrs: Attrs) {
    forall k :: k in attrs ==> Suits(k.0, attrs[k])
  }

  ghost predicate SettingsSuit(s: Settings) {
    forall i :: 0 <= i < |s| ==> Suits(s[i].0, s[i].1)
  }

  ghost predicate ItemsSuit(items: seq<Item>) {
    forall i :: 0 <= i < |items| ==> SettingsSuit(items[i].settings)
  }

  lemma {:induction false} SetAllSuited(attrs: Attrs, id: nat, s: Settings)
    requires Suited(attrs) && SettingsSuit(s)
    ensures Suited(SetAll(attrs, id, s))
  {
    if s != [] { SetAllSuited(attrs, id, s[..|s| - 1]); }
  }

  lemma {:induction false} EnterAllSuited(c: Cache, k: Key, items: seq<Item>)
    requires Suited(c.attrs) && ItemsSuit(items)
    ensures Suited(EnterAll(c, k, items).attrs)
  {
    if items != [] {
      hide SetAll, Suited, SettingsSuit, Insort;
      var front, last := items[..|items| - 1], items[|items| - 1];
      EnterAllSuited(c, k, front);
      SetAllSuited(EnterAll(c, k, front).attrs, last.id, last.settings);
    }
  }

  lemma FanItemsSuit(parentId: nat, cb: Callback)
    ensures ItemsSuit(FanItems(parentId, cb))
  {
  }

  lemma XcvrItemsSuit(ifindex: nat, name: string, info: XcvrInfo)
    ensures ItemsSuit(XcvrItems(ifindex, name, info))
  {
  }

  lemma PsuSensorSuits(psu: nat, name: string, s: PsuSensor)
    ensures SettingsSuit(PsuSensorItem(psu, name, s).settings)
  {
  }

  lemma PsuSuits(psu: nat, name: string, position: nat, info: PsuInfo)
    ensures SettingsSuit(PsuSettings(name, position, info))
    ensures ItemsSuit(PsuSensors(psu, name, info))
  {
    hide PsuSensorItem;
    forall s ensures SettingsSuit(PsuSensorItem(psu, name, s).settings) { PsuSensorSuits(psu, name, s); }
  }

  lemma DrawerSuits(name: string, position: nat, info: DrawerInfo)
    ensures SettingsSuit(DrawerSettings(name, position)) && SettingsSuit(DrawerDetails(info))
  {
  }

  lemma {:induction false} CallbacksSuited(c: Cache, id: nat, cbs: seq<Callback>)
    requires Suited(c.attrs)
    ensures Suited(RunCallbacks(c, id, cbs).attrs)
  {
    if cbs != [] {
      hide Suited, ItemsSuit, EnterAll, FanItems;
      var front, cb := cbs[..|cbs| - 1], cbs[|cbs| - 1];
      CallbacksSuited(c, id, front);
      FanItemsSuit(id, cb);
      EnterAllSuited(RunCallbacks(c, id, front), Key(FanUpdater, cb.fan), FanItems(id, cb));
    }
  }

  lemma EnterNamedSuited(c: Cache, k: Key, id: nat, before: Settings, parent: string, after: Settings,
                         sensors: seq<Item>)
    requires Suited(c.attrs) && SettingsSuit(before) && SettingsSuit(after) && ItemsSuit(sensors)
    ensures Suited(EnterNamed(c, k, id, before, parent, after, sensors).cache.attrs)
  {
    hide Suited, SetAll, EnterAll, RunCallbacks, Insort;
    var c1 := Own(c, k, id);
    var c2 := c1.(nameToOid := c1.nameToOid[k.name := id]);
    if k.name in c2.pending { CallbacksSuited(c2, id, c2.pending[k.name]); }
    var c3 := Register(c1, k.name, id);
    SetAllSuited(c3.attrs, id, before);
    var c4 := Enter(c3, Item(id, before));
    if parent in c4.nameToOid {
      var settings := [(ContainedIn, Int(c4.nameToOid[parent]))] + after;
      SetAllSuited(c4.attrs, id, settings);
      EnterAllSuited(c4.(attrs := SetAll(c4.attrs, id, settings)), k, sensors);
    }
  }

  lemma {:induction false} RemoveSubIdsSuited(c: Cache, ids: seq<nat>)
    requires Suited(c.attrs)
    ensures Suited(RemoveSubIds(c, ids).attrs)
  {
    if ids != [] { RemoveSubIdsSuited(c, ids[..|ids| - 1]); }
  }

  lemma RemoveSuited(c: Cache, k: Key)
    requires Suited(c.attrs)
    ensures Suited(RemoveEntity(c, k).attrs)
  {
    hide RemoveSubIds;
    if k in c.owned { RemoveSubIdsSuited(c, c.owned[k]); }
  }

  lemma UpdateSuited(c: Cache, db: Db, k: Key)
    requires Suited(c.attrs)
    ensures Suited(UpdateEntity(c, db, k).cache.attrs)
  {
    hide Suited, EnterAll, EnterNamed, RemoveEntity, FanItems, XcvrItems, PsuSensors, PsuSettings, DrawerSettings,
      DrawerDetails;
    RemoveSuited(c, k);
    var name := k.name;
    match k.kind
    case XcvrUpdater =>
      if name in db.ifindex && name in db.xcvr {
        XcvrItemsSuit(db.ifindex[name], name, db.xcvr[name]);
        EnterAllSuited(c, k, XcvrItems(db.ifindex[name], name, db.xcvr[name]));
      }
    case PsuUpdater =>
      if name in db.psu && name in db.relation && db.relation[name].position.Some? {
        var (position, info) := (db.relation[name].position.value, db.psu[name]);
        PsuSuits(PsuId(position), name, position, info);
        EnterNamedSuited(c, k, PsuId(position), PsuSettings(name, position, info), db.relation[name].parent,
                         [(Fru, FruOf(info.removable))], PsuSensors(PsuId(position), name, info));
      }
    case DrawerUpdater =>
      if name in db.drawer && name in db.relation && db.relation[name].position.Some? {
        var (position, info) := (db.relation[name].position.value, db.drawer[name]);
        DrawerSuits(name, position, info);
        EnterNamedSuited(c, k, FanDrawerId(position), DrawerSettings(name, position), db.relation[name].parent,
          DrawerDetails(info), []);
      }
    case FanUpdater =>
      if name in db.fan && name in db.relation && db.relation[name].position.Some? {
        var cb := Callback(db.relation[name].parent, db.relation[name].position.value, name, db.fan[name]);
        if cb.parent in c.nameToOid {
          FanItemsSuit(c.nameToOid[cb.parent], cb);
          EnterAllSuited(c, k, FanItems(c.nameToOid[cb.parent], cb));
        }
      }
    case ThermalUpdater =>
      if name in db.thermal && name in db.relation && db.relation[name].position.Some? {
        EnterAllSuited(c, k, [ThermalItem(db.relation[name].position.value, name, db.thermal[name])]);
      }
  }

  lemma {:induction false} RefillSuited(c: Cache, db: Db, keys: seq<Key>)
    requires Suited(c.attrs)
    ensures Suited(Refill(c, db, keys).cache.attrs)
    decreases |keys|
  {
    hide UpdateEntity, Suited;
    if keys != [] {
      UpdateSuited(c, db, keys[0]);
      if UpdateEntity(c, db, keys[0]).ok { RefillSuited(UpdateEntity(c, db, keys[0]).cache, db, keys[1..]); }
    }
  }

  lemma {:induction false} TurnsSuited(s: Step, db: Db, l: Listing, kinds: seq<Kind>)
    requires Suited(s.cache.attrs)
    ensures Suited(TakeTurns(s, db, l, kinds).cache.attrs)
    decreases |kinds|
  {
    hide Refill, Suited;
    if kinds != [] {
      var c, kind := s.cache, kinds[0];
      if l.Of(kind).Lists? { RefillSuited(c.(owned := Disown(c.owned, kind)), db, KeysFor(kind, l.Of(kind).names)); }
      var r := TakeTurn(c, db, kind, l.Of(kind));
      TurnsSuited(Step(r.cache, s.ok && r.ok), db, l, kinds[1..]);
    }
  }

  lemma ResetSuited(db: Db, owned: map<Key, seq<nat>>)
    ensures Suited(Reset(db, owned).attrs)
  {
    var a: Attrs := map[];
    assert Suited(a);
    hide Suited, SetAll, Insort;
    var chassis := [(Class, Int(CHASSIS_CLASS)), (Serial, Str(db.chassisSerial)), (Name, Str(CHASSIS_NAME)),
                    (Descr, Str(CHASSIS_NAME)), (ContainedIn, Int(0)), (Fru, FruOf(false))];
    var mgmt := [(Class, Int(CPU_CLASS)), (ContainedIn, Int(CHASSIS_SUB_ID)), (RelPos, Int(1)),
                 (Descr, Str("MGMT")), (Name, Str("MGMT")), (Fru, FruOf(false))];
    SetAllSuited(a, CHASSIS_SUB_ID, chassis);
    SetAllSuited(SetAll(a, CHASSIS_SUB_ID, chassis), CHASSIS_MGMT_SUB_ID, mgmt);
  }

  /** From the first reinit on numeric columns hold numbers and the others texts. */
  lemma {:induction false} AlwaysSuited(c: Cache, run: seq<Happening>, i: nat)
    requires i < |run| && run[i].Reinitialized?
    ensures Suited(After(c, run).attrs)
    decreases |run|
  {
    hide Suited, UpdateEntity, RemoveEntity, TakeTurns, Reset;
    var front, last := run[..|run| - 1], run[|run| - 1];
    match last
    case Reinitialized(db, l) =>
      var was := After(c, front).owned;
      ResetSuited(db, was);
      TurnsSuited(Step(Reset(db, was), true), db, l, UPDATERS);
    case Arrived(db, SetMsg(k)) =>
      AlwaysSuited(c, front, i);
      UpdateSuited(After(c, front), db, k);
    case Arrived(db, DelMsg(k)) =>
      AlwaysSuited(c, front, i);
      RemoveSuited(After(c, front), k);
  }

  // ---------------------------------------------------------------- walking a column

  lemma {:induction false} TuplesSingle(ids: seq<nat>, x: Oid)
    requires x in Tuples(ids)
    ensures |x| == 1
  {
    if x != [ids[|ids| - 1]] { TuplesSingle(ids[..|ids| - 1], x); }
  }

  lemma {:induction false} TotalSingle(owned: map<Key, seq<nat>>, x: Oid)
    requires x in Total(owned)
    ensures |x| == 1
    decreases |owned|
  {
    hide Tuples;
    var k :| k in owned && Total(owned) == Tuples(owned[k]) + Total(owned - {k});
    if x in Tuples(owned[k]) { TuplesSingle(owned[k], x); } else { TotalSingle(owned - {k}, x); }
  }

  lemma EntitiesSingle(c: Cache, x: Oid)
    requires Conserved(c) && x in c.entities
    ensures |x| == 1
  {
    hide Total, Sorted;
    assert x in multiset(c.entities) + multiset{};
    if x in Total(c.owned) { TotalSingle(c.owned, x); }
  }

  lemma CellFilled(c: Cache, f: Field, encode: string -> Struct.Bytes)
    requires Conserved(c) && Suited(c.attrs)
    ensures Filled(ColumnType(f), c.entities, Cell(c, f, encode))
  {
    hide Conserved;
    forall k ensures k in c.entities ==> k != [] {
      if k in c.entities { EntitiesSingle(c, k); }
    }
  }

  /** After any settled run some GetNext returns an index if and only if it is one of the fixed
      nodes or some key owns it.  So a deleted index stays away until a key owns it again. */
  lemma ReturnedIffOwned(c: Cache, run: seq<Happening>, id: nat)
    requires Settled(run)
    ensures (exists subId :: NextEntity(After(c, run), subId) == Some([id])) <==>
            id == CHASSIS_SUB_ID || id == CHASSIS_MGMT_SUB_ID || Owned(After(c, run).owned, id)
  {
    hide After, Balanced, Owned, Settled, Sorted;
    var r := After(c, run);
    EntityConservation(c, run);
    SortedList(r);
    ListedIffOwned(r, id);
    if [id] in r.entities {
      var subId := SteppedTo(r.entities, [id]);
      assert NextEntity(r, subId) == Some([id]);
    }
    forall subId | NextEntity(r, subId) == Some([id]) ensures [id] in r.entities { NextInIsNext(r.entities, subId); }
  }

  function EntityColumn(prefix: Oid, c: Cache, f: Field, encode: string -> Struct.Bytes): Entry {
    ListColumn(prefix, ColumnType(f), c.entities, Cell(c, f, encode))
  }

  lemma NotInternet(prefix: Oid, id: nat)
    requires AwayFromZero(prefix)
    ensures prefix + [id] != Encodings.INTERNET_PREFIX
  {
    var zero := Encodings.INTERNET_PREFIX + [0];
    assert prefix + [id] == Encodings.INTERNET_PREFIX ==> prefix <= zero;
  }

  /** The data of an attribute: its value, or for one that is not set "unknown" (2) for a class or
      position, "not replaceable" (2), no container (-1) or the empty text. */
  predicate Answered(c: Cache, f: Field, encode: string -> Struct.Bytes, id: nat, data: Encodings.Data) {
    match Lookup<(Field, nat), Value>(c.attrs, (f, id))
    case Some(Int(n)) => data == Encodings.Num(n)
    case Some(Str(s)) => data.Str? && data.s.octets == encode(s)
    case None =>
      match f
      case Class => data == Encodings.Num(2)
      case RelPos => data == Encodings.Num(2)
      case Fru => data == Encodings.Num(2)
      case ContainedIn => data == Encodings.Num(-1)
      case _ => data.Str? && data.s.octets == encode("")
  }

  lemma CellShows(c: Cache, f: Field, encode: string -> Struct.Bytes, id: nat)
    requires Suited(c.attrs)
    ensures Cell(c, f, encode)([id]).Some? <==> [id] in c.entities
    ensures [id] in c.entities ==>
              Castable(ColumnType(f), Cell(c, f, encode)([id]).value) &&
              forall data :: Represents(data, Cell(c, f, encode)([id]).value) ==> Answered(c, f, encode, id, data)
  {
  }

  /** What a Get of an attribute of an entity answers, in any table that registers the column, and
      noSuchInstance for no entity. */
  lemma EntityAnswer(t: MibTable, c: Cache, f: Field, encode: string -> Struct.Bytes, prefix: Oid, id: nat,
                     sr: Encodings.SearchRange)
    requires Registers(t, EntityColumn(prefix, c, f, encode)) && sr.start.ToTuple() == prefix + [id]
    requires Suited(c.attrs)
    ensures var r := Get(t, sr);
      r.Returned? &&
      if [id] !in c.entities
      then r.value == Encodings.VarBind(Encodings.NO_SUCH_INSTANCE, 0, sr.start, Encodings.Nothing)
      else
        && r.value.type_ == (if IsNumeric(f) then Encodings.INTEGER else Encodings.OCTET_STRING)
        && r.value.name.ToTuple() == prefix + [id]
        && Answered(c, f, encode, id, r.value.data)
  {
    hide FromTypecast, Cell, Answered, Suited, Represents, Castable;
    var x := prefix + [id];
    ParentLookup(t, x);
    assert prefix <= x && x[|prefix|..] == [id];
    assert FindParentPrefix(t, x) == Some(prefix);
    var value := Cell(c, f, encode)([id]);
    CellShows(c, f, encode, id);
    if value.Some? {
      NotInternet(prefix, id);
      TypecastExact(ColumnType(f), x, value.value);
      NameAway(prefix, x);
    }
  }

  /** After any settled run, wherever updates raised, in any table that registers the column: a
      walk from a start inside it, included or not, to an end below which no later subtree starts
      lists each entity present from the start on exactly once, in order, and stops. */
  lemma EntityWalk(c: Cache, run: seq<Happening>, t: MibTable, f: Field, encode: string -> Struct.Bytes, prefix: Oid,
                   keys: seq<Oid>, start: Encodings.ObjectIdentifier, end: Encodings.ObjectIdentifier,
                   i: nat, fuel: nat)
    requires Settled(run)
    requires Registers(t, EntityColumn(prefix, After(c, run), f, encode)) && ListsOnce(After(c, run).entities, keys)
    requires prefix <= start.ToTuple() && Position(Names(prefix, keys), Encodings.SearchRange(start, end), i)
    requires LastBelow(t, prefix, end.ToTuple()) && fuel > |keys| - i
    ensures var w := Walk(t, start, end, fuel);
            w.stop == EndOfMib && Visits(t, Names(prefix, keys)[i..], w.answers)
  {
    hide After, Walk, Visits, Suited, Filled, Cell, ColumnType, LastBelow, Position, Registers, ListColumn;
    var c' := After(c, run);
    EntityConservation(c, run);
    var j :| 0 <= j < |run| && run[j].Reinitialized?;
    AlwaysSuited(c, run, j);
    CellFilled(c', f, encode);
    ListWalk(t, prefix, ColumnType(f), c'.entities, Cell(c', f, encode), keys, start, end, i, fuel);
  }
}
