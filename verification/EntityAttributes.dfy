/** Which attributes a PSU gets: `is_null_str` does not count the empty string as null. */
module EntityAttributes {
  import opened Common
  import opened OidOrder
  import opened EntityIndex
  import opened EntityCache
  import opened EntityUndo

  lemma {:induction false} SetAllAbsent(attrs: Attrs, id: nat, s: Settings, f: Field)
    requires forall j :: 0 <= j < |s| ==> s[j].0 != f
    ensures Lookup(SetAll(attrs, id, s), (f, id)) == Lookup(attrs, (f, id))
  {
    if s != [] { SetAllAbsent(attrs, id, s[..|s| - 1], f); }
  }

  lemma {:induction false} EnterAllElsewhere(c: Cache, k: Key, items: seq<Item>, a: (Field, nat))
    requires forall i :: 0 <= i < |items| ==> items[i].id != a.1
    ensures Lookup(EnterAll(c, k, items).attrs, a) == Lookup(c.attrs, a)
  {
    if items != [] {
      hide SetAll;
      var front, last := items[..|items| - 1], items[|items| - 1];
      EnterAllElsewhere(c, k, front, a);
      SetAllOther(EnterAll(c, k, front).attrs, last.id, last.settings, a);
    }
  }

  /** Fans entered for a parent leave the parent's own attributes alone. */
  lemma {:induction false} CallbacksElsewhere(c: Cache, id: nat, cbs: seq<Callback>, f: Field)
    requires id != CHASSIS_SUB_ID
    ensures Lookup(RunCallbacks(c, id, cbs).attrs, (f, id)) == Lookup(c.attrs, (f, id))
  {
    if cbs != [] {
      hide EnterAll, FanItems;
      var front, cb := cbs[..|cbs| - 1], cbs[|cbs| - 1];
      CallbacksElsewhere(c, id, front, f);
      FanApart(id, cb);
      EnterAllElsewhere(RunCallbacks(c, id, front), Key(FanUpdater, cb.fan), FanItems(id, cb), (f, id));
    }
  }

  lemma FanApart(id: nat, cb: Callback)
    requires id != CHASSIS_SUB_ID
    ensures forall i :: 0 <= i < |FanItems(id, cb)| ==> FanItems(id, cb)[i].id != id
  {
  }

  /** A field that is set neither with nor after the parent keeps what is set before it. */
  lemma NamedField(c: Cache, k: Key, id: nat, before: Settings, parent: string, after: Settings, sensors: seq<Item>,
                   f: Field)
    requires EnterNamed(c, k, id, before, parent, after, sensors).ok && id != CHASSIS_SUB_ID && f != ContainedIn
    requires forall j :: 0 <= j < |after| ==> after[j].0 != f
    requires forall i :: 0 <= i < |sensors| ==> sensors[i].id != id
    ensures exists attrs: Attrs :: Lookup(attrs, (f, id)) == Lookup(c.attrs, (f, id)) &&
              Lookup(EnterNamed(c, k, id, before, parent, after, sensors).cache.attrs, (f, id)) ==
              Lookup(SetAll(attrs, id, before), (f, id))
  {
    hide EnterAll, SetAll, Insort, RunCallbacks;
    var c1 := Own(c, k, id);
    var c2 := c1.(nameToOid := c1.nameToOid[k.name := id]);
    if k.name in c2.pending { CallbacksElsewhere(c2, id, c2.pending[k.name], f); }
    var c3 := Register(c1, k.name, id);
    var c4 := Enter(c3, Item(id, before));
    var settings := [(ContainedIn, Int(c4.nameToOid[parent]))] + after;
    SetAllAbsent(c4.attrs, id, settings, f);
    EnterAllElsewhere(c4.(attrs := SetAll(c4.attrs, id, settings)), k, sensors, (f, id));
  }

  lemma SetBefore(attrs: Attrs, id: nat, name: string, position: nat, info: PsuInfo)
    ensures Lookup(SetAll(attrs, id, PsuSettings(name, position, info)), (ModelName, id)) ==
            if NullStr(info.model) then Lookup(attrs, (ModelName, id)) else Some(Str(info.model))
    ensures Lookup(SetAll(attrs, id, PsuSettings(name, position, info)), (Serial, id)) ==
            if NullStr(info.serial) then Lookup(attrs, (Serial, id)) else Some(Str(info.serial))
  {
    hide SetAll;
    var s := PsuSettings(name, position, info);
    var m := if NullStr(info.model) then 3 else 4;
    if NullStr(info.model) { SetAllAbsent(attrs, id, s, ModelName); } else { SetAllGet(attrs, id, s, 3); }
    if NullStr(info.serial) { SetAllAbsent(attrs, id, s, Serial); } else { SetAllGet(attrs, id, s, m); }
  }

  /** A present PSU with an index not used before gets an empty model, or an empty serial number,
      if and only if that is what the database has. */
  lemma EmptyAttributeIff(c: Cache, db: Db, name: string)
    requires name in db.psu && db.psu[name].present && UpdatePsu(c, db, name).ok
    requires forall f :: (f, PsuId(db.relation[name].position.value)) !in c.attrs
    ensures var (attrs, id) := (UpdatePsu(c, db, name).cache.attrs, PsuId(db.relation[name].position.value));
      && (Lookup(attrs, (ModelName, id)) == Some(Str("")) <==> db.psu[name].model == "")
      && (Lookup(attrs, (Serial, id)) == Some(Str("")) <==> db.psu[name].serial == "")
  {
    hide EnterNamed, SetAll, PsuSettings, PsuSensors;
    var (position, info) := (db.relation[name].position.value, db.psu[name]);
    var (id, parent) := (PsuId(position), db.relation[name].parent);
    var before, after, sensors := PsuSettings(name, position, info), [(Fru, FruOf(info.removable))],
      PsuSensors(id, name, info);
    var k := Key(PsuUpdater, name);
    SensorsApart(id, name, info);
    NamedField(c, k, id, before, parent, after, sensors, ModelName);
    NamedField(c, k, id, before, parent, after, sensors, Serial);
    var final := EnterNamed(c, k, id, before, parent, after, sensors).cache.attrs;
    var a: Attrs :| Lookup(a, (ModelName, id)) == None &&
      Lookup(final, (ModelName, id)) == Lookup(SetAll(a, id, before), (ModelName, id));
    var b: Attrs :| Lookup(b, (Serial, id)) == None &&
      Lookup(final, (Serial, id)) == Lookup(SetAll(b, id, before), (Serial, id));
    SetBefore(a, id, name, position, info);
    SetBefore(b, id, name, position, info);
  }
}
