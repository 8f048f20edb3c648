/** Order independence of the entity cache: against one database snapshot, set messages in
    any order end in the same cache, because a deferred fan replays exactly what it would
    have entered if its parent had come first. */
module EntityConfluence {
  import opened Common
  import opened OidOrder
  import opened EntityIndex
  import opened EntityCache
  import opened EntityTheory

  // ---------------------------------------------------------------- what a message enters

  /** The callback of a fan that can be entered or deferred. */
  function FanCallback(db: Db, k: Key): Option<Callback> {
    if k.kind.FanUpdater? && k.name in db.fan && db.fan[k.name].present &&
       k.name in db.relation && db.relation[k.name].position.Some?
    then Some(Callback(db.relation[k.name].parent, db.relation[k.name].position.value, k.name, db.fan[k.name]))
    else None
  }

  /** The index a PSU or drawer registers its name with. */
  function Registered(db: Db, k: Key): Option<nat> {
    if k.name !in db.relation || db.relation[k.name].position.None? then None
    else
      var position := db.relation[k.name].position.value;
      match k.kind
      case PsuUpdater => if k.name in db.psu && db.psu[k.name].present then Some(PsuId(position)) else None
      case DrawerUpdater => if k.name in db.drawer &&
        db.drawer[k.name].present then Some(FanDrawerId(position)) else None
      case _ => None
  }

  function NamedItem(id: nat, before: Settings, parentId: nat, after: Settings): Item {
    Item(id, before + ([(ContainedIn, Int(parentId))] + after))
  }

  /** What a set message enters once the names are as in `names`. */
  function ItemsOf(db: Db, names: map<string, nat>, k: Key): seq<Item> {
    var name := k.name;
    match k.kind
    case XcvrUpdater =>
      if name in db.ifindex && name in db.xcvr && db.xcvr[name].sfpType.Some? && db.xcvr[name].sfpType.value != "RJ45"
      then XcvrItems(db.ifindex[name], name, db.xcvr[name]) else []
    case PsuUpdater =>
      if Registered(db, k).Some? && db.relation[name].parent in names then
        var (position, info, id) := (db.relation[name].position.value, db.psu[name], Registered(db, k).value);
        [NamedItem(id, PsuSettings(name, position, info), names[db.relation[name].parent],
                   [(Fru, FruOf(info.removable))])]
        + PsuSensors(id, name, info)
      else []
    case DrawerUpdater =>
      if Registered(db, k).Some? && db.relation[name].parent in names then
        var (position, info, id) := (db.relation[name].position.value, db.drawer[name], Registered(db, k).value);
        [NamedItem(id, DrawerSettings(name, position), names[db.relation[name].parent], DrawerDetails(info))]
      else []
    case FanUpdater =>
      if FanCallback(db, k).Some? && FanCallback(db, k).value.parent in names
      then FanItems(names[FanCallback(db, k).value.parent], FanCallback(db, k).value) else []
    case ThermalUpdater =>
      if name in db.thermal && Available(db.thermal[name].temperature) && name in db.relation &&
        db.relation[name].position.Some? &&
         db.relation[name].parent in names && names[db.relation[name].parent] == CHASSIS_SUB_ID
      then [ThermalItem(db.relation[name].position.value, name, db.thermal[name])] else []
  }

  // ---------------------------------------------------------------- premises

  /** The message does not raise, and a PSU's or drawer's parent is known from the start. */
  ghost predicate Usable(db: Db, c0: Cache, k: Key) {
    var name := k.name;
    match k.kind
    case XcvrUpdater => name in db.ifindex && name in db.xcvr ==> db.xcvr[name].sfpType.Some?
    case PsuUpdater =>
      name in db.psu && db.psu[name].present ==>
        name in db.relation && db.relation[name].position.Some? && db.relation[name].parent in c0.nameToOid
    case DrawerUpdater =>
      name in db.drawer && db.drawer[name].present && name in db.relation ==>
        db.relation[name].position.Some? && db.relation[name].parent in c0.nameToOid
    case FanUpdater =>
      name in db.fan && db.fan[name].present ==> name in db.relation && db.relation[name].position.Some?
    case ThermalUpdater =>
      name in db.thermal && Available(db.thermal[name].temperature) && name in db.relation ==>
        db.relation[name].position.Some?
  }

  /** The key an index is generated for, or `None` for an index that several keys may share. */
  type Home = map<nat, Option<Key>>

  /** The setting of an order-independence statement: a snapshot, a start state, and the
      keys `u` that messages may be about.  `names` is the name map as it will be when all
      have been handled, and `home` tells which key an index is generated for. */
  ghost predicate Setting(db: Db, names: map<string, nat>, home: Home, c0: Cache, u: set<Key>) {
    && Sorted(c0.entities) && c0.pending == map[]
    && (forall n :: n in c0.nameToOid ==> n in names && names[n] == c0.nameToOid[n])
    && (forall n :: n in names && n !in c0.nameToOid ==> Introduces(db, u, n))
    && OneRegistrar(db, u)
    && forall k :: k in u ==> Fits(db, names, home, c0, k)
  }

  /** No two messages register the same name. */
  ghost predicate OneRegistrar(db: Db, u: set<Key>) {
    forall k, l :: k in u && l in u && k.name == l.name && Registered(db, k).Some? && Registered(db, l).Some? ==> k == l
  }

  ghost predicate Introduces(db: Db, u: set<Key>, n: string) {
    || (Key(PsuUpdater, n) in u && Registered(db, Key(PsuUpdater, n)).Some?)
    || (Key(DrawerUpdater, n) in u && Registered(db, Key(DrawerUpdater, n)).Some?)
  }

  ghost predicate Fits(db: Db, names: map<string, nat>, home: Home, c0: Cache, k: Key) {
    && Usable(db, c0, k) && k !in c0.owned
    && (forall i :: 0 <= i < |ItemsOf(db, names, k)| ==> Homed(home, k, ItemsOf(db, names, k)[i].id))
    && (Registered(db, k).Some? ==>
          k.name !in c0.nameToOid && k.name in names && names[k.name] == Registered(db, k).value)
  }

  ghost predicate Shared(home: Home, id: nat) {
    id in home && home[id].None?
  }

  ghost predicate Homed(home: Home, k: Key, id: nat) {
    id in home && (home[id].None? || home[id].value == k)
  }

  // ---------------------------------------------------------------- entering items

  /** How often the items put `x` into the entity list. */
  function CountIn(items: seq<Item>, x: Oid): nat {
    if items == [] then 0
    else CountIn(items[..|items| - 1], x) + (if [items[|items| - 1].id] == x then 1 else 0)
  }

  function AttrsOf(attrs: Attrs, items: seq<Item>): Attrs {
    if items == [] then attrs
    else SetAll(AttrsOf(attrs, items[..|items| - 1]), items[|items| - 1].id, items[|items| - 1].settings)
  }

  function IdsOf(items: seq<Item>): seq<nat> {
    seq(|items|, i requires 0 <= i < |items| => items[i].id)
  }

  lemma {:induction false} SetAllOver(a: Attrs, b: Attrs, id: nat, settings: Settings)
    ensures SetAll(a + b, id, settings) == a + SetAll(b, id, settings)
  {
    if settings != [] { SetAllOver(a, b, id, settings[..|settings| - 1]); }
  }

  lemma {:induction false} AttrsOfOver(a: Attrs, b: Attrs, items: seq<Item>)
    ensures AttrsOf(a + b, items) == a + AttrsOf(b, items)
  {
    if items != [] {
      var last := items[|items| - 1];
      AttrsOfOver(a, b, items[..|items| - 1]);
      SetAllOver(a, AttrsOf(b, items[..|items| - 1]), last.id, last.settings);
    }
  }

  lemma {:induction false} EnterAllEntities(c: Cache, k: Key, items: seq<Item>)
    requires Sorted(c.entities)
    ensures Sorted(EnterAll(c, k, items).entities)
    ensures forall x :: multiset(EnterAll(c, k, items).entities)[x] == multiset(c.entities)[x] + CountIn(items, x)
    ensures EnterAll(c, k, items).nameToOid == c.nameToOid && EnterAll(c, k, items).pending == c.pending
    decreases |items|
  {
    hide SetAll, Insort, Sorted;
    if items != [] {
      var front, last := items[..|items| - 1], items[|items| - 1];
      EnterAllEntities(c, k, front);
      InsortKeepsSorted(EnterAll(c, k, front).entities, [last.id]);
    }
  }

  lemma {:induction false} EnterAllAttrs(c: Cache, k: Key, items: seq<Item>)
    ensures EnterAll(c, k, items).attrs == AttrsOf(c.attrs, items)
    decreases |items|
  {
    hide SetAll, Insort;
    if items != [] { EnterAllAttrs(c, k, items[..|items| - 1]); }
  }

  lemma {:induction false} EnterAllOwned(c: Cache, k: Key, items: seq<Item>)
    ensures EnterAll(c, k, items).owned ==
            (if items == [] then c.owned else c.owned[k := (if k in c.owned then c.owned[k] else []) + IdsOf(items)])
    decreases |items|
  {
    hide Enter;
    if items != [] {
      var front, last := items[..|items| - 1], items[|items| - 1];
      EnterAllOwned(c, k, front);
      EnterKeepsOwned(Own(EnterAll(c, k, front), k, last.id), last);
      var was := if k in c.owned then c.owned[k] else [];
      assert IdsOf(items) == IdsOf(front) + [last.id];
      assert was + IdsOf(items) == was + IdsOf(front) + [last.id];
      if front == [] { assert was + IdsOf(front) == was; }
    }
  }

  lemma EnterKeepsOwned(c: Cache, item: Item)
    ensures Enter(c, item).owned == c.owned
  {
  }

  lemma {:induction false} EnterAllSplit(c: Cache, k: Key, a: seq<Item>, b: seq<Item>)
    ensures EnterAll(c, k, a + b) == EnterAll(EnterAll(c, k, a), k, b)
    decreases |b|
  {
    hide SetAll, Insort;
    if b == [] {
      assert a + b == a;
    } else {
      assert (a + b)[..|a + b| - 1] == a + b[..|b| - 1];
      EnterAllSplit(c, k, a, b[..|b| - 1]);
    }
  }

  lemma {:induction false} SetAllSplit(attrs: Attrs, id: nat, a: Settings, b: Settings)
    ensures SetAll(attrs, id, a + b) == SetAll(SetAll(attrs, id, a), id, b)
    decreases |b|
  {
    if b == [] {
      assert a + b == a;
    } else {
      assert (a + b)[..|a + b| - 1] == a + b[..|b| - 1];
      SetAllSplit(attrs, id, a, b[..|b| - 1]);
    }
  }

  // ---------------------------------------------------------------- the state, point by point

  /** The cache is the start state plus what the messages about the keys in `done` enter: their
      indexes are owned and listed as often as owned, and their attributes are set, save that
      nothing is said of the attributes of a shared index. */
  ghost predicate Holds(db: Db, names: map<string, nat>, home: Home, c0: Cache, done: set<Key>, c: Cache) {
    && Sorted(c.entities)
    && (forall x :: multiset(c.entities)[x] + Total(c0.owned)[x] == multiset(c0.entities)[x] + Total(c.owned)[x])
    && (forall a: (Field, nat) :: !Shared(home, a.1) ==> Lookup(c.attrs, a) == AttrIn(db, names, home, c0, done, a))
    && (forall k :: Lookup(c.owned, k) == OwnedIn(db, names, c0, done, k))
  }

  function AttrIn(db: Db, names: map<string, nat>, home: Home, c0: Cache, done: set<Key>,
                  a: (Field, nat)): Option<Value> {
    if a.1 in home && home[a.1].Some? && home[a.1].value in done &&
       a in AttrsOf(map[], ItemsOf(db, names, home[a.1].value))
    then Some(AttrsOf(map[], ItemsOf(db, names, home[a.1].value))[a])
    else Lookup(c0.attrs, a)
  }

  function OwnedIn(db: Db, names: map<string, nat>, c0: Cache, done: set<Key>, k: Key): Option<seq<nat>> {
    if k in done && ItemsOf(db, names, k) != [] then Some(IdsOf(ItemsOf(db, names, k))) else Lookup(c0.owned, k)
  }

  lemma {:induction false} SetAllKeys(attrs: Attrs, id: nat, settings: Settings, a: (Field, nat))
    requires a in SetAll(attrs, id, settings) && a !in attrs
    ensures a.1 == id
  {
    if a !in SetAll(attrs, id, settings[..|settings| - 1]) {
    } else {
      SetAllKeys(attrs, id, settings[..|settings| - 1], a);
    }
  }

  lemma {:induction false} AttrsElsewhere(items: seq<Item>, a: (Field, nat))
    requires a in AttrsOf(map[], items)
    ensures exists i :: 0 <= i < |items| && items[i].id == a.1
  {
    hide SetAll;
    var front, last := items[..|items| - 1], items[|items| - 1];
    if a in AttrsOf(map[], front) {
      AttrsElsewhere(front, a);
      var i :| 0 <= i < |front| && front[i].id == a.1;
      assert items[i].id == a.1;
    } else {
      SetAllKeys(AttrsOf(map[], front), last.id, last.settings, a);
    }
  }

  /** Entering items adds to the list what it adds to the owners. */
  lemma EnterAllTotal(c: Cache, k: Key, items: seq<Item>, x: Oid)
    requires k !in c.owned
    ensures Total(EnterAll(c, k, items).owned)[x] == Total(c.owned)[x] + CountIn(items, x)
  {
    hide Total, EnterAll, Tuples, IdsOf;
    EnterAllOwned(c, k, items);
    if items == [] {
      assert CountIn(items, x) == 0;
    } else {
      assert [] + IdsOf(items) == IdsOf(items);
      TotalUpdate(c.owned, k, IdsOf(items));
      assert c.owned - {k} == c.owned;
      TuplesCount(items, x);
    }
  }

  lemma {:induction false} TuplesCount(items: seq<Item>, x: Oid)
    ensures Tuples(IdsOf(items))[x] == CountIn(items, x)
  {
    if items != [] {
      var front, last := items[..|items| - 1], items[|items| - 1];
      TuplesCount(front, x);
      assert IdsOf(items) == IdsOf(front) + [last.id];
      TuplesAppend(IdsOf(front), last.id);
    }
  }

  lemma AttrByKey(db: Db, names: map<string, nat>, home: Home, c0: Cache, done: set<Key>, k: Key,
                  a: (Field, nat))
    requires k !in done && Fits(db, names, home, c0, k) && !Shared(home, a.1)
    ensures AttrIn(db, names, home, c0, done + {k}, a) ==
            if a in AttrsOf(map[], ItemsOf(db, names, k)) then Some(AttrsOf(map[], ItemsOf(db, names, k))[a])
            else AttrIn(db, names, home, c0, done, a)
  {
    hide ItemsOf, AttrsOf, Usable, Registered;
    var items := ItemsOf(db, names, k);
    if a in AttrsOf(map[], items) {
      AttrsElsewhere(items, a);
      var i :| 0 <= i < |items| && items[i].id == a.1;
      assert Homed(home, k, items[i].id);
    }
  }

  lemma OwnedByKey(db: Db, names: map<string, nat>, home: Home, c0: Cache, done: set<Key>, c: Cache, k: Key,
                   l: Key)
    requires k !in done && k !in c0.owned && Lookup(c.owned, l) == OwnedIn(db, names, c0, done, l)
    ensures Lookup(EnterAll(c, k, ItemsOf(db, names, k)).owned, l) == OwnedIn(db, names, c0, done + {k}, l)
  {
    hide ItemsOf, EnterAll;
    var items := ItemsOf(db, names, k);
    EnterAllOwned(c, k, items);
    if l == k { assert [] + IdsOf(items) == IdsOf(items); }
  }

  lemma NotOwnedYet(db: Db, names: map<string, nat>, home: Home, c0: Cache, done: set<Key>, c: Cache, k: Key)
    requires Holds(db, names, home, c0, done, c) && k !in done && Fits(db, names, home, c0, k)
    ensures k !in c.owned
  {
    hide AttrIn, Total, Sorted, ItemsOf, Usable, Registered;
    assert Lookup(c.owned, k) == OwnedIn(db, names, c0, done, k);
  }

  lemma EnterKeyAttr(db: Db, names: map<string, nat>, home: Home, c0: Cache, done: set<Key>, c: Cache, k: Key,
                     a: (Field, nat))
    requires Holds(db, names, home, c0, done, c) && k !in done && Fits(db, names, home, c0, k) && !Shared(home, a.1)
    ensures Lookup(EnterAll(c, k, ItemsOf(db, names, k)).attrs, a) == AttrIn(db, names, home, c0, done + {k}, a)
  {
    hide ItemsOf, Sorted, EnterAll, AttrsOf, AttrIn, OwnedIn, Total, Fits;
    var items := ItemsOf(db, names, k);
    EnterAllAttrs(c, k, items);
    AttrsOfOver(c.attrs, map[], items);
    assert c.attrs + map[] == c.attrs;
    AttrByKey(db, names, home, c0, done, k, a);
    assert Lookup(c.attrs, a) == AttrIn(db, names, home, c0, done, a);
  }

  /** Handling one more key. */
  lemma EnterKey(db: Db, names: map<string, nat>, home: Home, c0: Cache, done: set<Key>, c: Cache, k: Key)
    requires Holds(db, names, home, c0, done, c) && k !in done && Fits(db, names, home, c0, k)
    ensures Holds(db, names, home, c0, done + {k}, EnterAll(c, k, ItemsOf(db, names, k)))
  {
    hide ItemsOf, Sorted, EnterAll, CountIn, AttrIn, OwnedIn, Total, Usable, Registered;
    var items := ItemsOf(db, names, k);
    var r := EnterAll(c, k, items);
    EnterAllEntities(c, k, items);
    NotOwnedYet(db, names, home, c0, done, c, k);
    forall x ensures multiset(r.entities)[x] + Total(c0.owned)[x] == multiset(c0.entities)[x] + Total(r.owned)[x] {
      EnterAllTotal(c, k, items, x);
    }
    forall a: (Field, nat) | !Shared(home, a.1)
      ensures Lookup(r.attrs, a) == AttrIn(db, names, home, c0, done + {k}, a)
    {
      EnterKeyAttr(db, names, home, c0, done, c, k, a);
    }
    forall l ensures Lookup(r.owned, l) == OwnedIn(db, names, c0, done + {k}, l) {
      assert Lookup(c.owned, l) == OwnedIn(db, names, c0, done, l);
      OwnedByKey(db, names, home, c0, done, c, k, l);
    }
  }

  // ---------------------------------------------------------------- names and waiting fans

  /** The fan of the callback has been handled and its parent is called `n`. */
  ghost predicate WaitsFor(db: Db, s: set<Key>, n: string, cb: Callback) {
    Key(FanUpdater, cb.fan) in s && FanCallback(db, Key(FanUpdater, cb.fan)) == Some(cb) && cb.parent == n
  }

  function Waiting(c: Cache, n: string): seq<Callback> {
    if n in c.pending then c.pending[n] else []
  }

  /** The keys whose items are in the cache: all handled ones but fans of unknown parents. */
  ghost function Entered(db: Db, s: set<Key>, known: set<string>): set<Key> {
    set k | k in s && (FanCallback(db, k).Some? ==> FanCallback(db, k).value.parent in known)
  }

  ghost predicate NamesHold(db: Db, names: map<string, nat>, c0: Cache, s: set<Key>, c: Cache) {
    && (forall n :: n in c.nameToOid <==> n in c0.nameToOid || Introduces(db, s, n))
    && forall n :: n in c.nameToOid ==> n in names && c.nameToOid[n] == names[n]
  }

  ghost predicate PendingHolds(db: Db, s: set<Key>, c: Cache) {
    forall n, cb :: multiset(Waiting(c, n))[cb] == if n !in c.nameToOid && WaitsFor(db, s, n, cb) then 1 else 0
  }

  /** The cache after the messages about the keys `s`, in whatever order they came. */
  ghost predicate Reflects(db: Db, names: map<string, nat>, home: Home, c0: Cache, s: set<Key>, c: Cache) {
    && NamesHold(db, names, c0, s, c)
    && PendingHolds(db, s, c)
    && Holds(db, names, home, c0, Entered(db, s, c.nameToOid.Keys), c)
  }

  ghost function FanKeys(cbs: seq<Callback>): set<Key> {
    set i | 0 <= i < |cbs| :: Key(FanUpdater, cbs[i].fan)
  }

  /** Callbacks about distinct fans not yet entered, whose parent has the index `id`. */
  ghost predicate Runnable(db: Db, names: map<string, nat>, home: Home, c0: Cache, done: set<Key>, id: nat,
                           cbs: seq<Callback>) {
    && (forall i :: 0 <= i < |cbs| ==>
          var k := Key(FanUpdater, cbs[i].fan);
          k !in done && Fits(db, names, home, c0, k) && FanCallback(db, k) == Some(cbs[i]) &&
          cbs[i].parent in names && names[cbs[i].parent] == id)
    && forall i, j :: 0 <= i < j < |cbs| ==> cbs[i].fan != cbs[j].fan
  }

  /** Running the callbacks enters exactly the items their fans would have entered. */
  lemma {:induction false} CallbacksHold(db: Db, names: map<string, nat>, home: Home, c0: Cache,
                                         done: set<Key>,
                                         c: Cache, id: nat, cbs: seq<Callback>)
    requires Holds(db, names, home, c0, done, c) && Runnable(db, names, home, c0, done, id, cbs)
    ensures Holds(db, names, home, c0, done + FanKeys(cbs), RunCallbacks(c, id, cbs))
    ensures RunCallbacks(c, id, cbs).nameToOid == c.nameToOid && RunCallbacks(c, id, cbs).pending == c.pending
    decreases |cbs|
  {
    hide Holds, Fits, EnterAll, FanItems, FanCallback;
    if cbs == [] {
      assert done + FanKeys(cbs) == done;
    } else {
      var front, cb := cbs[..|cbs| - 1], cbs[|cbs| - 1];
      var k := Key(FanUpdater, cb.fan);
      CallbacksHold(db, names, home, c0, done, c, id, front);
      var c1 := RunCallbacks(c, id, front);
      assert k !in FanKeys(front);
      assert FanKeys(cbs) == FanKeys(front) + {k};
      assert done + FanKeys(front) + {k} == done + FanKeys(cbs);
      FanItemsOf(db, names, k);
      EnterKey(db, names, home, c0, done + FanKeys(front), c1, k);
      HoldsSorted(db, names, home, c0, done + FanKeys(front), c1);
      EnterAllEntities(c1, k, FanItems(id, cb));
    }
  }

  lemma HoldsSorted(db: Db, names: map<string, nat>, home: Home, c0: Cache, done: set<Key>, c: Cache)
    requires Holds(db, names, home, c0, done, c)
    ensures Sorted(c.entities)
  {
  }

  lemma FanItemsOf(db: Db, names: map<string, nat>, k: Key)
    requires FanCallback(db, k).Some? && FanCallback(db, k).value.parent in names
    ensures ItemsOf(db, names, k) == FanItems(names[FanCallback(db, k).value.parent], FanCallback(db, k).value)
  {
  }

  // ---------------------------------------------------------------- one message

  lemma RegisterOwnCommute(c: Cache, k: Key, id: nat)
    requires !k.kind.FanUpdater?
    ensures Register(Own(c, k, id), k.name, id) == Own(Register(c, k.name, id), k, id)
  {
    if k.name in c.pending {
      CallbacksOwnCommute(c.(nameToOid := c.nameToOid[k.name := id]), k, id, c.pending[k.name]);
    }
  }

  lemma {:induction false} CallbacksOwnCommute(c: Cache, k: Key, id: nat, cbs: seq<Callback>)
    requires !k.kind.FanUpdater?
    ensures RunCallbacks(Own(c, k, id), id, cbs) == Own(RunCallbacks(c, id, cbs), k, id)
    decreases |cbs|
  {
    hide EnterAll, FanItems, Own;
    if cbs != [] {
      var cb := cbs[|cbs| - 1];
      CallbacksOwnCommute(c, k, id, cbs[..|cbs| - 1]);
      EnterAllOwnCommute(RunCallbacks(c, id, cbs[..|cbs| - 1]), k, id, Key(FanUpdater, cb.fan), FanItems(id, cb));
    }
  }

  lemma {:induction false} EnterAllOwnCommute(c: Cache, k: Key, id: nat, l: Key, items: seq<Item>)
    requires k != l
    ensures EnterAll(Own(c, k, id), l, items) == Own(EnterAll(c, l, items), k, id)
    decreases |items|
  {
    hide Own, Enter;
    if items != [] {
      var last := items[|items| - 1];
      var r := EnterAll(c, l, items[..|items| - 1]);
      EnterAllOwnCommute(c, k, id, l, items[..|items| - 1]);
      OwnOwnCommute(r, k, id, l, last.id);
      EnterOwnCommute(Own(r, l, last.id), k, id, last);
    }
  }

  lemma OwnOwnCommute(c: Cache, k: Key, id: nat, l: Key, id': nat)
    requires k != l
    ensures Own(Own(c, k, id), l, id') == Own(Own(c, l, id'), k, id)
  {
  }

  lemma EnterOwnCommute(c: Cache, k: Key, id: nat, item: Item)
    ensures Enter(Own(c, k, id), item) == Own(Enter(c, item), k, id)
  {
    hide SetAll, Insort;
  }

  /** With a known parent, a PSU or drawer is entered like any other items, after its name
      has been registered. */
  lemma EnterNamedIsRegisterThenEnter(c: Cache, k: Key, id: nat, before: Settings, parent: string, after: Settings,
                                      sensors: seq<Item>)
    requires !k.kind.FanUpdater? && parent in Register(c, k.name, id).nameToOid
    ensures EnterNamed(c, k, id, before, parent, after, sensors) ==
      var r := Register(c, k.name, id);
      Step(EnterAll(r, k, [NamedItem(id, before, r.nameToOid[parent], after)] + sensors), true)
  {
    hide Register, SetAll, Insort, EnterAll, Own;
    RegisterOwnCommute(c, k, id);
    var r := Register(c, k.name, id);
    var rest := [(ContainedIn, Int(r.nameToOid[parent]))] + after;
    OwnKeeps(r, k, id);
    SetAllSplit(r.attrs, id, before, rest);
    var item := NamedItem(id, before, r.nameToOid[parent], after);
    EnterAllSplit(r, k, [item], sensors);
    EnterOne(r, k, item);
  }

  lemma OwnKeeps(c: Cache, k: Key, id: nat)
    ensures Own(c, k, id).nameToOid == c.nameToOid && Own(c, k, id).attrs == c.attrs
  {
  }

  lemma EnterOne(c: Cache, k: Key, item: Item)
    ensures EnterAll(c, k, [item]) == Enter(Own(c, k, item.id), item)
  {
    assert [item][..0] == [];
  }

  /** What handling a usable message about a new key comes to. */
  function Outcome(db: Db, names: map<string, nat>, c: Cache, k: Key): Cache {
    if FanCallback(db, k).Some? && FanCallback(db, k).value.parent !in c.nameToOid
      then Defer(c, FanCallback(db, k).value)
    else
      var named := if Registered(db, k).Some? then Register(c, k.name, Registered(db, k).value) else c;
      EnterAll(named, k, ItemsOf(db, names, k))
  }

  lemma PsuIdNotChassis(db: Db, k: Key)
    ensures Registered(db, k).Some? ==> Registered(db, k).value != CHASSIS_SUB_ID
  {
  }

  lemma NothingToRemove(c: Cache, k: Key)
    ensures k !in c.owned ==> RemoveEntity(c, k) == c
    ensures EnterAll(c, k, []) == c
  {
  }

  lemma ThermalOutcome(db: Db, names: map<string, nat>, home: Home, c0: Cache, u: set<Key>, s: set<Key>,
                       c: Cache, k: Key)
    requires Setting(db, names, home, c0, u) && k in u && k.kind.ThermalUpdater?
    requires k !in c.owned && NamesHold(db, names, c0, s, c)
    ensures UpdateEntity(c, db, k) == Step(Outcome(db, names, c, k), true)
  {
    hide EnterAll, RemoveEntity, ThermalItem, Registered;
    NothingToRemove(c, k);
    assert Fits(db, names, home, c0, k);
    PsuIdNotChassis(db, k);
    assert Registered(db, k).None? by { NoneRegistered(db, k); }
    if k.name in db.relation {
      var parent := db.relation[k.name].parent;
      if parent in names && parent !in c0.nameToOid {
        IntroducedAs(db, names, home, c0, u, parent);
      }
    }
  }

  lemma NoneRegistered(db: Db, k: Key)
    ensures !k.kind.PsuUpdater? && !k.kind.DrawerUpdater? ==> Registered(db, k).None?
    ensures !k.kind.FanUpdater? ==> FanCallback(db, k).None?
  {
  }

  lemma Introducer(db: Db, s: set<Key>, n: string) returns (l: Key)
    requires Introduces(db, s, n)
    ensures l in s && l.name == n && Registered(db, l).Some?
  {
    l := if Key(PsuUpdater, n) in s && Registered(db, Key(PsuUpdater, n)).Some?
         then Key(PsuUpdater, n) else Key(DrawerUpdater, n);
  }

  /** A name the messages introduce is not the chassis. */
  lemma IntroducedAs(db: Db, names: map<string, nat>, home: Home, c0: Cache, u: set<Key>, n: string)
    requires Setting(db, names, home, c0, u) && n in names && n !in c0.nameToOid
    ensures names[n] != CHASSIS_SUB_ID
  {
    hide ItemsOf, Usable, Registered;
    var k := Introducer(db, u, n);
    assert Fits(db, names, home, c0, k);
    PsuIdNotChassis(db, k);
  }

  lemma NamedOutcome(db: Db, names: map<string, nat>, home: Home, c0: Cache, u: set<Key>, s: set<Key>,
                     c: Cache, k: Key)
    requires Setting(db, names, home, c0, u) && k in u && (k.kind.PsuUpdater? || k.kind.DrawerUpdater?)
    requires k !in c.owned && NamesHold(db, names, c0, s, c)
    ensures UpdateEntity(c, db, k) == Step(Outcome(db, names, c, k), true)
  {
    hide EnterAll, RemoveEntity, EnterNamed, Register, PsuSensors, PsuSettings, NamedItem;
    NothingToRemove(c, k);
    assert Fits(db, names, home, c0, k);
    NoneRegistered(db, k);
    var name := k.name;
    if Registered(db, k).Some? {
      var id, parent := Registered(db, k).value, db.relation[name].parent;
      RegisterNames(c, name, id);
      assert parent in c0.nameToOid && parent in c.nameToOid;
      var r := Register(c, name, id);
      assert parent != name && r.nameToOid[parent] == names[parent];
      if k.kind.PsuUpdater? {
        var (position, info) := (db.relation[name].position.value, db.psu[name]);
        EnterNamedIsRegisterThenEnter(c, k, id, PsuSettings(name, position, info), parent,
          [(Fru, FruOf(info.removable))],
                                      PsuSensors(id, name, info));
      } else {
        var (position, info) := (db.relation[name].position.value, db.drawer[name]);
        EnterNamedIsRegisterThenEnter(c, k, id, DrawerSettings(name, position), parent, DrawerDetails(info), []);
        var item := NamedItem(id, DrawerSettings(name, position), names[parent], DrawerDetails(info));
        assert [item] + [] == [item];
      }
    }
  }

  lemma RegisterNames(c: Cache, name: string, id: nat)
    ensures Register(c, name, id).nameToOid == c.nameToOid[name := id]
    ensures Register(c, name, id).pending == c.pending - {name}
  {
    if name in c.pending { CallbacksKeepNames(c.(nameToOid := c.nameToOid[name := id]), id, c.pending[name]); }
  }

  lemma {:induction false} CallbacksKeepNames(c: Cache, id: nat, cbs: seq<Callback>)
    ensures RunCallbacks(c, id, cbs).nameToOid == c.nameToOid && RunCallbacks(c, id, cbs).pending == c.pending
    decreases |cbs|
  {
    hide EnterAll, FanItems;
    if cbs != [] {
      var cb := cbs[|cbs| - 1];
      CallbacksKeepNames(c, id, cbs[..|cbs| - 1]);
      EnterAllKeepNames(RunCallbacks(c, id, cbs[..|cbs| - 1]), Key(FanUpdater, cb.fan), FanItems(id, cb));
    }
  }

  lemma {:induction false} EnterAllKeepNames(c: Cache, k: Key, items: seq<Item>)
    ensures EnterAll(c, k, items).nameToOid == c.nameToOid && EnterAll(c, k, items).pending == c.pending
    decreases |items|
  {
    hide SetAll, Insort;
    if items != [] { EnterAllKeepNames(c, k, items[..|items| - 1]); }
  }

  lemma UpdateOutcome(db: Db, names: map<string, nat>, home: Home, c0: Cache, u: set<Key>, s: set<Key>,
                      c: Cache, k: Key)
    requires Setting(db, names, home, c0, u) && k in u
    requires k !in c.owned && NamesHold(db, names, c0, s, c)
    ensures UpdateEntity(c, db, k) == Step(Outcome(db, names, c, k), true)
  {
    hide EnterAll, RemoveEntity, XcvrItems, FanItems, Registered;
    NothingToRemove(c, k);
    NoneRegistered(db, k);
    assert Fits(db, names, home, c0, k);
    match k.kind
    case XcvrUpdater =>
    case PsuUpdater => NamedOutcome(db, names, home, c0, u, s, c, k);
    case DrawerUpdater => NamedOutcome(db, names, home, c0, u, s, c, k);
    case FanUpdater =>
    case ThermalUpdater => ThermalOutcome(db, names, home, c0, u, s, c, k);
  }

  // ---------------------------------------------------------------- one more message keeps the description

  lemma DeferReflects(db: Db, names: map<string, nat>, home: Home, c0: Cache, s: set<Key>, c: Cache, k: Key)
    requires Reflects(db, names, home, c0, s, c) && k !in s
    requires FanCallback(db, k).Some? && FanCallback(db, k).value.parent !in c.nameToOid
    ensures Reflects(db, names, home, c0, s + {k}, Defer(c, FanCallback(db, k).value))
  {
    hide Holds, Registered, FanCallback;
    CallbackKey(db, k);
    var cb := FanCallback(db, k).value;
    var r := Defer(c, cb);
    assert Entered(db, s + {k}, r.nameToOid.Keys) == Entered(db, s, c.nameToOid.Keys);
    HoldsElsewhere(db, names, home, c0, Entered(db, s, c.nameToOid.Keys), c, r);
    forall n, cb' ensures multiset(Waiting(r, n))[cb'] ==
                          if n !in r.nameToOid && WaitsFor(db, s + {k}, n, cb') then 1 else 0 {
      assert multiset(Waiting(c, n))[cb'] == if n !in c.nameToOid && WaitsFor(db, s, n, cb') then 1 else 0;
      assert Waiting(r, n) == if n == cb.parent then Waiting(c, n) + [cb] else Waiting(c, n);
    }
  }

  /** The description of list, attributes and owners does not depend on names and callbacks. */
  lemma HoldsElsewhere(db: Db, names: map<string, nat>, home: Home, c0: Cache, done: set<Key>, c: Cache,
                       r: Cache)
    requires Holds(db, names, home, c0, done, c)
    requires r.entities == c.entities && r.attrs == c.attrs && r.owned == c.owned
    ensures Holds(db, names, home, c0, done, r)
  {
    hide AttrIn, OwnedIn, Total, Sorted;
  }

  lemma EnterReflects(db: Db, names: map<string, nat>, home: Home, c0: Cache, s: set<Key>, c: Cache, k: Key)
    requires Reflects(db, names, home, c0, s, c) && k !in s && Fits(db, names, home, c0, k) && Registered(db, k).None?
    requires FanCallback(db, k).Some? ==> FanCallback(db, k).value.parent in c.nameToOid
    ensures Reflects(db, names, home, c0, s + {k}, EnterAll(c, k, ItemsOf(db, names, k)))
  {
    hide Holds, Registered, Fits, ItemsOf, EnterAll;
    var r := EnterAll(c, k, ItemsOf(db, names, k));
    var done := Entered(db, s, c.nameToOid.Keys);
    EnterKey(db, names, home, c0, done, c, k);
    EnterAllKeepNames(c, k, ItemsOf(db, names, k));
    assert Entered(db, s + {k}, r.nameToOid.Keys) == done + {k};
    forall n, cb ensures multiset(Waiting(r, n))[cb] ==
                          if n !in r.nameToOid && WaitsFor(db, s + {k}, n, cb) then 1 else 0 {
      assert multiset(Waiting(c, n))[cb] == if n !in c.nameToOid && WaitsFor(db, s, n, cb) then 1 else 0;
      assert Waiting(r, n) == Waiting(c, n);
    }
  }

  lemma RegisterRuns(c: Cache, name: string, id: nat)
    ensures Register(c, name, id) ==
            RunCallbacks(c.(nameToOid := c.nameToOid[name := id]), id, Waiting(c, name)).(pending := c.pending - {name})
  {
    RegisterNames(c, name, id);
    CallbacksKeepNames(c.(nameToOid := c.nameToOid[name := id]), id, Waiting(c, name));
  }

  /** The waiting callbacks are about distinct fans that have been handled but not entered. */
  lemma WaitingRunnable(db: Db, names: map<string, nat>, home: Home, c0: Cache, u: set<Key>, s: set<Key>,
                        c: Cache, name: string)
    requires Setting(db, names, home, c0, u) && s <= u && PendingHolds(db, s, c)
    requires name !in c.nameToOid && name in names
    ensures Runnable(db, names, home, c0, Entered(db, s, c.nameToOid.Keys), names[name], Waiting(c, name))
    ensures FanKeys(Waiting(c, name)) == set k | k in s && FanCallback(db, k).Some? &&
            FanCallback(db, k).value.parent == name
  {
    hide Fits, FanCallback;
    var cbs := Waiting(c, name);
    forall i | 0 <= i < |cbs| ensures WaitsFor(db, s, name, cbs[i]) {
      assert cbs[i] in multiset(cbs);
    }
    forall i, j | 0 <= i < j < |cbs| ensures cbs[i].fan != cbs[j].fan {
      if cbs[i].fan == cbs[j].fan { Twice(cbs, i, j); }
    }
    forall k | k in s && FanCallback(db, k).Some? && FanCallback(db, k).value.parent == name ensures k in FanKeys(cbs) {
      var cb := FanCallback(db, k).value;
      CallbackKey(db, k);
      assert multiset(cbs)[cb] == 1;
      assert cb in cbs;
    }
    forall k | k in FanKeys(cbs) ensures k in s && FanCallback(db, k).Some? && FanCallback(db, k).value.parent == name {
      var i :| 0 <= i < |cbs| && k == Key(FanUpdater, cbs[i].fan);
      assert WaitsFor(db, s, name, cbs[i]);
    }
  }

  lemma CallbackKey(db: Db, k: Key)
    requires FanCallback(db, k).Some?
    ensures k == Key(FanUpdater, FanCallback(db, k).value.fan)
  {
  }

  lemma Twice(cbs: seq<Callback>, i: nat, j: nat)
    requires i < j < |cbs| && cbs[i] == cbs[j]
    ensures multiset(cbs)[cbs[i]] >= 2
  {
    assert cbs == cbs[..j] + cbs[j..];
    assert cbs[..j][i] == cbs[i] && cbs[j..][0] == cbs[i];
    assert cbs[i] in multiset(cbs[..j]) && cbs[i] in multiset(cbs[j..]);
  }

  lemma RegisterReflects(db: Db, names: map<string, nat>, home: Home, c0: Cache, u: set<Key>, s: set<Key>,
                         c: Cache, k: Key)
    requires Setting(db, names, home, c0, u) && s <= u && k in u && k !in s
    requires Reflects(db, names, home, c0, s, c) && Registered(db, k).Some?
    ensures Reflects(db, names, home, c0, s + {k},
                     EnterAll(Register(c, k.name, Registered(db, k).value), k, ItemsOf(db, names, k)))
  {
    hide Holds, Registered, Fits, ItemsOf, EnterAll, Runnable, RunCallbacks, FanCallback;
    var name, id := k.name, Registered(db, k).value;
    assert Fits(db, names, home, c0, k);
    assert name in names && id == names[name] by { FitsName(db, names, home, c0, k); }
    assert name !in c.nameToOid by { NotYetKnown(db, names, home, c0, u, s, c, k); }
    var known, cbs := c.nameToOid.Keys, Waiting(c, name);
    var done := Entered(db, s, known);
    var c1 := c.(nameToOid := c.nameToOid[name := id]);
    WaitingRunnable(db, names, home, c0, u, s, c, name);
    HoldsElsewhere(db, names, home, c0, done, c, c1);
    CallbacksHold(db, names, home, c0, done, c1, id, cbs);
    RegisterRuns(c, name, id);
    RegisterNames(c, name, id);
    var c2 := Register(c, name, id);
    HoldsElsewhere(db, names, home, c0, done + FanKeys(cbs), RunCallbacks(c1, id, cbs), c2);
    EnterKey(db, names, home, c0, done + FanKeys(cbs), c2, k);
    EnterAllKeepNames(c2, k, ItemsOf(db, names, k));
    var r := EnterAll(c2, k, ItemsOf(db, names, k));
    NamedKind(db, k);
    assert Entered(db, s + {k}, r.nameToOid.Keys) == done + FanKeys(cbs) + {k};
    NamesAfter(db, names, c0, s, c, r, k);
    PendingAfter(db, s, c, r, k);
  }

  lemma FitsName(db: Db, names: map<string, nat>, home: Home, c0: Cache, k: Key)
    requires Fits(db, names, home, c0, k) && Registered(db, k).Some?
    ensures k.name in names && names[k.name] == Registered(db, k).value
  {
  }

  lemma NamedKind(db: Db, k: Key)
    requires Registered(db, k).Some?
    ensures k.kind.PsuUpdater? || k.kind.DrawerUpdater?
    ensures FanCallback(db, k).None?
  {
  }

  lemma NotYetKnown(db: Db, names: map<string, nat>, home: Home, c0: Cache, u: set<Key>, s: set<Key>,
                    c: Cache, k: Key)
    requires Setting(db, names, home, c0, u) && s <= u && k in u && k !in s
    requires NamesHold(db, names, c0, s, c) && Registered(db, k).Some?
    ensures k.name !in c.nameToOid
  {
    hide Registered, ItemsOf, Usable;
    assert Fits(db, names, home, c0, k);
    if Introduces(db, s, k.name) {
      var l := Introducer(db, s, k.name);
    }
  }

  lemma NamesAfter(db: Db, names: map<string, nat>, c0: Cache, s: set<Key>, c: Cache, r: Cache, k: Key)
    requires NamesHold(db, names, c0, s, c) && Registered(db, k).Some?
    requires k.name in names && r.nameToOid == c.nameToOid[k.name := names[k.name]]
    ensures NamesHold(db, names, c0, s + {k}, r)
  {
    NamedKind(db, k);
    hide Registered;
    forall n ensures Introduces(db, s + {k}, n) <==> Introduces(db, s, n) || n == k.name {
      assert k == Key(k.kind, k.name);
    }
  }

  lemma PendingAfter(db: Db, s: set<Key>, c: Cache, r: Cache, k: Key)
    requires PendingHolds(db, s, c) && !k.kind.FanUpdater?
    requires r.nameToOid.Keys == c.nameToOid.Keys + {k.name} && r.pending == c.pending - {k.name}
    ensures PendingHolds(db, s + {k}, r)
  {
    hide FanCallback;
    forall n, cb ensures multiset(Waiting(r, n))[cb] ==
                          if n !in r.nameToOid && WaitsFor(db, s + {k}, n, cb) then 1 else 0 {
      assert multiset(Waiting(c, n))[cb] == if n !in c.nameToOid && WaitsFor(db, s, n, cb) then 1 else 0;
      assert Waiting(r, n) == if n == k.name then [] else Waiting(c, n);
    }
  }

  /** Handling any further message keeps the description. */
  lemma MessageReflects(db: Db, names: map<string, nat>, home: Home, c0: Cache, u: set<Key>, s: set<Key>,
                        c: Cache, k: Key)
    requires Setting(db, names, home, c0, u) && s <= u && k in u && k !in s && Reflects(db, names, home, c0, s, c)
    ensures UpdateEntity(c, db, k).ok && Reflects(db, names, home, c0, s + {k}, UpdateEntity(c, db, k).cache)
  {
    hide Holds, Registered, Fits, ItemsOf, EnterAll, FanCallback, UpdateEntity, PendingHolds, NamesHold, Register;
    assert Fits(db, names, home, c0, k);
    NotOwnedYet(db, names, home, c0, Entered(db, s, c.nameToOid.Keys), c, k);
    UpdateOutcome(db, names, home, c0, u, s, c, k);
    if FanCallback(db, k).Some? && FanCallback(db, k).value.parent !in c.nameToOid {
      DeferReflects(db, names, home, c0, s, c, k);
    } else if Registered(db, k).Some? {
      RegisterReflects(db, names, home, c0, u, s, c, k);
    } else {
      EnterReflects(db, names, home, c0, s, c, k);
    }
  }

  // ---------------------------------------------------------------- all messages

  function KeySet(keys: seq<Key>): set<Key> {
    set k | k in keys
  }

  ghost predicate Distinct(keys: seq<Key>) {
    forall i, j :: 0 <= i < j < |keys| ==> keys[i] != keys[j]
  }

  lemma {:induction false} RefillReflects(db: Db, names: map<string, nat>, home: Home, c0: Cache, u: set<Key>,
                                          s: set<Key>, c: Cache, keys: seq<Key>)
    requires Setting(db, names, home, c0, u) && s + KeySet(keys) <= u && s !! KeySet(keys)
    requires Distinct(keys)
    requires Reflects(db, names, home, c0, s, c)
    ensures Refill(c, db, keys).ok && Reflects(db, names, home, c0, s + KeySet(keys), Refill(c, db, keys).cache)
    decreases |keys|
  {
    hide Reflects, Setting, UpdateEntity;
    if keys == [] {
      assert s + KeySet(keys) == s;
    } else {
      var k := keys[0];
      assert k in KeySet(keys);
      assert KeySet(keys) == {k} + KeySet(keys[1..]);
      MessageReflects(db, names, home, c0, u, s, c, k);
      assert s + {k} + KeySet(keys[1..]) == s + KeySet(keys);
      RefillReflects(db, names, home, c0, u, s + {k}, UpdateEntity(c, db, k).cache, keys[1..]);
    }
  }

  lemma InitiallyReflects(db: Db, names: map<string, nat>, home: Home, c0: Cache, u: set<Key>)
    requires Setting(db, names, home, c0, u)
    ensures Reflects(db, names, home, c0, {}, c0)
  {
    hide ItemsOf, Fits, Sorted;
    assert Entered(db, {}, c0.nameToOid.Keys) == {};
  }

  /** Equal lists, owners and names, equal attributes of the indexes that are not shared, and the
      same callbacks waiting, in whatever order. */
  ghost predicate Agree(home: Home, c: Cache, d: Cache) {
    && c.entities == d.entities && c.owned == d.owned && c.nameToOid == d.nameToOid
    && (forall a: (Field, nat) :: !Shared(home, a.1) ==> Lookup(c.attrs, a) == Lookup(d.attrs, a))
    && forall n :: multiset(Waiting(c, n)) == multiset(Waiting(d, n))
  }

  /** The description determines list, owners, names and the attributes of unshared indexes. */
  lemma ReflectsUnique(db: Db, names: map<string, nat>, home: Home, c0: Cache, s: set<Key>, c: Cache, d: Cache)
    requires Reflects(db, names, home, c0, s, c) && Reflects(db, names, home, c0, s, d)
    ensures Agree(home, c, d)
  {
    hide AttrIn, OwnedIn, Total, Sorted, Introduces, WaitsFor, FanCallback;
    assert c.nameToOid.Keys == d.nameToOid.Keys;
    forall k ensures Lookup(c.owned, k) == Lookup(d.owned, k) { }
    LookupUnique(c.owned, d.owned);
    forall x ensures multiset(c.entities)[x] == multiset(d.entities)[x] { }
    assert multiset(c.entities) == multiset(d.entities);
    SortedUnique(c.entities, d.entities);
    forall n ensures multiset(Waiting(c, n)) == multiset(Waiting(d, n)) {
      forall cb ensures multiset(Waiting(c, n))[cb] == multiset(Waiting(d, n))[cb] { }
    }
  }

  lemma LookupUnique<K(!new), V(!new)>(m: map<K, V>, n: map<K, V>)
    requires forall k :: Lookup(m, k) == Lookup(n, k)
    ensures m == n
  {
    forall k ensures k in m <==> k in n { assert Lookup(m, k) == Lookup(n, k); }
    forall k | k in m ensures m[k] == n[k] { assert Lookup(m, k) == Lookup(n, k); }
  }

  /** Set messages about the same keys, in any two orders (fans before or after the drawer
      or PSU they belong to), end in the same entity list, owners and name map, and in the same
      attributes but for shared indexes; callbacks still waiting may differ in order. */
  lemma Confluence(db: Db, names: map<string, nat>, home: Home, c0: Cache, keys: seq<Key>,
                   keys': seq<Key>)
    requires Setting(db, names, home, c0, KeySet(keys)) && KeySet(keys') == KeySet(keys)
    requires Distinct(keys) && Distinct(keys')
    ensures Refill(c0, db, keys).ok && Refill(c0, db, keys').ok
    ensures Agree(home, Refill(c0, db, keys).cache, Refill(c0, db, keys').cache)
  {
    hide Setting, Reflects, Refill, Agree;
    var u := KeySet(keys);
    InitiallyReflects(db, names, home, c0, u);
    assert {} + u == u;
    RefillReflects(db, names, home, c0, u, {}, c0, keys);
    RefillReflects(db, names, home, c0, u, {}, c0, keys');
    ReflectsUnique(db, names, home, c0, u, Refill(c0, db, keys).cache, Refill(c0, db, keys').cache);
  }
}
