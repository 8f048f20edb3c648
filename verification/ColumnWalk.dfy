/** Walks through one column of any table, whatever its other columns hold. */
module ColumnWalk {
  import opened Common
  import opened OidOrder
  import opened Encodings
  import opened Mib
  import opened MibTheory
  import opened MibWalk

  /** In a table whose prefixes do not nest, a column that steps exactly, has values of its type
      and names the wire form preserves.  Nothing is said about the other columns. */
  ghost predicate Walkable(t: MibTable, p: Oid) {
    && PrefixFree(t) && p in t.entries && AwayFromZero(p)
    && !t.entries[p].handlers.Scalar? && ColumnExact(t.entries[p]) && Typed(t.entries[p])
  }

  ghost predicate Increasing(keys: seq<Oid>) {
    forall i, j :: 0 <= i < j < |keys| ==> Less(keys[i], keys[j])
  }

  /** The sub-ids at which the column has values, in order. */
  ghost predicate HasKeys(e: Entry, keys: seq<Oid>) {
    Increasing(keys) && forall k :: k in keys <==> e.Call(k).Some?
  }

  /** No later subtree starts below the end. */
  ghost predicate LastBelow(t: MibTable, p: Oid, end: Oid) {
    forall q :: q in t.prefixes && Less(p, q) ==> !Less(q, end)
  }

  function Names(prefix: Oid, keys: seq<Oid>): (r: seq<Oid>)
    ensures |r| == |keys|
    ensures forall i :: 0 <= i < |keys| ==> r[i] == prefix + keys[i]
  {
    seq(|keys|, i requires 0 <= i < |keys| => prefix + keys[i])
  }

  /** The names that lie beyond the start are those from position `i` on. */
  ghost predicate Position(names: seq<Oid>, sr: SearchRange, i: nat) {
    i <= |names| && forall j :: 0 <= j < |names| ==> (Beyond(sr, names[j]) <==> i <= j)
  }

  /** The keys after `s` are those from position `i` on. */
  ghost predicate Following(keys: seq<Oid>, s: Oid, i: nat) {
    i <= |keys| && forall j :: 0 <= j < |keys| ==> (Less(s, keys[j]) <==> i <= j)
  }

  lemma KeyHasValue(e: Entry, keys: seq<Oid>, i: nat)
    requires HasKeys(e, keys) && i < |keys|
    ensures e.Call(keys[i]).Some?
  {
    assert keys[i] in keys;
  }

  /** A key beyond `s` that is not after the one at the position is that one. */
  lemma LeastKey(keys: seq<Oid>, s: Oid, i: nat, k: Oid)
    requires Increasing(keys) && Following(keys, s, i) && k in keys && Less(s, k)
    requires i < |keys| ==> !Less(keys[i], k)
    ensures i < |keys| && k == keys[i]
  {
    hide Less;
    var j :| 0 <= j < |keys| && keys[j] == k;
  }

  lemma NextKey(e: Entry, keys: seq<Oid>, s: Oid, i: nat)
    requires !e.handlers.Scalar? && ColumnExact(e) && HasKeys(e, keys) && Following(keys, s, i)
    ensures e.Next(s) == if i < |keys| then Some(keys[i]) else None
  {
    assert StepsExactly(e, s);
    if i < |keys| { KeyHasValue(e, keys, i); }
    if e.Next(s).Some? { LeastKey(keys, s, i, e.Next(s).value); }
  }

  /** Without a value at the start, the position among the names is that among the keys. */
  lemma PositionOfKeys(p: Oid, keys: seq<Oid>, sr: SearchRange, i: nat)
    requires p <= sr.start.ToTuple() && Position(Names(p, keys), sr, i)
    requires sr.start.inclusive == 0 || sr.start.ToTuple()[|p|..] !in keys
    ensures Following(keys, sr.start.ToTuple()[|p|..], i)
  {
    var start := sr.start.ToTuple();
    var s := start[|p|..];
    assert start == p + s;
    forall j | 0 <= j < |keys| ensures Less(s, keys[j]) <==> i <= j {
      SamePrefix(p, s, keys[j]);
      assert Names(p, keys)[j][|p|..] == keys[j];
      assert keys[j] in keys;
    }
  }

  /** An included start that is itself a name is at the position. */
  lemma PositionOfStart(p: Oid, keys: seq<Oid>, sr: SearchRange, i: nat)
    requires p <= sr.start.ToTuple() && Position(Names(p, keys), sr, i) && Increasing(keys)
    requires sr.start.inclusive != 0 && sr.start.ToTuple()[|p|..] in keys
    ensures i < |keys| && keys[i] == sr.start.ToTuple()[|p|..]
  {
    var start := sr.start.ToTuple();
    var s := start[|p|..];
    assert start == p + s;
    var j :| 0 <= j < |keys| && keys[j] == s;
    assert Names(p, keys)[j] == start && Beyond(sr, start);
    SamePrefix(p, s, keys[i]);
    assert Names(p, keys)[i][|p|..] == keys[i];
    Trichotomy(s, keys[i]);
    Irreflexive(s);
  }

  lemma NothingLater(t: MibTable, p: Oid, sr: SearchRange)
    requires p <= sr.start.ToTuple() && LastBelow(t, p, sr.end.ToTuple())
    ensures Scan(t, Remaining(t, sr.start.ToTuple()), sr.end.ToTuple()) == Returned(None)
  {
    var start := sr.start.ToTuple();
    var cols := Remaining(t, start);
    RemainingColumns(t, start);
    if cols != [] {
      NoPrefixAbove(p, start);
      AtMostThenLess(p, start, cols[0]);
    }
  }

  /** The column of the start yields the name at the position, if there is one. */
  lemma ColumnFinds(t: MibTable, p: Oid, keys: seq<Oid>, sr: SearchRange, i: nat)
    requires Walkable(t, p) && HasKeys(t.entries[p], keys)
    requires p <= sr.start.ToTuple() && Position(Names(p, keys), sr, i)
    ensures InColumn(t, sr).Returned?
    ensures match InColumn(t, sr).value
            case Some(vb) => i < |keys| && InstanceAt(t, p, p + keys[i]) && BindingAt(t, p, p + keys[i]) == Returned(vb)
            case None => i == |keys|
  {
    hide HasKeys, Position, ColumnExact, FromTypecast;
    var start := sr.start.ToTuple();
    var e, s := t.entries[p], start[|p|..];
    ParentLookup(t, start);
    assert FindParentPrefix(t, start) == Some(p) && start == p + s && start[..|p|] == p;
    KeysAreValues(e, keys, s);
    if sr.start.inclusive != 0 && e.Call(s).Some? {
      PositionOfStart(p, keys, sr, i);
      InstanceOfColumn(t, p, s);
      CellBinds(e, s);
    } else {
      PositionOfKeys(p, keys, sr, i);
      NextKey(e, keys, s, i);
      if i < |keys| {
        KeyHasValue(e, keys, i);
        InstanceOfColumn(t, p, keys[i]);
        assert (p + keys[i])[|p|..] == keys[i];
        CellBinds(e, keys[i]);
      } else {
        assert Following(keys, s, i);
      }
    }
  }

  lemma KeysAreValues(e: Entry, keys: seq<Oid>, k: Oid)
    requires HasKeys(e, keys)
    ensures Increasing(keys) && (k in keys <==> e.Call(k).Some?)
  {
  }

  lemma CellBinds(e: Entry, k: Oid)
    requires Typed(e) && e.Call(k).Some?
    ensures FromTypecast(e.valueType, e.prefix + k, e.Call(k).value).Returned?
  {
  }

  /** The binding of a name in the column carries that name, without the include flag. */
  lemma BindingNamed(t: MibTable, p: Oid, k: Oid, vb: VarBind)
    requires Walkable(t, p) && InstanceAt(t, p, p + k) && BindingAt(t, p, p + k) == Returned(vb)
    ensures vb.name.ToTuple() == p + k && vb.name.inclusive == 0 && !vb.type_.END_OF_MIB_VIEW?
    ensures Binds(t, p + k, vb)
  {
    hide ColumnExact, FromTypecast, Represents;
    assert Typed(t.entries[p]);
    BindingDescribes(t, p, p + k);
    NameAway(p, p + k);
  }

  /** One request of the walk. */
  lemma ColumnStep(t: MibTable, p: Oid, keys: seq<Oid>, sr: SearchRange, i: nat)
    requires Walkable(t, p) && HasKeys(t.entries[p], keys) && LastBelow(t, p, sr.end.ToTuple())
    requires p <= sr.start.ToTuple() && Position(Names(p, keys), sr, i)
    ensures var r := GetNextResult(t, sr);
      if i == |keys| then r == Returned(EndOfView(sr))
      else r.Returned? && !r.value.type_.END_OF_MIB_VIEW? && Binds(t, p + keys[i], r.value) &&
           r.value.name.ToTuple() == p + keys[i] && r.value.name.inclusive == 0
  {
    hide Scan, HasKeys, Position, Walkable, LastBelow, InColumn, InstanceAt, BindingAt, Binds;
    ColumnFinds(t, p, keys, sr, i);
    match InColumn(t, sr).value
    case Some(vb) => BindingNamed(t, p, keys[i], vb);
    case None => NothingLater(t, p, sr);
  }

  /** After the name at position `i` the rest follow. */
  lemma NextPosition(p: Oid, keys: seq<Oid>, sr: SearchRange, i: nat)
    requires Increasing(keys) && i < |keys| && sr.start.inclusive == 0 && sr.start.ToTuple() == p + keys[i]
    ensures Position(Names(p, keys), sr, i + 1)
  {
    forall j | 0 <= j < |keys| ensures Less(p + keys[i], p + keys[j]) <==> i < j {
      SamePrefix(p, keys[i], keys[j]);
      Trichotomy(keys[i], keys[j]);
    }
  }

  lemma PositionBound(names: seq<Oid>, sr: SearchRange, i: nat)
    requires Position(names, sr, i)
    ensures i <= |names|
  {
  }

  lemma KeysAscend(t: MibTable, p: Oid, keys: seq<Oid>)
    requires Walkable(t, p) && HasKeys(t.entries[p], keys)
    ensures Increasing(keys)
  {
  }

  /** A walk whose first answer is the name at position `i` visits that name before the rest. */
  lemma WalkOneMore(t: MibTable, names: seq<Oid>, start: ObjectIdentifier, end: ObjectIdentifier, i: nat, fuel: nat,
                    vb: VarBind)
    requires i < |names| && fuel > 0
    requires GetNextResult(t, SearchRange(start, end)) == Returned(vb) && !vb.type_.END_OF_MIB_VIEW?
    requires Binds(t, names[i], vb) && vb.name.ToTuple() == names[i]
    requires Walk(t, vb.name, end, fuel - 1).stop == EndOfMib
    requires Visits(t, names[i + 1..], Walk(t, vb.name, end, fuel - 1).answers)
    ensures Walk(t, start, end, fuel).stop == EndOfMib
    ensures Visits(t, names[i..], Walk(t, start, end, fuel).answers)
  {
    hide GetNextResult, Binds, ObjectIdentifier.ToTuple;
    assert names[i..] == [names[i]] + names[i + 1..];
  }

  /** A walk from any start inside the column, included or not, to any end (a null one too)
      below which no later subtree starts, visits each name from the start on exactly once, in
      order, with its value, and stops. */
  lemma {:induction false} WalkColumn(t: MibTable, p: Oid, keys: seq<Oid>, start: ObjectIdentifier,
                                      end: ObjectIdentifier, i: nat, fuel: nat)
    requires Walkable(t, p) && HasKeys(t.entries[p], keys) && LastBelow(t, p, end.ToTuple())
    requires p <= start.ToTuple() && Position(Names(p, keys), SearchRange(start, end), i)
    requires fuel > |keys| - i
    ensures Walk(t, start, end, fuel).stop == EndOfMib
    ensures i <= |keys| && Visits(t, Names(p, keys)[i..], Walk(t, start, end, fuel).answers)
    decreases |keys| - i
  {
    hide GetNextResult, Walkable, Binds, HasKeys, LastBelow, Position, Increasing, ObjectIdentifier.ToTuple;
    PositionBound(Names(p, keys), SearchRange(start, end), i);
    KeysAscend(t, p, keys);
    ColumnStep(t, p, keys, SearchRange(start, end), i);
    if i == |keys| {
      assert Names(p, keys)[i..] == [];
    } else {
      hide Walk, Visits;
      var vb := GetNextResult(t, SearchRange(start, end)).value;
      NextPosition(p, keys, SearchRange(vb.name, end), i);
      WalkColumn(t, p, keys, vb.name, end, i + 1, fuel - 1);
      WalkOneMore(t, Names(p, keys), start, end, i, fuel, vb);
    }
  }
}
