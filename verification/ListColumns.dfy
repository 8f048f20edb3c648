/** Columns whose iterator walks a sorted list, as those of all updaters here do. */
module ListColumns {
  import opened Common
  import opened OidOrder
  import opened Encodings
  import opened Mib
  import opened MibTheory
  import opened MibWalk
  import opened ColumnWalk

  function ListColumn(prefix: Oid, valueType: ValueType, list: seq<Oid>, cell: Oid -> Option<Raw>): Entry {
    Entry(prefix, valueType, Column(s => NextIn(list, s), cell))
  }

  /** The largest element below `k`, or the empty sub-id. */
  lemma {:induction false} Predecessor(list: seq<Oid>, k: Oid) returns (s: Oid)
    requires k != []
    ensures Less(s, k) && forall e :: e in list && Less(e, k) ==> AtMost(e, s)
  {
    if list == [] {
      s := [];
    } else {
      var t := Predecessor(list[1..], k);
      s := if Less(list[0], k) && Less(t, list[0]) then list[0] else t;
      Irreflexive(s);
      forall e | e in list && Less(e, k) ensures AtMost(e, s) {
        if e != list[0] {
          assert e in list[1..];
          if s != t { LessAfter(e, t, s); }
        }
      }
    }
  }

  lemma LessAfter(e: Oid, t: Oid, s: Oid)
    requires AtMost(e, t) && Less(t, s)
    ensures AtMost(e, s)
  {
    AtMostThenLess(e, t, s);
    Trichotomy(e, s);
  }

  /** Some sub-id steps to any given element of the list. */
  lemma SteppedTo(list: seq<Oid>, k: Oid) returns (s: Oid)
    requires Sorted(list) && k in list && k != []
    ensures NextIn(list, s) == Some(k)
  {
    s := Predecessor(list, k);
    NextInIsNext(list, s);
    Trichotomy(NextIn(list, s).value, k);
  }

  /** A list-backed column steps exactly if and only if its handler has a value precisely for
      the (non-empty) elements of the list. */
  lemma ListColumnExact(prefix: Oid, valueType: ValueType, list: seq<Oid>, cell: Oid -> Option<Raw>)
    requires Sorted(list)
    ensures ColumnExact(ListColumn(prefix, valueType, list, cell)) <==>
            forall k :: cell(k).Some? <==> k in list && k != []
  {
    var e := ListColumn(prefix, valueType, list, cell);
    if forall k :: cell(k).Some? <==> k in list && k != [] {
      forall s ensures StepsExactly(e, s) { NextInIsNext(list, s); }
    }
    if ColumnExact(e) {
      forall k ensures cell(k).Some? <==> k in list && k != [] {
        assert e.Call([]).None?;
        if k in list && k != [] {
          var s := SteppedTo(list, k);
          assert StepsExactly(e, s);
        } else if k != [] {
          var s := Predecessor(list, k);
          assert StepsExactly(e, s);
          NextInIsNext(list, s);
          if NextIn(list, s).Some? {
            var n := NextIn(list, s).value;
            Trichotomy(n, k);
          }
        }
      }
    }
  }

  // ---------------------------------------------------------------- walking such a column

  /** `keys` are the elements of the list, each once, in order. */
  ghost predicate ListsOnce(list: seq<Oid>, keys: seq<Oid>) {
    Increasing(keys) && forall k :: k in keys <==> k in list
  }

  /** The handler has a value of the column's type precisely for the elements of the list. */
  ghost predicate Filled(valueType: ValueType, list: seq<Oid>, cell: Oid -> Option<Raw>) {
    && !valueType.Empty()
    && forall k ::
         if k in list then k != [] && cell(k).Some? && Castable(valueType, cell(k).value)
         else cell(k).None?
  }

  /** The table registers such a column under a prefix that the wire form preserves, and no
      prefix of the table extends another. */
  ghost predicate Registers(t: MibTable, e: Entry) {
    PrefixFree(t) && AwayFromZero(e.prefix) && e.prefix in t.entries && t.entries[e.prefix] == e
  }

  lemma ListWalkable(t: MibTable, prefix: Oid, valueType: ValueType, list: seq<Oid>, cell: Oid -> Option<Raw>,
                     keys: seq<Oid>)
    requires Registers(t, ListColumn(prefix, valueType, list, cell))
    requires Sorted(list) && Filled(valueType, list, cell) && ListsOnce(list, keys)
    ensures Walkable(t, prefix) && HasKeys(t.entries[prefix], keys)
  {
    hide ColumnExact, Sorted;
    ListColumnExact(prefix, valueType, list, cell);
    forall k ensures FromIterable(prefix + k).Some? { }
  }

  /** In any table that registers such a column, a walk from a start inside it, included or not,
      to an end below which no later subtree starts visits every element of the list from the
      start on once, in order, however often the list repeats it, and stops. */
  lemma ListWalk(t: MibTable, prefix: Oid, valueType: ValueType, list: seq<Oid>, cell: Oid -> Option<Raw>,
                 keys: seq<Oid>, start: ObjectIdentifier, end: ObjectIdentifier, i: nat, fuel: nat)
    requires Registers(t, ListColumn(prefix, valueType, list, cell))
    requires Sorted(list) && Filled(valueType, list, cell) && ListsOnce(list, keys)
    requires prefix <= start.ToTuple() && Position(Names(prefix, keys), SearchRange(start, end), i)
    requires LastBelow(t, prefix, end.ToTuple()) && fuel > |keys| - i
    ensures var w := Walk(t, start, end, fuel);
            w.stop == EndOfMib && Visits(t, Names(prefix, keys)[i..], w.answers)
  {
    hide Walkable, HasKeys, LastBelow, Walk, Visits, Filled, Sorted, ListsOnce, Registers;
    ListWalkable(t, prefix, valueType, list, cell, keys);
    WalkColumn(t, prefix, keys, start, end, i, fuel);
  }
}
