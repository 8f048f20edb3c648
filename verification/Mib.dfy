/** The MIB view (`ax_interface/mib.py`): entries, the table a class hierarchy builds,
    and the Get and GetNext searches over it. */
module Mib {
  import opened Common
  import opened OidOrder
  import opened Encodings
  import Struct

  /** What a handler returns: an integer, a string (as octets), or an object identifier
      given as a tuple or as an encoded object. */
  datatype Raw = Integer(n: int) | Text(s: Struct.Bytes) | Tuple(t: Oid) | Encoded(o: ObjectIdentifier)

  /** `ValueRepresentation.from_typecast`; data of the wrong kind for its type makes the
      response fail, and so does a name that cannot be compressed. */
  function FromTypecast(type_: ValueType, name: Oid, raw: Raw): Outcome<VarBind> {
    match (FromIterable(name), CastData(type_, raw))
    case (Some(o), Some(d)) => Returned(VarBind(type_, 0, o, d))
    case _ => Raised
  }

  function CastData(type_: ValueType, raw: Raw): Option<Data> {
    if type_.Octets() then
      if raw.Text? then Some(Str(OctetsFromString(raw.s))) else None
    else if type_.OBJECT_IDENTIFIER? then
      match raw
      case Tuple(t) => (var o :- FromIterable(t); Some(Name(o)))
      case Encoded(o) => Some(Name(o))
      case _ => None
    else if type_.Empty() then Some(Nothing)
    else if raw.Integer? then Some(Num(raw.n)) else None
  }

  // ---------------------------------------------------------------- entries

  /** The handlers of an entry.  A scalar (`MIBEntry`) has one value and ignores the
      sub-id it is called with; a column (`SubtreeMIBEntry`) has an iterator and a value
      per sub-id, both `None` when the handler raises; an overlaid column
      (`OverlayAdpaterMIBEntry` over an `OidMIBEntry`) first asks a handler for the full OID. */
  datatype Handlers =
    | Scalar(constant: Option<Raw>)
    | Column(next: Oid -> Option<Oid>, cell: Oid -> Option<Raw>)
    | Overlay(next: Oid -> Option<Oid>, cell: Oid -> Option<Raw>, over: Oid -> Option<Raw>)

  datatype Entry = Entry(prefix: Oid, valueType: ValueType, handlers: Handlers) {

    /** `__call__`. */
    function Call(subId: Oid): Option<Raw> {
      match handlers
      case Scalar(c) => c
      case Column(_, cell) => cell(subId)
      case Overlay(_, cell, over) => if over(prefix + subId).Some? then over(prefix + subId) else cell(subId)
    }

    /** `get_next`. */
    function Next(subId: Oid): Option<Oid> {
      if handlers.Scalar? then None else handlers.next(subId)
    }

    /** `next(iter(entry))`; `None` is StopIteration. */
    function First(): Option<Oid> {
      if handlers.Scalar? then Some([]) else handlers.next([])
    }

    /** `get_sub_id` and `replace_sub_id`. */
    function SubId(key: Oid): Oid {
      if |prefix| <= |key| then key[|prefix|..] else []
    }

    function ReplaceSubId(key: Oid, subId: Oid): Oid {
      (if |prefix| <= |key| then key[..|prefix|] else key) + subId
    }
  }

  // ---------------------------------------------------------------- tables

  datatype RawTable = Table(prefixes: seq<Oid>, entries: map<Oid, Entry>) {

    /** The dictionary is keyed by exactly the registered prefixes, and each entry knows
        its own. */
    ghost predicate KeysArePrefixes() {
      && (forall p :: p in prefixes <==> p in entries)
      && (forall p :: p in entries ==> entries[p].prefix == p)
    }
  }

  type MibTable = t: RawTable | t.KeysArePrefixes() witness Table([], map[])

  /** One attribute of a MIB class: the subtree, value type and handlers of an entry. */
  datatype OwnEntry = OwnEntry(subtree: Oid, valueType: ValueType, handlers: Handlers)

  function AddOwn(t: MibTable, prefix: Oid, o: OwnEntry): MibTable {
    var key := prefix + o.subtree;
    Table(t.prefixes + [key], t.entries[key := Entry(key, o.valueType, o.handlers)])
  }

  function OwnTable(prefix: Oid, own: seq<OwnEntry>): MibTable {
    if own == [] then Table([], map[])
    else AddOwn(OwnTable(prefix, own[..|own| - 1]), prefix, own[|own| - 1])
  }

  function Inherit(t: MibTable, base: MibTable): MibTable {
    Table(base.prefixes + t.prefixes, t.entries + base.entries)
  }

  function InheritAll(t: MibTable, bases: seq<MibTable>): MibTable {
    if bases == [] then t else Inherit(InheritAll(t, bases[..|bases| - 1]), bases[|bases| - 1])
  }

  /** `MIBMeta.__new__`: what a class with this prefix, these own entries (in attribute
      order) and these bases (left to right) gets as its dictionary and prefix list.  That
      the result is a `MibTable` says that the dictionary's keys are the prefixes. */
  function NewClass(prefix: Option<Oid>, own: seq<OwnEntry>, bases: seq<MibTable>): MibTable {
    InheritAll(if prefix.Some? then OwnTable(prefix.value, own) else Table([], map[]), bases)
  }

  method MakeClass(prefix: Option<Oid>, own: seq<OwnEntry>, bases: seq<MibTable>) returns (t: MibTable)
    ensures t == NewClass(prefix, own, bases)
  {
    t := Table([], map[]);
    if prefix.Some? {
      for i := 0 to |own|
        invariant t == OwnTable(prefix.value, own[..i])
      {
        assert own[..i + 1][..i] == own[..i];
        t := AddOwn(t, prefix.value, own[i]);
      }
      assert own[..|own|] == own;
    }
    ghost var start := t;
    for i := 0 to |bases|
      invariant t == InheritAll(start, bases[..i])
    {
      assert bases[..i + 1][..i] == bases[..i];
      t := Inherit(t, bases[i]);
    }
    assert bases[..|bases|] == bases;
  }

  function PrefixLists(bases: seq<MibTable>): seq<seq<Oid>> {
    seq(|bases|, i requires 0 <= i < |bases| => bases[i].prefixes)
  }

  /** The lists one after the other, the last one first. */
  function Reversed(lists: seq<seq<Oid>>): seq<Oid> {
    if lists == [] then [] else lists[|lists| - 1] + Reversed(lists[..|lists| - 1])
  }

  lemma {:induction false} ReversedAppend(front: seq<seq<Oid>>, back: seq<seq<Oid>>)
    ensures Reversed(front + back) == Reversed(back) + Reversed(front)
    decreases |back|
  {
    if back == [] {
      assert front + back == front;
    } else {
      var rest, last := back[..|back| - 1], back[|back| - 1];
      ReversedAppend(front, rest);
      assert (front + back)[..|front + back| - 1] == front + rest;
      assert last + (Reversed(rest) + Reversed(front)) == last + Reversed(rest) + Reversed(front);
    }
  }

  lemma {:induction false} InheritedPrefixes(t: MibTable, bases: seq<MibTable>)
    ensures InheritAll(t, bases).prefixes == Reversed(PrefixLists(bases)) + t.prefixes
  {
    hide RawTable.KeysArePrefixes;
    if bases != [] {
      var front := bases[..|bases| - 1];
      InheritedPrefixes(t, front);
      assert PrefixLists(bases)[..|front|] == PrefixLists(front);
    }
  }

  /** Wherever the bases are split, the later ones' prefixes come first, and the class's
      own come last: between two bases the one to the right registers with the better
      priority. */
  lemma BaseOrder(t: MibTable, bases: seq<MibTable>, i: nat)
    requires i <= |bases|
    ensures InheritAll(t, bases).prefixes ==
            Reversed(PrefixLists(bases[i..])) + Reversed(PrefixLists(bases[..i])) + t.prefixes
  {
    hide RawTable.KeysArePrefixes, InheritAll, Reversed;
    InheritedPrefixes(t, bases);
    ReversedAppend(PrefixLists(bases[..i]), PrefixLists(bases[i..]));
    assert PrefixLists(bases[..i]) + PrefixLists(bases[i..]) == PrefixLists(bases);
  }

  /** The last base that defines a prefix supplies its entry, even if the class itself
      defines that prefix too. */
  lemma {:induction false} LastBaseWins(t: MibTable, bases: seq<MibTable>, i: nat, p: Oid)
    requires i < |bases| && p in bases[i].entries
    requires forall j :: i < j < |bases| ==> p !in bases[j].entries
    ensures p in InheritAll(t, bases).entries && InheritAll(t, bases).entries[p] == bases[i].entries[p]
    decreases |bases|
  {
    var n := |bases| - 1;
    if i < n { LastBaseWins(t, bases[..n], i, p); }
  }

  function OwnPrefixes(prefix: Oid, own: seq<OwnEntry>): (r: seq<Oid>)
    ensures |r| == |own| && forall i :: 0 <= i < |own| ==> r[i] == prefix + own[i].subtree
  {
    seq(|own|, i requires 0 <= i < |own| => prefix + own[i].subtree)
  }

  lemma {:induction false} OwnTablePrefixes(prefix: Oid, own: seq<OwnEntry>)
    ensures OwnTable(prefix, own).prefixes == OwnPrefixes(prefix, own)
  {
    hide RawTable.KeysArePrefixes;
    if own != [] { OwnTablePrefixes(prefix, own[..|own| - 1]); }
  }

  /** The prefix list of a class: those of its bases, the last base first, then the subtrees of its
      own entries below its own prefix, in order; none of its own if it has no prefix. */
  lemma ClassPrefixes(prefix: Option<Oid>, own: seq<OwnEntry>, bases: seq<MibTable>)
    ensures NewClass(prefix, own, bases).prefixes ==
            Reversed(PrefixLists(bases)) + (if prefix.Some? then OwnPrefixes(prefix.value, own) else [])
  {
    hide InheritAll, Reversed, OwnTable;
    if prefix.Some? {
      InheritedPrefixes(OwnTable(prefix.value, own), bases);
      OwnTablePrefixes(prefix.value, own);
    } else {
      InheritedPrefixes(Table([], map[]), bases);
    }
  }

  lemma Unprefix(prefix: Oid, a: Oid, b: Oid)
    ensures prefix + a == prefix + b ==> a == b
  {
    assert (prefix + a)[|prefix|..] == a && (prefix + b)[|prefix|..] == b;
  }

  lemma {:induction false} OwnTableEntry(prefix: Oid, own: seq<OwnEntry>, i: nat)
    requires i < |own| && forall j :: i < j < |own| ==> own[j].subtree != own[i].subtree
    ensures var key := prefix + own[i].subtree;
      key in OwnTable(prefix, own).entries &&
      OwnTable(prefix, own).entries[key] == Entry(key, own[i].valueType, own[i].handlers)
    decreases |own|
  {
    hide RawTable.KeysArePrefixes;
    if i < |own| - 1 {
      OwnTableEntry(prefix, own[..|own| - 1], i);
      Unprefix(prefix, own[i].subtree, own[|own| - 1].subtree);
    }
  }

  lemma {:induction false} OwnKept(t: MibTable, bases: seq<MibTable>, p: Oid)
    requires p in t.entries && forall i :: 0 <= i < |bases| ==> p !in bases[i].entries
    ensures p in InheritAll(t, bases).entries && InheritAll(t, bases).entries[p] == t.entries[p]
    decreases |bases|
  {
    if bases != [] { OwnKept(t, bases[..|bases| - 1], p); }
  }

  /** An entry of the class itself that no base defines is what its last declaration says. */
  lemma OwnEntries(prefix: Oid, own: seq<OwnEntry>, bases: seq<MibTable>, i: nat)
    requires i < |own| && forall j :: i < j < |own| ==> own[j].subtree != own[i].subtree
    requires forall b :: b in bases ==> prefix + own[i].subtree !in b.entries
    ensures var (t, key) := (NewClass(Some(prefix), own, bases), prefix + own[i].subtree);
      key in t.entries && t.entries[key] == Entry(key, own[i].valueType, own[i].handlers)
  {
    hide RawTable.KeysArePrefixes, InheritAll, OwnTable;
    OwnTableEntry(prefix, own, i);
    OwnKept(OwnTable(prefix, own), bases, prefix + own[i].subtree);
  }

  // ---------------------------------------------------------------- Get

  function FindParentPrefix(t: MibTable, item: Oid): (r: Option<Oid>)
    ensures r.Some? ==> r.value in t.prefixes && r.value <= item
  {
    var oids := Sort(t.prefixes);
    var i := Bisect(oids, item);
    SortSorts(t.prefixes);
    if i == 0 then None
    else if oids[i - 1] <= item then Some(oids[i - 1])
    else None
  }

  function GetValue(e: Entry, key: Oid): Outcome<Option<VarBind>> {
    var value := e.Call(e.SubId(key));
    if value.None? then Returned(None)
    else
      var vb :- FromTypecast(e.valueType, key, value.value);
      Returned(Some(vb))
  }

  function GetNextValue(e: Entry, key: Oid): Outcome<Option<VarBind>> {
    var key1 := e.Next(e.SubId(key));
    if key1.None? then Returned(None)
    else
      var val1 := e.Call(key1.value);
      if val1.None? then Returned(None)
      else
        var vb :- FromTypecast(e.valueType, e.ReplaceSubId(key, key1.value), val1.value);
        Returned(Some(vb))
  }

  /** `MIBTable.get`. */
  function Get(t: MibTable, sr: SearchRange): Outcome<VarBind> {
    var key := sr.start.ToTuple();
    var prefix := FindParentPrefix(t, key);
    if prefix.None? then Returned(VarBind(NO_SUCH_OBJECT, 0, sr.start, Nothing))
    else
      var vr :- GetValue(t.entries[prefix.value], key);
      Returned(if vr.Some? then vr.value else VarBind(NO_SUCH_INSTANCE, 0, sr.start, Nothing))
  }

  // ---------------------------------------------------------------- GetNext

  /** First phase: the rest of the column the start lies in. */
  function InColumn(t: MibTable, sr: SearchRange): Outcome<Option<VarBind>> {
    var key := sr.start.ToTuple();
    var prefix := FindParentPrefix(t, key);
    if prefix.None? then Returned(None)
    else
      var e := t.entries[prefix.value];
      var here :- if sr.start.inclusive != 0 then GetValue(e, key) else Returned(None);
      if here.Some? then Returned(here) else GetNextValue(e, key)
  }

  /** The first element of one column, if it has one with a value. */
  function Head(t: MibTable, p: Oid): Outcome<Option<VarBind>>
    requires p in t.entries
  {
    var e := t.entries[p];
    var key1 := e.First();
    if key1.None? then Returned(None)
    else
      var val1 := e.Call(key1.value);
      if val1.None? then Returned(None)
      else
        var vb :- FromTypecast(e.valueType, e.ReplaceSubId(p, key1.value), val1.value);
        Returned(Some(vb))
  }

  /** Second phase: the first later column below `end` whose head has a value. */
  function Scan(t: MibTable, remaining: seq<Oid>, end: Oid): Outcome<Option<VarBind>>
    requires forall p :: p in remaining ==> p in t.entries
  {
    if remaining == [] || !Less(remaining[0], end) then Returned(None)
    else
      var head :- Head(t, remaining[0]);
      if head.Some? then Returned(head) else Scan(t, remaining[1..], end)
  }

  function Remaining(t: MibTable, start: Oid): (r: seq<Oid>)
    ensures forall p :: p in r ==> p in t.entries
  {
    SortSorts(t.prefixes);
    Sort(t.prefixes)[Bisect(Sort(t.prefixes), start)..]
  }

  function EndOfView(sr: SearchRange): VarBind {
    VarBind(END_OF_MIB_VIEW, 0, sr.start, Nothing)
  }

  function GetNextResult(t: MibTable, sr: SearchRange): Outcome<VarBind> {
    var column :- InColumn(t, sr);
    if column.Some? then Returned(column.value)
    else
      var later :- Scan(t, Remaining(t, sr.start.ToTuple()), sr.end.ToTuple());
      Returned(if later.Some? then later.value else EndOfView(sr))
  }

  /** `MIBTable.get_next`. */
  method GetNext(t: MibTable, sr: SearchRange) returns (r: Outcome<VarBind>)
    ensures r == GetNextResult(t, sr)
  {
    var startKey, endKey := sr.start.ToTuple(), sr.end.ToTuple();
    var prefix := FindParentPrefix(t, startKey);
    if prefix.Some? {
      var parent := t.entries[prefix.value];
      if sr.start.inclusive != 0 {
        var vr :- GetValue(parent, startKey);
        if vr.Some? { return Returned(vr.value); }
      }
      var vr :- GetNextValue(parent, startKey);
      if vr.Some? { return Returned(vr.value); }
    }
    var remaining := Remaining(t, startKey);
    while remaining != [] && Less(remaining[0], endKey)
      invariant forall p :: p in remaining ==> p in t.entries
      invariant Scan(t, remaining, endKey) == Scan(t, Remaining(t, startKey), endKey)
    {
      var oidKey := remaining[0];
      var e := t.entries[oidKey];
      var key1 := e.First();
      if key1.None? {
        remaining := remaining[1..];
        continue;
      }
      var val1 := e.Call(key1.value);
      if val1.None? {
        remaining := remaining[1..];
        continue;
      }
      var vr :- FromTypecast(e.valueType, e.ReplaceSubId(oidKey, key1.value), val1.value);
      return Returned(vr);
    }
    return Returned(EndOfView(sr));
  }
}
