/** What the two searches of `Mib` mean: the two-phase prefix search is the flat
    "least instance in an interval" of section 7.2.3 of RFC 2741, and exactly when. */
module MibTheory {
  import opened Common
  import opened OidOrder
  import opened Encodings
  import opened Mib

  // ---------------------------------------------------------------- premises

  /** No prefix extends another (repeated registrations are allowed). */
  ghost predicate Apart(prefixes: seq<Oid>) {
    forall p, q :: p in prefixes && q in prefixes && p <= q ==> p == q
  }

  ghost predicate PrefixFree(t: MibTable) {
    Apart(t.prefixes)
  }

  /** The iterator of a column steps to the next sub-id that has a value. */
  ghost predicate ColumnExact(e: Entry) {
    e.handlers.Scalar? ||
    (e.Call([]).None? && forall s :: StepsExactly(e, s))
  }

  ghost predicate StepsExactly(e: Entry, s: Oid) {
    match e.Next(s)
    case Some(k) => Less(s, k) && e.Call(k).Some? && forall j :: Less(s, j) && Less(j, k) ==> e.Call(j).None?
    case None => forall j :: Less(s, j) ==> e.Call(j).None?
  }

  /** The values a handler may return for an entry of the type. */
  predicate Castable(type_: ValueType, raw: Raw) {
    match type_
    case INTEGER | COUNTER_32 | GAUGE_32 | TIME_TICKS | COUNTER_64 => raw.Integer?
    case OCTET_STRING | IP_ADDRESS | OPAQUE => raw.Text?
    case OBJECT_IDENTIFIER => raw.Encoded? || (raw.Tuple? && raw.t != INTERNET_PREFIX)
    case NULL | NO_SUCH_OBJECT | NO_SUCH_INSTANCE | END_OF_MIB_VIEW => false
  }

  /** The answers of an entry can be put into a binding: values suit the entry's type, and
      names are not 1.3.6.1 itself. */
  ghost predicate Typed(e: Entry) {
    && !e.valueType.Empty()
    && forall k :: e.Call(k).Some? ==> Castable(e.valueType, e.Call(k).value) && e.prefix + k != INTERNET_PREFIX
  }

  ghost predicate WellTyped(t: MibTable) {
    forall p :: p in t.entries ==> Typed(t.entries[p])
  }

  ghost predicate Orderly(t: MibTable) {
    PrefixFree(t) && forall p :: p in t.entries ==> ColumnExact(t.entries[p]) && Typed(t.entries[p])
  }

  // ---------------------------------------------------------------- specification

  /** `x` names a variable in the column of `p`: a scalar has the one instance whose
      sub-id is empty. */
  ghost predicate InstanceAt(t: MibTable, p: Oid, x: Oid) {
    p in t.entries && p <= x &&
    t.entries[p].Call(x[|p|..]).Some? && (t.entries[p].handlers.Scalar? ==> x == p)
  }

  ghost predicate Instance(t: MibTable, x: Oid) {
    exists p :: InstanceAt(t, p, x)
  }

  ghost predicate Beyond(sr: SearchRange, x: Oid) {
    Less(sr.start.ToTuple(), x) || (sr.start.inclusive != 0 && x == sr.start.ToTuple())
  }

  /** A null end does not bound the range. */
  ghost predicate InRange(sr: SearchRange, x: Oid) {
    Beyond(sr, x) && (sr.end.ToTuple() == [] || Less(x, sr.end.ToTuple()))
  }

  /** The instance of least name beyond the start, bounded or not by the end. */
  ghost predicate Successor(t: MibTable, sr: SearchRange, x: Oid) {
    Instance(t, x) && Beyond(sr, x) && forall y :: Instance(t, y) && Beyond(sr, y) ==> AtMost(x, y)
  }

  ghost predicate LeastInRange(t: MibTable, sr: SearchRange, x: Oid) {
    Instance(t, x) && InRange(sr, x) && forall y :: Instance(t, y) && InRange(sr, y) ==> AtMost(x, y)
  }

  /** The identifier stands for the name; below 1.3.6.1.0 the first five sub-ids are lost. */
  ghost predicate Named(o: ObjectIdentifier, x: Oid) {
    && o.nSubid == |o.subids| && o.inclusive == 0 && o.reserved == 0
    && o.ToTuple() == if INTERNET_PREFIX + [0] <= x then x[5..] else x
  }

  /** The data say what the handler returned: a number as it is, a text as its octets with zero
      padding, a name given as a tuple or as an encoded object. */
  ghost predicate Represents(data: Data, raw: Raw) {
    match raw
    case Integer(n) => data == Num(n)
    case Text(s) =>
      && data.Str? && data.s.octets == s && data.s.length == |s|
      && |data.s.padding| < 4 && (|s| + |data.s.padding|) % 4 == 0 && forall b :: b in data.s.padding ==> b == 0
    case Tuple(u) => data.Name? && Named(data.o, u)
    case Encoded(o) => data == Name(o)
  }

  /** The binding of a name in the column of `p`: its own name, the column's type, and what the
      column's handler returns for it. */
  ghost predicate Describes(t: MibTable, p: Oid, x: Oid, vb: VarBind)
    requires p in t.entries && p <= x && t.entries[p].Call(x[|p|..]).Some?
  {
    && vb.type_ == t.entries[p].valueType && vb.reserved == 0
    && Named(vb.name, x) && Represents(vb.data, t.entries[p].Call(x[|p|..]).value)
  }

  /** The binding of an instance. */
  ghost predicate Binds(t: MibTable, x: Oid, vb: VarBind) {
    exists p :: InstanceAt(t, p, x) && Describes(t, p, x, vb)
  }

  /** The answer section 7.2.3.2 of RFC 2741 asks for. */
  ghost predicate Exact(t: MibTable, sr: SearchRange, r: Outcome<VarBind>) {
    r.Returned? &&
    if exists x :: LeastInRange(t, sr, x)
    then exists x :: LeastInRange(t, sr, x) && Binds(t, x, r.value)
    else
      r.value == VarBind(END_OF_MIB_VIEW, 0, sr.start, Nothing) && forall x :: Instance(t, x) ==> !InRange(sr, x)
  }

  // ---------------------------------------------------------------- bindings

  lemma NameExact(x: Oid)
    ensures FromIterable(x).Some? <==> x != INTERNET_PREFIX
    ensures FromIterable(x).Some? ==> Named(FromIterable(x).value, x)
  {
    if INTERNET_PREFIX <= x && |x| == 4 { assert x == INTERNET_PREFIX; }
    if FromIterable(x).Some? {
      CompressionExact(x);
      if INTERNET_PREFIX + [0] <= x { assert (INTERNET_PREFIX + [0])[4] == 0 && INTERNET_PREFIX <= x; }
    }
  }

  lemma DataExact(type_: ValueType, raw: Raw)
    ensures CastData(type_, raw).Some? <==> Castable(type_, raw) || type_.Empty()
    ensures CastData(type_, raw).Some? ==>
              if type_.Empty() then CastData(type_, raw).value == Nothing
              else Represents(CastData(type_, raw).value, raw)
  {
    hide FromIterable, Named;
    if raw.Tuple? { NameExact(raw.t); }
  }

  /** What is put into a binding, for any type, name and value: it fails exactly on values that do
      not suit the type and on 1.3.6.1 itself, and else represents name and value. */
  lemma TypecastExact(type_: ValueType, x: Oid, raw: Raw)
    ensures FromTypecast(type_, x, raw).Returned? <==> (Castable(type_, raw) || type_.Empty()) && x != INTERNET_PREFIX
    ensures match FromTypecast(type_, x, raw)
            case Returned(vb) => vb.type_ == type_ && vb.reserved == 0 && Named(vb.name, x) &&
              if type_.Empty() then vb.data == Nothing else Represents(vb.data, raw)
            case Raised => true
  {
    hide FromIterable, Named;
    NameExact(x);
    DataExact(type_, raw);
  }

  /** What the handlers decide: a scalar has one value, a column one for each sub-id, and in an
      overlaid column the handler for the full name goes before the underlying one. */
  lemma HandlersDecide(t: MibTable, p: Oid, k: Oid, vb: VarBind)
    requires p in t.entries
    ensures InstanceAt(t, p, p + k) <==>
      match t.entries[p].handlers
      case Scalar(constant) => k == [] && constant.Some?
      case Column(_, cell) => cell(k).Some?
      case Overlay(_, cell, over) => over(p + k).Some? || cell(k).Some?
    ensures InstanceAt(t, p, p + k) && Describes(t, p, p + k, vb) ==>
      match t.entries[p].handlers
      case Scalar(constant) => Represents(vb.data, constant.value)
      case Column(_, cell) => Represents(vb.data, cell(k).value)
      case Overlay(_, cell, over) => Represents(vb.data, if over(p + k).Some? then over(p + k).value else cell(k).value)
  {
    hide Represents, Named;
    InstanceOfColumn(t, p, k);
    assert (p + k)[|p|..] == k;
  }

  // ---------------------------------------------------------------- parent lookup

  /** The element before the insertion point extends every element that covers the item. */
  lemma PredecessorExtends(oids: seq<Oid>, item: Oid, j: nat)
    requires Sorted(oids) && j < |oids| && oids[j] <= item
    ensures Bisect(oids, item) > 0 && oids[j] <= oids[Bisect(oids, item) - 1]
  {
    var p, i := oids[j], Bisect(oids, item);
    BisectSplits(oids, item);
    NoPrefixAbove(p, item);
    if j < i - 1 { assert AtMost(oids[j], oids[i - 1]); } else { Irreflexive(p); }
    assert item == p + item[|p|..];
    Sandwich(p, oids[i - 1], item[|p|..]);
  }

  /** The single predecessor test finds the registered prefix of an OID, if there is one. */
  lemma ParentLookup(t: MibTable, item: Oid)
    requires PrefixFree(t)
    ensures forall p :: FindParentPrefix(t, item) == Some(p) <==> p in t.prefixes && p <= item
  {
    hide Sort, Bisect, Sorted;
    var oids := Sort(t.prefixes);
    SortSorts(t.prefixes);
    forall p | p in t.prefixes && p <= item ensures FindParentPrefix(t, item) == Some(p) {
      var j :| 0 <= j < |oids| && oids[j] == p;
      PredecessorExtends(oids, item, j);
      assert oids[Bisect(oids, item) - 1] in oids;
    }
  }

  // ---------------------------------------------------------------- Get

  /** The answer of Get by case on which prefix covers the name, and on what its entry yields. */
  lemma GetCases(t: MibTable, sr: SearchRange)
    requires PrefixFree(t)
    ensures var key := sr.start.ToTuple();
      if forall p :: p in t.prefixes ==> !(p <= key)
      then Get(t, sr) == Returned(VarBind(NO_SUCH_OBJECT, 0, sr.start, Nothing))
      else exists p :: p in t.prefixes && p <= key &&
             match t.entries[p].Call(key[|p|..])
             case None => Get(t, sr) == Returned(VarBind(NO_SUCH_INSTANCE, 0, sr.start, Nothing))
             case Some(raw) => Get(t, sr) == FromTypecast(t.entries[p].valueType, key, raw)
  {
    var key := sr.start.ToTuple();
    ParentLookup(t, key);
    match FindParentPrefix(t, key)
    case Some(p) => assert p in t.prefixes && p <= key;
    case None =>
  }

  ghost predicate Covered(t: MibTable, x: Oid) {
    exists p :: p in t.prefixes && p <= x
  }

  /** The answer section 7.2.3.1 of RFC 2741 asks for: the binding of the variable of exactly
      that name, noSuchInstance if there is none but a registered prefix covers the name, and
      else noSuchObject. */
  ghost predicate ExactGet(t: MibTable, sr: SearchRange, r: Outcome<VarBind>) {
    var key := sr.start.ToTuple();
    r.Returned? &&
    if Instance(t, key) then Binds(t, key, r.value)
    else r.value == VarBind(if Covered(t, key) then NO_SUCH_INSTANCE else NO_SUCH_OBJECT, 0, sr.start, Nothing)
  }

  /** Get gives that answer exactly for names that are not strictly below a scalar that has a
      value: a scalar ignores the sub-id it is called with. */
  lemma GetExactness(t: MibTable, sr: SearchRange)
    requires Orderly(t)
    ensures ExactGet(t, sr, Get(t, sr)) <==> !exists p :: ValuedScalarAbove(t, p, sr.start.ToTuple())
  {
    var key := sr.start.ToTuple();
    GetCases(t, sr);
    forall p | p in t.prefixes && p <= key ensures ExactGet(t, sr, Get(t, sr)) <==> !ValuedScalarAbove(t, p, key) {
      GetUnder(t, sr, p);
    }
    forall p, q | p in t.prefixes && p <= key && q in t.prefixes && q <= key ensures p == q { OneColumn(t, p, q, key); }
  }

  lemma GetUnder(t: MibTable, sr: SearchRange, p: Oid)
    requires Orderly(t) && p in t.prefixes && p <= sr.start.ToTuple()
    ensures ExactGet(t, sr, Get(t, sr)) <==> !ValuedScalarAbove(t, p, sr.start.ToTuple())
  {
    var key := sr.start.ToTuple();
    ParentLookup(t, key);
    assert FindParentPrefix(t, key) == Some(p);
    assert Typed(t.entries[p]) && key == p + key[|p|..];
    forall q | InstanceAt(t, q, key) ensures q == p { OneColumn(t, p, q, key); }
    if InstanceAt(t, p, key) {
      assert BindingAt(t, p, key) == Get(t, sr);
      BindingDescribes(t, p, key);
    }
  }

  // ---------------------------------------------------------------- columns

  lemma InstanceOfColumn(t: MibTable, p: Oid, k: Oid)
    requires p in t.entries
    ensures InstanceAt(t, p, p + k) <==> t.entries[p].Call(k).Some? && (t.entries[p].handlers.Scalar? ==> k == [])
  {
    assert (p + k)[|p|..] == k;
    if k == [] { assert p + k == p; }
  }

  /** Whatever lies in another column than that of `start` and beyond `start`, lies in a
      column that is itself beyond `start`. */
  lemma LaterColumn(t: MibTable, start: Oid, q: Oid, y: Oid)
    requires PrefixFree(t) && q in t.prefixes && q <= y && !(q <= start) && AtMost(start, y)
    ensures Less(start, q)
  {
    assert y == q + y[|q|..];
    Trichotomy(start, q);
    if AtMost(q, start) { Sandwich(q, start, y[|q|..]); }
  }

  /** Columns are ordered like their prefixes. */
  lemma ColumnOrder(t: MibTable, p: Oid, q: Oid, x: Oid, y: Oid)
    requires PrefixFree(t) && p in t.prefixes && q in t.prefixes && Less(p, q) && p <= x && q <= y
    ensures Less(x, y)
  {
    Irreflexive(p);
    assert x == p + x[|p|..] && y == q + y[|q|..];
    ColumnsSeparate(p, q, x[|p|..], y[|q|..]);
  }

  /** The column an instance is in is unique. */
  lemma OneColumn(t: MibTable, p: Oid, q: Oid, x: Oid)
    requires PrefixFree(t) && p in t.prefixes && q in t.prefixes && p <= x && q <= x
    ensures p == q
  {
    CommonExtension(p, q, x);
  }

  // ---------------------------------------------------------------- second phase

  /** The column has a head with a value. */
  ghost predicate Full(t: MibTable, p: Oid) {
    p in t.entries && t.entries[p].First().Some? && t.entries[p].Call(t.entries[p].First().value).Some?
  }

  /** The binding of `x` as an instance of the column `p`. */
  ghost function BindingAt(t: MibTable, p: Oid, x: Oid): Outcome<VarBind>
    requires InstanceAt(t, p, x)
  {
    FromTypecast(t.entries[p].valueType, x, t.entries[p].Call(x[|p|..]).value)
  }

  /** The first column of the list that has an instance, whatever the end bound. */
  ghost function FirstFull(t: MibTable, cols: seq<Oid>): Option<Oid>
    requires forall p :: p in cols ==> p in t.entries
  {
    if cols == [] then None
    else if Full(t, cols[0]) then Some(cols[0]) else FirstFull(t, cols[1..])
  }

  ghost function HeadOid(t: MibTable, p: Oid): Oid
    requires p in t.entries
  {
    p + (if t.entries[p].First().Some? then t.entries[p].First().value else [])
  }

  /** The head of a column is its least instance, and a column without a head has none. */
  lemma HeadIsLeast(t: MibTable, p: Oid, y: Oid)
    requires Orderly(t) && p in t.entries && InstanceAt(t, p, y)
    ensures Full(t, p)
    ensures AtMost(HeadOid(t, p), y)
  {
    var e := t.entries[p];
    var j := y[|p|..];
    assert y == p + j;
    if e.handlers.Scalar? {
      assert HeadOid(t, p) == p == y;
      Irreflexive(y);
    } else {
      assert StepsExactly(e, []);
      assert j != [] && Less([], j);
      SamePrefix(p, j, e.First().value);
    }
  }

  lemma HeadIsInstance(t: MibTable, p: Oid)
    requires WellTyped(t) && Full(t, p)
    ensures InstanceAt(t, p, HeadOid(t, p))
    ensures Head(t, p).Returned? && Head(t, p).value.Some?
    ensures BindingAt(t, p, HeadOid(t, p)) == Returned(Head(t, p).value.value)
  {
    var e := t.entries[p];
    var k := e.First().value;
    InstanceOfColumn(t, p, k);
    assert (p + k)[|p|..] == k;
    assert e.ReplaceSubId(p, k) == p + k by { assert p[..|p|] == p; }
    assert Typed(e);
  }

  /** The scan stops at the first column that has an instance, if that column's prefix is
      below the end. */
  lemma {:induction false} ScanFinds(t: MibTable, cols: seq<Oid>, end: Oid)
    requires WellTyped(t) && Sorted(cols)
    requires forall p :: p in cols ==> p in t.entries
    ensures match FirstFull(t, cols)
            case Some(p) => p in cols && Full(t, p) && Scan(t, cols, end) ==
              (if Less(p, end) then Head(t, p) else Returned(None))
            case None => Scan(t, cols, end) == Returned(None)
  {
    if cols != [] {
      ScanFinds(t, cols[1..], end);
      if Full(t, cols[0]) {
        HeadIsInstance(t, cols[0]);
      } else if !Less(cols[0], end) && FirstFull(t, cols).Some? {
        var p := FirstFull(t, cols).value;
        var i :| 0 <= i < |cols[1..]| && cols[1..][i] == p;
        assert AtMost(cols[0], cols[i + 1]);
        if Less(p, end) { AtMostThenLess(cols[0], p, end); }
      }
    }
  }

  lemma {:induction false} FirstFullSound(t: MibTable, cols: seq<Oid>)
    requires Orderly(t) && Sorted(cols)
    requires forall p :: p in cols ==> p in t.entries
    ensures match FirstFull(t, cols)
            case Some(p) => p in cols && Full(t, p) && InstanceAt(t, p, HeadOid(t, p)) &&
              forall q, y :: q in cols && InstanceAt(t, q, y) ==> AtMost(HeadOid(t, p), y)
            case None => forall q, y :: q in cols ==> !InstanceAt(t, q, y)
  {
    if cols != [] {
      FirstFullSound(t, cols[1..]);
      var c := cols[0];
      var full := Full(t, c);
      if full { HeadIsInstance(t, c); }
      forall q, y | q in cols && InstanceAt(t, q, y)
        ensures FirstFull(t, cols).Some? && AtMost(HeadOid(t, FirstFull(t, cols).value), y)
      {
        if q == c {
          HeadIsLeast(t, c, y);
        } else {
          assert q in cols[1..];
          if full {
            var i :| 0 <= i < |cols| && cols[i] == q;
            assert AtMost(c, q);
            Trichotomy(c, q);
            ColumnOrder(t, c, q, HeadOid(t, c), y);
            Trichotomy(HeadOid(t, c), y);
          }
        }
      }
    }
  }

  // ---------------------------------------------------------------- GetNext

  ghost predicate ValuedScalarAbove(t: MibTable, p: Oid, key: Oid) {
    p in t.entries && p <= key && p != key && t.entries[p].handlers.Scalar? && t.entries[p].handlers.constant.Some?
  }

  /** With the include flag set, a start strictly below a valued scalar is taken for an
      instance, because scalars ignore the sub-id. */
  ghost predicate ScalarTail(t: MibTable, sr: SearchRange) {
    sr.start.inclusive != 0 && exists p :: ValuedScalarAbove(t, p, sr.start.ToTuple())
  }

  lemma StartIsSuccessor(t: MibTable, sr: SearchRange)
    requires Instance(t, sr.start.ToTuple()) && sr.start.inclusive != 0
    ensures Successor(t, sr, sr.start.ToTuple())
  {
    Irreflexive(sr.start.ToTuple());
    forall y | Beyond(sr, y) ensures AtMost(sr.start.ToTuple(), y) { Trichotomy(sr.start.ToTuple(), y); }
  }

  /** Instances beyond `p + k` are not below `p + next`, if `next` is the next valued sub-id
      after `k` in the column of `p`. */
  lemma AfterInColumn(t: MibTable, p: Oid, q: Oid, k: Oid, next: Oid, y: Oid)
    requires Orderly(t) && p in t.entries && !t.entries[p].handlers.Scalar?
    requires t.entries[p].Next(k) == Some(next)
    requires InstanceAt(t, q, y) && Less(p + k, y)
    ensures AtMost(p + next, y)
  {
    if p == q {
      var j := y[|p|..];
      assert y == p + j;
      SamePrefix(p, k, j);
      SamePrefix(p, j, next);
      assert StepsExactly(t.entries[p], k);
    } else {
      if q <= p + k { OneColumn(t, p, q, p + k); }
      LaterBeyond(t, p, q, k, y);
      ColumnOrder(t, p, q, p + next, y);
      Trichotomy(p + next, y);
    }
  }

  lemma LaterBeyond(t: MibTable, p: Oid, q: Oid, k: Oid, y: Oid)
    requires PrefixFree(t) && p in t.prefixes && q in t.prefixes && q <= y && !(q <= p + k) && Less(p + k, y)
    ensures Less(p, q)
  {
    Trichotomy(p + k, y);
    LaterColumn(t, p + k, q, y);
    PrefixAtMost(p, k);
    AtMostThenLess(p, p + k, q);
  }

  lemma NextIsLeast(t: MibTable, sr: SearchRange, p: Oid, k: Oid, next: Oid)
    requires Orderly(t) && p in t.entries && sr.start.ToTuple() == p + k && t.entries[p].Next(k) == Some(next)
    requires sr.start.inclusive != 0 ==> t.entries[p].Call(k).None?
    requires InstanceAt(t, p, p + next) && Less(k, next)
    ensures Successor(t, sr, p + next)
  {
    hide Typed;
    var start := p + k;
    assert start[|p|..] == k;
    SamePrefix(p, k, next);
    forall y | Instance(t, y) && Beyond(sr, y) ensures AtMost(p + next, y) {
      var q :| InstanceAt(t, q, y);
      if y == start && sr.start.inclusive != 0 { OneColumn(t, p, q, y); }
      AfterInColumn(t, p, q, k, next, y);
    }
  }

  /** The column's own next value is the successor of a start in that column that is not
      itself to be returned. */
  lemma NextIsSuccessor(t: MibTable, sr: SearchRange, p: Oid)
    requires Orderly(t) && p in t.entries && p <= sr.start.ToTuple()
    requires sr.start.inclusive != 0 ==> t.entries[p].Call(sr.start.ToTuple()[|p|..]).None?
    requires t.entries[p].Next(sr.start.ToTuple()[|p|..]).Some?
    ensures var c := p + t.entries[p].Next(sr.start.ToTuple()[|p|..]).value;
            InstanceAt(t, p, c) && Successor(t, sr, c) && GetNextValue(t.entries[p], sr.start.ToTuple()).Returned? &&
            GetNextValue(t.entries[p], sr.start.ToTuple()).value.Some? &&
            BindingAt(t, p, c) == Returned(GetNextValue(t.entries[p], sr.start.ToTuple()).value.value)
  {
    var start := sr.start.ToTuple();
    var e, k := t.entries[p], start[|p|..];
    var next := e.Next(k).value;
    var c := p + next;
    hide FromTypecast, Castable;
    assert start == p + k && start[..|p|] == p && c[|p|..] == next;
    assert Typed(e) && StepsExactly(e, k);
    InstanceOfColumn(t, p, next);
    TypecastExact(e.valueType, c, e.Call(next).value);
    NextIsLeast(t, sr, p, k, next);
  }

  lemma NoNextInColumn(t: MibTable, sr: SearchRange, p: Oid, y: Oid)
    requires Orderly(t) && InstanceAt(t, p, y) && p <= sr.start.ToTuple()
    requires sr.start.inclusive != 0 ==> t.entries[p].Call(sr.start.ToTuple()[|p|..]).None?
    requires t.entries[p].Next(sr.start.ToTuple()[|p|..]).None?
    ensures !Beyond(sr, y)
  {
    var e, k, j := t.entries[p], sr.start.ToTuple()[|p|..], y[|p|..];
    assert sr.start.ToTuple() == p + k && y == p + j;
    SamePrefix(p, k, j);
    if e.handlers.Scalar? { PrefixAtMost(p, k); } else { assert StepsExactly(e, k); }
  }

  /** First phase: it finds the successor if that lies in the start's own column. */
  lemma FirstPhase(t: MibTable, sr: SearchRange) returns (p: Oid, c: Oid)
    requires Orderly(t) && !ScalarTail(t, sr)
    ensures InColumn(t, sr).Returned?
    ensures match InColumn(t, sr).value
            case Some(vb) => p <= sr.start.ToTuple() && InstanceAt(t, p, c) && Successor(t, sr, c) &&
              BindingAt(t, p, c) == Returned(vb)
            case None => forall q, y :: q <= sr.start.ToTuple() && InstanceAt(t, q, y) ==> !Beyond(sr, y)
  {
    var start := sr.start.ToTuple();
    ParentLookup(t, start);
    hide FromTypecast, Castable, ColumnExact;
    p, c := [], start;
    if FindParentPrefix(t, start).Some? {
      p := FindParentPrefix(t, start).value;
      var e, k := t.entries[p], start[|p|..];
      assert start == p + k;
      assert Typed(e);
      if sr.start.inclusive != 0 && e.Call(k).Some? {
        assert !ValuedScalarAbove(t, p, start);
        assert InstanceAt(t, p, start);
        StartIsSuccessor(t, sr);
        TypecastExact(e.valueType, start, e.Call(k).value);
      } else if e.Next(k).Some? {
        NextIsSuccessor(t, sr, p);
        c := p + e.Next(k).value;
      } else {
        forall q, y | q <= start && InstanceAt(t, q, y) ensures !Beyond(sr, y) {
          OneColumn(t, p, q, start);
          NoNextInColumn(t, sr, q, y);
        }
      }
    }
  }

  /** The columns left after the insertion point are the registered ones above `start`. */
  lemma RemainingColumns(t: MibTable, start: Oid)
    ensures Sorted(Remaining(t, start))
    ensures forall q :: q in Remaining(t, start) <==> q in t.prefixes && Less(start, q)
  {
    hide Less, Sort, Bisect;
    var s := Sort(t.prefixes);
    var b := Bisect(s, start);
    SortSorts(t.prefixes);
    BisectSplits(s, start);
    forall q ensures q in Remaining(t, start) <==> q in t.prefixes && Less(start, q) {
      if q in t.prefixes && Less(start, q) {
        var i :| 0 <= i < |s| && s[i] == q;
        assert i >= b;
        assert s[b..][i - b] == q;
      }
    }
  }

  /** Second phase: when the start's own column has nothing more, it finds the successor
      if the prefix of the successor's column is below the end. */
  lemma SecondPhase(t: MibTable, sr: SearchRange) returns (p: Oid, c: Oid)
    requires Orderly(t)
    requires forall q, y :: q <= sr.start.ToTuple() && InstanceAt(t, q, y) ==> !Beyond(sr, y)
    ensures var later := Scan(t, Remaining(t, sr.start.ToTuple()), sr.end.ToTuple());
      if exists y :: Instance(t, y) && Beyond(sr, y)
      then InstanceAt(t, p, c) && Successor(t, sr, c) && !(p <= sr.start.ToTuple()) && later.Returned? &&
           if Less(p, sr.end.ToTuple())
           then later.value.Some? && BindingAt(t, p, c) == Returned(later.value.value)
           else later.value == None
      else later == Returned(None)
  {
    var start := sr.start.ToTuple();
    var cols := Remaining(t, start);
    RemainingColumns(t, start);
    ScanFinds(t, cols, sr.end.ToTuple());
    FirstFullSound(t, cols);
    forall q, y | InstanceAt(t, q, y) && Beyond(sr, y) ensures q in cols {
      Trichotomy(start, y);
      LaterColumn(t, start, q, y);
    }
    p, c := [], [];
    if FirstFull(t, cols).Some? {
      p := FirstFull(t, cols).value;
      c := HeadOid(t, p);
      HeadIsInstance(t, p);
      var k := c[|p|..];
      assert c == p + k;
      PrefixAtMost(p, k);
      LessThenAtMost(start, p, c);
      if p <= start { NoPrefixAbove(p, start); }
      assert Instance(t, c) && Beyond(sr, c);
    }
  }

  /** Both phases together: the answer is the successor's binding or endOfMibView, and
      which of the two depends only on where the end lies relative to the successor's column. */
  lemma TwoPhases(t: MibTable, sr: SearchRange) returns (p: Oid, c: Oid)
    requires Orderly(t) && !ScalarTail(t, sr)
    ensures if exists y :: Instance(t, y) && Beyond(sr, y)
      then InstanceAt(t, p, c) && Successor(t, sr, c) &&
           GetNextResult(t, sr) ==
             (if p <= sr.start.ToTuple() || Less(p, sr.end.ToTuple()) then BindingAt(t, p, c)
              else Returned(EndOfView(sr)))
      else GetNextResult(t, sr) == Returned(EndOfView(sr))
  {
    p, c := FirstPhase(t, sr);
    if InColumn(t, sr).value.None? {
      p, c := SecondPhase(t, sr);
    }
  }

  /** How the end can fail a name `c` beyond the start in column `p`: it is tested against the
      prefix of a later column instead of the name, not at all in the start's own column, and a
      null end blocks the later columns instead of not bounding them. */
  ghost predicate EndFails(start: Oid, end: Oid, p: Oid, c: Oid) {
    if p <= start then end != [] && AtMost(end, c)
    else end == [] || (Less(p, end) && AtMost(end, c))
  }

  ghost predicate OverrunAt(t: MibTable, sr: SearchRange, p: Oid, c: Oid) {
    InstanceAt(t, p, c) && EndFails(sr.start.ToTuple(), sr.end.ToTuple(), p, c)
  }

  /** The end bound is not honoured for the successor. */
  ghost predicate Overrun(t: MibTable, sr: SearchRange) {
    exists p, c :: Successor(t, sr, c) && OverrunAt(t, sr, p, c)
  }

  /** The successor, when the end does not cut it off, is the least instance in range. */
  lemma SuccessorInRange(t: MibTable, sr: SearchRange, c: Oid)
    requires Successor(t, sr, c)
    ensures InRange(sr, c) ==> LeastInRange(t, sr, c)
    ensures !InRange(sr, c) ==> forall y :: Instance(t, y) ==> !InRange(sr, y)
  {
    var end := sr.end.ToTuple();
    forall y | Instance(t, y) && InRange(sr, y) ensures end == [] || Less(c, end) {
      if end != [] { AtMostThenLess(c, y, end); }
    }
  }

  lemma BindingIsNotEnd(t: MibTable, sr: SearchRange, p: Oid, c: Oid)
    requires Orderly(t) && InstanceAt(t, p, c)
    ensures BindingAt(t, p, c).Returned? && BindingAt(t, p, c).value != EndOfView(sr)
    ensures Describes(t, p, c, BindingAt(t, p, c).value)
    ensures !Describes(t, p, c, EndOfView(sr))
  {
    hide Represents, Named, FromTypecast;
    BindingDescribes(t, p, c);
  }

  lemma BindingDescribes(t: MibTable, p: Oid, c: Oid)
    requires InstanceAt(t, p, c) && Typed(t.entries[p])
    ensures BindingAt(t, p, c).Returned? && Describes(t, p, c, BindingAt(t, p, c).value)
  {
    hide Represents, Named, FromTypecast;
    assert c == p + c[|p|..];
    TypecastExact(t.entries[p].valueType, c, t.entries[p].Call(c[|p|..]).value);
  }

  lemma OverrunAtSuccessor(t: MibTable, sr: SearchRange, p: Oid, c: Oid)
    requires PrefixFree(t) && Successor(t, sr, c) && InstanceAt(t, p, c)
    ensures Overrun(t, sr) <==> OverrunAt(t, sr, p, c)
  {
    forall q, d | Successor(t, sr, d) && OverrunAt(t, sr, q, d) ensures q == p && d == c {
      Trichotomy(c, d);
      OneColumn(t, p, q, c);
    }
  }

  /** Among the two answers the search can give, exactness is being in range. */
  lemma ExactAnswers(t: MibTable, sr: SearchRange, p: Oid, c: Oid)
    requires Orderly(t) && Successor(t, sr, c) && InstanceAt(t, p, c)
    ensures Exact(t, sr, BindingAt(t, p, c)) <==> InRange(sr, c)
    ensures Exact(t, sr, Returned(EndOfView(sr))) <==> !InRange(sr, c)
  {
    SuccessorInRange(t, sr, c);
    BindingIsNotEnd(t, sr, p, c);
    if InRange(sr, c) {
      assert Binds(t, c, BindingAt(t, p, c).value);
      forall q, x | InstanceAt(t, q, x) ensures !Describes(t, q, x, EndOfView(sr)) { BindingIsNotEnd(t, sr, q, x); }
    }
  }

  /** Exactly when the search gives the answer of section 7.2.3.2, over every table whose
      prefixes do not nest and whose iterators step exactly. */
  lemma GetNextExactIff(t: MibTable, sr: SearchRange)
    requires Orderly(t) && !ScalarTail(t, sr)
    ensures Exact(t, sr, GetNextResult(t, sr)) <==> !Overrun(t, sr)
  {
    var p, c := TwoPhases(t, sr);
    var end := sr.end.ToTuple();
    if exists y :: Instance(t, y) && Beyond(sr, y) {
      OverrunAtSuccessor(t, sr, p, c);
      ExactAnswers(t, sr, p, c);
      NoPrefixAbove(p, c);
      if Less(c, end) { AtMostThenLess(p, c, end); }
    }
  }

  /** The whole condition, over all starts and ends: the answer is the one asked for if and
      only if the end is honoured and the start is not taken for an instance of a scalar. */
  lemma GetNextExactness(t: MibTable, sr: SearchRange)
    requires Orderly(t) && Nameable(t)
    ensures Exact(t, sr, GetNextResult(t, sr)) <==> !Overrun(t, sr) && !ScalarTail(t, sr)
  {
    hide Exact, GetNextResult, Overrun, Orderly, Nameable;
    if ScalarTail(t, sr) { ScalarTailNotExact(t, sr); } else { GetNextExactIff(t, sr); }
  }

  /** The guard a caller can check: a start below a non-null end, which does not lie strictly
      inside a registered subtree. */
  ghost predicate PlainEnd(t: MibTable, sr: SearchRange) {
    && Less(sr.start.ToTuple(), sr.end.ToTuple())
    && forall p :: p in t.prefixes && p <= sr.end.ToTuple() ==> p == sr.end.ToTuple()
  }

  lemma PlainEndHonoured(t: MibTable, sr: SearchRange, p: Oid, c: Oid)
    requires PlainEnd(t, sr)
    ensures !OverrunAt(t, sr, p, c)
  {
    var start, end := sr.start.ToTuple(), sr.end.ToTuple();
    if OverrunAt(t, sr, p, c) {
      if p <= start { NoPrefixAbove(p, start); AtMostThenLess(p, start, end); }
      assert Less(p, end) && c == p + c[|p|..];
      Trichotomy(p, end);
      Sandwich(p, end, c[|p|..]);
      Irreflexive(end);
    }
  }

  lemma GetNextExact(t: MibTable, sr: SearchRange)
    requires Orderly(t) && PlainEnd(t, sr) && !ScalarTail(t, sr)
    ensures Exact(t, sr, GetNextResult(t, sr))
  {
    hide GetNextResult, Exact, Orderly, PlainEnd, OverrunAt, Successor;
    GetNextExactIff(t, sr);
    forall p, c ensures !OverrunAt(t, sr, p, c) { PlainEndHonoured(t, sr, p, c); }
  }

  lemma FreePrefixes(t: MibTable)
    requires Orderly(t)
    ensures PrefixFree(t)
  {
  }

  /** The scalar is taken for an instance of the start's own name. */
  lemma ScalarAnswers(t: MibTable, sr: SearchRange, p: Oid)
    requires Orderly(t) && sr.start.inclusive != 0 && ValuedScalarAbove(t, p, sr.start.ToTuple())
    ensures GetNextResult(t, sr).Returned? && !GetNextResult(t, sr).value.type_.END_OF_MIB_VIEW?
    ensures Named(GetNextResult(t, sr).value.name, sr.start.ToTuple())
  {
    hide FromTypecast, Castable, ColumnExact, Named, Represents;
    var start := sr.start.ToTuple();
    ParentLookup(t, start);
    assert FindParentPrefix(t, start) == Some(p);
    var e := t.entries[p];
    assert Typed(e) && start == p + start[|p|..];
    var raw := e.Call(start[|p|..]).value;
    TypecastExact(e.valueType, start, raw);
  }

  /** A start below a scalar with the include flag set is always answered wrongly: the
      answer carries the start's own name, which names no variable. */
  lemma ScalarTailNotExact(t: MibTable, sr: SearchRange)
    requires Orderly(t) && Nameable(t) && ScalarTail(t, sr)
    ensures !Exact(t, sr, GetNextResult(t, sr))
  {
    hide GetNextResult, Orderly, Represents;
    var start := sr.start.ToTuple();
    var p :| ValuedScalarAbove(t, p, start);
    ScalarAnswers(t, sr, p);
    NameAway(p, start);
    var vb := GetNextResult(t, sr).value;
    forall q, x | InstanceAt(t, q, x) ensures !Describes(t, q, x, vb) {
      NameAway(q, x);
      if x == start { OneColumn(t, p, q, start) by { FreePrefixes(t); } }
    }
  }

  /** A subtree that does not touch 1.3.6.1.0, whose names the wire form does not preserve. */
  ghost predicate AwayFromZero(prefix: Oid) {
    !(INTERNET_PREFIX + [0] <= prefix) && !(prefix <= INTERNET_PREFIX + [0])
  }

  ghost predicate Nameable(t: MibTable) {
    forall p :: p in t.prefixes ==> AwayFromZero(p)
  }

  lemma NameKept(p: Oid, x: Oid)
    requires AwayFromZero(p) && p <= x && FromIterable(x).Some?
    ensures FromIterable(x).value.ToTuple() == x
  {
    CompressionExact(x);
    if INTERNET_PREFIX + [0] <= x { CommonExtension(p, INTERNET_PREFIX + [0], x); }
  }

  /** No name in such a subtree is below 1.3.6.1.0. */
  lemma NameAway(p: Oid, x: Oid)
    requires AwayFromZero(p) && p <= x
    ensures !(INTERNET_PREFIX + [0] <= x)
  {
    if INTERNET_PREFIX + [0] <= x { CommonExtension(p, INTERNET_PREFIX + [0], x); }
  }

  lemma NamesKept(t: MibTable, p: Oid, x: Oid)
    requires Nameable(t) && p in t.prefixes && p <= x && FromIterable(x).Some?
    ensures FromIterable(x).value.ToTuple() == x
  {
    NameKept(p, x);
  }
}
