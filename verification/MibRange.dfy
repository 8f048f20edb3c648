/** Which ranges GetNext answers rightly whatever the columns hold, inputs on which it and Get
    fail, and what it does where values are missing. */
module MibRange {
  import opened Common
  import opened OidOrder
  import opened Encodings
  import opened Mib
  import opened MibTheory
  import opened ListColumns

  // ---------------------------------------------------------------- tables with one instance

  function LoneEntry(p: Oid, q: Oid, k: Oid): Entry {
    ListColumn(p, INTEGER, if p == q then [k] else [], s => if p == q && s == k then Some(Integer(0)) else None)
  }

  /** Columns under these prefixes, all empty but the one under `q`, which holds `k`. */
  function Lone(prefixes: seq<Oid>, q: Oid, k: Oid): MibTable {
    Table(prefixes, map p | p in prefixes :: LoneEntry(p, q, k))
  }

  lemma LoneOrderly(prefixes: seq<Oid>, q: Oid, k: Oid)
    requires Apart(prefixes) && q in prefixes && k != [] && q + k != INTERNET_PREFIX
    ensures Orderly(Lone(prefixes, q, k))
    ensures forall x :: Instance(Lone(prefixes, q, k), x) <==> x == q + k
  {
    var t := Lone(prefixes, q, k);
    forall p | p in prefixes ensures ColumnExact(t.entries[p]) && Typed(t.entries[p]) { LoneColumn(p, q, k); }
    forall x ensures Instance(t, x) <==> x == q + k {
      InstanceOfColumn(t, q, k);
    }
  }

  lemma LoneColumn(p: Oid, q: Oid, k: Oid)
    requires k != [] && q + k != INTERNET_PREFIX
    ensures ColumnExact(LoneEntry(p, q, k)) && Typed(LoneEntry(p, q, k))
  {
    var list: seq<Oid> := if p == q then [k] else [];
    ListColumnExact(p, INTEGER, list, s => if p == q && s == k then Some(Integer(0)) else None);
    assert INTERNET_PREFIX <= q + k && |q + k| == 4 ==> q + k == INTERNET_PREFIX;
  }

  /** If that instance lies beyond the start and its column makes the end fail, the answer is
      wrong: the instance although it is out of range, or endOfMibView although it is in range. */
  lemma LoneWrong(prefixes: seq<Oid>, q: Oid, k: Oid, sr: SearchRange)
    requires Apart(prefixes) && q in prefixes && k != [] && q + k != INTERNET_PREFIX
    requires Less(sr.start.ToTuple(), q + k) && EndFails(sr.start.ToTuple(), sr.end.ToTuple(), q, q + k)
    ensures Orderly(Lone(prefixes, q, k)) && !ScalarTail(Lone(prefixes, q, k), sr)
    ensures !Exact(Lone(prefixes, q, k), sr, GetNextResult(Lone(prefixes, q, k), sr))
    ensures GetNextResult(Lone(prefixes, q, k), sr) ==
      if q <= sr.start.ToTuple() || Less(q, sr.end.ToTuple()) then FromTypecast(INTEGER, q + k, Integer(0))
      else Returned(EndOfView(sr))
  {
    hide GetNextResult, Exact, Orderly, CastData;
    var t := Lone(prefixes, q, k);
    LoneOrderly(prefixes, q, k);
    InstanceOfColumn(t, q, k);
    Irreflexive(q + k);
    assert OverrunAt(t, sr, q, q + k);
    assert Successor(t, sr, q + k);
    assert Overrun(t, sr);
    GetNextExactIff(t, sr);
    var p, c := TwoPhases(t, sr);
    assert Instance(t, q + k) && Beyond(sr, q + k);
    assert c == q + k;
    LonePlace(prefixes, q, k, p);
  }

  lemma LonePlace(prefixes: seq<Oid>, q: Oid, k: Oid, p: Oid)
    requires Apart(prefixes) && q in prefixes && InstanceAt(Lone(prefixes, q, k), p, q + k)
    ensures p == q
    ensures BindingAt(Lone(prefixes, q, k), p, q + k) == FromTypecast(INTEGER, q + k, Integer(0))
  {
    CommonExtension(p, q, q + k);
    assert (q + k)[|q|..] == k;
  }

  // ---------------------------------------------------------------- ranges safe for any contents

  /** A null end with no subtree above the start; or an end above the whole subtree the start
      lies in that does not lie strictly inside a later one. */
  ghost predicate RangeSafe(prefixes: seq<Oid>, sr: SearchRange) {
    var start, end := sr.start.ToTuple(), sr.end.ToTuple();
    if end == [] then forall q :: q in prefixes ==> !Less(start, q)
    else
      && (forall p :: p in prefixes && p <= start ==> Less(p, end) && !(p <= end))
      && (forall q :: q in prefixes && Less(start, q) && q <= end ==> q == end)
  }

  /** A sub-id above every sub-id of the OID, and above 1. */
  function Above(x: Oid): (n: nat)
    ensures n >= 2 && forall i :: 0 <= i < |x| ==> x[i] < n
  {
    if x == [] then 2
    else
      var rest := Above(x[1..]);
      assert forall i :: 1 <= i < |x| ==> x[i] == x[1..][i - 1];
      if x[0] < rest then rest else x[0] + 1
  }

  lemma PastBoth(q: Oid, x: Oid, n: nat)
    requires q <= x || AtMost(x, q)
    requires forall i :: 0 <= i < |x| ==> x[i] < n
    ensures Less(x, q + [n])
  {
    PrefixAtMost(q, [n]);
    if q <= x {
      var s := x[|q|..];
      assert x == q + s;
      assert s != [] ==> s[0] == x[|q|];
      SamePrefix(q, s, [n]);
    } else {
      AtMostThenLess(x, q, q + [n]);
    }
  }

  lemma Sufficient(t: MibTable, sr: SearchRange)
    requires Orderly(t) && !ScalarTail(t, sr) && RangeSafe(t.prefixes, sr)
    ensures Exact(t, sr, GetNextResult(t, sr))
  {
    hide GetNextResult, Exact;
    GetNextExactIff(t, sr);
    var start, end := sr.start.ToTuple(), sr.end.ToTuple();
    forall p, c | Successor(t, sr, c) && InstanceAt(t, p, c) ensures !OverrunAt(t, sr, p, c) {
      var k := c[|p|..];
      assert c == p + k && end + [] == end;
      if !(p <= start) {
        assert c != start;
        Trichotomy(c, start);
        LaterColumn(t, start, p, c);
        Irreflexive(p);
      }
      if Less(p, end) && !(p <= end) { ColumnsSeparate(p, end, k, []); }
    }
  }

  /** A column that makes the range unsafe. */
  ghost predicate Unsafe(start: Oid, end: Oid, q: Oid) {
    if q <= start then end != [] && (AtMost(end, q) || q <= end)
    else Less(start, q) && (end == [] || (q <= end && q != end))
  }

  lemma UnsafeColumn(prefixes: seq<Oid>, sr: SearchRange) returns (q: Oid)
    requires !RangeSafe(prefixes, sr)
    ensures q in prefixes && Unsafe(sr.start.ToTuple(), sr.end.ToTuple(), q)
  {
    var start, end := sr.start.ToTuple(), sr.end.ToTuple();
    if end != [] && exists p :: p in prefixes && p <= start && !(Less(p, end) && !(p <= end)) {
      q :| q in prefixes && q <= start && !(Less(q, end) && !(q <= end));
      Trichotomy(q, end);
    } else {
      q :| q in prefixes && Less(start, q) && (end != [] ==> q <= end && q != end);
      if q <= start { NoPrefixAbove(q, start); }
    }
  }

  lemma UnsafeFails(start: Oid, end: Oid, q: Oid, n: nat)
    requires Unsafe(start, end, q)
    requires forall i :: 0 <= i < |start| ==> start[i] < n
    requires forall i :: 0 <= i < |end| ==> end[i] < n
    ensures Less(start, q + [n]) && EndFails(start, end, q, q + [n])
  {
    if !(q <= start) { Trichotomy(start, q); }
    PastBoth(q, start, n);
    if end != [] {
      if q <= end { NoPrefixAbove(q, end); }
      PastBoth(q, end, n);
      Trichotomy(end, q + [n]);
    }
  }

  /** A table with these prefixes that is answered wrongly. */
  lemma Necessary(prefixes: seq<Oid>, sr: SearchRange) returns (t: MibTable)
    requires Apart(prefixes) && !RangeSafe(prefixes, sr)
    ensures t.prefixes == prefixes && Orderly(t) && !ScalarTail(t, sr) && !Exact(t, sr, GetNextResult(t, sr))
  {
    hide GetNextResult, Exact, Orderly, ScalarTail, EndFails, Unsafe, Apart, RangeSafe;
    var start, end := sr.start.ToTuple(), sr.end.ToTuple();
    var n := if Above(start) < Above(end) then Above(end) else Above(start);
    var q := UnsafeColumn(prefixes, sr);
    UnsafeFails(start, end, q, n);
    assert q + [n] != INTERNET_PREFIX by { assert (q + [n])[|q|] == n; }
    LoneWrong(prefixes, q, [n], sr);
    t := Lone(prefixes, q, [n]);
  }

  /** A caller who knows the registered prefixes but not what the columns hold can rely on the
      answer exactly for safe ranges. */
  lemma RangeSafeIff(prefixes: seq<Oid>, sr: SearchRange)
    requires Apart(prefixes)
    ensures RangeSafe(prefixes, sr) <==>
      forall t: MibTable :: t.prefixes == prefixes && Orderly(t) && !ScalarTail(t, sr) ==>
        Exact(t, sr, GetNextResult(t, sr))
  {
    hide GetNextResult, Exact, Orderly, ScalarTail, RangeSafe;
    if RangeSafe(prefixes, sr) {
      forall t: MibTable | t.prefixes == prefixes && Orderly(t) &&
        !ScalarTail(t, sr) ensures Exact(t, sr, GetNextResult(t, sr)) {
        Sufficient(t, sr);
      }
    } else {
      var t := Necessary(prefixes, sr);
    }
  }

  /** The guard of `GetNextExact` is one of the safe cases. */
  lemma PlainEndIsSafe(t: MibTable, sr: SearchRange)
    requires PlainEnd(t, sr)
    ensures RangeSafe(t.prefixes, sr)
  {
    var start, end := sr.start.ToTuple(), sr.end.ToTuple();
    forall p | p in t.prefixes && p <= start ensures Less(p, end) && !(p <= end) {
      NoPrefixAbove(p, start);
      AtMostThenLess(p, start, end);
      Irreflexive(end);
    }
  }

  // ---------------------------------------------------------------- inputs that fail

  const SYSTEM: Oid := [1, 3, 6, 1, 2, 1, 1]
  const INTERFACES: Oid := [1, 3, 6, 1, 2, 1, 2]

  function Literal(t: Oid, inclusive: nat): (o: ObjectIdentifier)
    ensures o.ToTuple() == t && o.inclusive == inclusive
  {
    ObjectIdentifier(|t|, 0, inclusive, 0, t)
  }

  /** A column under the interfaces node that holds just the instance 5. */
  function OnlyFive(): MibTable {
    Lone([INTERFACES], INTERFACES, [5])
  }

  const FIVE: Outcome<VarBind> := FromTypecast(INTEGER, INTERFACES + [5], Integer(0))

  lemma FiveFails(sr: SearchRange)
    requires Less(sr.start.ToTuple(), INTERFACES + [5])
    requires EndFails(sr.start.ToTuple(), sr.end.ToTuple(), INTERFACES, INTERFACES + [5])
    ensures Orderly(OnlyFive()) && !Exact(OnlyFive(), sr, GetNextResult(OnlyFive(), sr))
    ensures GetNextResult(OnlyFive(), sr) ==
            if INTERFACES <= sr.start.ToTuple() || Less(INTERFACES, sr.end.ToTuple()) then FIVE
              else Returned(EndOfView(sr))
  {
    hide GetNextResult, Exact, Orderly, ScalarTail, EndFails;
    assert |INTERFACES + [5]| == 8;
    LoneWrong([INTERFACES], INTERFACES, [5], sr);
  }

  lemma Nodes()
    ensures !(INTERFACES <= SYSTEM) && forall k :: Less(SYSTEM, INTERFACES + k)
    ensures forall m: nat, n: nat :: Less(INTERFACES + [m], INTERFACES + [n]) <==> m < n
    ensures forall n: nat :: Less(INTERFACES, INTERFACES + [n])
  {
    assert SYSTEM[6] == 1 && INTERFACES[6] == 2;
    var mib2: Oid := [1, 3, 6, 1, 2, 1];
    forall k ensures Less(SYSTEM, INTERFACES + k) {
      assert SYSTEM == mib2 + [1] && INTERFACES + k == mib2 + ([2] + k);
      SamePrefix(mib2, [1], [2] + k);
    }
    forall m: nat, n: nat ensures Less(INTERFACES + [m], INTERFACES + [n]) <==> m < n {
      SamePrefix(INTERFACES, [m], [n]);
    }
    forall n: nat ensures Less(INTERFACES, INTERFACES + [n]) { PrefixAtMost(INTERFACES, [n]); }
  }

  /** In the start's own column the instance 5 is answered although the end is 3. */
  lemma EndIgnoredInOwnColumn()
    ensures var sr := SearchRange(Literal(INTERFACES + [1], 0), Literal(INTERFACES + [3], 0));
      Orderly(OnlyFive()) && GetNextResult(OnlyFive(), sr) == FIVE && !Exact(OnlyFive(), sr, FIVE)
  {
    hide GetNextResult, Exact, Orderly;
    Nodes();
    Trichotomy(INTERFACES + [3], INTERFACES + [5]);
    FiveFails(SearchRange(Literal(INTERFACES + [1], 0), Literal(INTERFACES + [3], 0)));
  }

  /** The same from a start before the column: only its prefix is compared with the end. */
  lemma EndInsideLaterColumn()
    ensures var sr := SearchRange(Literal(SYSTEM, 0), Literal(INTERFACES + [3], 0));
      Orderly(OnlyFive()) && GetNextResult(OnlyFive(), sr) == FIVE && !Exact(OnlyFive(), sr, FIVE)
  {
    hide GetNextResult, Exact, Orderly;
    Nodes();
    Trichotomy(INTERFACES + [3], INTERFACES + [5]);
    FiveFails(SearchRange(Literal(SYSTEM, 0), Literal(INTERFACES + [3], 0)));
  }

  /** With a null end, which does not bound the range, nothing is answered. */
  lemma NullEndBlocks()
    ensures var sr := SearchRange(Literal(SYSTEM, 0), NULL_OID);
      Orderly(OnlyFive()) && GetNextResult(OnlyFive(), sr) == Returned(EndOfView(sr)) &&
      !Exact(OnlyFive(), sr, Returned(EndOfView(sr)))
  {
    hide GetNextResult, Exact, Orderly;
    Nodes();
    FiveFails(SearchRange(Literal(SYSTEM, 0), NULL_OID));
  }

  /** One scalar at the interfaces node: Get and an including GetNext below it both answer its
      value under a name that names no variable. */
  lemma BelowScalar()
    ensures var t := Table([INTERFACES], map[INTERFACES := Entry(INTERFACES, INTEGER, Scalar(Some(Integer(7))))]);
      var sr := SearchRange(Literal(INTERFACES + [5], 1), Literal(INTERFACES + [9], 0));
      && Orderly(t) && Nameable(t) && !Instance(t, sr.start.ToTuple()) && ScalarTail(t, sr)
      && !ExactGet(t, sr, Get(t, sr)) && !Exact(t, sr, GetNextResult(t, sr))
  {
    hide GetNextResult, Exact, Get, ExactGet;
    var t := Table([INTERFACES], map[INTERFACES := Entry(INTERFACES, INTEGER, Scalar(Some(Integer(7))))]);
    var sr := SearchRange(Literal(INTERFACES + [5], 1), Literal(INTERFACES + [9], 0));
    assert INTERFACES[4] == 2 && (INTERNET_PREFIX + [0])[4] == 0;
    forall k ensures INTERFACES + k != INTERNET_PREFIX { assert |INTERFACES + k| >= 7; }
    assert ValuedScalarAbove(t, INTERFACES, sr.start.ToTuple());
    GetExactness(t, sr);
    ScalarTailNotExact(t, sr);
  }

  // ---------------------------------------------------------------- missing values

  /** The key that the start's own column enumerates next has a value. */
  ghost predicate NextHasValue(t: MibTable, p: Oid, start: Oid) {
    p in t.entries && p <= start && t.entries[p].Next(start[|p|..]).Some? &&
    t.entries[p].Call(t.entries[p].Next(start[|p|..]).value).Some?
  }

  /** On any table whose prefixes do not nest, keys without values included: the next of the
      start's column is answered if it has a value. */
  lemma NextWithValue(t: MibTable, sr: SearchRange, p: Oid)
    requires PrefixFree(t) && WellTyped(t) && sr.start.inclusive == 0
    requires NextHasValue(t, p, sr.start.ToTuple())
    ensures var k := t.entries[p].Next(sr.start.ToTuple()[|p|..]).value;
      GetNextResult(t, sr) == FromTypecast(t.entries[p].valueType, p + k, t.entries[p].Call(k).value)
  {
    var start := sr.start.ToTuple();
    ParentLookup(t, start);
    assert FindParentPrefix(t, start) == Some(p) && start[..|p|] == p;
    assert Typed(t.entries[p]);
  }

  /** If it has none, the rest of that column is skipped, and so is every later column whose
      first key has no value: the answer is the first of the first other later column, if its
      prefix is below the end. */
  lemma GapsSkipped(t: MibTable, sr: SearchRange)
    requires PrefixFree(t) && WellTyped(t) && sr.start.inclusive == 0
    requires forall p :: !NextHasValue(t, p, sr.start.ToTuple())
    ensures match FirstFull(t, Remaining(t, sr.start.ToTuple()))
            case Some(q) =>
              Full(t, q) &&
              GetNextResult(t, sr) == (if Less(q, sr.end.ToTuple()) then HeadBinding(t, q) else Returned(EndOfView(sr)))
            case None => GetNextResult(t, sr) == Returned(EndOfView(sr))
  {
    hide FromTypecast, Less;
    var start := sr.start.ToTuple();
    NothingInColumn(t, sr);
    var cols := Remaining(t, start);
    RemainingColumns(t, start);
    ScanFinds(t, cols, sr.end.ToTuple());
    if FirstFull(t, cols).Some? {
      var q := FirstFull(t, cols).value;
      HeadIsInstance(t, q);
      HeadIsBinding(t, q);
    }
  }

  lemma NothingInColumn(t: MibTable, sr: SearchRange)
    requires PrefixFree(t) && sr.start.inclusive == 0
    requires forall p :: !NextHasValue(t, p, sr.start.ToTuple())
    ensures InColumn(t, sr) == Returned(None)
  {
    var start := sr.start.ToTuple();
    ParentLookup(t, start);
    if FindParentPrefix(t, start).Some? { assert !NextHasValue(t, FindParentPrefix(t, start).value, start); }
  }

  lemma HeadIsBinding(t: MibTable, q: Oid)
    requires Full(t, q) && InstanceAt(t, q, HeadOid(t, q))
    ensures BindingAt(t, q, HeadOid(t, q)) == HeadBinding(t, q)
  {
    assert HeadOid(t, q)[|q|..] == t.entries[q].First().value;
  }

  ghost function HeadBinding(t: MibTable, q: Oid): Outcome<VarBind>
    requires Full(t, q)
  {
    var k := t.entries[q].First().value;
    FromTypecast(t.entries[q].valueType, q + k, t.entries[q].Call(k).value)
  }
}
