/** Walks: GetNext fed with its own answers. */
module MibWalk {
  import opened Common
  import opened OidOrder
  import opened Encodings
  import opened Mib
  import opened MibTheory

  // ---------------------------------------------------------------- where answers come from

  /** `vb` is the value the entry of the registered prefix `p` has at the name `x`. */
  ghost predicate ValueAt(t: MibTable, p: Oid, x: Oid, vb: VarBind) {
    && p in t.entries && p <= x
    && t.entries[p].Call(x[|p|..]).Some?
    && FromTypecast(t.entries[p].valueType, x, t.entries[p].Call(x[|p|..]).value) == Returned(vb)
  }

  /** How the name `x` was reached: it is the start itself, the next of the start's column,
      or a name in a column above the start. */
  ghost predicate Reached(t: MibTable, sr: SearchRange, p: Oid, x: Oid)
    requires p in t.entries && p <= x
  {
    var start := sr.start.ToTuple();
    || (sr.start.inclusive != 0 && x == start)
    || (p <= start && t.entries[p].Next(start[|p|..]) == Some(x[|p|..]))
    || Less(start, p)
  }

  lemma {:induction false} ScanOrigin(t: MibTable, sr: SearchRange, cols: seq<Oid>, end: Oid) returns (p: Oid, x: Oid)
    requires forall q :: q in cols ==> q in t.entries && Less(sr.start.ToTuple(), q)
    requires Scan(t, cols, end).Returned? && Scan(t, cols, end).value.Some?
    ensures ValueAt(t, p, x, Scan(t, cols, end).value.value) && Reached(t, sr, p, x)
  {
    if Head(t, cols[0]).value.Some? {
      p := cols[0];
      var k := t.entries[p].First().value;
      x := p + k;
      assert p[..|p|] == p && x[|p|..] == k;
    } else {
      p, x := ScanOrigin(t, sr, cols[1..], end);
    }
  }

  /** On any table at all, an answer other than endOfMibView is the value some entry has at
      the answered name. */
  lemma AnswerOrigin(t: MibTable, sr: SearchRange) returns (p: Oid, x: Oid)
    requires GetNextResult(t, sr).Returned? && GetNextResult(t, sr).value != EndOfView(sr)
    ensures ValueAt(t, p, x, GetNextResult(t, sr).value) && Reached(t, sr, p, x)
  {
    var start := sr.start.ToTuple();
    if InColumn(t, sr).value.Some? {
      p := FindParentPrefix(t, start).value;
      var e := t.entries[p];
      assert start == p + start[|p|..] && start[..|p|] == p;
      if sr.start.inclusive != 0 && GetValue(e, start).value.Some? {
        x := start;
      } else {
        var k := e.Next(start[|p|..]).value;
        x := p + k;
        assert x[|p|..] == k;
      }
    } else {
      RemainingColumns(t, start);
      p, x := ScanOrigin(t, sr, Remaining(t, start), sr.end.ToTuple());
    }
  }

  /** Whatever GetNext answers, Get answers the same for the name it returned. */
  lemma GetConfirmsGetNext(t: MibTable, sr: SearchRange, end: ObjectIdentifier)
    requires PrefixFree(t) && Nameable(t)
    requires GetNextResult(t, sr).Returned? && GetNextResult(t, sr).value != EndOfView(sr)
    ensures Get(t, SearchRange(GetNextResult(t, sr).value.name, end)) == GetNextResult(t, sr)
  {
    var p, x := AnswerOrigin(t, sr);
    NamesKept(t, p, x);
    ParentLookup(t, x);
  }

  // ---------------------------------------------------------------- progress

  /** Iterators only ever move forward. */
  ghost predicate Advancing(t: MibTable) {
    forall p, s :: p in t.entries && t.entries[p].Next(s).Some? ==> Less(s, t.entries[p].Next(s).value)
  }

  lemma ValueName(t: MibTable, p: Oid, x: Oid, vb: VarBind)
    requires ValueAt(t, p, x, vb) && Nameable(t)
    ensures vb.name.ToTuple() == x && vb.name.inclusive == 0
  {
    NamesKept(t, p, x);
  }

  /** Every answer to a start without the include flag is beyond that start. */
  lemma GetNextAdvances(t: MibTable, sr: SearchRange)
    requires Advancing(t) && Nameable(t) && sr.start.inclusive == 0
    requires GetNextResult(t, sr).Returned? && GetNextResult(t, sr).value != EndOfView(sr)
    ensures Less(sr.start.ToTuple(), GetNextResult(t, sr).value.name.ToTuple())
    ensures GetNextResult(t, sr).value.name.inclusive == 0
  {
    hide GetNextResult, Nameable, FromTypecast, ObjectIdentifier.ToTuple;
    var start := sr.start.ToTuple();
    var p, x := AnswerOrigin(t, sr);
    ValueName(t, p, x, GetNextResult(t, sr).value);
    assert x == p + x[|p|..];
    if p <= start {
      assert start == p + start[|p|..];
      SamePrefix(p, start[|p|..], x[|p|..]);
      NoPrefixAbove(p, start);
    } else {
      NoPrefixAbove(p, x);
      LessThenAtMost(start, p, x);
    }
  }

  // ---------------------------------------------------------------- walks

  datatype Stop = EndOfMib | Failed | OutOfFuel

  datatype WalkResult = WalkResult(answers: seq<VarBind>, stop: Stop)

  /** At most `fuel` GetNext requests, each starting at the name the last one returned. */
  function Walk(t: MibTable, start: ObjectIdentifier, end: ObjectIdentifier, fuel: nat): WalkResult
    decreases fuel
  {
    if fuel == 0 then WalkResult([], OutOfFuel)
    else
      match GetNextResult(t, SearchRange(start, end))
      case Raised => WalkResult([], Failed)
      case Returned(vb) =>
        if vb.type_.END_OF_MIB_VIEW? then WalkResult([], EndOfMib)
        else
          var rest := Walk(t, vb.name, end, fuel - 1);
          WalkResult([vb] + rest.answers, rest.stop)
  }

  /** `inst` lists the instances of the table, in order, each once. */
  ghost predicate Lists(t: MibTable, inst: seq<Oid>) {
    && (forall i, j :: 0 <= i < j < |inst| ==> Less(inst[i], inst[j]))
    && forall x :: Instance(t, x) <==> x in inst
  }

  /** The instances between `start` and `end` are those at positions `i..j` of the list. */
  ghost predicate Between(inst: seq<Oid>, start: Oid, end: Oid, i: nat, j: nat) {
    && i <= j <= |inst|
    && (forall k :: 0 <= k < i ==> AtMost(inst[k], start))
    && (forall k :: i <= k < j ==> Less(start, inst[k]) && Less(inst[k], end))
    && (forall k :: j <= k < |inst| ==> AtMost(end, inst[k]))
  }

  lemma FirstBetween(t: MibTable, inst: seq<Oid>, sr: SearchRange, i: nat, j: nat)
    requires Lists(t, inst) && Between(inst, sr.start.ToTuple(), sr.end.ToTuple(), i, j)
    requires sr.start.inclusive == 0 && sr.end.ToTuple() != []
    ensures if i == j then forall x :: Instance(t, x) ==> !InRange(sr, x)
            else forall x :: LeastInRange(t, sr, x) <==> x == inst[i]
  {
    forall x | Instance(t, x) && InRange(sr, x) ensures i < j && AtMost(inst[i], x) {
      var k :| 0 <= k < |inst| && inst[k] == x;
      if i < k { Trichotomy(inst[i], inst[k]); } else { Irreflexive(x); }
    }
    if i < j {
      assert Instance(t, inst[i]) && InRange(sr, inst[i]);
      forall x | LeastInRange(t, sr, x) ensures x == inst[i] { Trichotomy(x, inst[i]); }
    }
  }

  lemma BetweenNext(t: MibTable, inst: seq<Oid>, start: Oid, end: Oid, i: nat, j: nat)
    requires Lists(t, inst) && Between(inst, start, end, i, j) && i < j
    ensures Between(inst, inst[i], end, i + 1, j)
  {
    forall k | 0 <= k <= i ensures AtMost(inst[k], inst[i]) { Trichotomy(inst[k], inst[i]); }
  }

  /** One request of a walk: it answers the first instance after the start. */
  lemma WalkStep(t: MibTable, inst: seq<Oid>, sr: SearchRange, i: nat, j: nat)
    requires Orderly(t) && Nameable(t) && Lists(t, inst)
    requires sr.start.inclusive == 0 && PlainEnd(t, sr)
    requires Between(inst, sr.start.ToTuple(), sr.end.ToTuple(), i, j)
    ensures var r := GetNextResult(t, sr);
      if i == j then r == Returned(EndOfView(sr))
      else r.Returned? && !r.value.type_.END_OF_MIB_VIEW? && Binds(t, inst[i], r.value) &&
           r.value.name.ToTuple() == inst[i] && r.value.name.inclusive == 0
  {
    hide GetNextResult, Nameable, CastData;
    GetNextExact(t, sr);
    FirstBetween(t, inst, sr, i, j);
    if i < j {
      var vb := GetNextResult(t, sr).value;
      assert LeastInRange(t, sr, inst[i]) && Binds(t, inst[i], vb);
      var p :| InstanceAt(t, p, inst[i]) && Describes(t, p, inst[i], vb);
      BindingIsNotEnd(t, sr, p, inst[i]);
      assert Typed(t.entries[p]);
      NamesKept(t, p, inst[i]);
    }
  }

  ghost predicate Visits(t: MibTable, names: seq<Oid>, answers: seq<VarBind>) {
    |answers| == |names| &&
    forall k :: 0 <= k < |names| ==> Binds(t, names[k], answers[k]) && answers[k].name.ToTuple() == names[k]
  }

  /** A walk from `start` below a plain end visits every instance between them exactly once,
      in order, with its value, and then ends. */
  lemma {:induction false} WalkComplete(t: MibTable, inst: seq<Oid>, start: ObjectIdentifier, end: ObjectIdentifier,
                                        i: nat, j: nat, fuel: nat)
    requires Orderly(t) && Nameable(t) && Lists(t, inst)
    requires start.inclusive == 0 && PlainEnd(t, SearchRange(start, end))
    requires Between(inst, start.ToTuple(), end.ToTuple(), i, j)
    requires fuel > j - i
    ensures Walk(t, start, end, fuel).stop == EndOfMib
    ensures Visits(t, inst[i..j], Walk(t, start, end, fuel).answers)
    decreases j - i
  {
    hide GetNextResult, Orderly, Nameable, Binds, Lists;
    WalkStep(t, inst, SearchRange(start, end), i, j);
    if i < j {
      BetweenNext(t, inst, start.ToTuple(), end.ToTuple(), i, j);
      var vb := GetNextResult(t, SearchRange(start, end)).value;
      WalkComplete(t, inst, vb.name, end, i + 1, j, fuel - 1);
      assert inst[i..j] == [inst[i]] + inst[i + 1..j];
    }
  }

  /** `names` covers every name any entry has a value at. */
  ghost predicate Covers(t: MibTable, names: set<Oid>) {
    forall p, x :: p in t.entries && p <= x && t.entries[p].Call(x[|p|..]).Some? ==> x in names
  }

  ghost function Above(names: set<Oid>, start: Oid): set<Oid> {
    set x | x in names && Less(start, x)
  }

  lemma FewerAbove(names: set<Oid>, start: Oid, x: Oid)
    requires x in names && Less(start, x)
    ensures |Above(names, x)| < |Above(names, start)|
  {
    Irreflexive(x);
    forall y | y in Above(names, x) ensures y in Above(names, start) { Transitive(start, x, y); }
    SmallerSet(Above(names, x), Above(names, start), x);
  }

  lemma StepAbove(t: MibTable, names: set<Oid>, sr: SearchRange)
    requires Advancing(t) && Nameable(t) && Covers(t, names) && sr.start.inclusive == 0
    requires GetNextResult(t, sr).Returned? && !GetNextResult(t, sr).value.type_.END_OF_MIB_VIEW?
    ensures var next := GetNextResult(t, sr).value.name;
      next.inclusive == 0 && Less(sr.start.ToTuple(), next.ToTuple()) &&
      |Above(names, next.ToTuple())| < |Above(names, sr.start.ToTuple())|
  {
    GetNextAdvances(t, sr);
    var p, x := AnswerOrigin(t, sr);
    NamesKept(t, p, x);
    FewerAbove(names, sr.start.ToTuple(), x);
  }

  ghost predicate Ascending(start: Oid, answers: seq<VarBind>)
    decreases |answers|
  {
    answers == [] || (Less(start, answers[0].name.ToTuple()) && Ascending(answers[0].name.ToTuple(), answers[1..]))
  }

  /** With no premise on values or on nesting: a walk over a finite table stops, because it
      only moves forward. */
  lemma {:induction false} WalkStops(t: MibTable, names: set<Oid>, start: ObjectIdentifier, end: ObjectIdentifier,
                                     fuel: nat)
    requires Advancing(t) && Nameable(t) && Covers(t, names) && start.inclusive == 0
    requires fuel > |Above(names, start.ToTuple())|
    ensures Walk(t, start, end, fuel).stop != OutOfFuel
    decreases fuel
  {
    hide GetNextResult, Advancing, Nameable, Covers, Above;
    var r := GetNextResult(t, SearchRange(start, end));
    if r.Returned? && !r.value.type_.END_OF_MIB_VIEW? {
      StepAbove(t, names, SearchRange(start, end));
      WalkStops(t, names, r.value.name, end, fuel - 1);
    }
  }

  lemma AscendingCons(start: Oid, vb: VarBind, rest: seq<VarBind>)
    requires Less(start, vb.name.ToTuple()) && Ascending(vb.name.ToTuple(), rest)
    ensures Ascending(start, [vb] + rest)
  {
    assert ([vb] + rest)[1..] == rest;
  }

  /** The names of any walk ascend strictly. */
  lemma {:induction false} WalkAscends(t: MibTable, start: ObjectIdentifier, end: ObjectIdentifier, fuel: nat)
    requires Advancing(t) && Nameable(t) && start.inclusive == 0
    ensures Ascending(start.ToTuple(), Walk(t, start, end, fuel).answers)
    decreases fuel
  {
    var sr := SearchRange(start, end);
    if fuel > 0 && GetNextResult(t, sr).Returned? && !GetNextResult(t, sr).value.type_.END_OF_MIB_VIEW? {
      var vb := GetNextResult(t, sr).value;
      GetNextAdvances(t, sr);
      WalkAscends(t, vb.name, end, fuel - 1);
      AscendingCons(start.ToTuple(), vb, Walk(t, vb.name, end, fuel - 1).answers);
    }
  }

  lemma SmallerSet(a: set<Oid>, b: set<Oid>, x: Oid)
    requires a <= b && x in b && x !in a
    ensures |a| < |b|
  {
    assert a <= b - {x};
    SubsetSize(a, b - {x});
  }

  lemma {:induction false} SubsetSize(a: set<Oid>, b: set<Oid>)
    requires a <= b
    ensures |a| <= |b|
  {
    if a != {} {
      var x :| x in a;
      SubsetSize(a - {x}, b - {x});
    }
  }
}
