/** The two views of the interface counters that are served: the 32-bit counters of
    `rfc1213.py` and the 64-bit counters of `rfc2863.py`, for ports, LAGs and the
    management interface. */
module CounterViews {
  import opened Common
  import opened Counters

  const WORD := 0x1_0000_0000
  const DOUBLE_WORD := 0x1_0000_0000_0000_0000

  /** The interface maps both updaters read: `if_range`, `mgmt_oid_name_map`,
      `oid_lag_name_map`, `lag_name_if_name_map`, `lag_sai_map` and `port_rif_map`. */
  datatype Interfaces = Interfaces(cfg: Config, range: set<nat>, mgmt: set<int>, lagNames: map<int, string>,
                                   members: map<string, seq<string>>, lagSai: map<string, string>,
                                   portRif: map<string, string>)

  /** `get_oid` with the `if not oid` test of its callers. */
  function OidOf(net: Interfaces, subId: seq<nat>): Option<nat> {
    if |subId| == 1 && subId[0] in net.range && subId[0] != 0 then Some(subId[0]) else None
  }

  /** A cached counter, masked to a width. */
  function Masked(ifs: map<int, Counts>, oid: int, name: string, width: nat): Option<int>
    requires width > 0
  {
    if oid in ifs && name in ifs[oid] then Some(ifs[oid][name] % width) else None
  }

  // ---------------------------------------------------------------- rfc1213

  /** The masked counters of the members, added up; absent when a member has none, since
      adding `None` raises and the entry answers an exception with no value. */
  function MemberSum(ifs: map<int, Counts>, cfg: Config, members: seq<string>, name: string): Option<int> {
    if members == [] then Some(0)
    else
      var sum :- MemberSum(ifs, cfg, members[..|members| - 1], name);
      var last :- Masked(ifs, IndexOf(cfg, members[|members| - 1]), name, WORD);
      Some(sum + last)
  }

  predicate IsRif(cfg: Config, rif: string) {
    exists i :: 0 <= i < |cfg.rifs| && cfg.rifs[i].0 == rif
  }

  /** `RIF_DROPS_AGGR_MAP`. */
  function DropName(name: string): Option<string> {
    if name == IN_DISCARDS then Some(RIF_IN_ERRORS)
    else if name == OUT_DISCARDS then Some(RIF_OUT_ERRORS)
    else None
  }

  /** The drops of a LAG's own router interface. */
  function LagDrops(rifs: map<string, Counts>, net: Interfaces, sai: string, name: string): Option<int> {
    if sai in net.portRif && IsRif(net.cfg, net.portRif[sai]) && DropName(name).Some?
    then
      if net.portRif[sai] in rifs then Some(Get(rifs[net.portRif[sai]], DropName(name).value)) else None
    else Some(0)
  }

  /** `get_counter` of the interfaces MIB. */
  function Counter32(c: Cache, net: Interfaces, subId: seq<nat>, name: string): Option<int> {
    var oid :- OidOf(net, subId);
    if oid in net.mgmt then Some(0)
    else if oid in net.lagNames then
      var lag := net.lagNames[oid];
      if lag !in net.members then None
      else
        var sum :- MemberSum(c.ifs, net.cfg, net.members[lag], name);
        if lag !in net.lagSai then None
        else
          var drops :- LagDrops(c.rifs, net, net.lagSai[lag], name);
          Some((sum + drops) % WORD)
    else Masked(c.ifs, oid, name, WORD)
  }

  method GetCounter32(c: Cache, net: Interfaces, subId: seq<nat>, name: string) returns (value: Option<int>)
    ensures value == Counter32(c, net, subId, name)
  {
    var oid :- OidOf(net, subId);
    if oid in net.mgmt { return Some(0); }
    if oid !in net.lagNames { return Masked(c.ifs, oid, name, WORD); }
    var lag := net.lagNames[oid];
    if lag !in net.members { return None; }
    var members, sum := net.members[lag], 0;
    for i := 0 to |members|
      invariant MemberSum(c.ifs, net.cfg, members[..i], name) == Some(sum)
    {
      assert members[..i + 1][..i] == members[..i];
      var counter := Masked(c.ifs, IndexOf(net.cfg, members[i]), name, WORD);
      if counter == None {
        AbsentMember(c.ifs, net.cfg, members, i, name);
        return None;
      }
      sum := sum + counter.value;
    }
    assert members[..|members|] == members;
    if lag !in net.lagSai { return None; }
    var drops :- LagDrops(c.rifs, net, net.lagSai[lag], name);
    return Some((sum + drops) % WORD);
  }

  /** One member without the counter leaves the whole LAG without it. */
  lemma {:induction false} AbsentMember(ifs: map<int, Counts>, cfg: Config, members: seq<string>, i: nat, name: string)
    requires i < |members| && Masked(ifs, IndexOf(cfg, members[i]), name, WORD) == None
    ensures MemberSum(ifs, cfg, members, name) == None
    decreases |members|
  {
    if i < |members| - 1 { AbsentMember(ifs, cfg, members[..|members| - 1], i, name); }
  }

  // ---------------------------------------------------------------- rfc2863

  /** `_get_counter` of the interface MIB with a mask. It calls itself for the members of a
      LAG; past the depth Python allows it raises, which the entry answers with no value. */
  function Counter(ifs: map<int, Counts>, net: Interfaces, oid: int, name: string, width: nat, depth: nat): Option<int>
    requires width > 0
    decreases depth, 0
  {
    if depth == 0 then None
    else if oid in net.mgmt then Some(0)
    else if oid in net.lagNames then
      if net.lagNames[oid] !in net.members then None
      else
        var sum :- CounterSum(ifs, net, net.members[net.lagNames[oid]], name, width, depth - 1);
        Some(sum % width)
    else Masked(ifs, oid, name, width)
  }

  function CounterSum(ifs: map<int, Counts>, net: Interfaces, members: seq<string>, name: string, width: nat,
                      depth: nat): Option<int>
    requires width > 0
    decreases depth, |members| + 1
  {
    if members == [] then Some(0)
    else
      var sum :- CounterSum(ifs, net, members[..|members| - 1], name, width, depth);
      var last :- Counter(ifs, net, IndexOf(net.cfg, members[|members| - 1]), name, width, depth);
      Some(sum + last)
  }

  method ReadCounter(ifs: map<int, Counts>, net: Interfaces, oid: int, name: string, width: nat, depth: nat)
    returns (value: Option<int>)
    requires width > 0
    ensures value == Counter(ifs, net, oid, name, width, depth)
    decreases depth
  {
    if depth == 0 { return None; }
    if oid in net.mgmt { return Some(0); }
    if oid !in net.lagNames { return Masked(ifs, oid, name, width); }
    if net.lagNames[oid] !in net.members { return None; }
    var members, sum := net.members[net.lagNames[oid]], 0;
    for i := 0 to |members|
      invariant CounterSum(ifs, net, members[..i], name, width, depth - 1) == Some(sum)
    {
      assert members[..i + 1][..i] == members[..i];
      var counter := ReadCounter(ifs, net, IndexOf(net.cfg, members[i]), name, width, depth - 1);
      if counter == None {
        AbsentCounter(ifs, net, members, i, name, width, depth - 1);
        return None;
      }
      sum := sum + counter.value;
    }
    assert members[..|members|] == members;
    return Some(sum % width);
  }

  lemma {:induction false} AbsentCounter(ifs: map<int, Counts>, net: Interfaces, members: seq<string>, i: nat,
                                         name: string, width: nat, depth: nat)
    requires width > 0 && i < |members| && Counter(ifs, net, IndexOf(net.cfg, members[i]), name, width, depth) == None
    ensures CounterSum(ifs, net, members, name, width, depth) == None
    decreases |members|
  {
    if i < |members| - 1 { AbsentCounter(ifs, net, members[..|members| - 1], i, name, width, depth); }
  }

  /** `get_counter64`. */
  function Counter64(ifs: map<int, Counts>, net: Interfaces, subId: seq<nat>, name: string, depth: nat): Option<int> {
    var oid :- OidOf(net, subId);
    Counter(ifs, net, oid, name, DOUBLE_WORD, depth)
  }

  // ---------------------------------------------------------------- one view refines the other

  /** An interface index that a port has and neither a LAG nor the management interface. */
  ghost predicate IsPort(net: Interfaces, oid: int) {
    && oid !in net.mgmt && oid !in net.lagNames
    && exists i :: 0 <= i < |net.cfg.ports| && IndexOf(net.cfg, net.cfg.ports[i].1) == oid
  }

  ghost predicate OfPorts(net: Interfaces, members: seq<string>) {
    forall i :: 0 <= i < |members| ==> IsPort(net, IndexOf(net.cfg, members[i]))
  }

  /** The caches of both updaters after each has updated from one database. */
  ghost predicate OneSnapshot(narrow: Cache, wide: map<int, Counts>, cfg: Config, db: Db) {
    && (exists before :: narrow == UpdateData(before, cfg, db))
    && (exists before :: wide == ReadPorts(before, cfg, db, |cfg.ports|))
  }

  /** The unmasked sum of a counter over the members, as the database has it. */
  function Exact(ifs: map<int, Counts>, cfg: Config, members: seq<string>, name: string): Option<int> {
    if members == [] then Some(0)
    else
      var sum :- Exact(ifs, cfg, members[..|members| - 1], name);
      var idx := IndexOf(cfg, members[|members| - 1]);
      if idx in ifs && name in ifs[idx] then Some(sum + ifs[idx][name]) else None
  }

  /** What the views of a port's own counter are made of. */
  lemma PortsAgree(narrow: Cache, wide: map<int, Counts>, net: Interfaces, db: Db, oid: int, name: string)
    requires OneSnapshot(narrow, wide, net.cfg, db) && Distinct(net.cfg) && IsPort(net, oid)
    requires DropName(name) == None
    ensures oid in narrow.ifs && oid in wide
    ensures (name in narrow.ifs[oid] <==> name in wide[oid]) &&
            (name in wide[oid] ==> narrow.ifs[oid][name] == wide[oid][name])
  {
    var i :| 0 <= i < |net.cfg.ports| && IndexOf(net.cfg, net.cfg.ports[i].1) == oid;
    var before :| narrow == UpdateData(before, net.cfg, db);
    var old_ :| wide == ReadPorts(old_, net.cfg, db, |net.cfg.ports|);
    hide Distinct, UpdateData, ReadPorts, RifDrops;
    DropsConserved(before, net.cfg, db, i);
    ReadPortsAt(old_, net.cfg, db, |net.cfg.ports|, i);
  }

  /** A value that is absent or the same modulo a width. */
  predicate Congruent(a: Option<int>, b: Option<int>, width: nat)
    requires width > 0
  {
    (a.Some? <==> b.Some?) && (a.Some? ==> a.value % width == b.value % width)
  }

  lemma Shift(x: int, k: int, width: nat)
    requires width == WORD || width == DOUBLE_WORD
    ensures (x + width * k) % width == x % width
  {
  }

  /** A masked counter may be added to a sum that is right modulo the width. */
  lemma MaskStep(a: int, b: int, c: int, width: nat)
    requires width == WORD || width == DOUBLE_WORD
    requires a % width == b % width
    ensures (a + c % width) % width == (b + c) % width
  {
    Shift(a % width + c % width, a / width, width);
    Shift(a % width + c % width, b / width + c / width, width);
  }

  lemma MaskTwice(x: int)
    ensures x % DOUBLE_WORD % WORD == x % WORD
  {
    Shift(x % DOUBLE_WORD, WORD * (x / DOUBLE_WORD), WORD);
  }

  /** Masking every member loses nothing modulo the mask's width. */
  lemma {:induction false} MaskedSums(narrow: Cache, wide: map<int, Counts>, net: Interfaces, db: Db,
                                      members: seq<string>, name: string, depth: nat)
    requires OneSnapshot(narrow, wide, net.cfg, db) && Distinct(net.cfg) && OfPorts(net, members)
    requires DropName(name) == None && depth > 0
    ensures Congruent(MemberSum(narrow.ifs, net.cfg, members, name), Exact(wide, net.cfg, members, name), WORD)
    ensures Congruent(CounterSum(wide, net, members, name, DOUBLE_WORD, depth), Exact(wide, net.cfg, members, name),
            DOUBLE_WORD)
    decreases |members|
  {
    hide Distinct, OneSnapshot, IndexOf, DropName;
    if members != [] {
      var front, last := members[..|members| - 1], IndexOf(net.cfg, members[|members| - 1]);
      assert OfPorts(net, front);
      MaskedSums(narrow, wide, net, db, front, name, depth);
      assert IsPort(net, last);
      PortsAgree(narrow, wide, net, db, last, name);
      if name in wide[last] && Exact(wide, net.cfg, front, name).Some? {
        var exact := Exact(wide, net.cfg, front, name).value;
        MaskStep(MemberSum(narrow.ifs, net.cfg, front, name).value, exact, wide[last][name], WORD);
        MaskStep(CounterSum(wide, net, front, name, DOUBLE_WORD, depth).value, exact, wide[last][name], DOUBLE_WORD);
      }
    }
  }

  /** `if_range` lists it as a LAG that `lag_sai_map` does not know. */
  predicate WithoutId(net: Interfaces, subId: seq<nat>) {
    var oid := OidOf(net, subId);
    oid.Some? && oid.value !in net.mgmt && oid.value in net.lagNames && net.lagNames[oid.value] !in net.lagSai
  }

  /** The LAG has a member list, and the cache has the counter for every member. */
  predicate MembersCounted(ifs: map<int, Counts>, net: Interfaces, lag: string, name: string) {
    lag in net.members &&
    forall i :: 0 <= i < |net.members[lag]| ==>
      var idx := IndexOf(net.cfg, net.members[lag][i]);
      idx in ifs && name in ifs[idx]
  }

  lemma {:induction false} ExactIff(ifs: map<int, Counts>, cfg: Config, members: seq<string>, name: string)
    ensures Exact(ifs, cfg, members, name).Some? <==>
            forall i :: 0 <= i < |members| ==>
              var idx := IndexOf(cfg, members[i]);
              idx in ifs && name in ifs[idx]
  {
    hide IndexOf;
    if members != [] {
      var front := members[..|members| - 1];
      ExactIff(ifs, cfg, front, name);
      assert forall i :: 0 <= i < |front| ==> members[i] == front[i];
    }
  }

  /** What the views may be asked for: nothing, the management interface, a port, or a LAG whose
      members, if it has a list of them, are ports. */
  ghost predicate PortOrLag(net: Interfaces, subId: seq<nat>) {
    OidOf(net, subId).Some? ==>
      var oid := OidOf(net, subId).value;
      oid in net.mgmt || IsPort(net, oid) ||
      (oid in net.lagNames && (net.lagNames[oid] in net.members ==> OfPorts(net, net.members[net.lagNames[oid]])))
  }

  /** The 32-bit counter is the 64-bit one modulo 2^32, and absent together with it. */
  predicate Agree(value32: Option<int>, value64: Option<int>) {
    value32 == if value64.Some? then Some(value64.value % WORD) else None
  }

  /** The views agree on a port, and on a LAG of ports if and only if it has an object id, or
      has no member list, or some member lacks the counter: `get_counter` looks the id up even
      when no drops are to be added. */
  lemma ViewsAgreeIff(narrow: Cache, wide: map<int, Counts>, net: Interfaces, db: Db, subId: seq<nat>, name: string,
                      depth: nat)
    requires OneSnapshot(narrow, wide, net.cfg, db) && Distinct(net.cfg)
    requires DropName(name) == None && depth >= 2 && PortOrLag(net, subId)
    ensures Agree(Counter32(narrow, net, subId, name), Counter64(wide, net, subId, name, depth)) <==>
            (WithoutId(net, subId) ==> !MembersCounted(wide, net, net.lagNames[OidOf(net, subId).value], name))
  {
    hide Distinct, OneSnapshot, IndexOf, IsRif, DropName, MemberSum, CounterSum, Exact, OfPorts;
    if OidOf(net, subId).Some? {
      var oid := OidOf(net, subId).value;
      if oid !in net.mgmt && oid in net.lagNames {
        if net.lagNames[oid] in net.members {
          var members := net.members[net.lagNames[oid]];
          MaskedSums(narrow, wide, net, db, members, name, depth - 1);
          ExactIff(wide, net.cfg, members, name);
          var exact := Exact(wide, net.cfg, members, name);
          if exact.Some? {
            MaskTwice(exact.value);
            MaskTwice(CounterSum(wide, net, members, name, DOUBLE_WORD, depth - 1).value);
          }
        }
      } else if oid !in net.mgmt {
        PortsAgree(narrow, wide, net, db, oid, name);
        if name in wide[oid] { MaskTwice(wide[oid][name]); }
      }
    }
  }

  /** Both are absent as soon as one member lacks the counter. */
  lemma AbsentTogether(narrow: Cache, wide: map<int, Counts>, net: Interfaces, db: Db, subId: seq<nat>, name: string,
                       depth: nat)
    requires OneSnapshot(narrow, wide, net.cfg, db) && Distinct(net.cfg)
    requires DropName(name) == None && depth >= 2 && PortOrLag(net, subId)
    requires OidOf(net, subId).Some? && OidOf(net, subId).value !in net.mgmt && OidOf(net, subId).value in net.lagNames
    requires !MembersCounted(wide, net, net.lagNames[OidOf(net, subId).value], name)
    ensures Counter32(narrow, net, subId, name) == None && Counter64(wide, net, subId, name, depth) == None
  {
    hide Distinct, OneSnapshot, IndexOf, IsRif, DropName, MemberSum, CounterSum, Exact, OfPorts;
    var lag := net.lagNames[OidOf(net, subId).value];
    if lag in net.members {
      MaskedSums(narrow, wide, net, db, net.members[lag], name, depth - 1);
      ExactIff(wide, net.cfg, net.members[lag], name);
    }
  }

  // ---------------------------------------------------------------- the views from the database

  /** The errors of router interfaces that count as discards of what they are on. */
  function ErrorsFor(name: string): Option<string> {
    if name == "SAI_PORT_STAT_IF_IN_DISCARDS" then Some("SAI_ROUTER_INTERFACE_STAT_IN_ERROR_PACKETS")
    else if name == "SAI_PORT_STAT_IF_OUT_DISCARDS" then Some("SAI_ROUTER_INTERFACE_STAT_OUT_ERROR_PACKETS")
    else None
  }

  predicate InDb(db: Db, object_: string, name: string) {
    object_ in db && name in db[object_]
  }

  /** A port has the counter in the database, or discards from a router interface on it. */
  predicate Counted(cfg: Config, db: Db, i: nat, name: string)
    requires i < |cfg.ports|
  {
    InDb(db, cfg.ports[i].0, name) || (ErrorsFor(name).Some? && HasRif(cfg.rifs, cfg.ports[i].0))
  }

  /** Its value in the database, with the errors of all router interfaces on the port added to
      discards. */
  function PortTotal(cfg: Config, db: Db, i: nat, name: string): int
    requires i < |cfg.ports|
  {
    Stored(db, cfg.ports[i].0, name) +
    match ErrorsFor(name)
    case Some(errors) => RifDrops(cfg.rifs, cfg.ports[i].0, db, errors)
    case None => 0
  }

  /** `at` gives for each member the position of the port it is. */
  ghost predicate MembersAt(cfg: Config, members: seq<string>, at: seq<nat>) {
    |at| == |members| && forall m :: 0 <= m < |at| ==>
      at[m] < |cfg.ports| && IndexOf(cfg, cfg.ports[at[m]].1) == IndexOf(cfg, members[m])
  }

  /** Every member has the counter. */
  predicate AllCounted(cfg: Config, db: Db, at: seq<nat>, name: string)
    requires forall m :: 0 <= m < |at| ==> at[m] < |cfg.ports|
  {
    forall m :: 0 <= m < |at| ==> Counted(cfg, db, at[m], name)
  }

  lemma AllCountedStep(cfg: Config, db: Db, at: seq<nat>, name: string)
    requires forall m :: 0 <= m < |at| ==> at[m] < |cfg.ports|
    ensures AllCounted(cfg, db, at, name) <==>
            at == [] || (AllCounted(cfg, db, at[..|at| - 1], name) && Counted(cfg, db, at[|at| - 1], name))
  {
    hide Counted;
    if at != [] { assert forall m :: 0 <= m < |at| - 1 ==> at[..|at| - 1][m] == at[m]; }
  }

  function SumOfPorts(cfg: Config, db: Db, at: seq<nat>, name: string): int
    requires forall m :: 0 <= m < |at| ==> at[m] < |cfg.ports|
  {
    if at == [] then 0
    else SumOfPorts(cfg, db, at[..|at| - 1], name) + PortTotal(cfg, db, at[|at| - 1], name)
  }

  lemma PortCounted(before: Cache, cfg: Config, db: Db, i: nat, name: string)
    requires Distinct(cfg) && i < |cfg.ports|
    ensures var (ifs, idx) := (UpdateData(before, cfg, db).ifs, IndexOf(cfg, cfg.ports[i].1));
      idx in ifs && (name in ifs[idx] <==> Counted(cfg, db, i, name)) &&
      (Counted(cfg, db, i, name) ==> ifs[idx][name] == PortTotal(cfg, db, i, name))
  {
    hide Distinct, UpdateData, RifDrops, HasRif, IndexOf;
    DropsConserved(before, cfg, db, i);
  }

  /** The port has an interface index of its own that is served. */
  ghost predicate ServedPort(net: Interfaces, i: nat) {
    && i < |net.cfg.ports| && net.cfg.ports[i].1 in net.cfg.index
    && var oid := net.cfg.index[net.cfg.ports[i].1];
       oid > 0 && oid in net.range && oid !in net.mgmt && oid !in net.lagNames
  }

  /** What is served for a port in the 32-bit view. */
  lemma PortView32(before: Cache, net: Interfaces, db: Db, i: nat, name: string)
    requires Distinct(net.cfg) && ServedPort(net, i)
    ensures Counter32(UpdateData(before, net.cfg, db), net, [net.cfg.index[net.cfg.ports[i].1]], name) ==
            if Counted(net.cfg, db, i, name) then Some(PortTotal(net.cfg, db, i, name) % 0x1_0000_0000) else None
  {
    hide Distinct, UpdateData, Counted, PortTotal;
    PortCounted(before, net.cfg, db, i, name);
  }

  lemma {:induction false} MembersSummed(before: Cache, cfg: Config, db: Db, members: seq<string>, at: seq<nat>,
                                         name: string)
    requires Distinct(cfg) && MembersAt(cfg, members, at)
    ensures var sum := MemberSum(UpdateData(before, cfg, db).ifs, cfg, members, name);
      if AllCounted(cfg, db, at, name)
      then Congruent(sum, Some(SumOfPorts(cfg, db, at, name)), WORD) else sum == None
    decreases |members|
  {
    hide Distinct, UpdateData, Counted, PortTotal, IndexOf, AllCounted;
    AllCountedStep(cfg, db, at, name);
    if members != [] {
      var n := |members| - 1;
      MembersSummed(before, cfg, db, members[..n], at[..n], name);
      PortCounted(before, cfg, db, at[n], name);
      var front := MemberSum(UpdateData(before, cfg, db).ifs, cfg, members[..n], name);
      if AllCounted(cfg, db, at, name) {
        MaskStep(front.value, SumOfPorts(cfg, db, at[..n], name), PortTotal(cfg, db, at[n], name), WORD);
      }
    }
  }

  /** What the LAG's own router interface adds: its errors to discards, if it has one. */
  function OwnErrors(net: Interfaces, db: Db, sai: string, name: string): int {
    if sai in net.portRif && IsRif(net.cfg, net.portRif[sai]) && ErrorsFor(name).Some?
    then Stored(db, net.portRif[sai], ErrorsFor(name).value) else 0
  }

  lemma OwnDrops(before: Cache, net: Interfaces, db: Db, sai: string, name: string)
    ensures LagDrops(UpdateData(before, net.cfg, db).rifs, net, sai, name) == Some(OwnErrors(net, db, sai, name))
  {
    if sai in net.portRif && IsRif(net.cfg, net.portRif[sai]) {
      var i :| 0 <= i < |net.cfg.rifs| && net.cfg.rifs[i].0 == net.portRif[sai];
      assert (net.cfg.rifs + net.cfg.vlans)[i] == net.cfg.rifs[i];
      ReadRifsAt(before.rifs, net.cfg.rifs + net.cfg.vlans, db, i);
    }
  }

  /** The sub-id names this LAG, whose members are these ports. */
  ghost predicate IsLag(net: Interfaces, oid: nat, lag: string, at: seq<nat>) {
    && oid > 0 && oid in net.range && oid !in net.mgmt && oid in net.lagNames && net.lagNames[oid] == lag
    && lag in net.members && MembersAt(net.cfg, net.members[lag], at)
  }

  /** What is served for a LAG in the 32-bit view, discards included: the sum over its members and
      the errors of its own router interface, and nothing if a member lacks the counter or the LAG
      has no object id. */
  lemma LagView32(before: Cache, net: Interfaces, db: Db, oid: nat, lag: string, at: seq<nat>, name: string)
    requires Distinct(net.cfg) && IsLag(net, oid, lag, at)
    ensures Counter32(UpdateData(before, net.cfg, db), net, [oid], name) ==
            if lag in net.lagSai && AllCounted(net.cfg, db, at, name)
            then
              Some((SumOfPorts(net.cfg, db, at, name) + OwnErrors(net, db, net.lagSai[lag], name)) % 0x1_0000_0000)
            else None
  {
    hide Distinct, UpdateData, AllCounted, SumOfPorts, OwnErrors, LagDrops, MemberSum, IndexOf;
    MembersSummed(before, net.cfg, db, net.members[lag], at, name);
    if lag in net.lagSai {
      OwnDrops(before, net, db, net.lagSai[lag], name);
      var sum := MemberSum(UpdateData(before, net.cfg, db).ifs, net.cfg, net.members[lag], name);
      if sum.Some? {
        AddCongruent(sum.value, SumOfPorts(net.cfg, db, at, name), OwnErrors(net, db, net.lagSai[lag], name));
      }
    }
  }

  lemma AddCongruent(a: int, b: int, c: int)
    requires a % WORD == b % WORD
    ensures (a + c) % WORD == (b + c) % WORD
  {
    Shift(a % WORD + c, a / WORD, WORD);
    Shift(a % WORD + c, b / WORD, WORD);
  }

  /** The management interface, and what is no interface at all. */
  lemma OtherViews(c: Cache, wide: map<int, Counts>, net: Interfaces, subId: seq<nat>, name: string, depth: nat)
    ensures |subId| != 1 || subId[0] == 0 || subId[0] !in net.range ==>
              Counter32(c, net, subId, name) == None && Counter64(wide, net, subId, name, depth) == None
    ensures |subId| == 1 && subId[0] > 0 && subId[0] in net.range && subId[0] in net.mgmt && depth > 0 ==>
              Counter32(c, net, subId, name) == Some(0) && Counter64(wide, net, subId, name, depth) == Some(0)
  {
  }

  /** What is served for a port in the 64-bit view: the database's value, without the errors of
      router interfaces. */
  lemma PortView64(before: map<int, Counts>, net: Interfaces, db: Db, i: nat, name: string, depth: nat)
    requires Distinct(net.cfg) && ServedPort(net, i) && depth > 0
    ensures var (oid, sai) := (net.cfg.index[net.cfg.ports[i].1], net.cfg.ports[i].0);
      Counter64(ReadPorts(before, net.cfg, db, |net.cfg.ports|), net, [oid], name, depth) ==
      if InDb(db, sai, name) then Some(db[sai][name] % 0x1_0000_0000_0000_0000) else None
  {
    hide Distinct, ReadPorts;
    ReadPortsAt(before, net.cfg, db, |net.cfg.ports|, i);
  }

  predicate AllInDb(cfg: Config, db: Db, at: seq<nat>, name: string)
    requires forall m :: 0 <= m < |at| ==> at[m] < |cfg.ports|
  {
    forall m :: 0 <= m < |at| ==> InDb(db, cfg.ports[at[m]].0, name)
  }

  lemma AllInDbStep(cfg: Config, db: Db, at: seq<nat>, name: string)
    requires forall m :: 0 <= m < |at| ==> at[m] < |cfg.ports|
    ensures AllInDb(cfg, db, at, name) <==>
            at == [] || (AllInDb(cfg, db, at[..|at| - 1], name) && InDb(db, cfg.ports[at[|at| - 1]].0, name))
  {
    hide InDb;
    if at != [] { assert forall m :: 0 <= m < |at| - 1 ==> at[..|at| - 1][m] == at[m]; }
  }

  function SumStored(cfg: Config, db: Db, at: seq<nat>, name: string): int
    requires forall m :: 0 <= m < |at| ==> at[m] < |cfg.ports|
  {
    if at == [] then 0
    else SumStored(cfg, db, at[..|at| - 1], name) + Stored(db, cfg.ports[at[|at| - 1]].0, name)
  }

  lemma MemberStored(before: map<int, Counts>, net: Interfaces, db: Db, i: nat, name: string, depth: nat)
    requires Distinct(net.cfg) && i < |net.cfg.ports| && depth > 0 && IsPort(net, IndexOf(net.cfg, net.cfg.ports[i].1))
    ensures var sai := net.cfg.ports[i].0;
      Counter(ReadPorts(before, net.cfg, db, |net.cfg.ports|), net, IndexOf(net.cfg, net.cfg.ports[i].1), name,
              DOUBLE_WORD, depth) ==
      if InDb(db, sai, name) then Some(Stored(db, sai, name) % DOUBLE_WORD) else None
  {
    hide Distinct, ReadPorts, IndexOf;
    ReadPortsAt(before, net.cfg, db, |net.cfg.ports|, i);
  }

  lemma {:induction false} StoredSummed(before: map<int, Counts>, net: Interfaces, db: Db, members: seq<string>,
                                      at: seq<nat>, name: string, depth: nat)
    requires Distinct(net.cfg) && MembersAt(net.cfg, members, at) && OfPorts(net, members) && depth > 0
    ensures var sum := CounterSum(ReadPorts(before, net.cfg, db, |net.cfg.ports|), net, members, name, DOUBLE_WORD,
                                  depth);
      if AllInDb(net.cfg, db, at, name)
      then Congruent(sum, Some(SumStored(net.cfg, db, at, name)), DOUBLE_WORD) else sum == None
    decreases |members|
  {
    hide Distinct, ReadPorts, IndexOf, Stored, InDb, Counter, IsPort, AllInDb;
    AllInDbStep(net.cfg, db, at, name);
    if members != [] {
      var n := |members| - 1;
      assert IsPort(net, IndexOf(net.cfg, members[n]));
      StoredSummed(before, net, db, members[..n], at[..n], name, depth);
      MemberStored(before, net, db, at[n], name, depth);
      var front := CounterSum(ReadPorts(before, net.cfg, db, |net.cfg.ports|), net, members[..n], name, DOUBLE_WORD,
                              depth);
      if AllInDb(net.cfg, db, at, name) {
        MaskStep(front.value, SumStored(net.cfg, db, at[..n], name), Stored(db, net.cfg.ports[at[n]].0, name),
                 DOUBLE_WORD);
      }
    }
  }

  /** What is served for a LAG in the 64-bit view: the sum over its members, whether or not it has
      an object id. */
  lemma LagView64(before: map<int, Counts>, net: Interfaces, db: Db, oid: nat, lag: string, at: seq<nat>, name: string,
                  depth: nat)
    requires Distinct(net.cfg) && IsLag(net, oid, lag, at) && OfPorts(net, net.members[lag]) && depth >= 2
    ensures Counter64(ReadPorts(before, net.cfg, db, |net.cfg.ports|), net, [oid], name, depth) ==
            if AllInDb(net.cfg, db, at, name)
            then Some(SumStored(net.cfg, db, at, name) % 0x1_0000_0000_0000_0000) else None
  {
    hide Distinct, ReadPorts, CounterSum, SumStored, IndexOf, OfPorts, AllInDb;
    StoredSummed(before, net, db, net.members[lag], at, name, depth - 1);
  }

  // ---------------------------------------------------------------- an input where they differ

  const PORT := "Ethernet0"
  const LAG := "PortChannel1"
  const OCTETS := "SAI_PORT_STAT_IF_IN_OCTETS"

  /** One port in one LAG, for which COUNTERS_LAG_NAME_MAP has no entry. */
  const ONE_LAG := Interfaces(Config([("1", PORT)], [], [], map[PORT := 1, LAG := 1001]), {1, 1001}, {},
    map[1001 := LAG],
                              map[LAG := [PORT]], map[], map[])

  const SEVEN: Db := map["1" := map[OCTETS := 7]]

  /** The port counts seven octets: so does the LAG in the 64-bit view, and in the 32-bit view
      it has no such counter. */
  lemma LagWithoutId()
    ensures var ifs: map<int, Counts> := map[1 := map[OCTETS := 7]];
      OneSnapshot(Cache(ifs, map[]), ifs, ONE_LAG.cfg, SEVEN) &&
      Counter32(Cache(ifs, map[]), ONE_LAG, [1001], OCTETS) == None &&
      Counter64(ifs, ONE_LAG, [1001], OCTETS, 2) == Some(7)
  {
    var ifs: map<int, Counts> := map[1 := map[OCTETS := 7]];
    var start := Cache(map[], map[]);
    assert PORT != LAG by { assert |PORT| != |LAG|; }
    assert ReadPorts(map[], ONE_LAG.cfg, SEVEN, 1) == ifs by {
      assert ReadPorts(map[], ONE_LAG.cfg, SEVEN, 0) == map[];
    }
    assert ReadRifs(map[], [], SEVEN) == map[];
    assert UpdateData(start, ONE_LAG.cfg, SEVEN) == Cache(ifs, map[]);
    var members := ONE_LAG.members[LAG];
    assert members[..0] == [];
    assert Counter(ifs, ONE_LAG, 1, OCTETS, DOUBLE_WORD, 1) == Some(7);
    assert CounterSum(ifs, ONE_LAG, members, OCTETS, DOUBLE_WORD, 1) == Some(7) by {
      assert CounterSum(ifs, ONE_LAG, [], OCTETS, DOUBLE_WORD, 1) == Some(0);
    }
  }
}
