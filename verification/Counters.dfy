/** Interface counters: the cache of `InterfacesUpdater` (`rfc1213.py`) with router
    interface drops added in. */
module Counters {
  import opened Common

  type Counts = map<string, int>

  const IN_DISCARDS := "SAI_PORT_STAT_IF_IN_DISCARDS"
  const OUT_DISCARDS := "SAI_PORT_STAT_IF_OUT_DISCARDS"
  const RIF_IN_ERRORS := "SAI_ROUTER_INTERFACE_STAT_IN_ERROR_PACKETS"
  const RIF_OUT_ERRORS := "SAI_ROUTER_INTERFACE_STAT_OUT_ERROR_PACKETS"

  /** RIF_COUNTERS_AGGR_MAP, in order. */
  const VLAN_MAP: seq<(string, string)> := [
    ("SAI_PORT_STAT_IF_IN_OCTETS", "SAI_ROUTER_INTERFACE_STAT_IN_OCTETS"),
    ("SAI_PORT_STAT_IF_IN_UCAST_PKTS", "SAI_ROUTER_INTERFACE_STAT_IN_PACKETS"),
    (IN_DISCARDS, RIF_IN_ERRORS),
    ("SAI_PORT_STAT_IF_OUT_OCTETS", "SAI_ROUTER_INTERFACE_STAT_OUT_OCTETS"),
    ("SAI_PORT_STAT_IF_OUT_UCAST_PKTS", "SAI_ROUTER_INTERFACE_STAT_OUT_PACKETS"),
    (OUT_DISCARDS, RIF_OUT_ERRORS)]

  /** The maps read at reinit, as lists in dictionary order, and the interface index of a
      name, `get_index_from_str`. */
  datatype Config = Config(ports: seq<(string, string)>, rifs: seq<(string, string)>, vlans: seq<(string, string)>,
                           index: map<string, nat>)

  /** COUNTERS_DB by object; an absent object has no counters. */
  type Db = map<string, Counts>

  datatype Cache = Cache(ifs: map<int, Counts>, rifs: map<string, Counts>)

  function Get(c: Counts, name: string): int {
    if name in c then c[name] else 0
  }

  function Row(db: Db, object_: string): Counts {
    if object_ in db then db[object_] else map[]
  }

  /** A name without an index is looked up under `None`, which -1 stands for. */
  function IndexOf(cfg: Config, name: string): int {
    if name in cfg.index then cfg.index[name] else -1
  }

  /** `if_id_map.get`. */
  function PortName(ports: seq<(string, string)>, sai: string): Option<string> {
    if ports == [] then None
    else if ports[|ports| - 1].0 == sai then Some(ports[|ports| - 1].1) else PortName(ports[..|ports| - 1], sai)
  }

  // ---------------------------------------------------------------- one update cycle

  function ReadPorts(ifs: map<int, Counts>, cfg: Config, db: Db, n: nat): map<int, Counts>
    requires n <= |cfg.ports|
  {
    if n == 0 then ifs
    else ReadPorts(ifs, cfg, db, n - 1)[IndexOf(cfg, cfg.ports[n - 1].1) := Row(db, cfg.ports[n - 1].0)]
  }

  function ReadRifs(rifs: map<string, Counts>, objects: seq<(string, string)>, db: Db): map<string, Counts> {
    if objects == [] then rifs
    else
      var object_ := objects[|objects| - 1].0;
      ReadRifs(rifs, objects[..|objects| - 1], db)[object_ := Row(db, object_)]
  }

  /** The drops of one router interface are added to its port's. */
  function AddDrops(port: Counts, rif: Counts): Counts {
    port[IN_DISCARDS := Get(port, IN_DISCARDS) + Get(rif, RIF_IN_ERRORS)]
        [OUT_DISCARDS := Get(port, OUT_DISCARDS) + Get(rif, RIF_OUT_ERRORS)]
  }

  /** A router interface on a port.  Within an update both rows have just been read. */
  function AddRif(ifs: map<int, Counts>, cfg: Config, rifs: map<string, Counts>,
                  rif: (string, string)): map<int, Counts> {
    match PortName(cfg.ports, rif.1)
    case None => ifs
    case Some(name) =>
      var idx := IndexOf(cfg, name);
      if idx in ifs && rif.0 in rifs then ifs[idx := AddDrops(ifs[idx], rifs[rif.0])] else ifs
  }

  function AddRifs(ifs: map<int, Counts>, cfg: Config, rifs: map<string, Counts>, n: nat): map<int, Counts>
    requires n <= |cfg.rifs|
  {
    if n == 0 then ifs else AddRif(AddRifs(ifs, cfg, rifs, n - 1), cfg, rifs, cfg.rifs[n - 1])
  }

  /** The counters of a VLAN interface take over those of its router interface. */
  function TakeOver(vlan: Counts, rif: Counts, n: nat): Counts
    requires n <= |VLAN_MAP|
  {
    if n == 0 then vlan
    else if VLAN_MAP[n - 1].1 in rif then TakeOver(vlan, rif, n - 1)[VLAN_MAP[n - 1].0 := rif[VLAN_MAP[n - 1].1]]
    else TakeOver(vlan, rif, n - 1)
  }

  predicate TakesAny(rif: Counts) {
    exists i :: 0 <= i < |VLAN_MAP| && VLAN_MAP[i].1 in rif
  }

  function AddVlan(ifs: map<int, Counts>, cfg: Config, rifs: map<string, Counts>,
                   vlan: (string, string)): map<int, Counts> {
    var idx := IndexOf(cfg, vlan.1);
    if vlan.0 in rifs && TakesAny(rifs[vlan.0])
    then ifs[idx := TakeOver(if idx in ifs then ifs[idx] else map[], rifs[vlan.0], |VLAN_MAP|)]
    else ifs
  }

  function AddVlans(ifs: map<int, Counts>, cfg: Config, rifs: map<string, Counts>, n: nat): map<int, Counts>
    requires n <= |cfg.vlans|
  {
    if n == 0 then ifs else AddVlan(AddVlans(ifs, cfg, rifs, n - 1), cfg, rifs, cfg.vlans[n - 1])
  }

  /** `update_data`: read ports, read router interfaces, aggregate. */
  function UpdateData(c: Cache, cfg: Config, db: Db): Cache {
    var ifs := ReadPorts(c.ifs, cfg, db, |cfg.ports|);
    var rifs := ReadRifs(c.rifs, cfg.rifs + cfg.vlans, db);
    Cache(AddVlans(AddRifs(ifs, cfg, rifs, |cfg.rifs|), cfg, rifs, |cfg.vlans|), rifs)
  }

  class InterfacesUpdater {
    var ifCounters: map<int, Counts>
    var rifCounters: map<string, Counts>

    ghost function View(): Cache
      reads this
    {
      Cache(ifCounters, rifCounters)
    }

    method UpdateIfCounters(cfg: Config, db: Db)
      modifies this`ifCounters
      ensures ifCounters == ReadPorts(old(ifCounters), cfg, db, |cfg.ports|)
    {
      for n := 0 to |cfg.ports|
        invariant ifCounters == ReadPorts(old(ifCounters), cfg, db, n)
      {
        ifCounters := ifCounters[IndexOf(cfg, cfg.ports[n].1) := Row(db, cfg.ports[n].0)];
      }
    }

    method UpdateRifCounters(cfg: Config, db: Db)
      modifies this`rifCounters
      ensures rifCounters == ReadRifs(old(rifCounters), cfg.rifs + cfg.vlans, db)
    {
      var objects := cfg.rifs + cfg.vlans;
      for n := 0 to |objects|
        invariant rifCounters == ReadRifs(old(rifCounters), objects[..n], db)
      {
        assert objects[..n + 1][..n] == objects[..n];
        rifCounters := rifCounters[objects[n].0 := Row(db, objects[n].0)];
      }
      assert objects[..|objects|] == objects;
    }

    method AggregateCounters(cfg: Config)
      modifies this`ifCounters
      ensures ifCounters == AddVlans(AddRifs(old(ifCounters), cfg, rifCounters, |cfg.rifs|), cfg, rifCounters,
              |cfg.vlans|)
    {
      for n := 0 to |cfg.rifs|
        invariant ifCounters == AddRifs(old(ifCounters), cfg, rifCounters, n)
      {
        ifCounters := AddRif(ifCounters, cfg, rifCounters, cfg.rifs[n]);
      }
      ghost var ports := ifCounters;
      for n := 0 to |cfg.vlans|
        invariant ifCounters == AddVlans(ports, cfg, rifCounters, n)
      {
        var (sai, name) := cfg.vlans[n];
        var idx := IndexOf(cfg, name);
        ghost var before := ifCounters;
        if sai in rifCounters {
          var row, any := if idx in ifCounters then ifCounters[idx] else map[], false;
          ghost var start := row;
          for i := 0 to |VLAN_MAP|
            invariant row == TakeOver(start, rifCounters[sai], i)
            invariant any <==> exists j :: 0 <= j < i && VLAN_MAP[j].1 in rifCounters[sai]
          {
            if VLAN_MAP[i].1 in rifCounters[sai] {
              row, any := row[VLAN_MAP[i].0 := rifCounters[sai][VLAN_MAP[i].1]], true;
            }
          }
          if any { ifCounters := ifCounters[idx := row]; }
        }
      }
    }

    method Update(cfg: Config, db: Db)
      modifies this
      ensures View() == UpdateData(old(View()), cfg, db)
    {
      UpdateIfCounters(cfg, db);
      UpdateRifCounters(cfg, db);
      AggregateCounters(cfg);
    }
  }

  // ---------------------------------------------------------------- conservation of drops

  /** No two ports, and no port and VLAN, have the same interface index or the same object. */
  ghost predicate Distinct(cfg: Config) {
    && (forall i, j :: 0 <= i < j < |cfg.ports| ==>
          cfg.ports[i].0 != cfg.ports[j].0 && IndexOf(cfg, cfg.ports[i].1) != IndexOf(cfg, cfg.ports[j].1))
    && forall i, j :: 0 <= i < |cfg.ports| && 0 <= j < |cfg.vlans| ==>
      IndexOf(cfg, cfg.ports[i].1) != IndexOf(cfg, cfg.vlans[j].1)
  }

  /** A counter in the database; what is not there counts as zero. */
  function Stored(db: Db, object_: string, name: string): int {
    if object_ in db && name in db[object_] then db[object_][name] else 0
  }

  /** The drops the database reports for all router interfaces on a port. */
  function RifDrops(rifs: seq<(string, string)>, port: string, db: Db, counter: string): int {
    if rifs == [] then 0
    else RifDrops(rifs[..|rifs| - 1], port, db, counter) +
         if rifs[|rifs| - 1].1 == port then Stored(db, rifs[|rifs| - 1].0, counter) else 0
  }

  /** Some router interface is on the port. */
  predicate HasRif(rifs: seq<(string, string)>, port: string) {
    exists j :: 0 <= j < |rifs| && rifs[j].1 == port
  }

  lemma HasRifStep(rifs: seq<(string, string)>, port: string)
    requires rifs != []
    ensures HasRif(rifs, port) <==> HasRif(rifs[..|rifs| - 1], port) || rifs[|rifs| - 1].1 == port
  {
    var front := rifs[..|rifs| - 1];
    assert forall j :: 0 <= j < |front| ==> rifs[j] == front[j];
  }

  lemma {:induction false} PortNameAt(ports: seq<(string, string)>, i: nat)
    requires i < |ports| && forall k, j :: 0 <= k < j < |ports| ==> ports[k].0 != ports[j].0
    ensures PortName(ports, ports[i].0) == Some(ports[i].1)
    decreases |ports|
  {
    if i < |ports| - 1 { PortNameAt(ports[..|ports| - 1], i); }
  }

  lemma {:induction false} PortNameIs(ports: seq<(string, string)>, sai: string)
    ensures PortName(ports, sai).Some? ==> exists i :: 0 <= i < |ports| && ports[i] == (sai, PortName(ports, sai).value)
  {
    if ports != [] && ports[|ports| - 1].0 != sai {
      var front := ports[..|ports| - 1];
      PortNameIs(front, sai);
      if PortName(front, sai).Some? {
        var i :| 0 <= i < |front| && front[i] == (sai, PortName(front, sai).value);
        assert ports[i] == front[i];
      }
    }
  }

  lemma {:induction false} ReadPortsAt(ifs: map<int, Counts>, cfg: Config, db: Db, n: nat, i: nat)
    requires Distinct(cfg) && i < n <= |cfg.ports|
    ensures var idx := IndexOf(cfg, cfg.ports[i].1);
      idx in ReadPorts(ifs, cfg, db, n) && ReadPorts(ifs, cfg, db, n)[idx] == Row(db, cfg.ports[i].0)
    decreases n
  {
    if i < n - 1 { ReadPortsAt(ifs, cfg, db, n - 1, i); }
  }

  lemma {:induction false} ReadRifsAt(rifs: map<string, Counts>, objects: seq<(string, string)>, db: Db, i: nat)
    requires i < |objects|
    ensures objects[i].0 in ReadRifs(rifs, objects, db) &&
            ReadRifs(rifs, objects, db)[objects[i].0] == Row(db, objects[i].0)
    decreases |objects|
  {
    if i < |objects| - 1 { ReadRifsAt(rifs, objects[..|objects| - 1], db, i); }
  }

  /** Adding one router interface changes the drops of its port and nothing else. */
  lemma AddRifAt(ifs: map<int, Counts>, cfg: Config, rifs: map<string, Counts>, rif: (string, string), i: nat)
    requires Distinct(cfg) && i < |cfg.ports| && IndexOf(cfg, cfg.ports[i].1) in ifs && rif.0 in rifs
    ensures var idx := IndexOf(cfg, cfg.ports[i].1);
      idx in AddRif(ifs, cfg, rifs, rif) &&
      AddRif(ifs, cfg, rifs, rif)[idx] == if rif.1 == cfg.ports[i].0 then AddDrops(ifs[idx], rifs[rif.0]) else ifs[idx]
  {
    PortNameAt(cfg.ports, i);
    PortNameIs(cfg.ports, rif.1);
    if PortName(cfg.ports, rif.1).Some? {
      var j :| 0 <= j < |cfg.ports| && cfg.ports[j] == (rif.1, PortName(cfg.ports, rif.1).value);
      if j != i { assert IndexOf(cfg, cfg.ports[i].1) != IndexOf(cfg, cfg.ports[j].1); }
    }
  }

  /** Drops were added to a row, if any router interface was, and nothing else changed. */
  ghost predicate Gains(before: Counts, after: Counts, inDrops: int, outDrops: int, any: bool) {
    && Get(after, IN_DISCARDS) == Get(before, IN_DISCARDS) + inDrops
    && Get(after, OUT_DISCARDS) == Get(before, OUT_DISCARDS) + outDrops
    && (forall name :: name == IN_DISCARDS || name == OUT_DISCARDS ==> (name in after <==> name in before || any))
    && forall name :: name != IN_DISCARDS && name != OUT_DISCARDS ==>
         (name in after <==> name in before) && (name in before ==> after[name] == before[name])
  }

  lemma GainsOne(row: Counts, rif: Counts)
    ensures Gains(row, AddDrops(row, rif), Get(rif, RIF_IN_ERRORS), Get(rif, RIF_OUT_ERRORS), true)
  {
    assert IN_DISCARDS != OUT_DISCARDS by { assert IN_DISCARDS[17] != OUT_DISCARDS[17]; }
  }

  lemma GainsNone(row: Counts)
    ensures Gains(row, row, 0, 0, false)
  {
  }

  lemma NoRifs(port: string, db: Db)
    ensures RifDrops([], port, db, RIF_IN_ERRORS) == 0 && RifDrops([], port, db, RIF_OUT_ERRORS) == 0
    ensures !HasRif([], port)
  {
  }

  lemma RifDropsStep(rifs: seq<(string, string)>, n: nat, port: string, db: Db, counter: string)
    requires 0 < n <= |rifs|
    ensures RifDrops(rifs[..n], port, db, counter) == RifDrops(rifs[..n - 1], port, db, counter) +
            if rifs[n - 1].1 == port then Get(Row(db, rifs[n - 1].0), counter) else 0
  {
    assert rifs[..n][..n - 1] == rifs[..n - 1];
  }

  lemma GainsMore(a: Counts, b: Counts, c: Counts, i: int, o: int, any: bool, i': int, o': int, any': bool)
    requires Gains(a, b, i, o, any) && Gains(b, c, i', o', any')
    ensures Gains(a, c, i + i', o + o', any || any')
  {
    hide Get;
  }

  lemma {:induction false} AddRifsAt(ifs: map<int, Counts>, cfg: Config, rifs: map<string, Counts>, db: Db, n: nat,
                                     i: nat)
    requires Distinct(cfg) && n <= |cfg.rifs| && i < |cfg.ports| && IndexOf(cfg, cfg.ports[i].1) in ifs
    requires forall j :: 0 <= j < |cfg.rifs| ==> cfg.rifs[j].0 in rifs && rifs[cfg.rifs[j].0] == Row(db, cfg.rifs[j].0)
    ensures var (idx, sai) := (IndexOf(cfg, cfg.ports[i].1), cfg.ports[i].0);
      idx in AddRifs(ifs, cfg, rifs, n) &&
      Gains(ifs[idx], AddRifs(ifs, cfg, rifs, n)[idx], RifDrops(cfg.rifs[..n], sai, db, RIF_IN_ERRORS),
            RifDrops(cfg.rifs[..n], sai, db, RIF_OUT_ERRORS), HasRif(cfg.rifs[..n], sai))
    decreases n
  {
    hide Gains, AddRif, AddDrops, HasRif, Distinct, IndexOf, RifDrops, Get, Row;
    var (idx, sai) := (IndexOf(cfg, cfg.ports[i].1), cfg.ports[i].0);
    if n == 0 {
      GainsNone(ifs[idx]);
      NoRifs(sai, db);
      assert cfg.rifs[..0] == [];
    } else {
      var before, rif := AddRifs(ifs, cfg, rifs, n - 1), cfg.rifs[n - 1];
      AddRifsAt(ifs, cfg, rifs, db, n - 1, i);
      AddRifAt(before, cfg, rifs, rif, i);
      RifDropsStep(cfg.rifs, n, sai, db, RIF_IN_ERRORS);
      RifDropsStep(cfg.rifs, n, sai, db, RIF_OUT_ERRORS);
      HasRifStep(cfg.rifs[..n], sai);
      assert cfg.rifs[..n][..n - 1] == cfg.rifs[..n - 1];
      if rif.1 == sai {
        var row, front := rifs[rif.0], cfg.rifs[..n - 1];
        GainsOne(before[idx], row);
        GainsMore(ifs[idx], before[idx], AddDrops(before[idx], row), RifDrops(front, sai, db, RIF_IN_ERRORS),
                  RifDrops(front, sai, db, RIF_OUT_ERRORS), HasRif(front, sai), Get(row, RIF_IN_ERRORS),
                  Get(row, RIF_OUT_ERRORS), true);
      }
    }
  }

  lemma {:induction false} AddVlansAt(ifs: map<int, Counts>, cfg: Config, rifs: map<string, Counts>, n: nat, i: nat)
    requires Distinct(cfg) && n <= |cfg.vlans| && i < |cfg.ports| && IndexOf(cfg, cfg.ports[i].1) in ifs
    ensures var idx := IndexOf(cfg, cfg.ports[i].1);
      idx in AddVlans(ifs, cfg, rifs, n) && AddVlans(ifs, cfg, rifs, n)[idx] == ifs[idx]
    decreases n
  {
    if n > 0 { AddVlansAt(ifs, cfg, rifs, n - 1, i); }
  }

  /** After an update, whatever was in the cache before: a port's drops are its own database
      value plus the errors of every router interface on it, and its other counters are the
      database's. */
  lemma DropsConserved(c: Cache, cfg: Config, db: Db, i: nat)
    requires Distinct(cfg) && i < |cfg.ports|
    ensures var (sai, name) := cfg.ports[i];
      var row := Row(db, sai);
      var idx := IndexOf(cfg, name);
      var after := UpdateData(c, cfg, db).ifs;
      idx in after &&
      Get(after[idx], IN_DISCARDS) == Stored(db, sai, IN_DISCARDS) + RifDrops(cfg.rifs, sai, db, RIF_IN_ERRORS) &&
      Get(after[idx], OUT_DISCARDS) == Stored(db, sai, OUT_DISCARDS) + RifDrops(cfg.rifs, sai, db, RIF_OUT_ERRORS) &&
      (forall name :: name == IN_DISCARDS || name == OUT_DISCARDS ==>
        (name in after[idx] <==> name in row || HasRif(cfg.rifs, sai))) &&
      forall other :: other != IN_DISCARDS && other != OUT_DISCARDS ==>
        (other in after[idx] <==> other in row) && (other in row ==> after[idx][other] == row[other])
  {
    hide Distinct, AddRifs, AddVlans, ReadPorts, ReadRifs, RifDrops, IndexOf;
    var ifs := ReadPorts(c.ifs, cfg, db, |cfg.ports|);
    var rifs := ReadRifs(c.rifs, cfg.rifs + cfg.vlans, db);
    ReadPortsAt(c.ifs, cfg, db, |cfg.ports|, i);
    forall j | 0 <= j < |cfg.rifs| ensures cfg.rifs[j].0 in rifs && rifs[cfg.rifs[j].0] == Row(db, cfg.rifs[j].0) {
      ReadRifsAt(c.rifs, cfg.rifs + cfg.vlans, db, j);
      assert (cfg.rifs + cfg.vlans)[j] == cfg.rifs[j];
    }
    AddRifsAt(ifs, cfg, rifs, db, |cfg.rifs|, i);
    assert cfg.rifs[..|cfg.rifs|] == cfg.rifs;
    AddVlansAt(AddRifs(ifs, cfg, rifs, |cfg.rifs|), cfg, rifs, |cfg.vlans|, i);
  }

  /** No two VLANs have the same interface index. */
  ghost predicate VlansDistinct(cfg: Config) {
    forall i, j :: 0 <= i < j < |cfg.vlans| ==> IndexOf(cfg, cfg.vlans[i].1) != IndexOf(cfg, cfg.vlans[j].1)
  }

  lemma VlanNamesDiffer(i: nat, j: nat)
    requires i < j < |VLAN_MAP|
    ensures VLAN_MAP[i].0 != VLAN_MAP[j].0
  {
    assert |VLAN_MAP[i].0| != |VLAN_MAP[j].0|;
  }

  lemma {:induction false} TakeOverAt(vlan: Counts, rif: Counts, n: nat, i: nat)
    requires i < n <= |VLAN_MAP| && VLAN_MAP[i].1 in rif
    ensures Lookup(TakeOver(vlan, rif, n), VLAN_MAP[i].0) == Some(rif[VLAN_MAP[i].1])
    decreases n
  {
    if i < n - 1 {
      TakeOverAt(vlan, rif, n - 1, i);
      VlanNamesDiffer(i, n - 1);
    }
  }

  lemma {:induction false} AddVlansTakesOver(ifs: map<int, Counts>, cfg: Config, rifs: map<string, Counts>, n: nat,
                                             j: nat, i: nat)
    requires VlansDistinct(cfg) && j < n <= |cfg.vlans| && i < |VLAN_MAP|
    requires cfg.vlans[j].0 in rifs && VLAN_MAP[i].1 in rifs[cfg.vlans[j].0]
    ensures var idx := IndexOf(cfg, cfg.vlans[j].1);
      idx in AddVlans(ifs, cfg, rifs, n) &&
      Lookup(AddVlans(ifs, cfg, rifs, n)[idx], VLAN_MAP[i].0) == Some(rifs[cfg.vlans[j].0][VLAN_MAP[i].1])
    decreases n
  {
    hide TakeOver, IndexOf;
    if j < n - 1 {
      AddVlansTakesOver(ifs, cfg, rifs, n - 1, j, i);
    } else {
      var before := AddVlans(ifs, cfg, rifs, n - 1);
      var idx := IndexOf(cfg, cfg.vlans[j].1);
      TakeOverAt(if idx in before then before[idx] else map[], rifs[cfg.vlans[j].0], |VLAN_MAP|, i);
    }
  }

  /** After an update, each of the six mapped counters of a VLAN interface is the database
      counter of its router interface, where that has one. */
  lemma VlanCounters(c: Cache, cfg: Config, db: Db, j: nat, i: nat)
    requires VlansDistinct(cfg) && j < |cfg.vlans| && i < |VLAN_MAP| && VLAN_MAP[i].1 in Row(db, cfg.vlans[j].0)
    ensures var idx := IndexOf(cfg, cfg.vlans[j].1);
      idx in UpdateData(c, cfg, db).ifs &&
      Lookup(UpdateData(c, cfg, db).ifs[idx], VLAN_MAP[i].0) == Some(Row(db, cfg.vlans[j].0)[VLAN_MAP[i].1])
  {
    hide AddRifs, AddVlans, ReadPorts, ReadRifs, IndexOf, Row, VlansDistinct;
    var rifs := ReadRifs(c.rifs, cfg.rifs + cfg.vlans, db);
    assert (cfg.rifs + cfg.vlans)[|cfg.rifs| + j] == cfg.vlans[j];
    ReadRifsAt(c.rifs, cfg.rifs + cfg.vlans, db, |cfg.rifs| + j);
    AddVlansTakesOver(AddRifs(ReadPorts(c.ifs, cfg, db, |cfg.ports|), cfg, rifs, |cfg.rifs|), cfg, rifs, |cfg.vlans|,
      j, i);
  }

  /** The counter under the first name is the router interface's under the second, if that has one. */
  predicate TakenFrom(ifs: map<int, Counts>, idx: int, row: Counts, name: string, rifName: string) {
    rifName in row ==> idx in ifs && Lookup(ifs[idx], name) == Some(row[rifName])
  }

  /** Name by name: octets, unicast packets and discards, in and out. */
  lemma VlanPairs(c: Cache, cfg: Config, db: Db, j: nat)
    requires VlansDistinct(cfg) && j < |cfg.vlans|
    ensures var (after, idx) := (UpdateData(c, cfg, db).ifs, IndexOf(cfg, cfg.vlans[j].1));
      var row := Row(db, cfg.vlans[j].0);
      && TakenFrom(after, idx, row, "SAI_PORT_STAT_IF_IN_OCTETS", "SAI_ROUTER_INTERFACE_STAT_IN_OCTETS")
      && TakenFrom(after, idx, row, "SAI_PORT_STAT_IF_IN_UCAST_PKTS", "SAI_ROUTER_INTERFACE_STAT_IN_PACKETS")
      && TakenFrom(after, idx, row, "SAI_PORT_STAT_IF_IN_DISCARDS", "SAI_ROUTER_INTERFACE_STAT_IN_ERROR_PACKETS")
      && TakenFrom(after, idx, row, "SAI_PORT_STAT_IF_OUT_OCTETS", "SAI_ROUTER_INTERFACE_STAT_OUT_OCTETS")
      && TakenFrom(after, idx, row, "SAI_PORT_STAT_IF_OUT_UCAST_PKTS", "SAI_ROUTER_INTERFACE_STAT_OUT_PACKETS")
      && TakenFrom(after, idx, row, "SAI_PORT_STAT_IF_OUT_DISCARDS", "SAI_ROUTER_INTERFACE_STAT_OUT_ERROR_PACKETS")
  {
    hide UpdateData, IndexOf, Row, VlansDistinct;
    forall i | 0 <= i < |VLAN_MAP| && VLAN_MAP[i].1 in Row(db, cfg.vlans[j].0)
      ensures TakenFrom(UpdateData(c, cfg, db).ifs, IndexOf(cfg, cfg.vlans[j].1), Row(db, cfg.vlans[j].0),
                        VLAN_MAP[i].0, VLAN_MAP[i].1)
    {
      VlanCounters(c, cfg, db, j, i);
    }
    assert VLAN_MAP[0].1 == "SAI_ROUTER_INTERFACE_STAT_IN_OCTETS";
    assert VLAN_MAP[1].1 == "SAI_ROUTER_INTERFACE_STAT_IN_PACKETS";
    assert VLAN_MAP[2].1 == RIF_IN_ERRORS;
    assert VLAN_MAP[3].1 == "SAI_ROUTER_INTERFACE_STAT_OUT_OCTETS";
    assert VLAN_MAP[4].1 == "SAI_ROUTER_INTERFACE_STAT_OUT_PACKETS";
    assert VLAN_MAP[5].1 == RIF_OUT_ERRORS;
  }

  /** The cache after any sequence of update cycles, each with its configuration and database. */
  function Cycles(c: Cache, inputs: seq<(Config, Db)>): Cache {
    if inputs == [] then c
    else UpdateData(Cycles(c, inputs[..|inputs| - 1]), inputs[|inputs| - 1].0, inputs[|inputs| - 1].1)
  }

  /** However many cycles ran before, drops are not accumulated twice. */
  lemma DropsNeverPileUp(c: Cache, inputs: seq<(Config, Db)>, i: nat)
    requires inputs != [] && Distinct(inputs[|inputs| - 1].0) && i < |inputs[|inputs| - 1].0.ports|
    ensures var (cfg, db) := inputs[|inputs| - 1];
      var after := Cycles(c, inputs).ifs;
      var idx := IndexOf(cfg, cfg.ports[i].1);
      idx in after &&
      Get(after[idx], IN_DISCARDS) == Stored(db, cfg.ports[i].0, IN_DISCARDS) +
        RifDrops(cfg.rifs, cfg.ports[i].0, db, RIF_IN_ERRORS) &&
      Get(after[idx], OUT_DISCARDS) == Stored(db, cfg.ports[i].0, OUT_DISCARDS) +
        RifDrops(cfg.rifs, cfg.ports[i].0, db, RIF_OUT_ERRORS)
  {
    DropsConserved(Cycles(c, inputs[..|inputs| - 1]), inputs[|inputs| - 1].0, inputs[|inputs| - 1].1, i);
  }
}
