/** The ARP column (`ArpUpdater` of `rfc1213.py`): a list and a map filled from two sources. */
module Arp {
  import opened Common
  import opened OidOrder
  import opened Encodings
  import opened Struct
  import opened Mib
  import opened MibTheory
  import opened ListColumns
  import opened MibWalk
  import opened ColumnWalk

  /** A neighbour key of the database with its entry, if there is one. */
  datatype Neighbour = Neighbour(dev: string, ip: Oid, info: Option<NeighbourInfo>)

  datatype NeighbourInfo = NeighbourInfo(family: string, mac: Bytes)

  /** A line of the host's ARP table. */
  datatype ArpEntry = ArpEntry(dev: string, ip: Oid, mac: Bytes)

  /** A sub-id with its MAC, in the order they are recorded. */
  type Records = seq<(Oid, Bytes)>

  /** `_update_arp_info`: devices without an interface index are skipped. */
  function RecordOf(index: map<string, nat>, dev: string, ip: Oid, mac: Bytes): Records {
    if dev in index then [([index[dev]] + ip, mac)] else []
  }

  function DbRecord(index: map<string, nat>, n: Neighbour, multiAsic: bool): Records {
    if n.info.Some? && n.info.value.family == "IPv4" && !(multiAsic && n.dev == "eth0")
    then RecordOf(index, n.dev, n.ip, n.info.value.mac) else []
  }

  function FromDb(index: map<string, nat>, neighbours: seq<Neighbour>, multiAsic: bool): Records {
    if neighbours == [] then []
    else
      FromDb(index, neighbours[..|neighbours| - 1], multiAsic)
      + DbRecord(index, neighbours[|neighbours| - 1], multiAsic)
  }

  function FromTable(index: map<string, nat>, entries: seq<ArpEntry>): Records {
    if entries == [] then []
    else
      var a := entries[|entries| - 1];
      FromTable(index, entries[..|entries| - 1]) + RecordOf(index, a.dev, a.ip, a.mac)
  }

  /** The database first; on a multi-ASIC platform then the host's table. */
  function AllRecords(index: map<string, nat>, neighbours: seq<Neighbour>, entries: seq<ArpEntry>,
                      multiAsic: bool): Records {
    FromDb(index, neighbours, multiAsic) + if multiAsic then FromTable(index, entries) else []
  }

  function KeysOf(rs: Records): seq<Oid> {
    if rs == [] then [] else KeysOf(rs[..|rs| - 1]) + [rs[|rs| - 1].0]
  }

  function MapOf(rs: Records): map<Oid, Bytes> {
    if rs == [] then map[] else MapOf(rs[..|rs| - 1])[rs[|rs| - 1].0 := rs[|rs| - 1].1]
  }

  class ArpUpdater {
    var destMap: map<Oid, Bytes>
    var destList: seq<Oid>

    method UpdateArpInfo(index: map<string, nat>, dev: string, ip: Oid, mac: Bytes, ghost rs: Records)
      requires destMap == MapOf(rs) && destList == KeysOf(rs)
      modifies this
      ensures destMap == MapOf(rs + RecordOf(index, dev, ip, mac)) &&
              destList == KeysOf(rs + RecordOf(index, dev, ip, mac))
    {
      if dev in index {
        var subId := [index[dev]] + ip;
        assert (rs + [(subId, mac)])[..|rs|] == rs;
        destMap := destMap[subId := mac];
        destList := destList + [subId];
      } else {
        assert rs + [] == rs;
      }
    }

    method UpdateFromDb(index: map<string, nat>, neighbours: seq<Neighbour>, multiAsic: bool)
      requires destMap == map[] && destList == []
      modifies this
      ensures destMap == MapOf(FromDb(index, neighbours, multiAsic)) &&
              destList == KeysOf(FromDb(index, neighbours, multiAsic))
    {
      hide RecordOf;
      for i := 0 to |neighbours|
        invariant destMap == MapOf(FromDb(index, neighbours[..i], multiAsic))
        invariant destList == KeysOf(FromDb(index, neighbours[..i], multiAsic))
      {
        assert neighbours[..i + 1][..i] == neighbours[..i];
        var n := neighbours[i];
        ghost var rs := FromDb(index, neighbours[..i], multiAsic);
        assert rs + [] == rs;
        if n.info.None? || n.info.value.family != "IPv4" || (multiAsic && n.dev == "eth0") { continue; }
        UpdateArpInfo(index, n.dev, n.ip, n.info.value.mac, rs);
      }
      assert neighbours[..|neighbours|] == neighbours;
    }

    method UpdateFromArptable(index: map<string, nat>, entries: seq<ArpEntry>, ghost db: Records)
      requires destMap == MapOf(db) && destList == KeysOf(db)
      modifies this
      ensures destMap == MapOf(db + FromTable(index, entries)) && destList == KeysOf(db + FromTable(index, entries))
    {
      hide RecordOf, MapOf, KeysOf;
      assert db + [] == db;
      for i := 0 to |entries|
        invariant destMap == MapOf(db + FromTable(index, entries[..i]))
        invariant destList == KeysOf(db + FromTable(index, entries[..i]))
      {
        assert entries[..i + 1][..i] == entries[..i];
        var a := entries[i];
        ghost var rs := db + FromTable(index, entries[..i]);
        assert rs + RecordOf(index, a.dev, a.ip, a.mac) == db + FromTable(index, entries[..i + 1]);
        UpdateArpInfo(index, a.dev, a.ip, a.mac, rs);
      }
      assert entries[..|entries|] == entries;
    }

    method UpdateData(index: map<string, nat>, neighbours: seq<Neighbour>, entries: seq<ArpEntry>, multiAsic: bool)
      modifies this
      ensures destMap == MapOf(AllRecords(index, neighbours, entries, multiAsic))
      ensures destList == Sort(KeysOf(AllRecords(index, neighbours, entries, multiAsic)))
    {
      hide FromDb, FromTable, MapOf, KeysOf, Sort;
      destMap, destList := map[], [];
      UpdateFromDb(index, neighbours, multiAsic);
      ghost var db := FromDb(index, neighbours, multiAsic);
      assert db + [] == db;
      if multiAsic { UpdateFromArptable(index, entries, db); }
      destList := Sort(destList);
    }
  }

  lemma {:induction false} SameKeys(rs: Records, k: Oid)
    ensures k in MapOf(rs) <==> k in KeysOf(rs)
    ensures k in MapOf(rs) ==> exists i :: LastRecord(rs, i, k) && MapOf(rs)[k] == rs[i].1
  {
    if rs != [] {
      var front := rs[..|rs| - 1];
      SameKeys(front, k);
      if rs[|rs| - 1].0 == k {
        assert LastRecord(rs, |rs| - 1, k);
      } else if k in MapOf(front) {
        var i :| LastRecord(front, i, k) && MapOf(front)[k] == front[i].1;
        assert LastRecord(rs, i, k);
      }
    }
  }

  /** The `i`-th record is the last one about `k`. */
  ghost predicate LastRecord(rs: Records, i: int, k: Oid) {
    0 <= i < |rs| && rs[i].0 == k && forall j :: i < j < |rs| ==> rs[j].0 != k
  }

  lemma {:induction false} KeysNonEmpty(rs: Records)
    requires forall i :: 0 <= i < |rs| ==> rs[i].0 != []
    ensures [] !in KeysOf(rs)
  {
    if rs != [] { KeysNonEmpty(rs[..|rs| - 1]); }
  }

  function ArpColumn(prefix: Oid, rs: Records): Entry {
    ListColumn(prefix, OCTET_STRING, Sort(KeysOf(rs)),
               k => if k in MapOf(rs) then Some(Text(MapOf(rs)[k])) else None)
  }

  /** A cell of the column has a value exactly at recorded keys: the MAC recorded last. */
  lemma ArpCell(prefix: Oid, rs: Records, k: Oid)
    ensures match ArpColumn(prefix, rs).Call(k)
            case Some(raw) => k in Sort(KeysOf(rs)) && exists i :: LastRecord(rs, i, k) && raw == Text(rs[i].1)
            case None => k !in Sort(KeysOf(rs))
  {
    hide Sort, MapOf, KeysOf;
    SortSorts(KeysOf(rs));
    SameKeys(rs, k);
    if k in MapOf(rs) {
      var i :| LastRecord(rs, i, k) && MapOf(rs)[k] == rs[i].1;
      assert ArpColumn(prefix, rs).Call(k) == Some(Text(rs[i].1));
    }
  }

  /** Whatever was recorded, also twice: list and map hold the same keys, so the column
      steps exactly. */
  lemma ArpColumnExact(prefix: Oid, rs: Records)
    requires forall i :: 0 <= i < |rs| ==> rs[i].0 != []
    ensures ColumnExact(ArpColumn(prefix, rs))
  {
    hide Sort, MapOf, KeysOf, ColumnExact, LastRecord;
    var list := Sort(KeysOf(rs));
    var cell := ArpColumn(prefix, rs).handlers.cell;
    SortSorts(KeysOf(rs));
    KeysNonEmpty(rs);
    forall k ensures cell(k).Some? <==> k in list && k != [] { ArpCell(prefix, rs, k); }
    ListColumnExact(prefix, OCTET_STRING, list, cell);
  }

  /** Recorded sub-ids start with the interface index, so they are never empty. */
  lemma {:induction false} RecordsNonEmpty(index: map<string, nat>, neighbours: seq<Neighbour>,
                                           entries: seq<ArpEntry>, multiAsic: bool)
    ensures forall i :: 0 <= i < |FromDb(index, neighbours, multiAsic)| ==>
            FromDb(index, neighbours, multiAsic)[i].0 != []
    ensures forall i :: 0 <= i < |FromTable(index, entries)| ==> FromTable(index, entries)[i].0 != []
    decreases |neighbours| + |entries|
  {
    if neighbours != [] { RecordsNonEmpty(index, neighbours[..|neighbours| - 1], entries, multiAsic); }
    if entries != [] { RecordsNonEmpty(index, neighbours, entries[..|entries| - 1], multiAsic); }
  }

  /** The column after any `update_data`. */
  lemma ArpAfterUpdate(prefix: Oid, index: map<string, nat>, neighbours: seq<Neighbour>, entries: seq<ArpEntry>,
                       multiAsic: bool)
    ensures ColumnExact(ArpColumn(prefix, AllRecords(index, neighbours, entries, multiAsic)))
  {
    RecordsNonEmpty(index, neighbours, entries, multiAsic);
    ArpColumnExact(prefix, AllRecords(index, neighbours, entries, multiAsic));
  }

  /** A neighbour of the database that is shown, under the sub-id `k`. */
  predicate Shown(index: map<string, nat>, n: Neighbour, multiAsic: bool, k: Oid) {
    n.info.Some? && n.info.value.family == "IPv4" && !(multiAsic && n.dev == "eth0") &&
    n.dev in index && k == [index[n.dev]] + n.ip
  }

  lemma {:induction false} KeysAppend(a: Records, b: Records)
    ensures KeysOf(a + b) == KeysOf(a) + KeysOf(b)
    decreases |b|
  {
    if b == [] {
      assert a + b == a;
    } else {
      assert (a + b)[..|a + b| - 1] == a + b[..|b| - 1];
      KeysAppend(a, b[..|b| - 1]);
    }
  }

  lemma DbRecordKeys(index: map<string, nat>, n: Neighbour, multiAsic: bool, k: Oid)
    ensures k in KeysOf(DbRecord(index, n, multiAsic)) <==> Shown(index, n, multiAsic, k)
  {
  }

  lemma {:induction false} DbKeys(index: map<string, nat>, neighbours: seq<Neighbour>, multiAsic: bool, k: Oid)
    ensures k in KeysOf(FromDb(index, neighbours, multiAsic)) <==>
            exists i :: 0 <= i < |neighbours| && Shown(index, neighbours[i], multiAsic, k)
    decreases |neighbours|
  {
    if neighbours != [] {
      hide Shown, DbRecord;
      var front, n := neighbours[..|neighbours| - 1], neighbours[|neighbours| - 1];
      DbKeys(index, front, multiAsic, k);
      KeysAppend(FromDb(index, front, multiAsic), DbRecord(index, n, multiAsic));
      DbRecordKeys(index, n, multiAsic, k);
      assert forall i :: 0 <= i < |front| ==> front[i] == neighbours[i];
    }
  }

  lemma {:induction false} TableKeys(index: map<string, nat>, entries: seq<ArpEntry>, k: Oid)
    ensures k in KeysOf(FromTable(index, entries)) <==>
            exists i :: 0 <= i < |entries| && entries[i].dev in index && k == [index[entries[i].dev]] + entries[i].ip
    decreases |entries|
  {
    if entries != [] {
      var front, a := entries[..|entries| - 1], entries[|entries| - 1];
      TableKeys(index, front, k);
      KeysAppend(FromTable(index, front), RecordOf(index, a.dev, a.ip, a.mac));
      assert forall i :: 0 <= i < |front| ==> front[i] == entries[i];
    }
  }

  /** After an update a sub-id is in the column if and only if it is that of an IPv4 neighbour
      of the database with an interface index (management ports left out on a multi-ASIC
      platform) or, on such a platform, of a line of the host's table. */
  lemma ArpListed(index: map<string, nat>, neighbours: seq<Neighbour>, entries: seq<ArpEntry>, multiAsic: bool, k: Oid)
    ensures k in Sort(KeysOf(AllRecords(index, neighbours, entries, multiAsic))) <==>
            (exists i :: 0 <= i < |neighbours| && Shown(index, neighbours[i], multiAsic, k)) ||
            (multiAsic && exists i :: 0 <= i < |entries| && entries[i].dev in index &&
                                      k == [index[entries[i].dev]] + entries[i].ip)
  {
    hide Sort, KeysOf, FromDb, FromTable, Shown;
    DbKeys(index, neighbours, multiAsic, k);
    TableKeys(index, entries, k);
    KeysAppend(FromDb(index, neighbours, multiAsic), FromTable(index, entries));
    SortSorts(KeysOf(AllRecords(index, neighbours, entries, multiAsic)));
    assert FromDb(index, neighbours, multiAsic) + [] == FromDb(index, neighbours, multiAsic);
  }

  // ---------------------------------------------------------------- whose MAC is shown

  /** The `i`-th neighbour is the last one shown under `k`. */
  ghost predicate LastShown(index: map<string, nat>, neighbours: seq<Neighbour>, multiAsic: bool, k: Oid, i: int) {
    0 <= i < |neighbours| && Shown(index, neighbours[i], multiAsic, k) &&
    forall j :: i < j < |neighbours| ==> !Shown(index, neighbours[j], multiAsic, k)
  }

  predicate LineFor(index: map<string, nat>, a: ArpEntry, k: Oid) {
    a.dev in index && k == [index[a.dev]] + a.ip
  }

  /** The `i`-th line of the host's table is the last one for `k`. */
  ghost predicate LastLine(index: map<string, nat>, entries: seq<ArpEntry>, k: Oid, i: int) {
    0 <= i < |entries| && LineFor(index, entries[i], k) &&
    forall j :: i < j < |entries| ==> !LineFor(index, entries[j], k)
  }

  lemma {:induction false} MapAppend(a: Records, b: Records, k: Oid)
    ensures Lookup(MapOf(a + b), k) == if k in MapOf(b) then Some(MapOf(b)[k]) else Lookup(MapOf(a), k)
    decreases |b|
  {
    if b == [] {
      assert a + b == a;
    } else {
      assert (a + b)[..|a + b| - 1] == a + b[..|b| - 1];
      MapAppend(a, b[..|b| - 1], k);
    }
  }

  lemma DbRecordMap(index: map<string, nat>, n: Neighbour, multiAsic: bool, k: Oid)
    ensures Lookup(MapOf(DbRecord(index, n, multiAsic)), k) ==
            if Shown(index, n, multiAsic, k) then Some(n.info.value.mac) else None
  {
  }

  lemma LineMap(index: map<string, nat>, a: ArpEntry, k: Oid)
    ensures Lookup(MapOf(RecordOf(index, a.dev, a.ip, a.mac)), k) == if LineFor(index, a, k) then Some(a.mac) else None
  {
  }

  lemma NewShown(index: map<string, nat>, front: seq<Neighbour>, n: Neighbour, multiAsic: bool, k: Oid)
    requires Shown(index, n, multiAsic, k)
    ensures n.info.Some? && (front + [n])[|front|] == n && LastShown(index, front + [n], multiAsic, k, |front|)
  {
  }

  lemma HasInfo(index: map<string, nat>, n: Neighbour, multiAsic: bool, k: Oid)
    requires Shown(index, n, multiAsic, k)
    ensures n.info.Some?
  {
  }

  lemma StillShown(index: map<string, nat>, front: seq<Neighbour>, n: Neighbour, multiAsic: bool, k: Oid, i: int)
    requires LastShown(index, front, multiAsic, k, i) && !Shown(index, n, multiAsic, k)
    ensures LastShown(index, front + [n], multiAsic, k, i) && (front + [n])[i] == front[i] && front[i].info.Some?
  {
    hide Shown;
    assert front[i].info.Some? by { HasInfo(index, front[i], multiAsic, k); }
  }

  lemma NewLine(index: map<string, nat>, front: seq<ArpEntry>, a: ArpEntry, k: Oid)
    requires LineFor(index, a, k)
    ensures LastLine(index, front + [a], k, |front|) && (front + [a])[|front|] == a
  {
  }

  lemma StillLine(index: map<string, nat>, front: seq<ArpEntry>, a: ArpEntry, k: Oid, i: int)
    requires LastLine(index, front, k, i) && !LineFor(index, a, k)
    ensures LastLine(index, front + [a], k, i) && (front + [a])[i] == front[i]
  {
    hide LineFor;
  }

  lemma {:induction false} DbMap(index: map<string, nat>, neighbours: seq<Neighbour>, multiAsic: bool, k: Oid)
    ensures match Lookup(MapOf(FromDb(index, neighbours, multiAsic)), k)
            case Some(mac) =>
              exists i :: LastShown(index, neighbours, multiAsic, k, i) && neighbours[i].info.value.mac == mac
            case None => forall n :: n in neighbours ==> !Shown(index, n, multiAsic, k)
    decreases |neighbours|
  {
    if neighbours != [] {
      hide MapOf, KeysOf, Shown, DbRecord;
      var last := |neighbours| - 1;
      var front, n := neighbours[..last], neighbours[last];
      DbMap(index, front, multiAsic, k);
      MapAppend(FromDb(index, front, multiAsic), DbRecord(index, n, multiAsic), k);
      DbRecordMap(index, n, multiAsic, k);
      assert FromDb(index, neighbours, multiAsic) == FromDb(index, front, multiAsic) + DbRecord(index, n, multiAsic);
      hide FromDb, LastShown;
      if Shown(index, n, multiAsic, k) {
        NewShown(index, front, n, multiAsic, k);
        assert neighbours == front + [n];
      } else if Lookup(MapOf(FromDb(index, front, multiAsic)), k).Some? {
        var i :| LastShown(index, front, multiAsic, k, i) &&
          front[i].info.value.mac == Lookup(MapOf(FromDb(index, front, multiAsic)), k).value;
        StillShown(index, front, n, multiAsic, k, i);
        assert neighbours == front + [n];
      }
    }
  }

  lemma {:induction false} TableMap(index: map<string, nat>, entries: seq<ArpEntry>, k: Oid)
    ensures match Lookup(MapOf(FromTable(index, entries)), k)
            case Some(mac) => exists i :: LastLine(index, entries, k, i) && entries[i].mac == mac
            case None => forall a :: a in entries ==> !LineFor(index, a, k)
    decreases |entries|
  {
    if entries != [] {
      hide MapOf, KeysOf, LineFor, RecordOf;
      var last := |entries| - 1;
      var front, a := entries[..last], entries[last];
      TableMap(index, front, k);
      MapAppend(FromTable(index, front), RecordOf(index, a.dev, a.ip, a.mac), k);
      LineMap(index, a, k);
      assert FromTable(index, entries) == FromTable(index, front) + RecordOf(index, a.dev, a.ip, a.mac);
      hide FromTable, LastLine;
      if LineFor(index, a, k) {
        NewLine(index, front, a, k);
        assert entries == front + [a];
      } else if Lookup(MapOf(FromTable(index, front)), k).Some? {
        var i :| LastLine(index, front, k, i) && front[i].mac == Lookup(MapOf(FromTable(index, front)), k).value;
        StillLine(index, front, a, k, i);
        assert entries == front + [a];
      }
    }
  }

  /** After an update the cell of a sub-id shows, on a multi-ASIC platform, the MAC of the last
      line of the host's table for it; without such a line the MAC of the last neighbour of the
      database shown under it; and without either nothing. */
  lemma ArpMac(prefix: Oid, index: map<string, nat>, neighbours: seq<Neighbour>, entries: seq<ArpEntry>,
               multiAsic: bool, k: Oid)
    ensures var shown := ArpColumn(prefix, AllRecords(index, neighbours, entries, multiAsic)).Call(k);
      if multiAsic && exists a :: a in entries && LineFor(index, a, k)
      then exists i :: LastLine(index, entries, k, i) && shown == Some(Text(entries[i].mac))
      else if exists n :: n in neighbours && Shown(index, n, multiAsic, k)
      then
        exists i :: LastShown(index, neighbours, multiAsic, k, i) && shown == Some(Text(neighbours[i].info.value.mac))
      else shown == None
  {
    hide MapOf, Shown, FromDb, FromTable, LineFor, Sort, KeysOf;
    var db, table := FromDb(index, neighbours, multiAsic), FromTable(index, entries);
    DbMap(index, neighbours, multiAsic, k);
    TableMap(index, entries, k);
    MapAppend(db, table, k);
    assert db + [] == db;
  }

  // ---------------------------------------------------------------- walking the column

  /** In any table that registers the column: a walk from a start inside it, included or not, to
      an end below which no later subtree starts lists each recorded neighbour from the start on
      once, in order, and stops. */
  lemma ArpWalk(t: MibTable, prefix: Oid, rs: Records, keys: seq<Oid>, start: ObjectIdentifier, end: ObjectIdentifier,
                i: nat, fuel: nat)
    requires Registers(t, ArpColumn(prefix, rs)) && ListsOnce(KeysOf(rs), keys)
    requires forall j :: 0 <= j < |rs| ==> rs[j].0 != []
    requires prefix <= start.ToTuple() && Position(Names(prefix, keys), SearchRange(start, end), i)
    requires LastBelow(t, prefix, end.ToTuple()) && fuel > |keys| - i
    ensures var w := Walk(t, start, end, fuel);
            w.stop == EndOfMib && Visits(t, Names(prefix, keys)[i..], w.answers)
  {
    hide MapOf, KeysOf, Sort, Walk, Visits, Sorted, LastRecord, LastBelow, Position, Registers;
    SortSorts(KeysOf(rs));
    KeysNonEmpty(rs);
    var list, cell := Sort(KeysOf(rs)), ArpColumn(prefix, rs).handlers.cell;
    forall k ensures
      if k in list then k != [] && cell(k).Some? && Castable(OCTET_STRING, cell(k).value) else cell(k).None? {
      ArpCell(prefix, rs, k);
    }
    ListWalk(t, prefix, OCTET_STRING, list, cell, keys, start, end, i, fuel);
  }
}
