/**
 internal/sqlite3store/store.go as an object over its tables. Each method is proved against
 the table functions of SubnetStore and, through StoreRefinement, against a plain map.
 */
module Store {
  import opened Wrappers
  import opened Config
  import opened SubnetStore
  import SR = StoreRefinement

  // ---- The loops over the bindings -------------------------------------------------

  /** The list tables once the first k bindings were visited. */
  function Visited(before: Lists, after: Lists, k: nat): Lists
    requires k <= |BINDINGS| && before.Keys <= after.Keys
  {
    map b | b in before :: if b in BINDINGS[..k] then after[b] else before[b]
  }

  lemma BindingIsNew(k: nat)
    requires k < |BINDINGS|
    ensures BINDINGS[k] !in BINDINGS[..k]
  {
    assert BINDINGS[0] == DomainNameServers && BINDINGS[1] == DomainSearch && BINDINGS[2] == NTPServers;
    assert BINDINGS[3] == TimeServers && BINDINGS[4] == SMTPServers && BINDINGS[5] == LPRServers;
    assert BINDINGS[6] == NetBIOSNameServers && BINDINGS[7] == NetBIOSDDServers && BINDINGS[8] == Routers;
  }

  lemma VisitNext(before: Lists, after: Lists, k: nat)
    requires k < |BINDINGS| && before.Keys == after.Keys && BINDINGS[k] in before
    ensures Visited(before, after, k)[BINDINGS[k]] == before[BINDINGS[k]]
    ensures Visited(before, after, k + 1) == Visited(before, after, k)[BINDINGS[k] := after[BINDINGS[k]]]
  {
    BindingIsNew(k);
    assert BINDINGS[..k + 1] == BINDINGS[..k] + [BINDINGS[k]];
  }

  lemma VisitAll(before: Lists, after: Lists)
    requires before.Keys == after.Keys
    ensures Visited(before, after, 0) == before
    ensures Visited(before, after, |BINDINGS|) == after
  {
    forall b
      ensures b in BINDINGS[..|BINDINGS|]
    {
      BindingsAreAll(b);
    }
  }

  // ---- Static hosts ----------------------------------------------------------------

  /** A row of static_hosts; the map key is the unique, normalised MAC address. */
  datatype HostRow = HostRow(ipAddress: Text, hostname: Option<Text>)

  type HostTable = map<Text, HostRow>

  function HostRowOf(h: StaticHost): HostRow {
    HostRow(h.ipAddress, NullableString(h.hostname))
  }

  /** A host as it is read back: under the normalised spelling of its MAC address. */
  function Stored(h: StaticHost): StaticHost {
    h.(macAddress := NormalizeMAC(h.macAddress))
  }

  /** The hosts a table holds. */
  function HostView(hosts: HostTable): map<Text, StaticHost> {
    map m | m in hosts :: StaticHost(m, hosts[m].ipAddress, StringOf(hosts[m].hostname))
  }

  lemma HostWritten(hosts: HostTable, h: StaticHost)
    ensures HostView(hosts[NormalizeMAC(h.macAddress) := HostRowOf(h)])
         == HostView(hosts)[NormalizeMAC(h.macAddress) := Stored(h)]
  {
  }

  // ---- The store -------------------------------------------------------------------

  class Store {
    var subnets: seq<SubnetRow>
    var nextId: nat
    var ranges: seq<ChildRow<DynamicRange>>
    var lists: Lists
    var hosts: HostTable

    function Tables(): Tables
      reads this
    {
      SubnetStore.Tables(subnets, nextId, ranges, lists)
    }

    ghost predicate Valid()
      reads this
    {
      Consistent(Tables())
    }

    ghost function View(): map<Text, SubnetConfig>
      reads this
      requires Valid()
    {
      SR.View(Tables())
    }

    constructor ()
      ensures Valid() && View() == map[] && hosts == map[]
    {
      subnets, nextId, ranges, lists := [], 1, [], EmptyTables().lists;
      hosts := map[];
      new;
      SR.EmptyIsConsistent();
    }

    method ClearChildren(id: nat)
      requires forall b :: b in lists
      modifies this`ranges, this`lists
      ensures Tables() == SubnetStore.ClearChildren(old(Tables()), id)
    {
      ranges := Without(ranges, id);
      ghost var before, after := lists, ClearLists(lists, id);
      VisitAll(before, after);
      for k := 0 to |BINDINGS|
        invariant lists == Visited(before, after, k)
        invariant ranges == Without(old(ranges), id)
      {
        VisitNext(before, after, k);
        lists := lists[BINDINGS[k] := Without(lists[BINDINGS[k]], id)];
      }
    }

    method WriteChildren(id: nat, s: SubnetConfig)
      requires forall b :: b in lists
      modifies this`ranges, this`lists
      ensures Tables() == SubnetStore.WriteChildren(old(Tables()), id, s)
    {
      for i := 0 to |s.dynamicRanges|
        invariant ranges == old(ranges) + Children(id, s.dynamicRanges)[..i]
        invariant lists == old(lists)
      {
        ranges := ranges + [ChildRow(id, i, s.dynamicRanges[i])];
      }
      ghost var before, after := lists, WriteLists(lists, id, s);
      VisitAll(before, after);
      for k := 0 to |BINDINGS|
        invariant lists == Visited(before, after, k)
        invariant ranges == old(ranges) + Children(id, s.dynamicRanges)
      {
        VisitNext(before, after, k);
        WriteList(BINDINGS[k], id, GetList(BINDINGS[k], s));
      }
    }

    method WriteList(b: ListAttribute, id: nat, values: seq<Text>)
      requires b in lists
      modifies this`lists
      ensures lists == old(lists)[b := old(lists)[b] + Children(id, values)]
    {
      assert lists == lists[b := lists[b]];
      for i := 0 to |values|
        invariant b in lists && lists == old(lists)[b := lists[b]]
        invariant lists[b] == old(lists)[b] + Children(id, values)[..i]
      {
        lists := lists[b := lists[b] + [ChildRow(id, i, values[i])]];
      }
      assert Children(id, values)[..|values|] == Children(id, values);
    }

    /** Fails, changing nothing, when the network exists; otherwise the map gains the configuration. */
    method InsertSubnet(s: SubnetConfig) returns (ok: bool)
      requires Valid()
      modifies this`subnets, this`nextId, this`ranges, this`lists
      ensures Valid()
      ensures (Tables(), ok) == SR.StoreStep(old(Tables()), SR.Insert(s))
      ensures (View(), ok) == SR.MapStep(old(View()), SR.Insert(s))
    {
      ghost var before := Tables();
      ok := Find(subnets, s.network) == |subnets|;
      if ok {
        var id := nextId;
        subnets, nextId := subnets + [RowOf(id, s)], id + 1;
        WriteChildren(id, s);
      }
      assert (Tables(), ok) == SR.StoreStep(before, SR.Insert(s));
      SR.StepRefines(before, SR.Insert(s));
    }

    /** Fails, changing nothing, when the network is absent; otherwise the map's value is replaced. */
    method UpdateSubnet(s: SubnetConfig) returns (ok: bool)
      requires Valid()
      modifies this`subnets, this`ranges, this`lists
      ensures Valid()
      ensures (Tables(), ok) == SR.StoreStep(old(Tables()), SR.Update(s))
      ensures (View(), ok) == SR.MapStep(old(View()), SR.Update(s))
    {
      ghost var before := Tables();
      var i := Find(subnets, s.network);
      ok := i < |subnets|;
      if ok {
        var id := subnets[i].id;
        subnets := subnets[i := RowOf(id, s)];
        ClearChildren(id);
        WriteChildren(id, s);
      }
      assert (Tables(), ok) == SR.StoreStep(before, SR.Update(s));
      SR.StepRefines(before, SR.Update(s));
    }

    /** Fails, changing nothing, when the network is absent; otherwise it leaves the map. */
    method DeleteSubnet(network: Text, cascade: bool) returns (ok: bool)
      requires Valid()
      modifies this`subnets, this`ranges, this`lists
      ensures Valid()
      ensures (Tables(), ok) == SR.StoreStep(old(Tables()), SR.Delete(network, cascade))
      ensures (View(), ok) == SR.MapStep(old(View()), SR.Delete(network, cascade))
    {
      ghost var before := Tables();
      var i := Find(subnets, network);
      ok := i < |subnets|;
      if ok {
        var id := subnets[i].id;
        subnets := subnets[..i] + subnets[i + 1..];
        if cascade {
          ClearChildren(id);
        }
      }
      assert (Tables(), ok) == SR.StoreStep(before, SR.Delete(network, cascade));
      SR.StepRefines(before, SR.Delete(network, cascade));
    }

    /** SELECT .. WHERE subnet_id = ? ORDER BY position, row by row. */
    method GetChildren<V>(table: seq<ChildRow<V>>, id: nat) returns (values: seq<V>)
      ensures values == Select(table, id)
    {
      var rows := OrderByPosition(Filter(table, id));
      values := [];
      for i := 0 to |rows|
        invariant values == Values(rows)[..i]
      {
        values := values + [rows[i].value];
      }
    }

    method GetSubnet(row: SubnetRow) returns (s: SubnetConfig)
      requires forall b :: b in lists
      ensures s == Assemble(Tables(), row)
    {
      s := WithoutLists(row);
      var dynamicRanges := GetChildren(ranges, row.id);
      s := s.(dynamicRanges := dynamicRanges);
      ghost var first := s;
      for k := 0 to |BINDINGS|
        invariant SetLists(Tables(), row.id, BINDINGS[k..], s) == SetLists(Tables(), row.id, BINDINGS, first)
      {
        var values := GetChildren(lists[BINDINGS[k]], row.id);
        assert BINDINGS[k..][1..] == BINDINGS[k + 1..];
        s := SetList(BINDINGS[k], s, values);
      }
    }

    /** The listing of the map in order of network (GetSubnetsListsView). */
    method GetSubnets() returns (listing: seq<SubnetConfig>)
      requires forall b :: b in lists
      ensures listing == SR.GetSubnets(Tables())
    {
      var rows := SR.OrderByNetwork(subnets);
      listing := [];
      for i := 0 to |rows|
        invariant listing == SR.AssembleRows(Tables(), rows[..i])
      {
        var s := GetSubnet(rows[i]);
        assert rows[..i + 1][..i] == rows[..i];
        listing := listing + [s];
      }
      assert rows[..|rows|] == rows;
    }

    method InsertStaticHost(h: StaticHost) returns (ok: bool)
      modifies this`hosts
      ensures ok == (NormalizeMAC(h.macAddress) !in old(hosts))
      ensures !ok ==> hosts == old(hosts)
      ensures ok ==> HostView(hosts) == HostView(old(hosts))[NormalizeMAC(h.macAddress) := Stored(h)]
    {
      var mac := NormalizeMAC(h.macAddress);
      if mac in hosts {
        return false;
      }
      HostWritten(hosts, h);
      hosts := hosts[mac := HostRowOf(h)];
      ok := true;
    }

    method UpdateStaticHost(h: StaticHost) returns (ok: bool)
      modifies this`hosts
      ensures ok == (NormalizeMAC(h.macAddress) in old(hosts))
      ensures !ok ==> hosts == old(hosts)
      ensures ok ==> HostView(hosts) == HostView(old(hosts))[NormalizeMAC(h.macAddress) := Stored(h)]
    {
      var mac := NormalizeMAC(h.macAddress);
      if mac !in hosts {
        return false;
      }
      HostWritten(hosts, h);
      hosts := hosts[mac := HostRowOf(h)];
      ok := true;
    }

    method DeleteStaticHost(macAddress: Text) returns (ok: bool)
      modifies this`hosts
      ensures ok == (NormalizeMAC(macAddress) in old(hosts))
      ensures !ok ==> hosts == old(hosts)
      ensures HostView(hosts) == HostView(old(hosts)) - {NormalizeMAC(macAddress)}
    {
      var mac := NormalizeMAC(macAddress);
      ok := mac in hosts;
      hosts := hosts - {mac};
    }
  }
}
