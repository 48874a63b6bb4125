/**
 The normalised configuration store of internal/sqlite3store/store.go as a value: a parent
 table, a table of dynamic ranges and nine tables of string lists. It behaves like a plain
 map from network to configuration, whether or not deletes cascade to the child tables.
 */
module SubnetStore {
  import opened Wrappers
  import opened Config

  /** The nine list attributes, each with a table of its own (stringListBindings). */
  datatype ListAttribute =
    | DomainNameServers | DomainSearch | NTPServers | TimeServers | SMTPServers
    | LPRServers | NetBIOSNameServers | NetBIOSDDServers | Routers

  const BINDINGS: seq<ListAttribute> :=
    [DomainNameServers, DomainSearch, NTPServers, TimeServers, SMTPServers,
     LPRServers, NetBIOSNameServers, NetBIOSDDServers, Routers]

  lemma BindingsAreAll(b: ListAttribute)
    ensures b in BINDINGS
  {
    assert BINDINGS[0] == DomainNameServers && BINDINGS[1] == DomainSearch && BINDINGS[2] == NTPServers;
    assert BINDINGS[3] == TimeServers && BINDINGS[4] == SMTPServers && BINDINGS[5] == LPRServers;
    assert BINDINGS[6] == NetBIOSNameServers && BINDINGS[7] == NetBIOSDDServers && BINDINGS[8] == Routers;
  }

  function GetList(b: ListAttribute, s: SubnetConfig): seq<Text> {
    match b
    case DomainNameServers => s.domainNameServers
    case DomainSearch => s.domainSearch
    case NTPServers => s.ntpServers
    case TimeServers => s.timeServers
    case SMTPServers => s.smtpServers
    case LPRServers => s.lprServers
    case NetBIOSNameServers => s.netBIOSNameServers
    case NetBIOSDDServers => s.netBIOSDDServers
    case Routers => s.routers
  }

  function SetList(b: ListAttribute, s: SubnetConfig, v: seq<Text>): SubnetConfig {
    match b
    case DomainNameServers => s.(domainNameServers := v)
    case DomainSearch => s.(domainSearch := v)
    case NTPServers => s.(ntpServers := v)
    case TimeServers => s.(timeServers := v)
    case SMTPServers => s.(smtpServers := v)
    case LPRServers => s.(lprServers := v)
    case NetBIOSNameServers => s.(netBIOSNameServers := v)
    case NetBIOSDDServers => s.(netBIOSDDServers := v)
    case Routers => s.(routers := v)
  }

  // ---- Rows ------------------------------------------------------------------------

  /** A row of the parent table; optional columns are NULL for empty text. */
  datatype SubnetRow = SubnetRow(
    id: nat,
    network: Text,
    netmask: Text,
    enableBootP: int,
    nextServer: Option<Text>,
    serverHostname: Option<Text>,
    bootFilename: Option<Text>,
    netBIOSNodeType: Option<int>,
    domainName: Option<Text>,
    interfaceMTU: Option<int>)

  datatype ChildRow<V> = ChildRow(subnetId: nat, position: nat, value: V)

  type Lists = map<ListAttribute, seq<ChildRow<Text>>>

  datatype Tables = Tables(
    subnets: seq<SubnetRow>,
    nextId: nat,
    ranges: seq<ChildRow<DynamicRange>>,
    lists: Lists)

  function EmptyTables(): Tables {
    Tables([], 1, [], map b: ListAttribute | b in BINDINGS :: [])
  }

  function NullableString(s: Text): Option<Text> {
    if s == [] then None else Some(s)
  }

  function StringOf(column: Option<Text>): Text {
    match column case Some(s) => s case None => []
  }

  function BoolToInt(b: bool): int {
    if b then 1 else 0
  }

  function RowOf(id: nat, s: SubnetConfig): SubnetRow {
    SubnetRow(id, s.network, s.netmask, BoolToInt(s.enableBootP), NullableString(s.nextServer),
              NullableString(s.serverHostname), NullableString(s.bootFilename), s.netBIOSNodeType,
              NullableString(s.domainName), s.interfaceMTU)
  }

  function WithoutLists(row: SubnetRow): SubnetConfig {
    SubnetConfig(row.network, row.netmask, [], row.enableBootP != 0, StringOf(row.nextServer),
                 StringOf(row.serverHostname), StringOf(row.bootFilename), row.netBIOSNodeType,
                 [], StringOf(row.domainName), [], row.interfaceMTU, [], [], [], [], [], [], [])
  }

  // ---- Child tables ----------------------------------------------------------------

  /** WHERE subnet_id = ? */
  function Filter<V>(rows: seq<ChildRow<V>>, id: nat): seq<ChildRow<V>> {
    if rows == [] then []
    else
      var last := rows[|rows| - 1];
      Filter(rows[..|rows| - 1], id) + (if last.subnetId == id then [last] else [])
  }

  /** DELETE .. WHERE subnet_id = ? */
  function Without<V>(rows: seq<ChildRow<V>>, id: nat): seq<ChildRow<V>> {
    if rows == [] then []
    else
      var last := rows[|rows| - 1];
      Without(rows[..|rows| - 1], id) + (if last.subnetId == id then [] else [last])
  }

  /** ORDER BY position */
  function InsertByPosition<V>(sorted: seq<ChildRow<V>>, row: ChildRow<V>): seq<ChildRow<V>> {
    if sorted == [] then [row]
    else if sorted[|sorted| - 1].position <= row.position then sorted + [row]
    else InsertByPosition(sorted[..|sorted| - 1], row) + [sorted[|sorted| - 1]]
  }

  function OrderByPosition<V>(rows: seq<ChildRow<V>>): seq<ChildRow<V>> {
    if rows == [] then [] else InsertByPosition(OrderByPosition(rows[..|rows| - 1]), rows[|rows| - 1])
  }

  function Values<V>(rows: seq<ChildRow<V>>): seq<V> {
    seq(|rows|, i requires 0 <= i < |rows| => rows[i].value)
  }

  /** The list a subnet reads from a child table. */
  function Select<V>(rows: seq<ChildRow<V>>, id: nat): seq<V> {
    Values(OrderByPosition(Filter(rows, id)))
  }

  /** The rows writeChildren inserts for one list. */
  function Children<V>(id: nat, values: seq<V>): seq<ChildRow<V>> {
    seq(|values|, i requires 0 <= i < |values| => ChildRow(id, i, values[i]))
  }

  lemma {:induction false} FilterAppend<V>(a: seq<ChildRow<V>>, b: seq<ChildRow<V>>, id: nat)
    ensures Filter(a + b, id) == Filter(a, id) + Filter(b, id)
    decreases |b|
  {
    if b == [] {
      assert a + b == a;
    } else {
      assert (a + b)[..|a + b| - 1] == a + b[..|b| - 1];
      FilterAppend(a, b[..|b| - 1], id);
    }
  }

  lemma FilterOne<V>(row: ChildRow<V>, id: nat)
    ensures Filter([row], id) == if row.subnetId == id then [row] else []
  {
    assert [row][..0] == [];
  }

  lemma {:induction false} FilterOthers<V>(rows: seq<ChildRow<V>>, id: nat)
    requires forall i | 0 <= i < |rows| :: rows[i].subnetId != id
    ensures Filter(rows, id) == []
  {
    if rows != [] {
      FilterOthers(rows[..|rows| - 1], id);
    }
  }

  lemma {:induction false} FilterOwn<V>(rows: seq<ChildRow<V>>, id: nat)
    requires forall i | 0 <= i < |rows| :: rows[i].subnetId == id
    ensures Filter(rows, id) == rows
  {
    if rows != [] {
      FilterOwn(rows[..|rows| - 1], id);
    }
  }

  lemma {:induction false} WithoutFilters<V>(rows: seq<ChildRow<V>>, id: nat, other: nat)
    ensures Filter(Without(rows, id), other) == if other == id then [] else Filter(rows, other)
    ensures forall row | row in Without(rows, id) :: row in rows
  {
    if rows != [] {
      var last := rows[|rows| - 1];
      var kept := Without(rows[..|rows| - 1], id);
      WithoutFilters(rows[..|rows| - 1], id, other);
      FilterAppend(kept, [last], other);
      FilterOne(last, other);
      assert kept + [] == kept && Filter(kept, other) + [] == Filter(kept, other);
    }
  }

  lemma {:induction false} OrderedStays<V>(rows: seq<ChildRow<V>>)
    requires forall i, j | 0 <= i < j < |rows| :: rows[i].position <= rows[j].position
    ensures OrderByPosition(rows) == rows
  {
    if rows != [] {
      OrderedStays(rows[..|rows| - 1]);
    }
  }

  /** A list written where no row of the subnet was left reads back in order. */
  lemma ListReadsBack<V>(rows: seq<ChildRow<V>>, id: nat, values: seq<V>)
    requires Filter(rows, id) == []
    ensures Select(rows + Children(id, values), id) == values
  {
    var children := Children(id, values);
    FilterAppend(rows, children, id);
    FilterOwn(children, id);
    assert Filter(rows + children, id) == children;
    ChildrenInOrder(id, values);
  }

  lemma ChildrenInOrder<V>(id: nat, values: seq<V>)
    ensures Values(OrderByPosition(Children(id, values))) == values
  {
    var children := Children(id, values);
    assert forall i | 0 <= i < |children| :: children[i].position == i;
    OrderedStays(children);
  }

  /** Writing one subnet's list does not touch what the others read. */
  lemma OtherListsStay<V>(rows: seq<ChildRow<V>>, id: nat, values: seq<V>, other: nat)
    requires other != id
    ensures Select(rows + Children(id, values), other) == Select(rows, other)
  {
    var children := Children(id, values);
    FilterAppend(rows, children, other);
    FilterOthers(children, other);
    assert Filter(rows, other) + [] == Filter(rows, other);
  }

  // ---- Operations ------------------------------------------------------------------

  datatype StoreError = AlreadyExists | NotFound

  /** The position of a network in the parent table, or its length. */
  function Find(subnets: seq<SubnetRow>, network: Text): nat
    ensures Find(subnets, network) <= |subnets|
    ensures Find(subnets, network) < |subnets| ==> subnets[Find(subnets, network)].network == network
    ensures forall i | 0 <= i < Find(subnets, network) :: subnets[i].network != network
  {
    if subnets == [] then 0
    else if subnets[0].network == network then 0
    else 1 + Find(subnets[1..], network)
  }

  function WriteLists(lists: Lists, id: nat, s: SubnetConfig): Lists {
    map b | b in lists :: lists[b] + Children(id, GetList(b, s))
  }

  function ClearLists(lists: Lists, id: nat): Lists {
    map b | b in lists :: Without(lists[b], id)
  }

  function WriteChildren(t: Tables, id: nat, s: SubnetConfig): Tables {
    t.(ranges := t.ranges + Children(id, s.dynamicRanges), lists := WriteLists(t.lists, id, s))
  }

  function ClearChildren(t: Tables, id: nat): Tables {
    t.(ranges := Without(t.ranges, id), lists := ClearLists(t.lists, id))
  }

  /** InsertSubnet: the AUTOINCREMENT id of the new row has never been used before. */
  function InsertSubnet(t: Tables, s: SubnetConfig): Result<Tables, StoreError> {
    if Find(t.subnets, s.network) < |t.subnets| then Failure(AlreadyExists)
    else Success(WriteChildren(t.(subnets := t.subnets + [RowOf(t.nextId, s)], nextId := t.nextId + 1), t.nextId, s))
  }

  /** UpdateSubnet */
  function UpdateSubnet(t: Tables, s: SubnetConfig): Result<Tables, StoreError> {
    var i := Find(t.subnets, s.network);
    if i == |t.subnets| then Failure(NotFound)
    else
      var id := t.subnets[i].id;
      Success(WriteChildren(ClearChildren(t.(subnets := t.subnets[i := RowOf(id, s)]), id), id, s))
  }

  /** DeleteSubnet: the child rows go too only when foreign keys are enforced on the connection. */
  function DeleteSubnet(t: Tables, network: Text, cascade: bool): Result<Tables, StoreError> {
    var i := Find(t.subnets, network);
    if i == |t.subnets| then Failure(NotFound)
    else
      var t' := t.(subnets := t.subnets[..i] + t.subnets[i + 1..]);
      Success(if cascade then ClearChildren(t', t.subnets[i].id) else t')
  }

  /** A subnet as GetSubnets assembles it: the row, its ranges, then list by list. */
  function Assemble(t: Tables, row: SubnetRow): SubnetConfig
    requires forall b :: b in t.lists
  {
    SetLists(t, row.id, BINDINGS, WithoutLists(row).(dynamicRanges := Select(t.ranges, row.id)))
  }

  function SetLists(t: Tables, id: nat, bindings: seq<ListAttribute>, s: SubnetConfig): SubnetConfig
    requires forall b :: b in t.lists
    decreases |bindings|, id
  {
    if bindings == [] then s
    else SetLists(t, id, bindings[1..], SetList(bindings[0], s, Select(t.lists[bindings[0]], id)))
  }

  // ---- The map the store stands for ------------------------------------------------

  /** Ids and networks are unique, and no child row, live or orphaned, has an id still to be given out. */
  ghost predicate Consistent(t: Tables) {
    && (forall b :: b in t.lists)
    && (forall i, j | 0 <= i < j < |t.subnets| :: t.subnets[i].network != t.subnets[j].network)
    && (forall i, j | 0 <= i < j < |t.subnets| :: t.subnets[i].id != t.subnets[j].id)
    && (forall i | 0 <= i < |t.subnets| :: t.subnets[i].id < t.nextId)
    && (forall row | row in t.ranges :: row.subnetId < t.nextId)
    && (forall b, row | row in t.lists[b] :: row.subnetId < t.nextId)
  }

  /** The configurations in row order. */
  function Entries(t: Tables): (r: seq<SubnetConfig>)
    requires forall b :: b in t.lists
    ensures |r| == |t.subnets|
  {
    seq(|t.subnets|, i requires 0 <= i < |t.subnets| => Assemble(t, t.subnets[i]))
  }

  /** Equality of configurations, attribute by attribute. */
  predicate SameScalars(a: SubnetConfig, b: SubnetConfig) {
    && a.network == b.network && a.netmask == b.netmask && a.dynamicRanges == b.dynamicRanges
    && a.enableBootP == b.enableBootP && a.nextServer == b.nextServer
    && a.serverHostname == b.serverHostname && a.bootFilename == b.bootFilename
    && a.netBIOSNodeType == b.netBIOSNodeType && a.domainName == b.domainName && a.interfaceMTU == b.interfaceMTU
  }

  lemma SameConfig(a: SubnetConfig, b: SubnetConfig)
    requires SameScalars(a, b) && forall x :: GetList(x, a) == GetList(x, b)
    ensures a == b
  {
    assert GetList(DomainNameServers, a) == GetList(DomainNameServers, b);
    assert GetList(DomainSearch, a) == GetList(DomainSearch, b);
    assert GetList(NTPServers, a) == GetList(NTPServers, b);
    assert GetList(TimeServers, a) == GetList(TimeServers, b);
    assert GetList(SMTPServers, a) == GetList(SMTPServers, b);
    assert GetList(LPRServers, a) == GetList(LPRServers, b);
    assert GetList(NetBIOSNameServers, a) == GetList(NetBIOSNameServers, b);
    assert GetList(NetBIOSDDServers, a) == GetList(NetBIOSDDServers, b);
    assert GetList(Routers, a) == GetList(Routers, b);
  }

  lemma GetAfterSet(b: ListAttribute, c: ListAttribute, s: SubnetConfig, v: seq<Text>)
    ensures GetList(b, SetList(c, s, v)) == if b == c then v else GetList(b, s)
    ensures SameScalars(s, SetList(c, s, v))
  {
    match c
    case DomainNameServers =>
    case DomainSearch =>
    case NTPServers =>
    case TimeServers =>
    case SMTPServers =>
    case LPRServers =>
    case NetBIOSNameServers =>
    case NetBIOSDDServers =>
    case Routers =>
  }

  /** The loop over the bindings sets exactly the attributes it visits. */
  lemma {:induction false} SetListsReads(t: Tables, id: nat, bindings: seq<ListAttribute>, s: SubnetConfig,
                                         b: ListAttribute)
    requires forall x :: x in t.lists
    ensures GetList(b, SetLists(t, id, bindings, s)) == if b in bindings then Select(t.lists[b], id) else GetList(b, s)
    ensures SameScalars(s, SetLists(t, id, bindings, s))
    decreases |bindings|
  {
    if bindings != [] {
      var s' := SetList(bindings[0], s, Select(t.lists[bindings[0]], id));
      GetAfterSet(b, bindings[0], s, Select(t.lists[bindings[0]], id));
      SetListsReads(t, id, bindings[1..], s', b);
      assert bindings == [bindings[0]] + bindings[1..];
    }
  }

  lemma AssembleReads(t: Tables, row: SubnetRow, b: ListAttribute)
    requires forall x :: x in t.lists
    ensures GetList(b, Assemble(t, row)) == Select(t.lists[b], row.id)
    ensures SameScalars(WithoutLists(row).(dynamicRanges := Select(t.ranges, row.id)), Assemble(t, row))
  {
    BindingsAreAll(b);
    SetListsReads(t, row.id, BINDINGS, WithoutLists(row).(dynamicRanges := Select(t.ranges, row.id)), b);
  }

  /** Two stores that read the same ranges and lists for a subnet assemble it alike. */
  lemma AssembleAgrees(t: Tables, t': Tables, row: SubnetRow)
    requires (forall b :: b in t.lists) && (forall b :: b in t'.lists)
    requires Select(t.ranges, row.id) == Select(t'.ranges, row.id)
    requires forall b :: Select(t.lists[b], row.id) == Select(t'.lists[b], row.id)
    ensures Assemble(t, row) == Assemble(t', row)
  {
    forall b
      ensures GetList(b, Assemble(t, row)) == GetList(b, Assemble(t', row))
    {
      AssembleReads(t, row, b);
      AssembleReads(t', row, b);
    }
    AssembleReads(t, row, Routers);
    AssembleReads(t', row, Routers);
    SameConfig(Assemble(t, row), Assemble(t', row));
  }

  /** A row and lists written from a configuration assemble to that configuration. */
  lemma AssembleReadsBack(t: Tables, id: nat, s: SubnetConfig)
    requires forall b :: b in t.lists
    requires Select(t.ranges, id) == s.dynamicRanges
    requires forall b :: Select(t.lists[b], id) == GetList(b, s)
    ensures Assemble(t, RowOf(id, s)) == s
  {
    var row := RowOf(id, s);
    forall b
      ensures GetList(b, Assemble(t, row)) == GetList(b, s)
    {
      AssembleReads(t, row, b);
    }
    AssembleReads(t, row, Routers);
    SameConfig(Assemble(t, row), s);
  }

  /** Writing the children of a subnet that has none left. */
  lemma WriteChildrenReads(t: Tables, id: nat, s: SubnetConfig)
    requires forall b :: b in t.lists
    requires Filter(t.ranges, id) == [] && forall b :: Filter(t.lists[b], id) == []
    ensures var t' := WriteChildren(t, id, s);
      && (forall b :: b in t'.lists)
      && Select(t'.ranges, id) == s.dynamicRanges
      && (forall b :: Select(t'.lists[b], id) == GetList(b, s))
      && (forall other | other != id :: Select(t'.ranges, other) == Select(t.ranges, other))
      && (forall b, other | other != id :: Select(t'.lists[b], other) == Select(t.lists[b], other))
  {
    ListReadsBack(t.ranges, id, s.dynamicRanges);
    forall b
      ensures Select(t.lists[b] + Children(id, GetList(b, s)), id) == GetList(b, s)
    {
      ListReadsBack(t.lists[b], id, GetList(b, s));
    }
    forall other | other != id
      ensures Select(t.ranges + Children(id, s.dynamicRanges), other) == Select(t.ranges, other)
    {
      OtherListsStay(t.ranges, id, s.dynamicRanges, other);
    }
    forall b, other | other != id
      ensures Select(t.lists[b] + Children(id, GetList(b, s)), other) == Select(t.lists[b], other)
    {
      OtherListsStay(t.lists[b], id, GetList(b, s), other);
    }
  }

  lemma ClearChildrenReads(t: Tables, id: nat)
    requires forall b :: b in t.lists
    ensures var t' := ClearChildren(t, id);
      && (forall b :: b in t'.lists)
      && Filter(t'.ranges, id) == []
      && (forall b :: Filter(t'.lists[b], id) == [])
      && (forall other | other != id :: Select(t'.ranges, other) == Select(t.ranges, other))
      && (forall b, other | other != id :: Select(t'.lists[b], other) == Select(t.lists[b], other))
      && (forall row | row in t'.ranges :: row in t.ranges)
      && (forall b, row | row in t'.lists[b] :: row in t.lists[b])
  {
    forall other
      ensures Filter(Without(t.ranges, id), other) == if other == id then [] else Filter(t.ranges, other)
      ensures forall row | row in Without(t.ranges, id) :: row in t.ranges
    {
      WithoutFilters(t.ranges, id, other);
    }
    forall b, other
      ensures Filter(Without(t.lists[b], id), other) == if other == id then [] else Filter(t.lists[b], other)
      ensures forall row | row in Without(t.lists[b], id) :: row in t.lists[b]
    {
      WithoutFilters(t.lists[b], id, other);
    }
  }

  /** Children written for one id carry that id. */
  lemma WrittenIds(t: Tables, id: nat, s: SubnetConfig, limit: nat)
    requires id < limit && forall b :: b in t.lists
    requires forall row | row in t.ranges :: row.subnetId < limit
    requires forall b, row | row in t.lists[b] :: row.subnetId < limit
    ensures var t' := WriteChildren(t, id, s);
      && (forall row | row in t'.ranges :: row.subnetId < limit)
      && (forall b, row | row in t'.lists[b] :: row.subnetId < limit)
  {
  }
}
