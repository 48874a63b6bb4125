/**
 The migration tool (cmd/go-dhcpd-migration-tool/main.go): a loop that validates records and
 inserts them one by one. It is a fold over the map the store stands for.
 */
module Migration {
  import opened Wrappers
  import opened Config
  import opened Messages
  import Store

  // ---- The fold --------------------------------------------------------------------

  /** What a record that passes validation puts under which key. */
  datatype Entry<V> = Entry(key: Text, value: V)

  datatype Outcome<V> = Outcome(m: map<Text, V>, succeeded: nat, failed: nat)

  /** One record: an invalid one or one whose key is taken fails and changes nothing. */
  function Insert<V>(m: map<Text, V>, record: Option<Entry<V>>): (map<Text, V>, bool) {
    match record
    case None => (m, false)
    case Some(e) => if e.key in m then (m, false) else (m[e.key := e.value], true)
  }

  function Count<V>(o: Outcome<V>, inserted: (map<Text, V>, bool)): Outcome<V> {
    if inserted.1 then Outcome(inserted.0, o.succeeded + 1, o.failed)
    else Outcome(inserted.0, o.succeeded, o.failed + 1)
  }

  /** The whole run, in the order of the records. */
  function Fold<V>(m: map<Text, V>, records: seq<Option<Entry<V>>>): Outcome<V>
    decreases |records|
  {
    if records == [] then Outcome(m, 0, 0)
    else
      var o := Fold(m, records[..|records| - 1]);
      Count(o, Insert(o.m, records[|records| - 1]))
  }

  /** Record i is the first valid one for its key. */
  predicate IsFirst<V>(records: seq<Option<Entry<V>>>, i: nat)
    requires i < |records|
  {
    && records[i].Some?
    && forall j | 0 <= j < i :: records[j].Some? ==> records[j].value.key != records[i].value.key
  }

  /** The old map plus the first valid record of each fresh key. */
  ghost predicate IsMerge<V>(m: map<Text, V>, records: seq<Option<Entry<V>>>, m': map<Text, V>) {
    && (forall k | k in m :: k in m' && m'[k] == m[k])
    && (forall i | 0 <= i < |records| && IsFirst(records, i) && records[i].value.key !in m ::
          records[i].value.key in m' && m'[records[i].value.key] == records[i].value.value)
    && (forall k | k in m' && k !in m ::
          exists i | 0 <= i < |records| :: IsFirst(records, i) && records[i].value.key == k)
  }

  /** Every record is valid and no key is taken or repeated. */
  predicate AllFresh<V>(m: map<Text, V>, records: seq<Option<Entry<V>>>) {
    forall i | 0 <= i < |records| :: IsFirst(records, i) && records[i].value.key !in m
  }

  lemma {:induction false} FoldKeeps<V>(m: map<Text, V>, records: seq<Option<Entry<V>>>)
    ensures forall k | k in m :: k in Fold(m, records).m && Fold(m, records).m[k] == m[k]
    ensures forall i | 0 <= i < |records| && records[i].Some? :: records[i].value.key in Fold(m, records).m
    decreases |records|
  {
    if records != [] {
      FoldKeeps(m, records[..|records| - 1]);
    }
  }

  /** A key that is not in the old map was put there by the first valid record that has it. */
  lemma {:induction false} FoldKeys<V>(m: map<Text, V>, records: seq<Option<Entry<V>>>, k: Text) returns (i: nat)
    requires k in Fold(m, records).m && k !in m
    ensures i < |records| && IsFirst(records, i) && records[i].value.key == k
    ensures Fold(m, records).m[k] == records[i].value.value
    decreases |records|
  {
    var n := |records| - 1;
    var rest := records[..n];
    if k in Fold(m, rest).m {
      i := FoldKeys(m, rest, k);
    } else {
      i := n;
      FoldKeeps(m, rest);
      forall j | 0 <= j < n && records[j].Some?
        ensures records[j].value.key != k
      {
        assert rest[j] == records[j];
      }
    }
  }

  /** A run leaves the old map plus the first valid record of each fresh key. */
  lemma {:induction false} FoldMerges<V>(m: map<Text, V>, records: seq<Option<Entry<V>>>)
    ensures IsMerge(m, records, Fold(m, records).m)
  {
    var m' := Fold(m, records).m;
    FoldKeeps(m, records);
    forall i | 0 <= i < |records| && IsFirst(records, i) && records[i].value.key !in m
      ensures m'[records[i].value.key] == records[i].value.value
    {
      var f := FoldKeys(m, records, records[i].value.key);
      assert f == i;
    }
    forall k | k in m' && k !in m
      ensures exists i | 0 <= i < |records| :: IsFirst(records, i) && records[i].value.key == k
    {
      var f := FoldKeys(m, records, k);
    }
  }

  /** There is only one such map. */
  lemma MergeIsUnique<V>(m: map<Text, V>, records: seq<Option<Entry<V>>>, a: map<Text, V>, b: map<Text, V>)
    requires IsMerge(m, records, a) && IsMerge(m, records, b)
    ensures a == b
  {
    MergeAgrees(m, records, a, b);
    MergeAgrees(m, records, b, a);
  }

  lemma MergeAgrees<V>(m: map<Text, V>, records: seq<Option<Entry<V>>>, a: map<Text, V>, b: map<Text, V>)
    requires IsMerge(m, records, a) && IsMerge(m, records, b)
    ensures forall k | k in a :: k in b && a[k] == b[k]
  {
    forall k | k in a
      ensures k in b && a[k] == b[k]
    {
      if k !in m {
        var i :| 0 <= i < |records| && IsFirst(records, i) && records[i].value.key == k;
      }
    }
  }

  /** Every record is counted once. */
  lemma {:induction false} FoldCounts<V>(m: map<Text, V>, records: seq<Option<Entry<V>>>)
    ensures Fold(m, records).succeeded + Fold(m, records).failed == |records|
    decreases |records|
  {
    if records != [] {
      FoldCounts(m, records[..|records| - 1]);
    }
  }

  /** A run fails no record exactly when all are valid and their keys fresh and distinct. */
  lemma {:induction false} FoldSucceedsIff<V>(m: map<Text, V>, records: seq<Option<Entry<V>>>)
    ensures Fold(m, records).failed == 0 <==> AllFresh(m, records)
    decreases |records|
  {
    if records != [] {
      var n := |records| - 1;
      var rest := records[..n];
      FoldSucceedsIff(m, rest);
      assert AllFresh(m, records) <==> AllFresh(m, rest) && IsFirst(records, n) && records[n].value.key !in m by {
        assert forall i | 0 <= i < n :: IsFirst(records, i) <==> IsFirst(rest, i);
      }
      if records[n].Some? {
        FoldKeeps(m, rest);
        var key := records[n].value.key;
        if key in Fold(m, rest).m && key !in m {
          var f := FoldKeys(m, rest, key);
          assert rest[f] == records[f];
        } else if key !in Fold(m, rest).m {
          forall j | 0 <= j < n && records[j].Some?
            ensures records[j].value.key != key
          {
            assert rest[j] == records[j];
          }
        }
      }
    }
  }

  /** A second run over the same records, whatever became of the first, inserts nothing. */
  lemma FoldAgain<V>(m: map<Text, V>, records: seq<Option<Entry<V>>>)
    ensures var m' := Fold(m, records).m;
      Fold(m', records) == Outcome(m', 0, |records|)
  {
    FoldKeeps(m, records);
    FoldTaken(Fold(m, records).m, records);
  }

  lemma {:induction false} FoldTaken<V>(m: map<Text, V>, records: seq<Option<Entry<V>>>)
    requires forall i | 0 <= i < |records| && records[i].Some? :: records[i].value.key in m
    ensures Fold(m, records) == Outcome(m, 0, |records|)
    decreases |records|
  {
    if records != [] {
      FoldTaken(m, records[..|records| - 1]);
    }
  }

  // ---- Validation ------------------------------------------------------------------

  /** ValidateSubnet, with `net.ParseIP(..).To4() != nil` as a parameter. */
  predicate ValidSubnet(isIPv4: Text -> bool, s: SubnetConfig) {
    && s.network != [] && isIPv4(s.network)
    && s.netmask != [] && isIPv4(s.netmask)
    && (forall r | r in s.dynamicRanges :: isIPv4(r.startAddress) && isIPv4(r.endAddress))
    && (s.nextServer != [] ==> isIPv4(s.nextServer))
    && |s.serverHostname| <= 63 && |s.bootFilename| <= 127
    && ValidList(isIPv4, s.domainNameServers) && ValidList(isIPv4, s.ntpServers)
    && ValidList(isIPv4, s.timeServers) && ValidList(isIPv4, s.smtpServers)
    && ValidList(isIPv4, s.lprServers) && ValidList(isIPv4, s.netBIOSNameServers)
    && ValidList(isIPv4, s.netBIOSDDServers) && ValidList(isIPv4, s.routers)
  }

  predicate ValidList(isIPv4: Text -> bool, values: seq<Text>) {
    forall v | v in values :: isIPv4(v)
  }

  /** Every text of a configuration that has to be an IPv4 address. */
  function AddressTexts(s: SubnetConfig): seq<Text> {
    [s.network, s.netmask] + (if s.nextServer == [] then [] else [s.nextServer])
      + seq(|s.dynamicRanges|, i requires 0 <= i < |s.dynamicRanges| => s.dynamicRanges[i].startAddress)
      + seq(|s.dynamicRanges|, i requires 0 <= i < |s.dynamicRanges| => s.dynamicRanges[i].endAddress)
      + s.domainNameServers + s.ntpServers + s.timeServers + s.smtpServers + s.lprServers
      + s.netBIOSNameServers + s.netBIOSDDServers + s.routers
  }

  /** What a valid subnet guarantees the server: every address it may need parses, and the names fit their fields. */
  lemma ValidSubnetHasAddresses(isIPv4: Text -> bool, s: SubnetConfig, text: Text)
    requires ValidSubnet(isIPv4, s) && text in AddressTexts(s)
    ensures isIPv4(text)
    ensures s.network != [] && s.netmask != [] && |s.serverHostname| <= 63 && |s.bootFilename| <= 127
  {
    var starts := seq(|s.dynamicRanges|, i requires 0 <= i < |s.dynamicRanges| => s.dynamicRanges[i].startAddress);
    var ends := seq(|s.dynamicRanges|, i requires 0 <= i < |s.dynamicRanges| => s.dynamicRanges[i].endAddress);
    assert text in starts ==> exists r :: r in s.dynamicRanges && r.startAddress == text;
    assert text in ends ==> exists r :: r in s.dynamicRanges && r.endAddress == text;
  }

  /** And there is nothing else to be valid. */
  lemma AddressesMakeValidSubnet(isIPv4: Text -> bool, s: SubnetConfig)
    requires forall text | text in AddressTexts(s) :: isIPv4(text)
    requires s.network != [] && s.netmask != [] && |s.serverHostname| <= 63 && |s.bootFilename| <= 127
    ensures ValidSubnet(isIPv4, s)
  {
    forall i | 0 <= i < |s.dynamicRanges|
      ensures s.dynamicRanges[i].startAddress in AddressTexts(s) && s.dynamicRanges[i].endAddress in AddressTexts(s)
    {
      var starts := seq(|s.dynamicRanges|, i requires 0 <= i < |s.dynamicRanges| => s.dynamicRanges[i].startAddress);
      var ends := seq(|s.dynamicRanges|, i requires 0 <= i < |s.dynamicRanges| => s.dynamicRanges[i].endAddress);
      assert starts[i] in starts && ends[i] in ends;
    }
  }

  function SubnetRecord(isIPv4: Text -> bool, s: SubnetConfig): Option<Entry<SubnetConfig>> {
    if ValidSubnet(isIPv4, s) then Some(Entry(s.network, s)) else None
  }

  /** ValidateStaticHost, with `net.ParseMAC` as a parameter: a valid host carries the canonical spelling. */
  function ValidateStaticHost(parseMAC: Text -> Option<seq<byte>>, h: StaticHost): Option<StaticHost> {
    if h.macAddress == [] then None
    else
      match parseMAC(h.macAddress)
      case None => None
      case Some(hw) =>
        if |hw| != 6 || h.ipAddress == [] then None
        else Some(h.(macAddress := MACAddressString(hw)))
  }

  function HostRecord(parseMAC: Text -> Option<seq<byte>>, h: StaticHost): Option<Entry<StaticHost>> {
    match ValidateStaticHost(parseMAC, h)
    case None => None
    case Some(v) => Some(Entry(v.macAddress, v))
  }

  /** Two valid hosts have the same key exactly when they name the same hardware address, however spelled. */
  lemma HostKeysAreHardwareAddresses(parseMAC: Text -> Option<seq<byte>>, a: StaticHost, b: StaticHost)
    requires HostRecord(parseMAC, a).Some? && HostRecord(parseMAC, b).Some?
    ensures HostRecord(parseMAC, a).value.key == HostRecord(parseMAC, b).value.key
      <==> parseMAC(a.macAddress) == parseMAC(b.macAddress)
  {
    var x := parseMAC(a.macAddress).value;
    var y := parseMAC(b.macAddress).value;
    if MACAddressString(x) == MACAddressString(y) {
      MACAddressIsInjective(x, y);
    }
  }

  function SubnetRecords(isIPv4: Text -> bool, subnets: seq<SubnetConfig>): seq<Option<Entry<SubnetConfig>>> {
    seq(|subnets|, i requires 0 <= i < |subnets| => SubnetRecord(isIPv4, subnets[i]))
  }

  function HostRecords(parseMAC: Text -> Option<seq<byte>>, hosts: seq<StaticHost>): seq<Option<Entry<StaticHost>>> {
    seq(|hosts|, i requires 0 <= i < |hosts| => HostRecord(parseMAC, hosts[i]))
  }

  function CountInvalid<V>(records: seq<Option<Entry<V>>>): (n: nat)
    ensures n <= |records|
    ensures n == 0 <==> forall i | 0 <= i < |records| :: records[i].Some?
    decreases |records|
  {
    if records == [] then 0
    else CountInvalid(records[..|records| - 1]) + (if records[|records| - 1].None? then 1 else 0)
  }

  /** A dry run never reports more failures than the real run, so a real run that succeeds has a dry run that does. */
  lemma {:induction false} DryRunFailsNoMore<V>(m: map<Text, V>, records: seq<Option<Entry<V>>>)
    ensures CountInvalid(records) <= Fold(m, records).failed
    decreases |records|
  {
    if records != [] {
      DryRunFailsNoMore(m, records[..|records| - 1]);
    }
  }

  /** What either kind of run makes of one record: a dry one only validates it. */
  function Round<V>(m: map<Text, V>, record: Option<Entry<V>>, dryRun: bool): (map<Text, V>, bool) {
    if dryRun then (m, record.Some?) else Insert(m, record)
  }

  /** What either kind of run comes to. */
  function RunOver<V>(m: map<Text, V>, records: seq<Option<Entry<V>>>, dryRun: bool): Outcome<V> {
    if dryRun then Outcome(m, |records| - CountInvalid(records), CountInvalid(records)) else Fold(m, records)
  }

  /** One more record of the run. */
  lemma RunNext<V>(m: map<Text, V>, records: seq<Option<Entry<V>>>, i: nat, dryRun: bool)
    requires i < |records|
    ensures var o := RunOver(m, records[..i], dryRun);
      RunOver(m, records[..i + 1], dryRun) == Count(o, Round(o.m, records[i], dryRun))
  {
    assert records[..i + 1][..i] == records[..i];
  }

  /** The counters of a run, and when it reports no failure. */
  lemma RunReports<V>(m: map<Text, V>, records: seq<Option<Entry<V>>>, dryRun: bool)
    ensures var o := RunOver(m, records, dryRun);
      && o.succeeded + o.failed == |records|
      && (o.failed == 0 <==> if dryRun then forall i | 0 <= i < |records| :: records[i].Some? else AllFresh(m, records))
  {
    FoldCounts(m, records);
    FoldSucceedsIff(m, records);
  }

  // ---- The tool --------------------------------------------------------------------

  /** One round of the loop: validate, then insert unless the run is dry. */
  method MigrateSubnet(store: Store.Store, isIPv4: Text -> bool, subnet: SubnetConfig, dryRun: bool)
    returns (ok: bool)
    requires store.Valid()
    modifies store`subnets, store`nextId, store`ranges, store`lists
    ensures store.Valid()
    ensures dryRun ==> store.Tables() == old(store.Tables())
    ensures (store.View(), ok) == Round(old(store.View()), SubnetRecord(isIPv4, subnet), dryRun)
  {
    if !ValidSubnet(isIPv4, subnet) {
      return false;
    }
    if dryRun {
      return true;
    }
    ok := store.InsertSubnet(subnet);
  }

  /**
   A dry run changes nothing and counts the valid records; a real run is the fold. Either
   returns true exactly when no record failed (RunReports).
   */
  method MigrateSubnets(store: Store.Store, isIPv4: Text -> bool, subnets: seq<SubnetConfig>, dryRun: bool)
    returns (ok: bool, succeeded: nat, failed: nat)
    requires store.Valid()
    modifies store`subnets, store`nextId, store`ranges, store`lists
    ensures store.Valid()
    ensures dryRun ==> store.Tables() == old(store.Tables())
    ensures Outcome(store.View(), succeeded, failed)
      == RunOver(old(store.View()), SubnetRecords(isIPv4, subnets), dryRun)
    ensures ok <==> failed == 0
  {
    succeeded, failed := 0, 0;
    if |subnets| == 0 {
      return true, 0, 0;
    }
    ghost var t, m, records := store.Tables(), store.View(), SubnetRecords(isIPv4, subnets);
    for i := 0 to |subnets|
      invariant store.Valid() && (dryRun ==> store.Tables() == t)
      invariant Outcome(store.View(), succeeded, failed) == RunOver(m, records[..i], dryRun)
    {
      RunNext(m, records, i, dryRun);
      var migrated := MigrateSubnet(store, isIPv4, subnets[i], dryRun);
      if migrated {
        succeeded := succeeded + 1;
      } else {
        failed := failed + 1;
      }
    }
    assert records[..|subnets|] == records;
    ok := failed == 0;
  }

  method MigrateStaticHost(store: Store.Store, parseMAC: Text -> Option<seq<byte>>, host: StaticHost, dryRun: bool)
    returns (ok: bool)
    modifies store`hosts
    ensures dryRun ==> store.hosts == old(store.hosts)
    ensures (Store.HostView(store.hosts), ok)
      == Round(Store.HostView(old(store.hosts)), HostRecord(parseMAC, host), dryRun)
  {
    var valid := ValidateStaticHost(parseMAC, host);
    if valid.None? {
      return false;
    }
    if dryRun {
      return true;
    }
    HostKeyIsCanonical(parseMAC, host);
    ok := store.InsertStaticHost(valid.value);
  }

  method MigrateStaticHosts(store: Store.Store, parseMAC: Text -> Option<seq<byte>>, hosts: seq<StaticHost>,
                            dryRun: bool)
    returns (ok: bool, succeeded: nat, failed: nat)
    modifies store`hosts
    ensures dryRun ==> store.hosts == old(store.hosts)
    ensures Outcome(Store.HostView(store.hosts), succeeded, failed)
      == RunOver(Store.HostView(old(store.hosts)), HostRecords(parseMAC, hosts), dryRun)
    ensures ok <==> failed == 0
  {
    succeeded, failed := 0, 0;
    if |hosts| == 0 {
      return true, 0, 0;
    }
    ghost var m, records := Store.HostView(store.hosts), HostRecords(parseMAC, hosts);
    for i := 0 to |hosts|
      invariant dryRun ==> store.hosts == old(store.hosts)
      invariant Outcome(Store.HostView(store.hosts), succeeded, failed) == RunOver(m, records[..i], dryRun)
    {
      RunNext(m, records, i, dryRun);
      var migrated := MigrateStaticHost(store, parseMAC, hosts[i], dryRun);
      if migrated {
        succeeded := succeeded + 1;
      } else {
        failed := failed + 1;
      }
    }
    assert records[..|hosts|] == records;
    ok := failed == 0;
  }

  /** A validated host is stored as it is: its spelling is already the normalised one. */
  lemma HostKeyIsCanonical(parseMAC: Text -> Option<seq<byte>>, h: StaticHost)
    requires ValidateStaticHost(parseMAC, h).Some?
    ensures var v := ValidateStaticHost(parseMAC, h).value;
      NormalizeMAC(v.macAddress) == v.macAddress && Store.Stored(v) == v
  {
    MACAddressIsNormalized(parseMAC(h.macAddress).value);
  }
}
