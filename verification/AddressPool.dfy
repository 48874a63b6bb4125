/**
 What AllocateIP's search means for the configuration as it is written: the start and end
 addresses of the dynamic ranges, subnet by subnet, range by range, address by address.
 */
module AddressPool {
  import opened Wrappers
  import opened Config
  import opened LeaseTable
  import opened Allocation

  /** The address lies between the configured start and end. */
  predicate Lies(g: Global, r: DynamicRange, ip: IPv4) {
    && g.parseIP(r.startAddress).Some? && g.parseIP(r.endAddress).Some?
    && g.parseIP(r.startAddress).value <= ip <= g.parseIP(r.endAddress).value
  }

  ghost predicate NoneFree(g: Global, p: Probe, deny: set<IPv4>, r: DynamicRange) {
    forall ip: IPv4 | Lies(g, r, ip) :: !Free(p, deny, ip)
  }

  /** The range ends at 255.255.255.255, where the cursor wraps. */
  predicate Wraps(g: Global, r: DynamicRange) {
    Lies(g, r, 0xFFFF_FFFF)
  }

  /**
   The least free address of the range; or, where the cursor wraps and the range has none,
   the least free address of all.
   */
  ghost predicate FoundFirst(g: Global, p: Probe, deny: set<IPv4>, r: DynamicRange, ip: IPv4) {
    && Free(p, deny, ip)
    && ((Lies(g, r, ip) && forall x: IPv4 | Lies(g, r, x) && x < ip :: !Free(p, deny, x))
        || (Wraps(g, r) && NoneFree(g, p, deny, r) && forall x: IPv4 | x < ip :: !Free(p, deny, x)))
  }

  /** What one scan finds, or fails to find. */
  ghost predicate Scanned(g: Global, p: Probe, deny: set<IPv4>, r: DynamicRange, o: Outcome) {
    && GrewByAnswering(p, deny, o.deny)
    && (o.ip.None? ==> NoneFree(g, p, deny, r))
    && (o.ip.Some? ==> FoundFirst(g, p, deny, r, o.ip.value))
  }

  lemma ScanOf(p: Probe, deny: set<IPv4>, low: IPv4, high: IPv4)
    ensures ScanPool(p, deny, [Range(low, high)]) == ScanRange(p, deny, low, high)
  {
    assert [Range(low, high)][1..] == [];
  }

  lemma RangeIsScanned(g: Global, p: Probe, deny: set<IPv4>, r: DynamicRange)
    ensures Scanned(g, p, deny, r, ScanPool(p, deny, SweptRange(g, r)))
  {
    var parsed := ParseRange(g, r);
    if parsed.Some? {
      var low, high := parsed.value.low, parsed.value.high;
      var first := ScanRange(p, deny, low, high);
      ScanRangeFindsLeast(p, deny, low, high);
      if high == 0xFFFF_FFFF && low > 0 {
        FreeIsStable(p, deny, first.deny);
        ScanRangeFindsLeast(p, first.deny, 0, low - 1);
        ScanOf(p, first.deny, 0, low - 1);
        assert Swept(parsed.value)[1..] == [Range(0, low - 1)];
      } else {
        ScanOf(p, deny, low, high);
      }
    }
  }

  /** What the walk over a subnet's ranges finds: the first free address of the first range that has one. */
  ghost predicate Walked(g: Global, p: Probe, deny: set<IPv4>, ranges: seq<DynamicRange>, o: Outcome, j: nat) {
    && GrewByAnswering(p, deny, o.deny)
    && (o.ip.None? ==> j == |ranges|)
    && (o.ip.Some? ==> j < |ranges| && FoundFirst(g, p, deny, ranges[j], o.ip.value))
    && forall i | 0 <= i < j && i < |ranges| :: NoneFree(g, p, deny, ranges[i])
  }

  lemma StableUnderDenying(g: Global, p: Probe, deny: set<IPv4>, deny': set<IPv4>)
    requires GrewByAnswering(p, deny, deny')
    ensures forall r :: NoneFree(g, p, deny', r) == NoneFree(g, p, deny, r)
    ensures forall r, ip :: FoundFirst(g, p, deny', r, ip) == FoundFirst(g, p, deny, r, ip)
  {
    FreeIsStable(p, deny, deny');
  }

  lemma {:induction false} RangesAreWalked(g: Global, p: Probe, deny: set<IPv4>, ranges: seq<DynamicRange>)
    returns (j: nat)
    ensures Walked(g, p, deny, ranges, ScanPool(p, deny, ParsedRanges(g, ranges)), j)
    decreases |ranges|
  {
    if ranges == [] {
      j := 0;
    } else {
      var first := ScanPool(p, deny, SweptRange(g, ranges[0]));
      RangeIsScanned(g, p, deny, ranges[0]);
      ScanPoolAppend(p, deny, SweptRange(g, ranges[0]), ParsedRanges(g, ranges[1..]));
      if first.ip.Some? {
        j := 0;
      } else {
        var j' := RangesAreWalked(g, p, first.deny, ranges[1..]);
        j := j' + 1;
        StableUnderDenying(g, p, deny, first.deny);
        forall i | 0 <= i < j && i < |ranges|
          ensures NoneFree(g, p, deny, ranges[i])
        {
          if i > 0 {
            assert ranges[i] == ranges[1..][i - 1];
          }
        }
      }
    }
  }

  /** The whole search: range `j` of subnet `i` is the first, in that order, that has a free address. */
  ghost predicate Searched(g: Global, p: Probe, deny: set<IPv4>, subnets: seq<SubnetConfig>, o: Outcome,
                           i: nat, j: nat)
  {
    && GrewByAnswering(p, deny, o.deny)
    && (o.ip.None? ==> i == |subnets|)
    && (o.ip.Some? ==>
          && i < |subnets| && j < |subnets[i].dynamicRanges|
          && FoundFirst(g, p, deny, subnets[i].dynamicRanges[j], o.ip.value)
          && forall n | 0 <= n < j :: NoneFree(g, p, deny, subnets[i].dynamicRanges[n]))
    && forall k, r | 0 <= k < i && k < |subnets| && r in subnets[k].dynamicRanges :: NoneFree(g, p, deny, r)
  }

  lemma {:induction false} SubnetsAreSearched(g: Global, p: Probe, deny: set<IPv4>, subnets: seq<SubnetConfig>)
    returns (i: nat, j: nat)
    ensures Searched(g, p, deny, subnets, ScanPool(p, deny, Pool(g, subnets)), i, j)
    decreases |subnets|
  {
    if subnets == [] {
      i, j := 0, 0;
    } else {
      var ranges := subnets[0].dynamicRanges;
      var first := ScanPool(p, deny, ParsedRanges(g, ranges));
      var j0 := RangesAreWalked(g, p, deny, ranges);
      ScanPoolAppend(p, deny, ParsedRanges(g, ranges), Pool(g, subnets[1..]));
      if first.ip.Some? {
        i, j := 0, j0;
      } else {
        var i', j' := SubnetsAreSearched(g, p, first.deny, subnets[1..]);
        i, j := i' + 1, j';
        StableUnderDenying(g, p, deny, first.deny);
        forall k, r | 0 <= k < i && k < |subnets| && r in subnets[k].dynamicRanges
          ensures NoneFree(g, p, deny, r)
        {
          if k == 0 {
            var n :| 0 <= n < |ranges| && ranges[n] == r;
          } else {
            assert subnets[k] == subnets[1..][k - 1];
          }
        }
      }
    }
  }

  /**
   When AllocateIP fails, no address between the configured start and end of any range of any
   subnet is free.
   */
  lemma FailureMeansNoneFree(g: Global, subnets: seq<SubnetConfig>, statics: seq<StaticHost>,
                             p: Probe, deny: set<IPv4>, requested: Option<IPv4>,
                             subnet: SubnetConfig, r: DynamicRange, ip: IPv4)
    requires AllocateIP(g, subnets, statics, p, deny, requested).ip.None?
    requires subnet in subnets && r in subnet.dynamicRanges
    requires g.parseIP(r.startAddress).Some? && g.parseIP(r.endAddress).Some?
    requires g.parseIP(r.startAddress).value <= ip <= g.parseIP(r.endAddress).value
    ensures !Free(p, deny, ip)
  {
    var asked := AskedDeny(p, deny, requested);
    FreeIsStable(p, deny, asked);
    var i, j := SubnetsAreSearched(g, p, asked, subnets);
    var k :| 0 <= k < |subnets| && subnets[k] == subnet;
    assert NoneFree(g, p, asked, r);
    assert Lies(g, r, ip);
  }

  /**
   An address AllocateIP takes from the ranges is the first free one: it lies in some range of
   some subnet, no range before that one, in the order of the configuration, has a free
   address, and none before it in its own range is free. Only where the range ends at
   255.255.255.255 may it be the least free address of all instead.
   */
  lemma GrantIsFirstFree(g: Global, subnets: seq<SubnetConfig>, statics: seq<StaticHost>,
                         p: Probe, deny: set<IPv4>, requested: Option<IPv4>)
    returns (i: nat, j: nat)
    requires StaticIP(g, statics, p.mac).None? && !HasLiveRow(p) && !Acceptable(p, deny, requested)
    requires AllocateIP(g, subnets, statics, p, deny, requested).ip.Some?
    ensures i < |subnets| && j < |subnets[i].dynamicRanges|
    ensures var ip := AllocateIP(g, subnets, statics, p, deny, requested).ip.value;
      var r := subnets[i].dynamicRanges[j];
      && FoundFirst(g, p, deny, r, ip)
      && (g.parseIP(r.endAddress) != Some(0xFFFF_FFFF) ==>
            g.parseIP(r.startAddress).Some? && g.parseIP(r.endAddress).Some?
            && g.parseIP(r.startAddress).value <= ip <= g.parseIP(r.endAddress).value)
    ensures forall n | 0 <= n < j :: NoneFree(g, p, deny, subnets[i].dynamicRanges[n])
    ensures forall k, r | 0 <= k < i && r in subnets[k].dynamicRanges :: NoneFree(g, p, deny, r)
  {
    var asked := AskedDeny(p, deny, requested);
    LiveLeaseIsLive(p);
    assert GrewByAnswering(p, deny, asked);
    StableUnderDenying(g, p, deny, asked);
    i, j := SubnetsAreSearched(g, p, asked, subnets);
  }

  // ---- The other sources -----------------------------------------------------------

  /** getStaticIP has no answer exactly for a MAC address that no host has at an address that resolves. */
  lemma {:induction false} StaticIPIsNoneIff(g: Global, statics: seq<StaticHost>, mac: Text)
    ensures StaticIP(g, statics, mac).None? <==>
      forall i | 0 <= i < |statics| && NormalizeMAC(statics[i].macAddress) == NormalizeMAC(mac) ::
        g.resolve(statics[i].ipAddress).None?
  {
    if statics != [] {
      StaticIPIsNoneIff(g, statics[1..], mac);
      assert forall i | 0 < i < |statics| :: statics[i] == statics[1..][i - 1];
    }
  }

  /** Otherwise it is the address of the first such host. */
  lemma {:induction false} StaticIPIsFirstHost(g: Global, statics: seq<StaticHost>, mac: Text) returns (i: nat)
    requires StaticIP(g, statics, mac).Some?
    ensures i < |statics| && NormalizeMAC(statics[i].macAddress) == NormalizeMAC(mac)
    ensures g.resolve(statics[i].ipAddress) == StaticIP(g, statics, mac)
    ensures forall j | 0 <= j < i && NormalizeMAC(statics[j].macAddress) == NormalizeMAC(mac) ::
      g.resolve(statics[j].ipAddress).None?
  {
    if NormalizeMAC(statics[0].macAddress) == NormalizeMAC(mac) && g.resolve(statics[0].ipAddress).Some? {
      i := 0;
    } else {
      var i' := StaticIPIsFirstHost(g, statics[1..], mac);
      i := i' + 1;
      assert forall j | 0 < j < i :: statics[j] == statics[1..][j - 1];
    }
  }

  /** With nothing else to give, a client's one row is given again exactly while it is active and has not ended. */
  lemma OwnRowIsReusedIff(g: Global, p: Probe, deny: set<IPv4>, ip: IPv4)
    requires p.leases.Keys == {ip} && p.leases[ip].mac == p.mac
    ensures AllocateIP(g, [], [], p, deny, None).ip ==
      if p.leases[ip].state == Active && p.now < p.leases[ip].end then Some(ip) else None
  {
    LiveLeaseIsLive(p);
    if p.leases[ip].state == Active && p.now < p.leases[ip].end {
      LatestExists(p.leases, p.mac, ip);
    }
  }

  /**
   A requested address on an empty table: granted exactly if it is not denied and some ping
   attempt stays silent, and put on the deny list exactly if all are answered.
   */
  lemma RequestedIsProbed(g: Global, p: Probe, deny: set<IPv4>, ip: IPv4)
    requires p.leases == map[] && ip != 0
    ensures var o := AllocateIP(g, [], [], p, deny, Some(ip));
      var silent := exists i: nat | i < p.retries :: (ip, i) !in p.pings;
      && o.ip == (if ip !in deny && silent then Some(ip) else None)
      && o.deny == (if silent then deny else deny + {ip})
  {
    LiveLeaseIsLive(p);
    if ip in deny {
      assert deny + {ip} == deny;
    }
  }
}
