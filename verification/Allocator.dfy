/**
 The allocator object of internal/allocator/allocator.go: cached configuration, the loops
 over hosts, subnets, ranges and addresses, and the lease writes. Each method is proved
 against the functions of Allocation, LeaseTable and ServerModel.
 */
module Allocator {
  import opened Wrappers
  import opened Config
  import opened LeaseTable
  import opened Allocation
  import opened Database

  datatype AllocatorError = NoAddress | NoLease | Unresolved

  class Allocator {
    const global: Global
    const db: Database
    var subnets: seq<SubnetConfig>
    var statics: seq<StaticHost>

    ghost predicate Valid()
      reads this, db
    {
      db.Valid()
    }

    ghost function ProbeOf(now: int, pings: Pings, mac: Text): Probe
      reads db
      requires db.Valid()
    {
      Probe(db.Leases(), now, pings, global.pingRetries, NormalizeMAC(mac))
    }

    constructor (global: Global, db: Database, subnets: seq<SubnetConfig>, statics: seq<StaticHost>)
      requires db.Valid()
      ensures Valid() && this.global == global && this.db == db
      ensures this.subnets == subnets && this.statics == statics
    {
      this.global, this.db, this.subnets, this.statics := global, db, subnets, statics;
    }

    /** Refresh: when either of the plugin's two answers is an error, the caches stay as they are. */
    method Refresh(subnets: Option<seq<SubnetConfig>>, statics: Option<seq<StaticHost>>) returns (ok: bool)
      modifies this`subnets, this`statics
      ensures ok <==> subnets.Some? && statics.Some?
      ensures ok ==> this.subnets == subnets.value && this.statics == statics.value
      ensures !ok ==> this.subnets == old(this.subnets) && this.statics == old(this.statics)
    {
      if subnets.None? {
        return false;
      }
      if statics.None? {
        return false;
      }
      this.subnets := subnets.value;
      this.statics := statics.value;
      return true;
    }

    method GetStaticIP(macAddr: Text) returns (r: Option<IPv4>)
      ensures r == StaticIP(global, statics, macAddr)
    {
      var mac := NormalizeMAC(macAddr);
      var i := 0;
      while i < |statics|
        invariant 0 <= i <= |statics|
        invariant StaticIP(global, statics, macAddr) == StaticIP(global, statics[i..], macAddr)
      {
        assert statics[i..][1..] == statics[i + 1..];
        if NormalizeMAC(statics[i].macAddress) == mac {
          var ip := global.resolve(statics[i].ipAddress);
          if ip.Some? {
            return ip;
          }
        }
        i := i + 1;
      }
      return None;
    }

    method IsIPAvailable(ip: IPv4, macAddr: Text, now: int, ghost pings: Pings) returns (r: bool)
      requires db.Valid()
      ensures r == Available(ProbeOf(now, pings, macAddr), db.Denied(), ip)
    {
      var mac := NormalizeMAC(macAddr);
      var denied := db.IsDenyAddress(ip);
      if denied {
        return false;
      }
      var lease := db.GetLeaseByIP(ip);
      if lease.None? {
        return true;
      }
      if NormalizeMAC(lease.value.mac) == mac {
        return true;
      }
      return now > lease.value.end;
    }

    /** pingCheck: true when some attempt stays silent; otherwise the address is denied. */
    method PingCheck(ip: IPv4, now: int, pings: Pings) returns (silent: bool)
      requires db.Valid()
      modifies db`denies, db`nextDenyId
      ensures db.Valid() && db.Leases() == old(db.Leases())
      ensures silent <==> !AnswersPing(pings, global.pingRetries, ip)
      ensures db.Denied() == old(db.Denied()) + if silent then {} else {ip}
      ensures !silent ==> forall row | row in db.denies && row.ip == ip ::
        row.mac == global.arp(ip) && row.reason == global.reason(row.mac) && row.detectedAt == now
    {
      var retries := global.pingRetries;
      var i: nat := 0;
      while i < retries
        invariant forall j: nat | j < i && j < retries :: (ip, j) in pings
        invariant db.Valid() && db.denies == old(db.denies)
        decreases retries - i
      {
        if (ip, i) !in pings {
          return true;
        }
        i := i + 1;
      }
      var detected := global.arp(ip);
      db.AddDenyAddress(ip, detected, global.reason(detected), now);
      return false;
    }

    /** The check of one candidate address: available, then silent. */
    method TryCandidate(ip: IPv4, macAddr: Text, now: int, pings: Pings) returns (taken: bool)
      requires db.Valid()
      modifies db`denies, db`nextDenyId
      ensures db.Valid() && db.Leases() == old(db.Leases())
      ensures TryAddress(ProbeOf(now, pings, macAddr), old(db.Denied()), ip)
        == Outcome(if taken then Some(ip) else None, db.Denied())
    {
      var available := IsIPAvailable(ip, macAddr, now, pings);
      if available {
        taken := PingCheck(ip, now, pings);
      } else {
        taken := false;
      }
    }

    /**
     findAvailableIPInRange, with its uint32 cursor. The loop ends unless the range ends at
     255.255.255.255 and no address at all is free.
     */
    method FindAvailableIPInRange(r: DynamicRange, macAddr: Text, now: int, pings: Pings) returns (found: Option<IPv4>)
      requires db.Valid()
      requires
        var goal := ScanPool(ProbeOf(now, pings, macAddr), db.Denied(), SweptRange(global, r));
        goal.ip.Some? || forall range | range in SweptRange(global, r) :: range.high < MAX_IPV4
      modifies db`denies, db`nextDenyId
      ensures db.Valid() && db.Leases() == old(db.Leases())
      ensures Outcome(found, db.Denied())
        == ScanPool(ProbeOf(now, pings, macAddr), old(db.Denied()), SweptRange(global, r))
    {
      var start := global.parseIP(r.startAddress);
      var end := global.parseIP(r.endAddress);
      if start.None? || end.None? {
        return None;
      }
      if start.value > end.value {
        return None;
      }
      found := Sweep(start.value, end.value, macAddr, now, pings);
    }

    /** The cursor loop; `left` counts the addresses it still has to visit. */
    method Sweep(start: IPv4, end: IPv4, macAddr: Text, now: int, pings: Pings) returns (found: Option<IPv4>)
      requires db.Valid() && start <= end
      requires end < MAX_IPV4 || ScanPool(ProbeOf(now, pings, macAddr), db.Denied(), Swept(Range(start, end))).ip.Some?
      modifies db`denies, db`nextDenyId
      ensures db.Valid() && db.Leases() == old(db.Leases())
      ensures Outcome(found, db.Denied())
        == ScanPool(ProbeOf(now, pings, macAddr), old(db.Denied()), Swept(Range(start, end)))
    {
      ghost var p := ProbeOf(now, pings, macAddr);
      ghost var goal := ScanPool(p, db.Denied(), Swept(Range(start, end)));
      ghost var wrapped := false;
      var current: IPv4 := start;
      assert Swept(Range(start, end)) == Remaining(start, end, current, wrapped);
      while current <= end
        invariant db.Valid() && db.Leases() == old(db.Leases())
        invariant if wrapped then end == MAX_IPV4 && current <= start else start <= current <= end + 1
        invariant goal == ScanPool(p, db.Denied(), Remaining(start, end, current, wrapped))
        decreases if wrapped then start - current else end - current + 1 + start
      {
        SweepStep(p, db.Denied(), current, if wrapped then start - 1 else end,
                  if wrapped then [] else Swept(Range(start, end))[1..]);
        var taken := TryCandidate(current, macAddr, now, pings);
        if taken {
          return Some(current);
        }
        wrapped := wrapped || current == MAX_IPV4;
        current := NextCursor(current);
      }
      return None;
    }

    /** AllocateIP: the address and the deny set are those of the specification. */
    method AllocateIP(macAddr: Text, requested: Option<IPv4>, now: int, pings: Pings) returns (r: Option<IPv4>)
      requires Valid()
      requires Allocation.Returns(global, subnets, statics, ProbeOf(now, pings, macAddr), db.Denied(), requested)
      modifies db`denies, db`nextDenyId
      ensures Valid() && db.Leases() == old(db.Leases())
      ensures Outcome(r, db.Denied())
        == Allocation.AllocateIP(global, subnets, statics, ProbeOf(now, pings, macAddr), old(db.Denied()), requested)
    {
      var mac := NormalizeMAC(macAddr);
      NormalizeMACIsIdempotent(macAddr);
      ReturnsIffFruitful(global, subnets, statics, ProbeOf(now, pings, macAddr), db.Denied(), requested);
      var static_ := GetStaticIP(mac);
      if static_.Some? {
        return static_;
      }
      var existing := db.GetLeaseByMAC(mac);
      if existing.Some? && now < existing.value.end {
        ViewKeys(db.leases, mac);
        return Some(existing.value.ip);
      }
      if requested.Some? && requested.value != UNSPECIFIED {
        var taken := TryCandidate(requested.value, macAddr, now, pings);
        if taken {
          return requested;
        }
      }
      r := SearchPool(macAddr, now, pings);
    }

    /** The loop over the subnets. */
    method SearchPool(macAddr: Text, now: int, pings: Pings) returns (r: Option<IPv4>)
      requires Valid()
      requires ScansEnd(global, subnets)
        || ScanPool(ProbeOf(now, pings, macAddr), db.Denied(), Pool(global, subnets)).ip.Some?
      modifies db`denies, db`nextDenyId
      ensures Valid() && db.Leases() == old(db.Leases())
      ensures Outcome(r, db.Denied())
        == ScanPool(ProbeOf(now, pings, macAddr), old(db.Denied()), Pool(global, subnets))
    {
      ghost var p := ProbeOf(now, pings, macAddr);
      ghost var goal := ScanPool(p, db.Denied(), Pool(global, subnets));
      assert subnets[0..] == subnets;
      var i := 0;
      while i < |subnets|
        invariant 0 <= i <= |subnets|
        invariant Valid() && db.Leases() == old(db.Leases())
        invariant goal == ScanPool(p, db.Denied(), Pool(global, subnets[i..]))
      {
        PoolStep(global, subnets, i);
        forall range | range in ParsedRanges(global, subnets[i].dynamicRanges)
          ensures range in Pool(global, subnets)
        {
          RangeIsInPool(global, subnets, i, range);
        }
        r := SearchRanges(subnets[i].dynamicRanges, macAddr, now, pings, Pool(global, subnets[i + 1..]));
        if r.Some? {
          return;
        }
        i := i + 1;
      }
      return None;
    }

    /** The loop over the ranges of one subnet; `later` is the rest of the pool. */
    method SearchRanges(ranges: seq<DynamicRange>, macAddr: Text, now: int, pings: Pings, ghost later: seq<Range>)
      returns (r: Option<IPv4>)
      requires db.Valid()
      requires
        || (forall range | range in ParsedRanges(global, ranges) :: range.high < MAX_IPV4)
        || ScanPool(ProbeOf(now, pings, macAddr), db.Denied(), ParsedRanges(global, ranges) + later).ip.Some?
      modifies db`denies, db`nextDenyId
      ensures db.Valid() && db.Leases() == old(db.Leases())
      ensures ScanPool(ProbeOf(now, pings, macAddr), old(db.Denied()), ParsedRanges(global, ranges) + later)
        == if r.Some? then Outcome(r, db.Denied())
           else ScanPool(ProbeOf(now, pings, macAddr), db.Denied(), later)
    {
      ghost var p := ProbeOf(now, pings, macAddr);
      ghost var goal := ScanPool(p, db.Denied(), ParsedRanges(global, ranges) + later);
      assert ranges[0..] == ranges;
      var j := 0;
      while j < |ranges|
        invariant 0 <= j <= |ranges|
        invariant db.Valid() && db.Leases() == old(db.Leases())
        invariant goal == ScanPool(p, db.Denied(), ParsedRanges(global, ranges[j..]) + later)
      {
        ScanPoolStep(global, p, db.Denied(), ranges, j, later);
        NextScanReturns(global, p, db.Denied(), ranges, j, later);
        r := FindAvailableIPInRange(ranges[j], macAddr, now, pings);
        if r.Some? {
          return;
        }
        j := j + 1;
      }
      assert ParsedRanges(global, ranges[j..]) + later == later;
      return None;
    }

    /** CreateLease: update the row of the address, or insert one. */
    method CreateLease(macAddr: Text, ip: IPv4, hostname: Text, isStatic: bool, now: int)
      requires db.Valid()
      modifies db`leases, db`nextLeaseId
      ensures db.Valid()
      ensures db.Leases() == Upsert(old(db.Leases()), old(db.nextLeaseId), NormalizeMAC(macAddr), ip, hostname,
                                    now, now + global.Term(), isStatic)
      ensures db.nextLeaseId == NextId(old(db.Leases()), old(db.nextLeaseId), ip)
    {
      WriteLease(Lease(0, NormalizeMAC(macAddr), ip, hostname, now, now + global.Term(), Active, isStatic));
    }

    /** GetLeaseByIP, then UpdateLease or AddLease: the end of CreateLease and of SeedStaticLease. */
    method WriteLease(lease: Lease)
      requires db.Valid() && lease.state.Active?
      modifies db`leases, db`nextLeaseId
      ensures db.Valid()
      ensures db.Leases() == Upsert(old(db.Leases()), old(db.nextLeaseId), lease.mac, lease.ip, lease.hostname,
                                    lease.start, lease.end, lease.isStatic)
      ensures db.nextLeaseId == NextId(old(db.Leases()), old(db.nextLeaseId), lease.ip)
    {
      var existing := db.GetLeaseByIP(lease.ip);
      if existing.Some? {
        db.UpdateLease(lease.(id := existing.value.id));
      } else {
        var _ := db.AddLease(lease);
      }
    }

    /** ReleaseLease: an error when the client has no active lease. */
    method ReleaseLease(macAddr: Text, now: int) returns (r: Result<(), AllocatorError>)
      requires db.Valid()
      modifies db`leases
      ensures db.Valid() && db.Leases() == EndLatest(old(db.Leases()), NormalizeMAC(macAddr), now)
      ensures r.Success? <==> LeaseTable.GetLeaseByMAC(old(db.Leases()), NormalizeMAC(macAddr)).Some?
    {
      var lease := db.GetLeaseByMAC(NormalizeMAC(macAddr));
      if lease.None? {
        return Failure(NoLease);
      }
      ViewKeys(db.leases, NormalizeMAC(macAddr));
      db.UpdateLease(lease.value.(state := Expired, end := now));
      return Success(());
    }

    /** RevokeStaticLease: like a release, but silent when there is nothing to revoke. */
    method RevokeStaticLease(macAddr: Text, now: int)
      requires db.Valid()
      modifies db`leases
      ensures db.Valid() && db.Leases() == EndLatest(old(db.Leases()), NormalizeMAC(macAddr), now)
    {
      var _ := ReleaseLease(macAddr, now);
    }

    /** SeedStaticLease: an unresolvable address is an error and changes nothing. */
    method SeedStaticLease(host: StaticHost, now: int) returns (r: Result<(), AllocatorError>)
      requires db.Valid()
      modifies db`leases, db`nextLeaseId
      ensures db.Valid() && (r.Success? <==> global.resolve(host.ipAddress).Some?)
      ensures match global.resolve(host.ipAddress)
        case None => db.Leases() == old(db.Leases()) && db.nextLeaseId == old(db.nextLeaseId)
        case Some(ip) =>
          && db.Leases() == Upsert(old(db.Leases()), old(db.nextLeaseId), NormalizeMAC(host.macAddress), ip,
                                   host.hostname, now, now + STATIC_TERM, true)
          && db.nextLeaseId == NextId(old(db.Leases()), old(db.nextLeaseId), ip)
    {
      var ip := global.resolve(host.ipAddress);
      if ip.None? {
        return Failure(Unresolved);
      }
      var mac := NormalizeMAC(host.macAddress);
      WriteLease(Lease(0, mac, ip.value, host.hostname, now, now + STATIC_TERM, Active, true));
      return Success(());
    }
  }

  /** The ranges the cursor loop has still to visit. */
  ghost function Remaining(start: IPv4, end: IPv4, current: int, wrapped: bool): seq<Range>
    requires start <= end
    requires 0 <= current <= MAX_IPV4 + 1
  {
    if wrapped then if current < start then [Range(current, start - 1)] else []
    else (if current <= end then [Range(current, end)] else []) + Swept(Range(start, end))[1..]
  }

  /** The row GetLeaseByMAC returns carries the address it is keyed by. */
  lemma ViewKeys(rows: seq<Lease>, mac: Text)
    requires OneRowPerAddress(rows)
    ensures var t := ViewOf(rows);
      LeaseTable.GetLeaseByMAC(t, mac).Some? ==>
        t[LeaseTable.GetLeaseByMAC(t, mac).value].ip == LeaseTable.GetLeaseByMAC(t, mac).value
  {
  }
}
