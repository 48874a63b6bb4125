/**
 The lease and deny tables of internal/db/db.go: rows in insertion order, updated in place.
 The class is proved against the map view of LeaseTable; that there is one row per address
 is its invariant.
 */
module Database {
  import opened Wrappers
  import opened Config
  import opened LeaseTable

  datatype DenyAddress = DenyAddress(id: nat, ip: IPv4, mac: Text, reason: Text, detectedAt: int)

  datatype DbError = UniqueViolation

  datatype DbStats = DbStats(active: nat, staticLeases: nat, expired: nat, denied: nat)

  ghost predicate OneRowPerAddress(rows: seq<Lease>) {
    forall i, j | 0 <= i < j < |rows| :: rows[i].ip != rows[j].ip
  }

  ghost predicate IdsIncrease(rows: seq<Lease>, nextId: nat) {
    && (forall i, j | 0 <= i < j < |rows| :: rows[i].id < rows[j].id)
    && forall i | 0 <= i < |rows| :: rows[i].id < nextId
  }

  /** The table as a map from addresses to rows. */
  ghost function ViewOf(rows: seq<Lease>): (t: Table)
    requires OneRowPerAddress(rows)
    ensures forall i | 0 <= i < |rows| :: rows[i].ip in t && t[rows[i].ip] == rows[i]
    ensures forall ip | ip in t :: t[ip] in rows && t[ip].ip == ip
  {
    map row | row in rows :: row.ip := row
  }

  lemma ViewIdsAreUnique(rows: seq<Lease>, nextId: nat)
    requires OneRowPerAddress(rows) && IdsIncrease(rows, nextId)
    ensures UniqueIds(ViewOf(rows))
    ensures forall ip | ip in ViewOf(rows) :: ViewOf(rows)[ip].id < nextId
  {
    var t := ViewOf(rows);
    forall a, b | a in t && b in t && t[a].id == t[b].id
      ensures a == b
    {
      var i :| 0 <= i < |rows| && rows[i] == t[a];
      var j :| 0 <= j < |rows| && rows[j] == t[b];
      assert !(i < j) && !(j < i);
    }
  }

  /** Rewriting rows in place, without touching addresses, rewrites the entries of the view. */
  lemma ViewOfRewrite(rows: seq<Lease>, rows': seq<Lease>, t': Table)
    requires OneRowPerAddress(rows) && |rows'| == |rows|
    requires forall i | 0 <= i < |rows| :: rows'[i].ip == rows[i].ip
    requires t'.Keys == ViewOf(rows).Keys
    requires forall i | 0 <= i < |rows| :: t'[rows[i].ip] == rows'[i]
    ensures OneRowPerAddress(rows') && ViewOf(rows') == t'
  {
    var v := ViewOf(rows');
    forall ip | ip in t'
      ensures ip in v
    {
      var i :| 0 <= i < |rows| && rows[i] == ViewOf(rows)[ip];
      assert rows'[i].ip in v;
    }
    forall ip | ip in v
      ensures ip in t' && v[ip] == t'[ip]
    {
      var i :| 0 <= i < |rows'| && rows'[i] == v[ip];
      assert rows[i].ip in ViewOf(rows);
    }
  }

  lemma ViewOfAppend(rows: seq<Lease>, row: Lease)
    requires OneRowPerAddress(rows) && row.ip !in ViewOf(rows)
    ensures OneRowPerAddress(rows + [row])
    ensures ViewOf(rows + [row]) == ViewOf(rows)[row.ip := row]
  {
    var rows' := rows + [row];
    forall i, j | 0 <= i < j < |rows'|
      ensures rows'[i].ip != rows'[j].ip
    {
      if j == |rows| {
        assert rows[i].ip in ViewOf(rows);
      }
    }
    var t := ViewOf(rows);
    var t' := ViewOf(rows');
    assert rows'[|rows|].ip in t';
    forall ip | ip in t
      ensures ip in t'
    {
      var j :| 0 <= j < |rows| && rows[j] == t[ip];
      assert rows'[j].ip in t';
    }
    forall ip | ip in t'
      ensures ip in t[row.ip := row] && t'[ip] == t[row.ip := row][ip]
    {
      var j :| 0 <= j < |rows'| && rows'[j] == t'[ip];
      if j < |rows| {
        assert rows[j].ip in t;
      }
    }
  }

  /** The columns an UPDATE sets in the row with the lease's address. */
  function Rewritten(row: Lease, lease: Lease): Lease {
    if row.ip == lease.ip then
      row.(mac := lease.mac, hostname := lease.hostname, start := lease.start, end := lease.end, state := lease.state)
    else row
  }

  lemma ViewOfUpdated(rows: seq<Lease>, rows': seq<Lease>, nextId: nat, lease: Lease)
    requires OneRowPerAddress(rows) && IdsIncrease(rows, nextId) && |rows'| == |rows|
    requires forall j | 0 <= j < |rows| :: rows'[j] == Rewritten(rows[j], lease)
    ensures OneRowPerAddress(rows') && IdsIncrease(rows', nextId)
    ensures var t := ViewOf(rows);
      ViewOf(rows') == if lease.ip in t then t[lease.ip := Rewritten(t[lease.ip], lease)] else t
  {
    var t := ViewOf(rows);
    ViewOfRewrite(rows, rows', if lease.ip in t then t[lease.ip := Rewritten(t[lease.ip], lease)] else t);
  }

  lemma ViewOfExpired(rows: seq<Lease>, rows': seq<Lease>, nextId: nat, now: int)
    requires OneRowPerAddress(rows) && IdsIncrease(rows, nextId) && |rows'| == |rows|
    requires forall j | 0 <= j < |rows| :: rows'[j] == Expire(rows[j], now)
    ensures OneRowPerAddress(rows') && IdsIncrease(rows', nextId)
    ensures ViewOf(rows') == LeaseTable.ExpireLeases(ViewOf(rows), now)
  {
    ViewOfRewrite(rows, rows', LeaseTable.ExpireLeases(ViewOf(rows), now));
  }

  class Database {
    var leases: seq<Lease>
    var nextLeaseId: nat
    var denies: seq<DenyAddress>
    var nextDenyId: nat

    ghost predicate Valid()
      reads this
    {
      && OneRowPerAddress(leases)
      && IdsIncrease(leases, nextLeaseId)
      && forall i, j | 0 <= i < j < |denies| :: denies[i].ip != denies[j].ip
    }

    ghost function Leases(): Table
      reads this
      requires Valid()
    {
      ViewOf(leases)
    }

    function Denied(): set<IPv4>
      reads this
    {
      set i | 0 <= i < |denies| :: denies[i].ip
    }

    constructor ()
      ensures Valid() && Leases() == map[] && Denied() == {} && nextLeaseId == 0
    {
      leases, nextLeaseId, denies, nextDenyId := [], 0, [], 0;
    }

    /** INSERT: refused when the address already has a row. */
    method AddLease(lease: Lease) returns (r: Result<nat, DbError>)
      requires Valid()
      modifies this`leases, this`nextLeaseId
      ensures Valid()
      ensures r.Success? <==> lease.ip !in old(Leases())
      ensures r.Success? ==>
        && r.value == old(nextLeaseId)
        && Leases() == old(Leases())[lease.ip := lease.(id := r.value)]
        && nextLeaseId == old(nextLeaseId) + 1
      ensures r.Failure? ==> Leases() == old(Leases()) && nextLeaseId == old(nextLeaseId)
    {
      var existing := GetLeaseByIP(lease.ip);
      if existing.Some? {
        return Failure(UniqueViolation);
      }
      var row := lease.(id := nextLeaseId);
      ViewOfAppend(leases, row);
      leases := leases + [row];
      nextLeaseId := nextLeaseId + 1;
      return Success(row.id);
    }

    /** UPDATE .. WHERE ip_address = ?: every field but id, address and is_static. */
    method UpdateLease(lease: Lease)
      requires Valid()
      modifies this`leases
      ensures Valid()
      ensures Leases() ==
        if lease.ip in old(Leases()) then
          old(Leases())[lease.ip := Rewritten(old(Leases())[lease.ip], lease)]
        else old(Leases())
    {
      ghost var rows := leases;
      var i := 0;
      while i < |leases|
        invariant 0 <= i <= |leases| == |rows|
        invariant forall j | 0 <= j < |rows| :: leases[j] == if j < i then Rewritten(rows[j], lease) else rows[j]
      {
        leases := leases[i := Rewritten(leases[i], lease)];
        i := i + 1;
      }
      ViewOfUpdated(rows, leases, nextLeaseId, lease);
    }

    /** SELECT .. WHERE mac = ? AND state = 'active' ORDER BY lease_end DESC LIMIT 1 */
    method GetLeaseByMAC(mac: Text) returns (r: Option<Lease>)
      requires Valid()
      ensures r == match LeaseTable.GetLeaseByMAC(Leases(), mac)
                   case Some(ip) => Some(Leases()[ip])
                   case None => None
    {
      r := None;
      for i := 0 to |leases|
        invariant r.Some? ==> r.value in leases[..i] && HeldBy(r.value, mac)
        invariant forall j | 0 <= j < i && HeldBy(leases[j], mac) :: r.Some? && Precedes(r.value, leases[j])
      {
        if HeldBy(leases[i], mac) && (r.None? || r.value.end < leases[i].end) {
          r := Some(leases[i]);
        }
      }
      ViewIdsAreUnique(leases, nextLeaseId);
      if r.Some? {
        var k :| 0 <= k < |leases| && leases[k] == r.value;
        assert Latest(Leases(), mac, leases[k].ip);
        LatestIsUnique(Leases(), mac, leases[k].ip, LeaseTable.GetLeaseByMAC(Leases(), mac).value);
      } else {
        forall ip | ip in Leases()
          ensures !HeldBy(Leases()[ip], mac)
        {
          var k :| 0 <= k < |leases| && leases[k] == Leases()[ip];
        }
      }
    }

    method GetLeaseByIP(ip: IPv4) returns (r: Option<Lease>)
      requires Valid()
      ensures r == Lookup(Leases(), ip)
    {
      for i := 0 to |leases|
        invariant forall j | 0 <= j < i :: leases[j].ip != ip
      {
        if leases[i].ip == ip {
          return Some(leases[i]);
        }
      }
      return None;
    }

    /** INSERT .. ON CONFLICT DO UPDATE: the row of the address is rewritten or added, and all others stay. */
    method AddDenyAddress(ip: IPv4, mac: Text, reason: Text, now: int)
      requires Valid()
      modifies this`denies, this`nextDenyId
      ensures Valid() && Denied() == old(Denied()) + {ip}
      ensures forall row | row in denies && row.ip == ip ::
        row.mac == mac && row.reason == reason && row.detectedAt == now
      ensures forall row: DenyAddress | row.ip != ip :: row in denies <==> row in old(denies)
      ensures forall row | row in old(denies) && row.ip == ip ::
        row.(mac := mac, reason := reason, detectedAt := now) in denies
    {
      ghost var before := denies;
      var i := 0;
      while i < |denies|
        invariant 0 <= i <= |denies| && forall j | 0 <= j < i :: denies[j].ip != ip
        invariant denies == before && nextDenyId == old(nextDenyId)
      {
        if denies[i].ip == ip {
          denies := denies[i := denies[i].(mac := mac, reason := reason, detectedAt := now)];
          DenyRewritten(before, denies, i);
          return;
        }
        i := i + 1;
      }
      denies := denies + [DenyAddress(nextDenyId, ip, mac, reason, now)];
      assert forall j | 0 <= j < |before| :: denies[j] == before[j];
      assert denies[|denies| - 1].ip == ip;
      nextDenyId := nextDenyId + 1;
    }

    method IsDenyAddress(ip: IPv4) returns (r: bool)
      ensures r <==> ip in Denied()
    {
      for i := 0 to |denies|
        invariant forall j | 0 <= j < i :: denies[j].ip != ip
      {
        if denies[i].ip == ip {
          return true;
        }
      }
      return false;
    }

    /** UPDATE .. SET state = 'expired' WHERE active, past its end and not static. */
    method ExpireLeases(now: int)
      requires Valid()
      modifies this`leases
      ensures Valid() && Leases() == LeaseTable.ExpireLeases(old(Leases()), now)
    {
      ghost var rows := leases;
      var i := 0;
      while i < |leases|
        invariant 0 <= i <= |leases| == |rows|
        invariant forall j | 0 <= j < |rows| :: leases[j] == if j < i then Expire(rows[j], now) else rows[j]
      {
        leases := leases[i := Expire(leases[i], now)];
        i := i + 1;
      }
      ViewOfExpired(rows, leases, nextLeaseId, now);
    }

    /** GetStats: the row counts. */
    method GetStats() returns (r: DbStats)
      requires Valid()
      ensures r.active + r.expired == |leases| && r.staticLeases <= r.active && r.denied == |denies|
      ensures r.active == Matching(leases, (row: Lease) => row.state.Active?)
      ensures r.staticLeases == Matching(leases, (row: Lease) => row.state.Active? && row.isStatic)
      ensures r.expired == Matching(leases, (row: Lease) => row.state.Expired?)
    {
      var active, statics, expired := 0, 0, 0;
      for i := 0 to |leases|
        invariant active == Matching(leases[..i], (row: Lease) => row.state.Active?)
        invariant statics == Matching(leases[..i], (row: Lease) => row.state.Active? && row.isStatic)
        invariant expired == Matching(leases[..i], (row: Lease) => row.state.Expired?)
        invariant active + expired == i && statics <= active
      {
        assert leases[..i + 1][..i] == leases[..i];
        active := active + if leases[i].state.Active? then 1 else 0;
        statics := statics + if leases[i].state.Active? && leases[i].isStatic then 1 else 0;
        expired := expired + if leases[i].state.Expired? then 1 else 0;
      }
      assert leases[..|leases|] == leases;
      r := DbStats(active, statics, expired, |denies|);
    }
  }

  /** Rewriting one row of a table with one row per address. */
  lemma DenyRewritten(before: seq<DenyAddress>, after: seq<DenyAddress>, i: nat)
    requires i < |before| == |after| && after == before[i := after[i]] && after[i].ip == before[i].ip
    requires forall j, k | 0 <= j < k < |before| :: before[j].ip != before[k].ip
    ensures forall j, k | 0 <= j < k < |after| :: after[j].ip != after[k].ip
    ensures (set j | 0 <= j < |after| :: after[j].ip) == (set j | 0 <= j < |before| :: before[j].ip)
    ensures forall row | row in after && row.ip == before[i].ip :: row == after[i]
    ensures forall row | row in before && row.ip == before[i].ip :: row == before[i]
    ensures forall row: DenyAddress | row.ip != before[i].ip :: row in after <==> row in before
    ensures after[i] in after && before[i].ip in (set j | 0 <= j < |before| :: before[j].ip)
  {
    assert forall j | 0 <= j < |before| :: after[j].ip == before[j].ip;
    forall row: DenyAddress | row.ip != before[i].ip
      ensures row in after <==> row in before
    {
      if row in before {
        var j :| 0 <= j < |before| && before[j] == row;
        assert after[j] == row;
      }
    }
  }

  /** SELECT COUNT(*) with a condition. */
  function Matching(rows: seq<Lease>, f: Lease -> bool): nat {
    if rows == [] then 0
    else Matching(rows[..|rows| - 1], f) + if f(rows[|rows| - 1]) then 1 else 0
  }
}
