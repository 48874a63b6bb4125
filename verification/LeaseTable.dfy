/**
 The lease table as a value: what the queries of internal/db/db.go mean. The class
 `Database.Database` keeps rows in insertion order and is proved against this view.
 */
module LeaseTable {
  import opened Wrappers
  import opened Config

  datatype LeaseState = Active | Expired

  datatype Lease = Lease(
    id: nat,
    mac: Text,
    ip: IPv4,
    hostname: Text,
    start: int,
    end: int,
    state: LeaseState,
    isStatic: bool)

  type Table = map<IPv4, Lease>

  /** A row that still protects its address and is still offered back to its owner. */
  predicate Live(row: Lease, now: int) {
    row.state.Active? && now < row.end
  }

  predicate HeldBy(row: Lease, mac: Text) {
    row.mac == mac && row.state.Active?
  }

  /** Row order of `ORDER BY lease_end DESC`, ties broken by the smaller row id. */
  predicate Precedes(a: Lease, b: Lease) {
    a.end > b.end || (a.end == b.end && a.id <= b.id)
  }

  /** `ip` keys the row `GetLeaseByMAC` returns. */
  ghost predicate Latest(t: Table, mac: Text, ip: IPv4) {
    && ip in t
    && HeldBy(t[ip], mac)
    && forall other | other in t && HeldBy(t[other], mac) :: Precedes(t[ip], t[other])
  }

  ghost function GetLeaseByMAC(t: Table, mac: Text): (r: Option<IPv4>)
    ensures r.Some? ==> Latest(t, mac, r.value)
    ensures r.None? ==> forall ip :: !Latest(t, mac, ip)
  {
    if exists ip :: Latest(t, mac, ip) then
      var ip :| Latest(t, mac, ip);
      Some(ip)
    else
      None
  }

  /** Row ids are the insertion numbers of the rows; every stored MAC is normalised. */
  ghost predicate WellFormed(t: Table, nextId: nat) {
    && (forall ip | ip in t :: t[ip].ip == ip && t[ip].id < nextId && Normalized(t[ip].mac))
    && UniqueIds(t)
  }

  ghost predicate UniqueIds(t: Table) {
    forall a, b | a in t && b in t && t[a].id == t[b].id :: a == b
  }

  lemma LatestIsUnique(t: Table, mac: Text, a: IPv4, b: IPv4)
    requires UniqueIds(t) && Latest(t, mac, a) && Latest(t, mac, b)
    ensures a == b
  {
    assert Precedes(t[a], t[b]) && Precedes(t[b], t[a]);
  }

  /** A client with any active row has a latest one. */
  lemma LatestExists(t: Table, mac: Text, ip: IPv4)
    requires ip in t && HeldBy(t[ip], mac)
    ensures GetLeaseByMAC(t, mac).Some?
  {
    var best := LatestAmong(t, mac, t.Keys, ip);
    assert Latest(t, mac, best);
  }

  lemma {:induction false} LatestAmong(t: Table, mac: Text, keys: set<IPv4>, ip: IPv4) returns (best: IPv4)
    requires keys <= t.Keys && ip in keys && HeldBy(t[ip], mac)
    ensures best in keys && HeldBy(t[best], mac)
    ensures forall other | other in keys && HeldBy(t[other], mac) :: Precedes(t[best], t[other])
    decreases |keys|
  {
    if k :| k in keys && k != ip && HeldBy(t[k], mac) && Precedes(t[k], t[ip]) {
      best := LatestAmong(t, mac, keys - {ip}, k);
    } else {
      best := ip;
      forall other | other in keys && HeldBy(t[other], mac)
        ensures Precedes(t[best], t[other])
      {
        assert other == ip || !Precedes(t[other], t[ip]);
      }
    }
  }

  /** When the latest row is past its end, none of the client's rows is live. */
  lemma NoLiveRow(t: Table, mac: Text, now: int)
    requires var k := GetLeaseByMAC(t, mac); k.Some? ==> t[k.value].end <= now
    ensures forall ip | ip in t && t[ip].mac == mac :: !Live(t[ip], now)
  {
    forall ip | ip in t && t[ip].mac == mac
      ensures !Live(t[ip], now)
    {
      if t[ip].state.Active? {
        LatestExists(t, mac, ip);
      }
    }
  }

  /** The fields CreateLease and SeedStaticLease write; id and is_static survive an update. */
  function Granted(previous: Option<Lease>, nextId: nat, mac: Text, ip: IPv4, hostname: Text,
                   start: int, end: int, isStatic: bool): Lease
  {
    match previous
    case Some(row) => row.(mac := mac, hostname := hostname, start := start, end := end, state := Active)
    case None => Lease(nextId, mac, ip, hostname, start, end, Active, isStatic)
  }

  function Lookup(t: Table, ip: IPv4): Option<Lease> {
    if ip in t then Some(t[ip]) else None
  }

  /** GetLeaseByIP followed by UpdateLease or AddLease. */
  function Upsert(t: Table, nextId: nat, mac: Text, ip: IPv4, hostname: Text,
                  start: int, end: int, isStatic: bool): Table
  {
    t[ip := Granted(Lookup(t, ip), nextId, mac, ip, hostname, start, end, isStatic)]
  }

  function NextId(t: Table, nextId: nat, ip: IPv4): nat {
    if ip in t then nextId else nextId + 1
  }

  /** ReleaseLease and RevokeStaticLease: the client's latest row ends now. */
  ghost function EndLatest(t: Table, mac: Text, now: int): Table {
    match GetLeaseByMAC(t, mac)
    case Some(ip) => t[ip := t[ip].(state := Expired, end := now)]
    case None => t
  }

  function Expire(row: Lease, now: int): Lease {
    if row.state.Active? && row.end < now && !row.isStatic then row.(state := Expired) else row
  }

  function ExpireLeases(t: Table, now: int): Table {
    map ip | ip in t :: Expire(t[ip], now)
  }

  /** What every operation keeps: rows never disappear, and id, address and is_static are fixed. */
  ghost predicate Conserves(t: Table, t': Table) {
    forall ip | ip in t ::
      && ip in t'
      && t'[ip].id == t[ip].id
      && t'[ip].ip == t[ip].ip
      && t'[ip].isStatic == t[ip].isStatic
  }

  lemma UpsertKeeps(t: Table, nextId: nat, mac: Text, ip: IPv4, hostname: Text,
                    start: int, end: int, isStatic: bool)
    requires WellFormed(t, nextId) && Normalized(mac)
    ensures var t' := Upsert(t, nextId, mac, ip, hostname, start, end, isStatic);
      WellFormed(t', NextId(t, nextId, ip)) && Conserves(t, t')
  {
  }

  lemma EndLatestKeeps(t: Table, nextId: nat, mac: Text, now: int)
    requires WellFormed(t, nextId)
    ensures WellFormed(EndLatest(t, mac, now), nextId) && Conserves(t, EndLatest(t, mac, now))
  {
  }

  lemma ExpireLeasesKeeps(t: Table, nextId: nat, now: int)
    requires WellFormed(t, nextId)
    ensures WellFormed(ExpireLeases(t, now), nextId) && Conserves(t, ExpireLeases(t, now))
  {
  }

  /** ExpireLeases changes the state of the active, non-static rows past their end, and nothing else. */
  lemma ExpireLeasesExactly(t: Table, now: int, ip: IPv4)
    requires ip in t
    ensures ip in ExpireLeases(t, now)
    ensures var row, row' := t[ip], ExpireLeases(t, now)[ip];
      && row' == row.(state := row'.state)
      && (row'.state == Expired <==> row.state == Expired || (row.end < now && !row.isStatic))
  {
  }

  /** What a grant writes: all of it for a new row, and all but id, address and is_static for an old one. */
  lemma UpsertWrites(t: Table, nextId: nat, mac: Text, ip: IPv4, hostname: Text, start: int, end: int, isStatic: bool)
    ensures var t' := Upsert(t, nextId, mac, ip, hostname, start, end, isStatic);
      && (ip !in t ==> t' == t[ip := Lease(nextId, mac, ip, hostname, start, end, Active, isStatic)])
      && (ip in t ==>
            t' == t[ip := Lease(t[ip].id, mac, t[ip].ip, hostname, start, end, Active, t[ip].isStatic)])
  {
  }

  /** What a release writes: the client's latest active row is expired as of now, and nothing else. */
  lemma EndLatestWrites(t: Table, mac: Text, now: int, ip: IPv4)
    requires UniqueIds(t) && ip in t && t[ip].mac == mac && t[ip].state == Active
    requires forall other | other in t && t[other].mac == mac && t[other].state == Active && other != ip ::
      t[other].end < t[ip].end
    ensures EndLatest(t, mac, now) == t[ip := t[ip].(state := Expired, end := now)]
  {
    LatestExists(t, mac, ip);
  }

  lemma NothingToEnd(t: Table, mac: Text, now: int)
    requires forall ip | ip in t && t[ip].mac == mac :: t[ip].state == Expired
    ensures EndLatest(t, mac, now) == t
  {
  }
}
