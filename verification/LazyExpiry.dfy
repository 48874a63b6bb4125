/**
 Expiry is lazy: a row's end is compared when the row is used, and the ExpireLeases sweep
 only relabels rows. With a strictly increasing clock the sweep cannot be observed: running
 it anywhere, any number of times, changes no reply.
 */
module LazyExpiry {
  import opened Wrappers
  import opened Config
  import opened LeaseTable
  import opened Allocation
  import opened ServerModel
  import opened StepEffects
  import opened Invariants

  /** Rows that agree, or that both ended by `now` and differ only in their state and end. */
  predicate SameOrEnded(a: Lease, b: Lease, now: int) {
    || a == b
    || (a.id == b.id && a.mac == b.mac && a.ip == b.ip && a.isStatic == b.isStatic && a.end <= now && b.end <= now)
  }

  ghost predicate Related(t: Table, u: Table, now: int) {
    && t.Keys == u.Keys
    && forall ip | ip in t :: SameOrEnded(t[ip], u[ip], now)
  }

  /** States that agree on everything but their lease rows and clocks. */
  predicate AgreeBesidesRows(s: State, v: State) {
    && s.subnets == v.subnets && s.statics == v.statics
    && s.deny == v.deny && s.stats == v.stats && s.nextId == v.nextId
  }

  /** Two server states no reply after `clock` can tell apart. */
  ghost predicate Bisimilar(s: State, v: State, clock: int) {
    && AgreeBesidesRows(s, v)
    && Related(s.leases, v.leases, clock)
    && Identified(s)
    && Identified(v)
  }

  ghost predicate Identified(s: State) {
    UniqueIds(s.leases) && forall ip | ip in s.leases :: s.leases[ip].id < s.nextId
  }

  lemma RelatedAgreeOnLive(p: Probe, q: Probe, clock: int)
    requires Related(p.leases, q.leases, clock) && UniqueIds(p.leases) && UniqueIds(q.leases)
    requires q == p.(leases := q.leases) && clock < p.now
    ensures LiveLease(p) == LiveLease(q)
  {
    LiveLeaseIsLive(p);
    LiveLeaseIsLive(q);
    if LiveLease(p).Some? {
      var ip := LiveLease(p).value;
      assert Latest(p.leases, p.mac, ip);
      assert Latest(q.leases, p.mac, ip);
      LatestIsUnique(q.leases, p.mac, ip, GetLeaseByMAC(q.leases, p.mac).value);
    }
  }

  lemma RelatedAgreeOnAvailable(p: Probe, q: Probe, clock: int)
    requires Related(p.leases, q.leases, clock) && q == p.(leases := q.leases) && clock < p.now
    ensures forall deny: set<IPv4>, ip :: Available(p, deny, ip) == Available(q, deny, ip)
  {
  }

  lemma {:induction false} RelatedScanRange(p: Probe, q: Probe, clock: int, deny: set<IPv4>, low: IPv4, high: IPv4)
    requires Related(p.leases, q.leases, clock) && q == p.(leases := q.leases) && clock < p.now
    ensures ScanRange(p, deny, low, high) == ScanRange(q, deny, low, high)
    decreases high - low
  {
    RelatedAgreeOnAvailable(p, q, clock);
    if low < high {
      RelatedScanRange(p, q, clock, TryAddress(p, deny, low).deny, low + 1, high);
    }
  }

  lemma {:induction false} RelatedScanPool(p: Probe, q: Probe, clock: int, deny: set<IPv4>, pool: seq<Range>)
    requires Related(p.leases, q.leases, clock) && q == p.(leases := q.leases) && clock < p.now
    ensures ScanPool(p, deny, pool) == ScanPool(q, deny, pool)
    decreases |pool|
  {
    if pool != [] {
      RelatedScanRange(p, q, clock, deny, pool[0].low, pool[0].high);
      RelatedScanPool(p, q, clock, ScanRange(p, deny, pool[0].low, pool[0].high).deny, pool[1..]);
    }
  }

  /** Allocation sees no difference between related tables. */
  lemma RelatedAllocate(g: Global, s: State, v: State, clock: int, now: int, pings: Pings, mac: Text,
                        requested: Option<IPv4>)
    requires Bisimilar(s, v, clock) && clock < now
    ensures Allocate(g, s, now, pings, mac, requested) == Allocate(g, v, now, pings, mac, requested)
  {
    var p := ProbeFor(g, s, now, pings, mac);
    var q := ProbeFor(g, v, now, pings, mac);
    RelatedAgreeOnLive(p, q, clock);
    RelatedAgreeOnAvailable(p, q, clock);
    RelatedScanPool(p, q, clock, AskedDeny(p, s.deny, requested), Pool(g, s.subnets));
  }

  /** Writing the same lease into related tables relates them again. */
  lemma RelatedUpsert(t: Table, u: Table, nextId: nat, clock: int, now: int, mac: Text, ip: IPv4, hostname: Text,
                      end: int, isStatic: bool)
    requires Related(t, u, clock) && clock < now
    ensures Related(Upsert(t, nextId, mac, ip, hostname, now, end, isStatic),
                    Upsert(u, nextId, mac, ip, hostname, now, end, isStatic), now)
  {
  }

  /** Ending a client's latest lease relates the tables again, whichever rows are chosen. */
  lemma RelatedEndLatest(t: Table, u: Table, clock: int, now: int, mac: Text)
    requires Related(t, u, clock) && UniqueIds(t) && UniqueIds(u) && clock < now
    ensures Related(EndLatest(t, mac, now), EndLatest(u, mac, now), now)
  {
    var p := Probe(t, now, {}, 0, mac);
    var q := Probe(u, now, {}, 0, mac);
    RelatedAgreeOnLive(p, q, clock);
  }

  lemma RelatedExpire(t: Table, u: Table, clock: int, now: int)
    requires Related(t, u, clock) && clock < now
    ensures Related(LeaseTable.ExpireLeases(t, now), LeaseTable.ExpireLeases(u, now), now)
    ensures Related(LeaseTable.ExpireLeases(t, now), u, now)
  {
  }

  lemma StepKeepsIdentified(g: Global, s: State, e: Event)
    requires Identified(s)
    ensures Identified(Step(g, s, e).0)
  {
    if Written(g, s, e).Some? {
      var row := WriteEffect(g, s, e);
      WriteKeepsIdentified(s, Step(g, s, e).0, Written(g, s, e).value.ip, row);
    } else {
      OtherEffect(g, s, e);
      OtherKeepsIdentified(s, Step(g, s, e).0);
    }
  }

  lemma WriteKeepsIdentified(s: State, s': State, ip: IPv4, row: Lease)
    requires Identified(s) && s'.leases == s.leases[ip := row] && s'.nextId == NextId(s.leases, s.nextId, ip)
    requires row.id == if ip in s.leases then s.leases[ip].id else s.nextId
    ensures Identified(s')
  {
  }

  lemma OtherKeepsIdentified(s: State, s': State)
    requires Identified(s) && s'.nextId == s.nextId && s'.leases.Keys == s.leases.Keys
    requires forall ip | ip in s.leases :: s'.leases[ip].id == s.leases[ip].id
    ensures Identified(s')
  {
  }

  // ---- Equal replies ---------------------------------------------------------------

  lemma SameDiscover(g: Global, s: State, v: State, now: int, pings: Pings, sent: bool, msg: Message)
    requires msg.Discover? && AgreeBesidesRows(s, v)
    requires Allocate(g, s, now, pings, msg.mac, msg.requested) == Allocate(g, v, now, pings, msg.mac, msg.requested)
    ensures var (s', r) := HandlePacket(g, s, now, pings, sent, msg);
      var (v', q) := HandlePacket(g, v, now, pings, sent, msg);
      r == q && AgreeBesidesRows(s', v')
  {
  }

  lemma SameRefuse(s: State, v: State, sent: bool)
    requires AgreeBesidesRows(s, v)
    ensures AgreeBesidesRows(Refuse(s, sent).0, Refuse(v, sent).0)
  {
  }

  lemma SameAcknowledge(g: Global, s: State, v: State, now: int, sent: bool, mac: Text, hostname: Text, ip: IPv4,
                        subnet: SubnetConfig)
    requires AgreeBesidesRows(s, v) && s.leases.Keys == v.leases.Keys
    ensures AgreeBesidesRows(Acknowledge(g, s, now, sent, mac, hostname, ip, subnet).0,
                             Acknowledge(g, v, now, sent, mac, hostname, ip, subnet).0)
  {
  }

  lemma SameRequest(g: Global, s: State, v: State, now: int, pings: Pings, sent: bool, msg: Message)
    requires msg.Request? && AgreeBesidesRows(s, v) && s.leases.Keys == v.leases.Keys
    requires var asked := RequestedAddress(msg.requested, msg.ciaddr);
      Allocate(g, s, now, pings, msg.mac, asked) == Allocate(g, v, now, pings, msg.mac, asked)
    ensures var (s', r) := HandleRequest(g, s, now, pings, sent, msg);
      var (v', q) := HandleRequest(g, v, now, pings, sent, msg);
      r == q && AgreeBesidesRows(s', v')
  {
    var asked := RequestedAddress(msg.requested, msg.ciaddr);
    if asked.None? {
      SameRefuse(s, v, sent);
    } else {
      var deny := Allocate(g, s, now, pings, msg.mac, asked).deny;
      SameRefuse(s.(deny := deny), v.(deny := deny), sent);
      var found := FindSubnetForIP(g, s.subnets, asked.value);
      if found.Some? {
        SameAcknowledge(g, s.(deny := deny), v.(deny := deny), now, sent, msg.mac, msg.hostname,
                        asked.value, found.value);
      }
    }
  }

  lemma SameOtherPacket(g: Global, s: State, v: State, now: int, pings: Pings, sent: bool, msg: Message)
    requires !msg.Discover? && !msg.Request? && AgreeBesidesRows(s, v) && s.leases.Keys == v.leases.Keys
    ensures var (s', r) := HandlePacket(g, s, now, pings, sent, msg);
      var (v', q) := HandlePacket(g, v, now, pings, sent, msg);
      r == q && AgreeBesidesRows(s', v')
  {
  }

  lemma SameRequestPacket(g: Global, s: State, v: State, now: int, pings: Pings, sent: bool, msg: Message)
    requires msg.Request? && AgreeBesidesRows(s, v) && s.leases.Keys == v.leases.Keys
    requires var asked := RequestedAddress(msg.requested, msg.ciaddr);
      Allocate(g, s, now, pings, msg.mac, asked) == Allocate(g, v, now, pings, msg.mac, asked)
    ensures var (s', r) := HandlePacket(g, s, now, pings, sent, msg);
      var (v', q) := HandlePacket(g, v, now, pings, sent, msg);
      r == q && AgreeBesidesRows(s', v')
  {
    var s1 := s.(stats := s.stats.(request := s.stats.request + 1));
    var v1 := v.(stats := v.stats.(request := v.stats.request + 1));
    var asked := RequestedAddress(msg.requested, msg.ciaddr);
    assert Allocate(g, s1, now, pings, msg.mac, asked) == Allocate(g, s, now, pings, msg.mac, asked);
    assert Allocate(g, v1, now, pings, msg.mac, asked) == Allocate(g, v, now, pings, msg.mac, asked);
    SameRequest(g, s1, v1, now, pings, sent, msg);
    assert HandlePacket(g, s, now, pings, sent, msg) == HandleRequest(g, s1, now, pings, sent, msg);
    assert HandlePacket(g, v, now, pings, sent, msg) == HandleRequest(g, v1, now, pings, sent, msg);
  }

  lemma SamePacketReply(g: Global, s: State, v: State, clock: int, now: int, pings: Pings, sent: bool, msg: Message)
    requires Bisimilar(s, v, clock) && clock < now
    ensures HandlePacket(g, s, now, pings, sent, msg).1 == HandlePacket(g, v, now, pings, sent, msg).1
    ensures AgreeBesidesRows(HandlePacket(g, s, now, pings, sent, msg).0, HandlePacket(g, v, now, pings, sent, msg).0)
  {
    if msg.Discover? {
      RelatedAllocate(g, s, v, clock, now, pings, msg.mac, msg.requested);
      SameDiscover(g, s, v, now, pings, sent, msg);
    } else if msg.Request? {
      RelatedAllocate(g, s, v, clock, now, pings, msg.mac, RequestedAddress(msg.requested, msg.ciaddr));
      SameRequestPacket(g, s, v, now, pings, sent, msg);
    } else {
      SameOtherPacket(g, s, v, now, pings, sent, msg);
    }
  }

  lemma SameReply(g: Global, s: State, v: State, clock: int, e: Event)
    requires Bisimilar(s, v, clock) && clock < e.now
    ensures Step(g, s, e).1 == Step(g, v, e).1
    ensures AgreeBesidesRows(Step(g, s, e).0, Step(g, v, e).0)
  {
    if e.input.Packet? {
      SamePacketReply(g, s, v, clock, e.now, e.input.pings, e.input.sent, e.input.msg);
    }
  }

  /** One step of bisimilar states: equal replies, bisimilar successors. */
  lemma StepBisimulates(g: Global, s: State, v: State, clock: int, e: Event)
    requires Bisimilar(s, v, clock) && clock < e.now
    ensures Step(g, s, e).1 == Step(g, v, e).1
    ensures Bisimilar(Step(g, s, e).0, Step(g, v, e).0, e.now)
  {
    SameReply(g, s, v, clock, e);
    StepKeepsIdentified(g, s, e);
    StepKeepsIdentified(g, v, e);
    assert Written(g, s, e) == Written(g, v, e);
    if Written(g, s, e).Some? {
      var w := Written(g, s, e).value;
      var _ := WriteEffect(g, s, e);
      var _ := WriteEffect(g, v, e);
      RelatedUpsert(s.leases, v.leases, s.nextId, clock, e.now, w.mac, w.ip, Hostname(e), LeaseEnd(g, e),
                    MarkedStatic(s, e));
    } else {
      OtherEffect(g, s, e);
      OtherEffect(g, v, e);
      if Ended(e).Some? {
        RelatedEndLatest(s.leases, v.leases, clock, e.now, Ended(e).value);
      } else if e.input.ExpireLeases? {
        RelatedExpire(s.leases, v.leases, clock, e.now);
      }
    }
  }

  // ---- Runs ------------------------------------------------------------------------

  predicate StrictlyOrdered(clock: int, events: seq<Event>)
    decreases |events|
  {
    events == [] || (clock < events[0].now && StrictlyOrdered(events[0].now, events[1..]))
  }

  function WithoutSweeps(events: seq<Event>): seq<Event> {
    if events == [] then []
    else (if events[0].input.ExpireLeases? then [] else [events[0]]) + WithoutSweeps(events[1..])
  }

  /** The replies to everything but sweeps, which send none. */
  ghost function Observed(g: Global, s: State, events: seq<Event>): seq<Reply>
    decreases |events|
  {
    if events == [] then []
    else
      var (s', reply) := Step(g, s, events[0]);
      (if events[0].input.ExpireLeases? then [] else [reply]) + Observed(g, s', events[1..])
  }

  lemma {:induction false} SweepsAreInvisible(g: Global, s: State, v: State, events: seq<Event>)
    requires Bisimilar(s, v, s.clock) && StrictlyOrdered(s.clock, events)
    ensures Observed(g, s, events) == Replies(g, v, WithoutSweeps(events))
    decreases |events|
  {
    if events != [] {
      var e := events[0];
      var s' := Step(g, s, e).0;
      if e.input.ExpireLeases? {
        RelatedExpire(s.leases, v.leases, s.clock, e.now);
        StepKeepsIdentified(g, s, e);
        SweepsAreInvisible(g, s', v, events[1..]);
        assert [] + WithoutSweeps(events[1..]) == WithoutSweeps(events[1..]);
      } else {
        StepBisimulates(g, s, v, s.clock, e);
        SweepsAreInvisible(g, s', Step(g, v, e).0, events[1..]);
        assert WithoutSweeps(events)[1..] == WithoutSweeps(events[1..]);
      }
    }
  }

  /**
   Lazy expiry equals eager expiry: two schedules with strictly increasing clocks that
   differ only in where ExpireLeases runs give every packet the same reply, so in
   particular running no sweep at all is as good as any schedule of sweeps.
   */
  lemma {:induction false} LazyExpiryEqualsEager(g: Global, s: State, lazy: seq<Event>, eager: seq<Event>)
    requires Consistent(s) && StrictlyOrdered(s.clock, lazy) && StrictlyOrdered(s.clock, eager)
    requires WithoutSweeps(lazy) == WithoutSweeps(eager)
    ensures Observed(g, s, lazy) == Observed(g, s, eager)
  {
    SweepsAreInvisible(g, s, s, lazy);
    SweepsAreInvisible(g, s, s, eager);
  }
}
