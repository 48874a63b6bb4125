/**
 Why lazy expiry needs a clock that increases strictly: at one instant, a RELEASE of a client
 whose lease has ended shuts the address for others unless a sweep came first.
 */
module LazyExpiryLimits {
  import opened Wrappers
  import opened Config
  import opened LeaseTable
  import opened Allocation
  import opened ServerModel
  import opened StepEffects
  import opened Invariants
  import opened Exclusion
  import opened ExclusionLimits
  import opened StaticAddresses

  /** A state whose one row is active although it has ended. */
  function EndedState(subnets: seq<SubnetConfig>, statics: seq<StaticHost>, a: Text, ip: IPv4, end: int,
                      now: int): State
  {
    Start(subnets, statics, now).(
      leases := map[ip := Lease(0, NormalizeMAC(a), ip, [], end, end, Active, false)], nextId := 1)
  }

  lemma OnlyRow(t: Table, mac: Text, ip: IPv4)
    requires t.Keys == {ip}
    ensures GetLeaseByMAC(t, mac) == if HeldBy(t[ip], mac) then Some(ip) else None
  {
    if HeldBy(t[ip], mac) {
      LatestExists(t, mac, ip);
    }
  }

  /** The RELEASE alone: the row now ends at this very instant. */
  lemma ReleaseMovesEnd(g: Global, subnets: seq<SubnetConfig>, statics: seq<StaticHost>,
                        a: Text, ip: IPv4, end: int, now: int)
    ensures var s := EndedState(subnets, statics, a, ip, end, now);
      Step(g, s, Event(now, Packet(Release(a), {}, true))).0.leases
        == map[ip := s.leases[ip].(state := Expired, end := now)]
  {
    var s := EndedState(subnets, statics, a, ip, end, now);
    OnlyRow(s.leases, NormalizeMAC(a), ip);
    OtherEffect(g, s, Event(now, Packet(Release(a), {}, true)));
  }

  /** The RELEASE after a sweep: there is nothing to release. */
  lemma SweptReleaseDoesNothing(g: Global, subnets: seq<SubnetConfig>, statics: seq<StaticHost>,
                                a: Text, ip: IPv4, end: int, now: int)
    requires end < now
    ensures var s := EndedState(subnets, statics, a, ip, end, now);
      var swept := Step(g, s, Event(now, Input.ExpireLeases)).0;
      Step(g, swept, Event(now, Packet(Release(a), {}, true))).0.leases
        == map[ip := s.leases[ip].(state := Expired)]
  {
    var s := EndedState(subnets, statics, a, ip, end, now);
    OtherEffect(g, s, Event(now, Input.ExpireLeases));
    var swept := Step(g, s, Event(now, Input.ExpireLeases)).0;
    assert swept.leases == map[ip := s.leases[ip].(state := Expired)];
    OnlyRow(swept.leases, NormalizeMAC(a), ip);
    OtherEffect(g, swept, Event(now, Packet(Release(a), {}, true)));
  }

  /**
   Two schedules that differ in one sweep and in nothing else, all at one instant: without the
   sweep the last REQUEST is not acknowledged, with it it is.
   */
  lemma EqualInstantsBreakLaziness(g: Global, subnets: seq<SubnetConfig>, statics: seq<StaticHost>,
                                   a: Text, b: Text, ip: IPv4, end: int, now: int)
    requires end < now && NormalizeMAC(a) != NormalizeMAC(b) && ip != UNSPECIFIED && g.pingRetries > 0
    requires FindSubnetForIP(g, subnets, ip).Some? && StaticIP(g, statics, b).None?
    ensures var s := EndedState(subnets, statics, a, ip, end, now);
      var release := Event(now, Packet(Release(a), {}, true));
      var request := RequestEvent(PlainRequest(b, ip, now), now, {}, true);
      var swept := Step(g, s, Event(now, Input.ExpireLeases)).0;
      && !Step(g, Step(g, s, release).0, request).1.Ack?
      && Step(g, Step(g, swept, release).0, request).1.Ack?
  {
    var s := EndedState(subnets, statics, a, ip, end, now);
    var release := Event(now, Packet(Release(a), {}, true));
    var request := RequestEvent(PlainRequest(b, ip, now), now, {}, true);
    var swept := Step(g, s, Event(now, Input.ExpireLeases)).0;
    ReleaseMovesEnd(g, subnets, statics, a, ip, end, now);
    SweptReleaseDoesNothing(g, subnets, statics, a, ip, end, now);
    RefusedAtItsEnd(g, Step(g, s, release).0, b, ip, now);
    assert MayTake(g, Step(g, swept, release).0, now, b, ip);
    FreeRequestIsAcked(g, Step(g, swept, release).0, now, b, ip);
  }

  /** A row of another client keeps a dynamic one off at the instant it ends. */
  lemma RefusedAtItsEnd(g: Global, s: State, b: Text, ip: IPv4, now: int)
    requires s.leases.Keys == {ip} && s.leases[ip].end == now && Normalized(s.leases[ip].mac)
    requires s.leases[ip].mac != NormalizeMAC(b) && StaticIP(g, s.statics, b).None?
    ensures !Step(g, s, RequestEvent(PlainRequest(b, ip, now), now, {}, true)).1.Ack?
  {
    var request := RequestEvent(PlainRequest(b, ip, now), now, {}, true);
    if Step(g, s, request).1.Ack? {
      EveryAckIsRecorded(g, s, request);
      AckIsFree(g, s, request, b, ip);
      assert false;
    }
  }
}
