/**
 What a static host's seeded lease is worth. It is written for a hundred years, but the
 host's own next ACK or BOOTREPLY resets its end to one lease term, and past that end the
 address is given to whoever asks: the static list is consulted for the host only.
 */
module StaticAddresses {
  import opened Wrappers
  import opened Config
  import opened LeaseTable
  import opened Allocation
  import opened ServerModel
  import opened StepEffects
  import opened Invariants
  import opened Guarantees
  import opened Exclusion
  import opened ExclusionLimits

  // ---- Losing a static address -----------------------------------------------------

  /**
   An input: a seeded host sends a REQUEST and is acknowledged, so its row now ends one term
   later; one tick after that, long before the seeded end, another client is acknowledged
   at the static address.
   */
  lemma SeededLeaseIsCutShort(g: Global, subnets: seq<SubnetConfig>, statics: seq<StaticHost>, host: StaticHost,
                              b: Text, ip: IPv4, now: int, asked: int)
    requires g.pingRetries > 0 && ip != UNSPECIFIED && FindSubnetForIP(g, subnets, ip).Some?
    requires g.resolve(host.ipAddress) == Some(ip) && StaticIP(g, statics, host.macAddress) == Some(ip)
    requires StaticIP(g, statics, b).None?
    requires now <= asked && Lapse(g, asked) < now + STATIC_TERM
    ensures var seeded := Step(g, Start(subnets, statics, now), Event(now, SeedStaticLease(host))).0;
      var mac := NormalizeMAC(host.macAddress);
      var (s', ack) := Step(g, seeded, RequestEvent(PlainRequest(host.macAddress, ip, asked), asked, {}, true));
      var later := Lapse(g, asked);
      var (s'', taken) := Step(g, s', RequestEvent(PlainRequest(b, ip, later), later, {}, true));
      && Protected(seeded.leases, mac, ip, now + STATIC_TERM)
      && ack.Ack? && ack.ip == ip && taken.Ack? && taken.ip == ip
      && later < now + STATIC_TERM && HeldBy(s''.leases[ip], NormalizeMAC(b)) && NormalizeMAC(b) != mac
  {
    var seeded := Step(g, Start(subnets, statics, now), Event(now, SeedStaticLease(host))).0;
    OwnerIsAcked(g, seeded, asked, host.macAddress, ip);
    StaticIPOfNormalized(g, statics, b);
    StaticIPOfNormalized(g, statics, host.macAddress);
    var s' := Step(g, seeded, RequestEvent(PlainRequest(host.macAddress, ip, asked), asked, {}, true)).0;
    assert MayTake(g, s', Lapse(g, asked), b, ip);
    FreeRequestIsAcked(g, s', Lapse(g, asked), b, ip);
  }

  ghost predicate AckedTo(g: Global, s: State, e: Event, mac: Text, ip: IPv4) {
    Step(g, s, e).1.Ack? && Step(g, s, e).1.ip == ip && NormalizeMAC(PacketMAC(e)) == NormalizeMAC(mac)
  }

  /**
   When an address, static or not, can be acknowledged to a dynamic client without a live
   lease: exactly when it is a usable address of a subnet, not denied, and the row there, if
   any, is the client's own or past its end.
   */
  lemma DynamicClientIsAckedIff(g: Global, s: State, now: int, mac: Text, ip: IPv4)
    requires StaticIP(g, s.statics, mac).None? && !ClientHasLiveRow(s, now, NormalizeMAC(mac))
    ensures (exists e: Event :: e.now == now && AckedTo(g, s, e, mac, ip)) <==> MayTake(g, s, now, mac, ip)
  {
    if e: Event :| e.now == now && AckedTo(g, s, e, mac, ip) {
      AckIsFree(g, s, e, mac, ip);
    }
    if MayTake(g, s, now, mac, ip) {
      FreeRequestIsAcked(g, s, now, mac, ip);
      assert AckedTo(g, s, RequestEvent(PlainRequest(mac, ip, now), now, {}, true), mac, ip);
    }
  }

  lemma AckIsFree(g: Global, s: State, e: Event, mac: Text, ip: IPv4)
    requires StaticIP(g, s.statics, mac).None? && !ClientHasLiveRow(s, e.now, NormalizeMAC(mac))
    requires AckedTo(g, s, e, mac, ip)
    ensures MayTake(g, s, e.now, mac, ip)
  {
    EveryAckIsRecorded(g, s, e);
    StaticIPOfNormalized(g, s.statics, mac);
    StaticIPOfNormalized(g, s.statics, e.input.msg.mac);
    var p := ProbeFor(g, s, e.now, e.input.pings, e.input.msg.mac);
    assert HasLiveRow(p) <==> ClientHasLiveRow(s, e.now, p.mac);
    AllocationFollowsPriority(g, s.subnets, s.statics, p, s.deny, Some(ip));
    assert !Answers(p, ip);
  }

  // ---- How long a static host keeps its address ------------------------------------

  /**
   The events that leave a static host's row ending before `until`: its own REQUEST for the
   address or BOOTREQUEST when a term is shorter than that, a new seeding that is, and a
   RELEASE or revocation that ends this row.
   */
  ghost predicate CutsShort(g: Global, s: State, e: Event, mac: Text, ip: IPv4, until: int) {
    var subnet := FindSubnetForIP(g, s.subnets, ip);
    || (AsksFor(g, e, mac, ip) && subnet.Some? && e.now + g.Term() < until)
    || (e.input.Packet? && e.input.msg.BootRequest? && NormalizeMAC(e.input.msg.mac) == mac
          && subnet.Some? && subnet.value.enableBootP && e.now + g.Term() < until)
    || (SeedsAt(g, ip, e) && e.now + STATIC_TERM < until)
    || (Ended(e) == Some(mac) && GetLeaseByMAC(s.leases, mac) == Some(ip))
  }

  /** Every REQUEST of a static host for its own address is acknowledged, and no other. */
  lemma OwnerIsAckedIff(g: Global, s: State, e: Event, mac: Text, ip: IPv4)
    requires IsRequest(e) && NormalizeMAC(e.input.msg.mac) == mac && StaticIP(g, s.statics, mac) == Some(ip)
    ensures Step(g, s, e).1.Ack? <==> AsksFor(g, e, mac, ip) && FindSubnetForIP(g, s.subnets, ip).Some?
  {
    StaticIPOfNormalized(g, s.statics, e.input.msg.mac);
    var p := ProbeFor(g, s, e.now, e.input.pings, e.input.msg.mac);
    assert AllocateIP(g, s.subnets, s.statics, p, s.deny,
                      RequestedAddress(e.input.msg.requested, e.input.msg.ciaddr)) == Outcome(Some(ip), s.deny);
  }

  lemma OwnerIsBootedIff(g: Global, s: State, e: Event, mac: Text, ip: IPv4)
    requires e.input.Packet? && e.input.msg.BootRequest? && NormalizeMAC(e.input.msg.mac) == mac
    requires StaticIP(g, s.statics, mac) == Some(ip)
    ensures Step(g, s, e).1.BootReply? <==>
      var subnet := FindSubnetForIP(g, s.subnets, ip); subnet.Some? && subnet.value.enableBootP
    ensures Step(g, s, e).1.BootReply? ==> Step(g, s, e).1.ip == ip
  {
    StaticIPOfNormalized(g, s.statics, e.input.msg.mac);
  }

  lemma RenewsIff(g: Global, s: State, e: Event, mac: Text, ip: IPv4, until: int)
    requires StaticIP(g, s.statics, mac) == Some(ip) && SeedsOwnerOnly(g, mac, ip, e)
    ensures Renews(g, s, e, mac, ip, until) <==> !CutsShort(g, s, e, mac, ip, until)
  {
    if e.input.Packet? && NormalizeMAC(PacketMAC(e)) == mac && e.input.msg.Request? {
      OwnerIsAckedIff(g, s, e, mac, ip);
      if Step(g, s, e).1.Ack? {
        EveryAckIsRecorded(g, s, e);
      }
    } else if e.input.Packet? && NormalizeMAC(PacketMAC(e)) == mac && e.input.msg.BootRequest? {
      OwnerIsBootedIff(g, s, e, mac, ip);
    }
    if Written(g, s, e).Some? {
      var _ := WriteEffect(g, s, e);
    }
  }

  /** The configuration keeps the address the host's, and nobody else is seeded there. */
  ghost predicate StaysStatic(g: Global, mac: Text, ip: IPv4, e: Event) {
    && SeedsOwnerOnly(g, mac, ip, e)
    && (e.input.Refresh? ==> StaticIP(g, e.input.statics, mac) == Some(ip) && NoOtherOwner(g, e.input.statics, mac, ip))
  }

  /** The row protects the host before the run and after each of its events. */
  ghost predicate AlwaysProtected(g: Global, s: State, events: seq<Event>, mac: Text, ip: IPv4, until: int)
    decreases |events|
  {
    && Protected(s.leases, mac, ip, until)
    && (events != [] ==> AlwaysProtected(g, Step(g, s, events[0]).0, events[1..], mac, ip, until))
  }

  ghost predicate NeverCutShort(g: Global, s: State, events: seq<Event>, mac: Text, ip: IPv4, until: int)
    decreases |events|
  {
    events != [] ==>
      && !CutsShort(g, s, events[0], mac, ip, until)
      && NeverCutShort(g, Step(g, s, events[0]).0, events[1..], mac, ip, until)
  }

  /** No event of the run grants the address to anybody but the host. */
  ghost predicate GrantedToOwnerOnly(g: Global, s: State, events: seq<Event>, mac: Text, ip: IPv4)
    decreases |events|
  {
    events != [] ==>
      && (Assigns(Step(g, s, events[0]).1, ip) && !Step(g, s, events[0]).1.Offer? ==>
            NormalizeMAC(PacketMAC(events[0])) == mac)
      && GrantedToOwnerOnly(g, Step(g, s, events[0]).0, events[1..], mac, ip)
  }

  /**
   Over every run up to `until`: a static host's row lasts until then if and only if no event
   cuts it short, and as long as it lasts the address goes to nobody else.
   */
  lemma {:induction false} StaticLeaseLastsIff(g: Global, s: State, events: seq<Event>, mac: Text, ip: IPv4, until: int)
    requires Consistent(s) && Ordered(s.clock, events)
    requires StaticIP(g, s.statics, mac) == Some(ip) && NoOtherOwner(g, s.statics, mac, ip)
    requires Protected(s.leases, mac, ip, until)
    requires forall i | 0 <= i < |events| :: events[i].now <= until && StaysStatic(g, mac, ip, events[i])
    ensures AlwaysProtected(g, s, events, mac, ip, until) <==> NeverCutShort(g, s, events, mac, ip, until)
    ensures AlwaysProtected(g, s, events, mac, ip, until) ==> GrantedToOwnerOnly(g, s, events, mac, ip)
    decreases |events|
  {
    if events != [] {
      var s' := Step(g, s, events[0]).0;
      StepProtectsIff(g, s, events[0], mac, ip, until);
      RenewsIff(g, s, events[0], mac, ip, until);
      StepConserves(g, s, events[0]);
      OtherFields(g, s, events[0]);
      if Protected(s'.leases, mac, ip, until) {
        StaticLeaseLastsIff(g, s', events[1..], mac, ip, until);
      }
    }
  }

  /** Seeding a host protects its address for a hundred years, as far as the row goes. */
  lemma SeedProtects(g: Global, s: State, seed: Event, mac: Text, ip: IPv4)
    requires Consistent(s) && s.clock <= seed.now
    requires SeedsAt(g, ip, seed) && NormalizeMAC(seed.input.host.macAddress) == mac
    ensures var s' := Step(g, s, seed).0;
      && Consistent(s') && s'.clock == seed.now && s'.statics == s.statics
      && Protected(s'.leases, mac, ip, seed.now + STATIC_TERM)
  {
    var _ := WriteEffect(g, s, seed);
    StepConserves(g, s, seed);
    OtherFields(g, s, seed);
  }

  /**
   The "effectively permanent" lease: a seeded row lasts its hundred years if and only if,
   until then, the host itself is never acknowledged or booted with a term that ends before,
   and the row is neither released nor revoked.
   */
  lemma {:induction false} SeededLeaseIsPermanentIff(g: Global, s: State, seed: Event, events: seq<Event>,
                                                     mac: Text, ip: IPv4)
    requires Consistent(s) && s.clock <= seed.now && Ordered(seed.now, events)
    requires SeedsAt(g, ip, seed) && NormalizeMAC(seed.input.host.macAddress) == mac
    requires StaticIP(g, s.statics, mac) == Some(ip) && NoOtherOwner(g, s.statics, mac, ip)
    requires forall i | 0 <= i < |events| ::
      events[i].now <= seed.now + STATIC_TERM && StaysStatic(g, mac, ip, events[i])
    ensures var s', until := Step(g, s, seed).0, seed.now + STATIC_TERM;
      AlwaysProtected(g, s', events, mac, ip, until) <==> NeverCutShort(g, s', events, mac, ip, until)
  {
    SeedProtects(g, s, seed, mac, ip);
    StaticLeaseLastsIff(g, Step(g, s, seed).0, events, mac, ip, seed.now + STATIC_TERM);
  }
}
