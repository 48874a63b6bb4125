/**
 What an acknowledged lease is worth over every continuation, and for which addresses and
 configurations the promise holds.
 */
module Guarantees {
  import opened Wrappers
  import opened Config
  import opened LeaseTable
  import opened Allocation
  import opened ServerModel
  import opened StepEffects
  import opened Invariants

  // ---- A held address --------------------------------------------------------------

  /** The table protects `ip` for client `mac` until `until`. */
  ghost predicate Protected(t: Table, mac: Text, ip: IPv4, until: int) {
    ip in t && HeldBy(t[ip], mac) && until <= t[ip].end
  }

  /** The address is no other client's by configuration: getStaticIP returns it at most for `mac`. */
  ghost predicate NoOtherOwner(g: Global, statics: seq<StaticHost>, mac: Text, ip: IPv4) {
    forall m | StaticIP(g, statics, m) == Some(ip) :: NormalizeMAC(m) == mac
  }

  predicate SeedsAt(g: Global, ip: IPv4, e: Event) {
    e.input.SeedStaticLease? && g.resolve(e.input.host.ipAddress) == Some(ip)
  }

  /** Only the client itself is seeded at the address. */
  predicate SeedsOwnerOnly(g: Global, mac: Text, ip: IPv4, e: Event) {
    SeedsAt(g, ip, e) ==> NormalizeMAC(e.input.host.macAddress) == mac
  }

  /** The event does not cut the client's row short: a grant lasts as long, and the row is not ended. */
  ghost predicate Renews(g: Global, s: State, e: Event, mac: Text, ip: IPv4, until: int) {
    && (Written(g, s, e) == Some(Write(mac, ip)) ==> until <= LeaseEnd(g, e))
    && (Ended(e) == Some(mac) ==> GetLeaseByMAC(s.leases, mac) != Some(ip))
  }

  /** A protected address that is no other client's stays protected through a step exactly if the step renews it. */
  lemma StepProtectsIff(g: Global, s: State, e: Event, mac: Text, ip: IPv4, until: int)
    requires Consistent(s) && s.clock <= e.now <= until
    requires NoOtherOwner(g, s.statics, mac, ip) && SeedsOwnerOnly(g, mac, ip, e)
    requires Protected(s.leases, mac, ip, until)
    ensures Protected(Step(g, s, e).0.leases, mac, ip, until) <==> Renews(g, s, e, mac, ip, until)
    ensures Written(g, s, e).Some? && Written(g, s, e).value.ip == ip ==> Written(g, s, e).value.mac == mac
  {
    if Written(g, s, e).Some? {
      var w := Written(g, s, e).value;
      var row := WriteEffect(g, s, e);
      if w.ip == ip && e.input.Packet? {
        assert Normalized(s.leases[ip].mac);
        assert w.mac == mac;
      }
    } else {
      OtherEffect(g, s, e);
    }
  }

  /** No request, release or administrative call by which the owner or the operator gives the address away. */
  predicate Undisturbed(g: Global, mac: Text, ip: IPv4, until: int, e: Event) {
    && Ended(e) != Some(mac)
    && SeedsOwnerOnly(g, mac, ip, e)
    && (SeedsAt(g, ip, e) ==> until <= e.now + STATIC_TERM)
  }

  /** One step cannot take a protected address from its owner, unless it is another client's by configuration. */
  lemma StepProtects(g: Global, s: State, e: Event, mac: Text, ip: IPv4, until: int)
    requires Consistent(s) && s.clock <= e.now <= until <= e.now + g.Term()
    requires NoOtherOwner(g, s.statics, mac, ip)
    requires Protected(s.leases, mac, ip, until)
    requires Undisturbed(g, mac, ip, until, e)
    ensures Protected(Step(g, s, e).0.leases, mac, ip, until)
    ensures Written(g, s, e).Some? && Written(g, s, e).value.ip == ip ==> Written(g, s, e).value.mac == mac
  {
    StepProtectsIff(g, s, e, mac, ip, until);
  }

  /** The client's only live row is `ip`, so every allocation for it returns `ip`. */
  ghost predicate Sole(t: Table, mac: Text, ip: IPv4, now: int) {
    forall other | other in t && other != ip && HeldBy(t[other], mac) :: t[other].end <= now
  }

  /** The client has no static address, or this one. */
  predicate MayBe(g: Global, statics: seq<StaticHost>, mac: Text, ip: IPv4) {
    StaticIP(g, statics, mac).Some? ==> StaticIP(g, statics, mac) == Some(ip)
  }

  lemma SoleLeaseIsReturned(g: Global, s: State, now: int, pings: Pings, mac: Text, ip: IPv4, requested: Option<IPv4>)
    requires MayBe(g, s.statics, mac, ip)
    requires ip in s.leases && HeldBy(s.leases[ip], NormalizeMAC(mac)) && now < s.leases[ip].end
    requires Sole(s.leases, NormalizeMAC(mac), ip, now)
    ensures Allocate(g, s, now, pings, mac, requested) == Outcome(Some(ip), s.deny)
  {
    StaticIPOfNormalized(g, s.statics, mac);
    LatestExists(s.leases, NormalizeMAC(mac), ip);
  }

  lemma StepKeepsSole(g: Global, s: State, e: Event, mac: Text, ip: IPv4, until: int)
    requires Consistent(s) && s.clock <= e.now < until
    requires MayBe(g, s.statics, mac, ip)
    requires Protected(s.leases, mac, ip, until) && Sole(s.leases, mac, ip, s.clock)
    requires SeedsInPlace(g, mac, ip, e)
    ensures Sole(Step(g, s, e).0.leases, mac, ip, e.now)
  {
    if Written(g, s, e).Some? {
      var w := Written(g, s, e).value;
      var row := WriteEffect(g, s, e);
      assert s.leases[ip].mac == mac && Live(s.leases[ip], e.now);
      if w.mac == mac {
        assert ClientHasLiveRow(s, e.now, mac);
        assert w.ip == ip;
      }
    } else {
      OtherEffect(g, s, e);
    }
  }

  /** The client itself is seeded nowhere else. */
  predicate SeedsInPlace(g: Global, mac: Text, ip: IPv4, e: Event) {
    e.input.SeedStaticLease? && NormalizeMAC(e.input.host.macAddress) == mac ==>
      g.resolve(e.input.host.ipAddress).None? || SeedsAt(g, ip, e)
  }

  /** A configuration under which the client may hold the address: it is in a subnet, and theirs or nobody's. */
  ghost predicate MayHold(g: Global, subnets: seq<SubnetConfig>, statics: seq<StaticHost>, mac: Text, ip: IPv4) {
    NoOtherOwner(g, statics, mac, ip) && MayBe(g, statics, mac, ip) && FindSubnetForIP(g, subnets, ip).Some?
  }

  /** Before `until`, undisturbed, and with configurations under which the client may hold the address. */
  ghost predicate Quiet(g: Global, mac: Text, ip: IPv4, until: int, e: Event) {
    && e.now < until
    && Undisturbed(g, mac, ip, until, e)
    && SeedsInPlace(g, mac, ip, e)
    && (e.input.Refresh? ==> MayHold(g, e.input.subnets, e.input.statics, mac, ip))
  }

  /** A REQUEST of the client for the address, meant for this server. */
  predicate AsksFor(g: Global, e: Event, mac: Text, ip: IPv4) {
    && e.input.Packet? && e.input.msg.Request? && NormalizeMAC(e.input.msg.mac) == mac
    && e.input.msg.serverId in {None, Some(g.serverIP)}
    && RequestedAddress(e.input.msg.requested, e.input.msg.ciaddr) == Some(ip)
  }

  /**
   How a run treats the client that holds `ip`: nobody else is granted it; each DISCOVER of
   the client is answered with it, each REQUEST for it acknowledged, and no other acknowledged.
   */
  ghost predicate Honours(g: Global, s: State, mac: Text, ip: IPv4, e: Event) {
    var reply := Step(g, s, e).1;
    && ((reply.Ack? || reply.BootReply?) && reply.ip == ip ==> NormalizeMAC(PacketMAC(e)) == mac)
    && (reply.BootReply? && reply.ip == ip ==> StaticIP(g, s.statics, mac) == Some(ip))
    && (e.input.Packet? && e.input.msg.Discover? && NormalizeMAC(e.input.msg.mac) == mac ==>
          reply.Offer? && reply.ip == ip)
    && (AsksFor(g, e, mac, ip) ==> reply.Ack?)
    && (e.input.Packet? && e.input.msg.Request? && NormalizeMAC(e.input.msg.mac) == mac && reply.Ack? ==>
          reply.ip == ip)
  }

  /** Each event of a run finds a state that honours it. */
  ghost predicate AlwaysHonours(g: Global, s: State, mac: Text, ip: IPv4, events: seq<Event>) {
    forall i | 0 <= i < |events| :: Honours(g, Run(g, s, events[..i]), mac, ip, events[i])
  }

  lemma HonoursOneMore(g: Global, s: State, mac: Text, ip: IPv4, events: seq<Event>)
    requires events != [] && Honours(g, s, mac, ip, events[0])
    requires AlwaysHonours(g, Step(g, s, events[0]).0, mac, ip, events[1..])
    ensures AlwaysHonours(g, s, mac, ip, events)
  {
    var s' := Step(g, s, events[0]).0;
    forall i | 0 <= i < |events|
      ensures Honours(g, Run(g, s, events[..i]), mac, ip, events[i])
    {
      if i > 0 {
        assert events[..i][1..] == events[1..][..i - 1];
        assert Honours(g, Run(g, s', events[1..][..i - 1]), mac, ip, events[1..][i - 1]);
      }
    }
  }

  lemma StepHonours(g: Global, s: State, e: Event, mac: Text, ip: IPv4, until: int)
    requires Consistent(s) && s.clock <= e.now && until <= s.clock + g.Term()
    requires Normalized(mac) && MayHold(g, s.subnets, s.statics, mac, ip)
    requires Protected(s.leases, mac, ip, until) && Sole(s.leases, mac, ip, s.clock)
    requires Quiet(g, mac, ip, until, e)
    ensures Honours(g, s, mac, ip, e)
  {
    var reply := Step(g, s, e).1;
    if reply.Ack? || reply.BootReply? {
      StepProtects(g, s, e, mac, ip, until);
    }
    if e.input.Packet? && NormalizeMAC(PacketMAC(e)) == mac {
      StaticIPOfNormalized(g, s.statics, PacketMAC(e));
      if e.input.msg.Discover? {
        SoleLeaseIsReturned(g, s, e.now, e.input.pings, e.input.msg.mac, ip, e.input.msg.requested);
      } else if e.input.msg.Request? {
        SoleLeaseIsReturned(g, s, e.now, e.input.pings, e.input.msg.mac, ip,
                            RequestedAddress(e.input.msg.requested, e.input.msg.ciaddr));
      }
    }
  }

  /** One quiet step keeps the client where it is. */
  lemma StepStays(g: Global, s: State, e: Event, mac: Text, ip: IPv4, until: int)
    requires Consistent(s) && s.clock <= e.now && until <= s.clock + g.Term()
    requires MayHold(g, s.subnets, s.statics, mac, ip)
    requires Protected(s.leases, mac, ip, until) && Sole(s.leases, mac, ip, s.clock)
    requires Quiet(g, mac, ip, until, e)
    ensures var s' := Step(g, s, e).0;
      && Consistent(s') && s'.clock == e.now
      && MayHold(g, s'.subnets, s'.statics, mac, ip)
      && Protected(s'.leases, mac, ip, until) && Sole(s'.leases, mac, ip, s'.clock)
  {
    StepProtects(g, s, e, mac, ip, until);
    StepKeepsSole(g, s, e, mac, ip, until);
    StepConserves(g, s, e);
    OtherFields(g, s, e);
  }

  /**
   The lease guarantee: once `mac` holds an address that is no other client's by
   configuration as its only live lease, then in every run before `until` without a RELEASE
   of its own or an administrative change to it -- other configuration changes are welcome --
   the row stays with `mac`, active, ending no earlier than `until`; nobody else is granted
   the address; every DISCOVER of `mac` is answered with it and every REQUEST acknowledged.
   */
  lemma {:induction false} LeaseIsHonoured(g: Global, s: State, events: seq<Event>, mac: Text, ip: IPv4, until: int)
    requires Consistent(s) && Ordered(s.clock, events) && until <= s.clock + g.Term()
    requires Normalized(mac) && MayHold(g, s.subnets, s.statics, mac, ip)
    requires Protected(s.leases, mac, ip, until) && Sole(s.leases, mac, ip, s.clock)
    requires forall i | 0 <= i < |events| :: Quiet(g, mac, ip, until, events[i])
    ensures Protected(Run(g, s, events).leases, mac, ip, until)
    ensures AlwaysHonours(g, s, mac, ip, events)
    decreases |events|
  {
    if events != [] {
      StepHonours(g, s, events[0], mac, ip, until);
      StepStays(g, s, events[0], mac, ip, until);
      LeaseIsHonoured(g, Step(g, s, events[0]).0, events[1..], mac, ip, until);
      HonoursOneMore(g, s, mac, ip, events);
    }
  }

  /**
   An ACK starts such a lease: after an ACK, of an address that is no other client's by
   configuration, to a client that holds no other live lease, the guarantee holds for one
   lease term from then on.
   */
  lemma {:induction false} AckedLeaseIsHonoured(g: Global, s: State, ack: Event, events: seq<Event>)
    requires Consistent(s) && s.clock <= ack.now && Step(g, s, ack).1.Ack?
    requires NoOtherOwner(g, s.statics, NormalizeMAC(PacketMAC(ack)), Step(g, s, ack).1.ip)
    requires Sole(s.leases, NormalizeMAC(PacketMAC(ack)), Step(g, s, ack).1.ip, ack.now)
    requires Ordered(ack.now, events)
    requires var mac := NormalizeMAC(PacketMAC(ack));
      forall i | 0 <= i < |events| :: Quiet(g, mac, Step(g, s, ack).1.ip, ack.now + g.Term(), events[i])
    ensures var (s', reply) := Step(g, s, ack);
      var mac := NormalizeMAC(PacketMAC(ack));
      && Protected(Run(g, s', events).leases, mac, reply.ip, ack.now + g.Term())
      && AlwaysHonours(g, s', mac, reply.ip, events)
  {
    var (s', reply) := Step(g, s, ack);
    var mac := NormalizeMAC(PacketMAC(ack));
    var row := WriteEffect(g, s, ack);
    StepConserves(g, s, ack);
    OtherFields(g, s, ack);
    AckMayBe(g, s, ack);
    if events != [] {
      LeaseIsHonoured(g, s', events, mac, reply.ip, ack.now + g.Term());
    }
  }

  lemma AckMayBe(g: Global, s: State, ack: Event)
    requires Step(g, s, ack).1.Ack?
    ensures MayBe(g, s.statics, NormalizeMAC(PacketMAC(ack)), Step(g, s, ack).1.ip)
    ensures FindSubnetForIP(g, s.subnets, Step(g, s, ack).1.ip).Some?
  {
    var _ := WriteEffect(g, s, ack);
  }

  /** Where every client has at most one live lease, an ACK always goes to a client without another. */
  lemma AckIsSole(g: Global, s: State, ack: Event)
    requires Consistent(s) && OneLivePerClient(g, s) && s.clock <= ack.now && Step(g, s, ack).1.Ack?
    ensures Sole(s.leases, NormalizeMAC(PacketMAC(ack)), Step(g, s, ack).1.ip, ack.now)
  {
    var ip := Step(g, s, ack).1.ip;
    var mac := NormalizeMAC(PacketMAC(ack));
    var _ := WriteEffect(g, s, ack);
    forall other | other in s.leases && other != ip && HeldBy(s.leases[other], mac)
      ensures s.leases[other].end <= ack.now
    {
      if ack.now < s.leases[other].end {
        assert ClientHasLiveRow(s, ack.now, mac);
        assert Live(s.leases[other], s.clock);
      }
    }
  }

  // ---- Exactly when the promise holds ----------------------------------------------

  ghost predicate TakesOver(g: Global, s: State, ip: IPv4, e: Event)
    requires ip in s.leases
  {
    && s.clock <= e.now <= s.leases[ip].end
    && Step(g, s, e).1.Ack?
    && Step(g, s, e).1.ip == ip
    && NormalizeMAC(PacketMAC(e)) != s.leases[ip].mac
  }

  ghost predicate ReservedForOther(g: Global, s: State, ip: IPv4, other: Text)
    requires ip in s.leases
  {
    NormalizeMAC(other) != s.leases[ip].mac && StaticIP(g, s.statics, other) == Some(ip)
  }

  /**
   Reserved addresses are the exception, and the only one: a live lease can be acknowledged
   to another client before it ends if and only if the address is another client's static
   address inside a configured subnet.
   */
  lemma LiveLeaseCanBeTakenIffReserved(g: Global, s: State, ip: IPv4)
    requires Consistent(s) && ip in s.leases && Live(s.leases[ip], s.clock) && ip != UNSPECIFIED
    ensures (exists e :: TakesOver(g, s, ip, e)) <==>
      (FindSubnetForIP(g, s.subnets, ip).Some? && exists other :: ReservedForOther(g, s, ip, other))
  {
    if e :| TakesOver(g, s, ip, e) {
      var row := WriteEffect(g, s, e);
      var w := Written(g, s, e).value;
      assert Normalized(s.leases[ip].mac);
      StaticIPOfNormalized(g, s.statics, PacketMAC(e));
      EveryAckIsRecorded(g, s, e);
      assert ReservedForOther(g, s, ip, w.mac);
    }
    if FindSubnetForIP(g, s.subnets, ip).Some? {
      if other :| ReservedForOther(g, s, ip, other) {
        var e := Event(s.clock, Packet(Request(other, None, Some(ip), UNSPECIFIED, []), {}, true));
        StaticIPOfNormalized(g, s.statics, other);
        assert Allocate(g, s, s.clock, {}, other, Some(ip)).ip == Some(ip);
        assert TakesOver(g, s, ip, e);
      }
    }
  }

  /**
   A negative term voids every lease at once: right after an ACK the address is kept from
   all other clients if and only if the configured term, after wrapping, is not negative.
   */
  lemma AckProtectsIffTermNonNegative(g: Global, s: State, ack: Event, pings: Pings)
    requires Consistent(s) && s.clock <= ack.now && Step(g, s, ack).1.Ack?
    requires var (s', reply) := Step(g, s, ack); reply.ip !in s'.deny
    ensures var (s', reply) := Step(g, s, ack);
      (forall other | NormalizeMAC(other) != NormalizeMAC(PacketMAC(ack)) ::
         !Available(ProbeFor(g, s', ack.now, pings, other), s'.deny, reply.ip))
      <==> g.Term() >= 0
  {
    var (s', reply) := Step(g, s, ack);
    var mac := NormalizeMAC(PacketMAC(ack));
    var row := WriteEffect(g, s, ack);
    NormalizeMACIsIdempotent(PacketMAC(ack));
    if g.Term() < 0 {
      var other := mac + [48];
      assert |NormalizeMAC(other)| != |mac|;
      assert Available(ProbeFor(g, s', ack.now, pings, other), s'.deny, reply.ip);
    }
  }

  // ---- Denied addresses ------------------------------------------------------------

  /** Denied, not reserved, and not protected by any lease. */
  ghost predicate Banned(g: Global, s: State, ip: IPv4) {
    && ip in s.deny
    && !Reserved(g, s.statics, ip)
    && (ip in s.leases ==> !Live(s.leases[ip], s.clock))
  }

  ghost predicate DoesNotReserve(g: Global, ip: IPv4, e: Event) {
    && (e.input.Refresh? ==> !Reserved(g, e.input.statics, ip))
    && (e.input.SeedStaticLease? ==> g.resolve(e.input.host.ipAddress) != Some(ip))
  }

  predicate Assigns(reply: Reply, ip: IPv4) {
    (reply.Offer? || reply.Ack? || reply.BootReply?) && reply.ip == ip
  }

  lemma StepKeepsBan(g: Global, s: State, e: Event, ip: IPv4)
    requires s.clock <= e.now && Banned(g, s, ip) && DoesNotReserve(g, ip, e)
    ensures Banned(g, Step(g, s, e).0, ip)
    ensures !Assigns(Step(g, s, e).1, ip)
  {
    OtherFields(g, s, e);
    if Written(g, s, e).Some? {
      var row := WriteEffect(g, s, e);
    } else {
      OtherEffect(g, s, e);
      if Step(g, s, e).1.Offer? {
        var p := ProbeFor(g, s, e.now, e.input.pings, e.input.msg.mac);
        GrantCases(g, s.subnets, s.statics, p, s.deny, e.input.msg.requested);
      }
    }
  }

  /**
   Denial is permanent: over every run, whatever configurations it loads, a denied address
   that is never reserved and carries no live lease is not offered or acknowledged again.
   */
  lemma {:induction false} DenialIsPermanent(g: Global, s: State, events: seq<Event>, ip: IPv4)
    requires Ordered(s.clock, events) && Banned(g, s, ip)
    requires forall i | 0 <= i < |events| :: DoesNotReserve(g, ip, events[i])
    ensures Banned(g, Run(g, s, events), ip)
    ensures forall i | 0 <= i < |Replies(g, s, events)| :: !Assigns(Replies(g, s, events)[i], ip)
    decreases |events|
  {
    if events != [] {
      StepKeepsBan(g, s, events[0], ip);
      OtherFields(g, s, events[0]);
      DenialIsPermanent(g, Step(g, s, events[0]).0, events[1..], ip);
    }
  }

  // ---- DISCOVER, OFFER, REQUEST, ACK -----------------------------------------------

  /**
   An offered address that is requested next, at any later time, is acknowledged -- although
   an OFFER reserves nothing -- exactly when the client has it statically or still live, or
   the address is not denied and stays silent to the ping.
   */
  lemma OfferIsHonouredByNextRequest(g: Global, s: State, discover: Event, request: Event)
    requires Consistent(s) && s.clock <= discover.now <= request.now
    requires discover.input.Packet? && discover.input.msg.Discover?
    requires var (s', reply) := Step(g, s, discover);
      && reply.Offer? && reply.ip != UNSPECIFIED
      && request.input.Packet?
      && request.input.msg.Request?
      && request.input.msg.mac == discover.input.msg.mac
      && !ForAnotherServer(g, request.input.msg)
      && RequestedAddress(request.input.msg.requested, request.input.msg.ciaddr) == Some(reply.ip)
    ensures var (s', reply) := Step(g, s, discover);
      var answer := Step(g, s', request).1;
      if
        || StaticIP(g, s.statics, discover.input.msg.mac).Some?
        || ClientHasLiveRow(s', request.now, NormalizeMAC(discover.input.msg.mac))
        || (reply.ip !in s'.deny && !AnswersPing(request.input.pings, g.pingRetries, reply.ip))
      then answer == Ack(reply.ip, reply.subnet)
      else answer == Nak
  {
    var (s', reply) := Step(g, s, discover);
    var mac := discover.input.msg.mac;
    var p := ProbeFor(g, s, discover.now, discover.input.pings, mac);
    var p' := ProbeFor(g, s', request.now, request.input.pings, mac);
    StaticIPOfNormalized(g, s.statics, mac);
    assert HasLiveRow(p') <==> ClientHasLiveRow(s', request.now, NormalizeMAC(mac));
    OfferedStaysAllocatable(g, s, p, p', discover.input.msg.requested);
  }

  lemma OfferedStaysAllocatable(g: Global, s: State, p: Probe, p': Probe, requested: Option<IPv4>)
    requires UniqueIds(p.leases) && (forall k | k in p.leases :: Normalized(p.leases[k].mac))
    requires p'.leases == p.leases && p'.mac == p.mac && p.now <= p'.now
    requires var r := AllocateIP(g, s.subnets, s.statics, p, s.deny, requested);
      r.ip.Some? && r.ip.value != UNSPECIFIED
    ensures var r := AllocateIP(g, s.subnets, s.statics, p, s.deny, requested);
      AllocateIP(g, s.subnets, s.statics, p', r.deny, r.ip).ip == r.ip <==>
        || StaticIP(g, s.statics, p.mac).Some?
        || HasLiveRow(p')
        || (r.ip.value !in r.deny && !Answers(p', r.ip.value))
  {
    var r := AllocateIP(g, s.subnets, s.statics, p, s.deny, requested);
    AllocationFollowsPriority(g, s.subnets, s.statics, p, s.deny, requested);
    AllocationDeniesSquatters(g, s.subnets, s.statics, p, s.deny, requested);
    LiveLeaseIsLive(p);
    LiveLeaseIsLive(p');
    var again := AllocateIP(g, s.subnets, s.statics, p', r.deny, r.ip);
    if again.ip.Some? {
      AllocationFollowsPriority(g, s.subnets, s.statics, p', r.deny, r.ip);
    }
  }
}
