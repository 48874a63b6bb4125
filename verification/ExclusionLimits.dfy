/**
 What mutual exclusion rests on, exactly: a row that lasts as long as the client was told,
 and no RELEASE or revocation that frees an address under a client's claim.
 */
module ExclusionLimits {
  import opened Wrappers
  import opened Config
  import opened LeaseTable
  import opened Allocation
  import opened ServerModel
  import opened StepEffects
  import opened Exclusion

  function PlainRequest(mac: Text, ip: IPv4, now: int): RequestMsg {
    RequestMsg(mac, now, None, Some(ip), UNSPECIFIED, [])
  }

  /** A dynamic client without a live lease that nothing stands in the way of. */
  ghost predicate MayTake(g: Global, s: State, now: int, mac: Text, ip: IPv4) {
    && g.pingRetries > 0 && ip != UNSPECIFIED
    && FindSubnetForIP(g, s.subnets, ip).Some?
    && StaticIP(g, s.statics, mac).None?
    && !ClientHasLiveRow(s, now, NormalizeMAC(mac))
    && ip !in s.deny
    && Claimable(s, now, Write(NormalizeMAC(mac), ip))
  }

  lemma FreeRequestIsAcked(g: Global, s: State, now: int, mac: Text, ip: IPv4)
    requires MayTake(g, s, now, mac, ip)
    ensures var (s', reply) := Step(g, s, RequestEvent(PlainRequest(mac, ip, now), now, {}, true));
      && reply.Ack? && reply.ip == ip
      && s'.subnets == s.subnets && s'.statics == s.statics && s'.deny == s.deny
      && s'.leases == Upsert(s.leases, s.nextId, NormalizeMAC(mac), ip, [], now, now + g.Term(),
                             IsStaticLease(s.statics, mac))
  {
    var p := ProbeFor(g, s, now, {}, mac);
    LiveLeaseIsLive(p);
    StaticIPOfNormalized(g, s.statics, mac);
    assert (ip, 0) !in p.pings;
    assert Allocate(g, s, now, {}, mac, Some(ip)) == Outcome(Some(ip), s.deny);
  }

  /** A static host's REQUEST for its own address is acknowledged whoever holds the row. */
  lemma OwnerIsAcked(g: Global, s: State, now: int, mac: Text, ip: IPv4)
    requires StaticIP(g, s.statics, mac) == Some(ip) && ip != UNSPECIFIED
    requires FindSubnetForIP(g, s.subnets, ip).Some?
    ensures var (s', reply) := Step(g, s, RequestEvent(PlainRequest(mac, ip, now), now, {}, true));
      && reply.Ack? && reply.ip == ip
      && s'.subnets == s.subnets && s'.statics == s.statics && s'.deny == s.deny
      && s'.leases == Upsert(s.leases, s.nextId, NormalizeMAC(mac), ip, [], now, now + g.Term(),
                             IsStaticLease(s.statics, mac))
  {
    StaticIPOfNormalized(g, s.statics, mac);
    assert Allocate(g, s, now, {}, mac, Some(ip)) == Outcome(Some(ip), s.deny);
  }

  /** The three moves by which a client gets an address. */
  function Take(mac: Text, ip: IPv4, now: int, leaseSeconds: IPv4): seq<Timed> {
    [Timed(now, ClientRequests(PlainRequest(mac, ip, now))),
     Timed(now, ServerReceives(PlainRequest(mac, ip, now), {}, true)),
     Timed(now, ClientAccepts(AckMsg(mac, ip, now, leaseSeconds)))]
  }

  lemma TakeSucceeds(g: Global, y: System, mac: Text, ip: IPv4, now: int)
    requires y.clock <= now
    requires var reply := Step(g, y.server, RequestEvent(PlainRequest(mac, ip, now), now, {}, true)).1;
      reply.Ack? && reply.ip == ip
    ensures var moves := Take(mac, ip, now, g.LeaseOption());
      var y' := After(g, y, moves);
      && Possible(g, y, moves) && AlwaysSpares(g, y, ip, moves)
      && y'.clock == now
      && y'.beliefs == y.beliefs + {BeliefOf(AckMsg(mac, ip, now, g.LeaseOption()))}
      && y'.server == Step(g, y.server, RequestEvent(PlainRequest(mac, ip, now), now, {}, true)).0
  {
    var moves := Take(mac, ip, now, g.LeaseOption());
    var y1 := Next(g, y, moves[0]);
    var y2 := Next(g, y1, moves[1]);
    assert moves[1..][0] == moves[1] && moves[1..][1..][0] == moves[2];
    assert Enabled(y, moves[0]) && Enabled(y1, moves[1]) && Enabled(y2, moves[2]);
    assert After(g, y2, [moves[2]]) == Next(g, y2, moves[2]);
    assert moves[1..][1..] == [moves[2]];
    assert Possible(g, y2, [moves[2]]);
    assert AlwaysSpares(g, y2, ip, [moves[2]]);
  }

  lemma {:induction false} MovesAppend(g: Global, y: System, ip: IPv4, first: seq<Timed>, rest: seq<Timed>)
    requires Possible(g, y, first) && Possible(g, After(g, y, first), rest)
    requires AlwaysSpares(g, y, ip, first) && AlwaysSpares(g, After(g, y, first), ip, rest)
    ensures Possible(g, y, first + rest) && AlwaysSpares(g, y, ip, first + rest)
    ensures After(g, y, first + rest) == After(g, After(g, y, first), rest)
    decreases |first|
  {
    if first == [] {
      assert first + rest == rest;
    } else {
      assert (first + rest)[1..] == first[1..] + rest;
      MovesAppend(g, Next(g, y, first[0]), ip, first[1..], rest);
    }
  }

  function Initially(subnets: seq<SubnetConfig>, statics: seq<StaticHost>, now: int): System {
    System(Start(subnets, statics, now), {}, {}, {}, now)
  }

  /** In every run that spares the address, no two clients ever hold it. */
  ghost predicate AlwaysExclusive(g: Global, y: System, ip: IPv4) {
    forall moves | Possible(g, y, moves) && AlwaysSpares(g, y, ip, moves) :: Exclusive(After(g, y, moves), ip)
  }

  // ---- The lease time --------------------------------------------------------------

  /** The term and the seconds of option 51 differ by a multiple of 512 ticks. */
  lemma TermIsCoarse(g: Global)
    ensures g.Term() % 512 == 0
  {
    var m := g.leaseTime * 1953125;
    assert g.leaseTime * SECOND == 512 * m;
    WrapIsCoarse(m);
  }

  /** Wrapping at 64 bits takes away multiples of 512. */
  lemma WrapIsCoarse(m: int)
    ensures Wrap64(512 * m) % 512 == 0
  {
    var y := 512 * m + 0x8000_0000_0000_0000;
    var k := y / 0x1_0000_0000_0000_0000;
    assert y % 0x1_0000_0000_0000_0000 == y - 0x1_0000_0000_0000_0000 * k;
    assert Wrap64(512 * m) == 512 * (m - 0x80_0000_0000_0000 * k);
  }

  /** The first moment after `now` at which a row written at `now` no longer keeps others off. */
  function Lapse(g: Global, now: int): int {
    if g.Term() < 0 then now else now + g.Term() + 1
  }

  lemma BeliefOutlivesRow(g: Global, mac: Text, ip: IPv4, now: int)
    requires !TermCovers(g)
    ensures !Over(BeliefOf(AckMsg(mac, ip, now, g.LeaseOption())).end, Lapse(g, now))
  {
    TermIsCoarse(g);
    assert g.LeaseOption() * SECOND == 512 * (g.LeaseOption() * 1953125);
    assert g.LeaseOption() * SECOND - g.Term() != 1;
  }

  /** Where the term does not cover the lease option, a second client takes the address when the row lapses. */
  lemma UncoveredTermBreaksExclusion(g: Global, subnets: seq<SubnetConfig>, statics: seq<StaticHost>, now: int,
                                     a: Text, b: Text, ip: IPv4)
    requires !TermCovers(g) && !SameClient(a, b)
    requires MayTake(g, Start(subnets, statics, now), now, a, ip)
    requires MayTake(g, Start(subnets, statics, now), now, b, ip)
    ensures !AlwaysExclusive(g, Initially(subnets, statics, now), ip)
  {
    var y := Initially(subnets, statics, now);
    var later := Lapse(g, now);
    var first := Take(a, ip, now, g.LeaseOption());
    FreeRequestIsAcked(g, y.server, now, a, ip);
    TakeSucceeds(g, y, a, ip, now);
    var y1 := After(g, y, first);
    assert MayTake(g, y1.server, later, b, ip);
    var second := Take(b, ip, later, g.LeaseOption());
    FreeRequestIsAcked(g, y1.server, later, b, ip);
    TakeSucceeds(g, y1, b, ip, later);
    var y2 := After(g, y1, second);
    MovesAppend(g, y, ip, first, second);
    BeliefOutlivesRow(g, a, ip, now);
    assert BeliefOf(AckMsg(a, ip, now, g.LeaseOption())) in y2.beliefs;
    assert BeliefOf(AckMsg(b, ip, later, g.LeaseOption())) in y2.beliefs;
    assert !Exclusive(y2, ip);
  }

  /** A static host takes its address from a dynamic client that has just got it. */
  lemma AssignedAddressBreaksExclusion(g: Global, subnets: seq<SubnetConfig>, statics: seq<StaticHost>, now: int,
                                       a: Text, h: Text, ip: IPv4)
    requires g.LeaseOption() > 0 && StaticIP(g, statics, h) == Some(ip)
    requires MayTake(g, Start(subnets, statics, now), now, a, ip)
    ensures !AlwaysExclusive(g, Initially(subnets, statics, now), ip)
  {
    var y := Initially(subnets, statics, now);
    var first := Take(a, ip, now, g.LeaseOption());
    FreeRequestIsAcked(g, y.server, now, a, ip);
    TakeSucceeds(g, y, a, ip, now);
    var y1 := After(g, y, first);
    var second := Take(h, ip, now, g.LeaseOption());
    OwnerIsAcked(g, y1.server, now, h, ip);
    TakeSucceeds(g, y1, h, ip, now);
    var y2 := After(g, y1, second);
    MovesAppend(g, y, ip, first, second);
    StaticIPOfNormalized(g, statics, a);
    StaticIPOfNormalized(g, statics, h);
    assert BeliefOf(AckMsg(a, ip, now, g.LeaseOption())) in y2.beliefs;
    assert BeliefOf(AckMsg(h, ip, now, g.LeaseOption())) in y2.beliefs;
    assert !Exclusive(y2, ip);
  }

  /** With a zero duration in option 51 no client ever holds anything. */
  ghost predicate NothingHeld(y: System) {
    && (forall m | m in y.requests :: m.sentAt <= y.clock)
    && (forall a | a in y.acks :: Over(BeliefOf(a).end, y.clock))
    && (forall b | b in y.beliefs :: Over(b.end, y.clock))
  }

  lemma {:induction false} ZeroDurationHoldsNothing(g: Global, y: System, ip: IPv4, moves: seq<Timed>)
    requires g.LeaseOption() == 0 && NothingHeld(y) && Possible(g, y, moves)
    ensures Exclusive(After(g, y, moves), ip)
    decreases |moves|
  {
    if moves != [] {
      assert NothingHeld(Next(g, y, moves[0]));
      ZeroDurationHoldsNothing(g, Next(g, y, moves[0]), ip, moves[1..]);
    }
  }

  /**
   Mutual exclusion holds in every run exactly when clients are told a duration of zero, or
   the term of a row covers the duration they are told and no static host is assigned the
   address. Nothing in the configuration loader refuses a lease time for which it does not.
   */
  lemma ExclusionHoldsIff(g: Global, subnets: seq<SubnetConfig>, statics: seq<StaticHost>, now: int,
                          a: Text, b: Text, ip: IPv4)
    requires !SameClient(a, b)
    requires MayTake(g, Start(subnets, statics, now), now, a, ip)
    requires MayTake(g, Start(subnets, statics, now), now, b, ip)
    ensures AlwaysExclusive(g, Initially(subnets, statics, now), ip) <==>
      g.LeaseOption() == 0 || (TermCovers(g) && !Assigned(g, statics, ip))
  {
    var y := Initially(subnets, statics, now);
    if g.LeaseOption() == 0 {
      forall moves | Possible(g, y, moves) && AlwaysSpares(g, y, ip, moves)
        ensures Exclusive(After(g, y, moves), ip)
      {
        ZeroDurationHoldsNothing(g, y, ip, moves);
      }
    } else if !TermCovers(g) {
      UncoveredTermBreaksExclusion(g, subnets, statics, now, a, b, ip);
    } else if h :| StaticIP(g, statics, h) == Some(ip) {
      AssignedAddressBreaksExclusion(g, subnets, statics, now, a, h, ip);
    } else {
      forall moves | Possible(g, y, moves) && AlwaysSpares(g, y, ip, moves)
        ensures Exclusive(After(g, y, moves), ip)
      {
        NoTwoClientsShareAnAddress(g, y, ip, moves);
      }
    }
  }

  /**
   Which lease times those are, as long as the term does not wrap: all that are not negative
   but the two that option 51 turns into "for ever", and those negative ones it cuts to zero.
   Beyond, both numbers wrap: 10000000000 breaks exclusion and -10000000000 does not.
   */
  lemma LeaseTimesThatCover(g: Global)
    ensures 0 <= g.leaseTime <= 9223372036 ==>
      (TermCovers(g) <==> g.leaseTime != 0xFFFF_FFFF && g.leaseTime != 0x1_FFFF_FFFF)
    ensures -9223372036 <= g.leaseTime < 0 ==> (TermCovers(g) <==> g.leaseTime % 0x1_0000_0000 == 0)
    ensures g.leaseTime == 10_000_000_000 ==> !TermCovers(g) && g.Term() < 0 && g.LeaseOption() == 1410065408
    ensures g.leaseTime == -10_000_000_000 ==> TermCovers(g) && g.Term() > 0 && g.LeaseOption() == 2884901888
    ensures g.leaseTime == 18_446_744_074 ==> !TermCovers(g) && 0 < g.Term() < SECOND
  {
    if 0 <= g.leaseTime <= 9223372036 {
      assert g.Term() == g.leaseTime * SECOND;
      assert g.LeaseOption() <= g.leaseTime;
    } else if -9223372036 <= g.leaseTime < 0 {
      assert g.Term() == g.leaseTime * SECOND;
    }
  }

  // ---- RELEASEs that arrive late, and revocations ----------------------------------

  /** A late RELEASE arrives, or the operator revokes the client's lease. */
  predicate IsEnding(input: Input) {
    input.RevokeStaticLease? || (input.Packet? && input.msg.Release?)
  }

  ghost function AfterEnding(g: Global, y: System, input: Input, now: int): System {
    Next(g, y, Timed(now, Background(input)))
  }

  /** An ending that frees no claimed address is harmless in every continuation. */
  lemma EndingIsHarmless(g: Global, y: System, input: Input, now: int, mac: Text, ip: IPv4)
    requires TermCovers(g) && AllBacked(g, y, ip) && y.clock <= now
    requires IsEnding(input) && Ended(Event(now, input)) == Some(mac) && !Frees(y, mac, ip, now)
    ensures AllBacked(g, AfterEnding(g, y, input, now), ip)
    ensures AlwaysExclusive(g, AfterEnding(g, y, input, now), ip)
  {
    var y' := AfterEnding(g, y, input, now);
    NextKeepsBacked(g, y, ip, Timed(now, Background(input)));
    forall moves | Possible(g, y', moves) && AlwaysSpares(g, y', ip, moves)
      ensures Exclusive(After(g, y', moves), ip)
    {
      RunKeepsBacked(g, y', ip, moves);
      BackedIsExclusive(g, After(g, y', moves), ip);
    }
  }

  lemma EndingFrees(g: Global, y: System, input: Input, now: int, mac: Text, ip: IPv4)
    requires IsEnding(input) && Ended(Event(now, input)) == Some(mac)
    requires GetLeaseByMAC(y.server.leases, mac) == Some(ip)
    ensures var y' := AfterEnding(g, y, input, now);
      && ip in y.server.leases
      && y'.server.leases == y.server.leases[ip := y.server.leases[ip].(state := Expired, end := now)]
      && y'.server.deny == y.server.deny && y'.server.subnets == y.server.subnets
      && y'.server.statics == y.server.statics
      && y'.acks == y.acks && y'.beliefs == y.beliefs && y'.clock == now
  {
  }

  /** Another client that could take the address once nobody's row protects it. */
  ghost predicate Waits(g: Global, s: State, now: int, mac: Text, b: Text, ip: IPv4) {
    && g.pingRetries > 0 && ip != UNSPECIFIED && ip !in s.deny
    && FindSubnetForIP(g, s.subnets, ip).Some?
    && NormalizeMAC(b) != mac && StaticIP(g, s.statics, b).None?
    && !ClientHasLiveRow(s, now, NormalizeMAC(b))
  }

  lemma WaitingMayTake(g: Global, y: System, input: Input, now: int, mac: Text, ip: IPv4, b: Text)
    requires IsEnding(input) && Ended(Event(now, input)) == Some(mac)
    requires GetLeaseByMAC(y.server.leases, mac) == Some(ip)
    requires Waits(g, y.server, now + 1, mac, b, ip)
    ensures MayTake(g, AfterEnding(g, y, input, now).server, now + 1, b, ip)
  {
    EndingFrees(g, y, input, now, mac, ip);
    var s' := AfterEnding(g, y, input, now).server;
    forall k | k in s'.leases && s'.leases[k].mac == NormalizeMAC(b)
      ensures !Live(s'.leases[k], now + 1)
    {
      assert k in y.server.leases;
    }
  }

  /** A claim that is only an ACK in the network yet can still be accepted. */
  lemma ClaimBecomesBelief(g: Global, y: System, ip: IPv4, c: Belief) returns (moves: seq<Timed>)
    requires c in Claims(y)
    ensures Possible(g, y, moves) && AlwaysSpares(g, y, ip, moves)
    ensures var y' := After(g, y, moves);
      c in y'.beliefs && y'.server == y.server && y'.clock == y.clock
  {
    if c in y.beliefs {
      moves := [];
    } else {
      var a :| a in y.acks && BeliefOf(a) == c;
      moves := [Timed(y.clock, ClientAccepts(a))];
      var y' := Next(g, y, moves[0]);
      assert moves[1..] == [];
      assert Possible(g, y', []) && AlwaysSpares(g, y', ip, []) && After(g, y', []) == y';
    }
  }

  /**
   Why a RELEASE is taken as atomic with its delivery: one that arrives late, or a revocation,
   and that ends the very lease a client still claims lets a second client take the address
   while the first holds it.
   */
  lemma StaleReleaseBreaksExclusion(g: Global, y: System, input: Input, now: int, mac: Text, ip: IPv4, b: Text)
    requires g.LeaseOption() > 0 && y.clock <= now
    requires IsEnding(input) && Ended(Event(now, input)) == Some(mac) && Frees(y, mac, ip, now)
    requires Waits(g, y.server, now + 1, mac, b, ip)
    ensures !AlwaysExclusive(g, AfterEnding(g, y, input, now), ip)
  {
    var y1 := AfterEnding(g, y, input, now);
    EndingFrees(g, y, input, now, mac, ip);
    WaitingMayTake(g, y, input, now, mac, ip, b);
    var c :| c in Claims(y) && c.ip == ip && NormalizeMAC(c.mac) == mac && !Over(c.end, now + 1);
    var accept := ClaimBecomesBelief(g, y1, ip, c);
    var y2 := After(g, y1, accept);
    FreeRequestIsAcked(g, y2.server, now + 1, b, ip);
    TakeSucceeds(g, y2, b, ip, now + 1);
    var take := Take(b, ip, now + 1, g.LeaseOption());
    MovesAppend(g, y1, ip, accept, take);
    var y3 := After(g, y2, take);
    assert c in y3.beliefs && BeliefOf(AckMsg(b, ip, now + 1, g.LeaseOption())) in y3.beliefs;
    assert !Exclusive(y3, ip);
  }

  /**
   Exactly when a late RELEASE or a revocation is harmless: if another client waits for the
   address, exclusion survives in every continuation if and only if the lease it ends is not
   the one behind a claim that is still open one tick later.
   */
  lemma ExclusionSurvivesEndingIff(g: Global, y: System, input: Input, now: int, mac: Text, ip: IPv4, b: Text)
    requires TermCovers(g) && g.LeaseOption() > 0 && AllBacked(g, y, ip) && y.clock <= now
    requires IsEnding(input) && Ended(Event(now, input)) == Some(mac)
    requires Waits(g, y.server, now + 1, mac, b, ip)
    ensures AlwaysExclusive(g, AfterEnding(g, y, input, now), ip) <==> !Frees(y, mac, ip, now)
  {
    if Frees(y, mac, ip, now) {
      StaleReleaseBreaksExclusion(g, y, input, now, mac, ip, b);
    } else {
      EndingIsHarmless(g, y, input, now, mac, ip);
    }
  }
}
