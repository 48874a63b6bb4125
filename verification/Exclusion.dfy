/**
 The protocol end to end: any number of clients, one server, and a network that loses,
 delays, duplicates and reorders REQUEST and ACK messages. A client computes the end of its
 lease by the rule of section 4.4.1 of RFC 2131: the time it sent the request plus the
 lease duration in the ACK, where 0xffffffff means for ever (section 3.3 of RFC 2131).
 Meanwhile the server does anything else it does: other packets, sweeps, configuration
 changes, seeding and revoking of static leases, late RELEASEs.
 */
module Exclusion {
  import opened Wrappers
  import opened Config
  import opened LeaseTable
  import opened Allocation
  import opened ServerModel
  import opened StepEffects
  import opened Invariants
  import opened Guarantees

  /** The lease time that stands for a lease without end. */
  const INFINITE: int := 0xFFFF_FFFF

  datatype End = At(time: int) | Never

  predicate Over(end: End, now: int) {
    end.At? && end.time <= now
  }

  datatype RequestMsg = RequestMsg(
    mac: Text, sentAt: int, serverId: Option<IPv4>, requested: Option<IPv4>, ciaddr: IPv4, hostname: Text)

  /** An ACK carries the lease time of option 51, a 32-bit number of seconds. */
  datatype AckMsg = AckMsg(mac: Text, ip: IPv4, sentAt: int, leaseSeconds: IPv4)

  /** A client's belief that it holds `ip` until `end`. */
  datatype Belief = Belief(mac: Text, ip: IPv4, end: End)

  /**
   Messages once sent stay in the network, so each may be delivered never, late, out of
   order, or many times. A client may believe in several addresses at once.
   */
  datatype System = System(
    server: State, requests: set<RequestMsg>, acks: set<AckMsg>, beliefs: set<Belief>, clock: int)

  datatype Move =
    | ClientRequests(msg: RequestMsg)
    | ServerReceives(msg: RequestMsg, pings: Pings, sent: bool)
    | ClientAccepts(ack: AckMsg)
    | ClientReleases(mac: Text, sent: bool)
    | ClientForgets(mac: Text)
    | Background(input: Input)

  datatype Timed = Timed(now: int, move: Move)

  /** What a client comes to believe on an ACK. */
  function BeliefOf(ack: AckMsg): Belief {
    Belief(ack.mac, ack.ip,
           if ack.leaseSeconds == INFINITE then Never else At(ack.sentAt + ack.leaseSeconds * SECOND))
  }

  function RequestEvent(m: RequestMsg, now: int, pings: Pings, sent: bool): Event {
    Event(now, Packet(Request(m.mac, m.serverId, m.requested, m.ciaddr, m.hostname), pings, sent))
  }

  /** REQUESTs come from clients over the network; everything else may reach the server at any time. */
  predicate Enabled(y: System, t: Timed) {
    && y.clock <= t.now
    && match t.move
       case ClientRequests(msg) => msg.sentAt == t.now
       case ServerReceives(msg, _, _) => msg in y.requests
       case ClientAccepts(ack) => ack in y.acks
       case Background(input) => input.Packet? ==> !input.msg.Request?
       case _ => true
  }

  predicate SameClient(a: Text, b: Text) {
    NormalizeMAC(a) == NormalizeMAC(b)
  }

  ghost function Next(g: Global, y: System, t: Timed): System {
    var y' :=
      match t.move
      case ClientRequests(msg) => y.(requests := y.requests + {msg})
      case ServerReceives(msg, pings, sent) =>
        var (s', reply) := Step(g, y.server, RequestEvent(msg, t.now, pings, sent));
        y.(server := s',
           acks := y.acks + (if reply.Ack? then {AckMsg(msg.mac, reply.ip, msg.sentAt, g.LeaseOption())} else {}))
      case ClientAccepts(ack) => y.(beliefs := y.beliefs + {BeliefOf(ack)})
      case ClientReleases(mac, sent) =>
        // The RELEASE reaches the server in the same step; the client drops its lease and
        // will not take an ACK that is still on its way.
        y.(server := Step(g, y.server, Event(t.now, Packet(Release(mac), {}, sent))).0,
           acks := (set a | a in y.acks && !SameClient(a.mac, mac)),
           beliefs := (set b | b in y.beliefs && !SameClient(b.mac, mac)))
      case ClientForgets(mac) => y.(beliefs := (set b | b in y.beliefs && !SameClient(b.mac, mac)))
      case Background(input) => y.(server := Step(g, y.server, Event(t.now, input)).0);
    y'.(clock := t.now)
  }

  ghost predicate Possible(g: Global, y: System, moves: seq<Timed>)
    decreases |moves|
  {
    moves == [] || (Enabled(y, moves[0]) && Possible(g, Next(g, y, moves[0]), moves[1..]))
  }

  ghost function After(g: Global, y: System, moves: seq<Timed>): System
    decreases |moves|
  {
    if moves == [] then y else After(g, Next(g, y, moves[0]), moves[1..])
  }

  /** Nobody has spoken yet; the server may already hold leases from before. */
  ghost predicate Quiescent(y: System) {
    Consistent(y.server) && y.server.clock <= y.clock && y.requests == {} && y.acks == {} && y.beliefs == {}
  }

  /** No two clients hold the address at the same time. */
  ghost predicate Exclusive(y: System, ip: IPv4) {
    forall a, b | a in y.beliefs && b in y.beliefs
      && a.ip == ip && b.ip == ip && !Over(a.end, y.clock) && !Over(b.end, y.clock) ::
      SameClient(a.mac, b.mac)
  }

  // ---- What a run must not do to an address ----------------------------------------

  /** The beliefs of the clients, and those the ACKs in the network may still lead to. */
  ghost function Claims(y: System): set<Belief> {
    y.beliefs + (set a | a in y.acks :: BeliefOf(a))
  }

  ghost predicate DoesNotAssign(g: Global, ip: IPv4, e: Event) {
    !SeedsAt(g, ip, e) && (e.input.Refresh? ==> !Assigned(g, e.input.statics, ip))
  }

  /** Ending the client's latest lease now frees an address the client goes on claiming. */
  ghost predicate Frees(y: System, mac: Text, ip: IPv4, now: int) {
    && GetLeaseByMAC(y.server.leases, mac) == Some(ip)
    && exists c | c in Claims(y) :: c.ip == ip && NormalizeMAC(c.mac) == mac && !Over(c.end, now + 1)
  }

  /**
   A move that respects the claims to `ip`: the operator neither assigns the address to a
   static host nor seeds a lease at it, and no late RELEASE and no revocation frees it under
   a client.
   */
  ghost predicate Spares(g: Global, y: System, ip: IPv4, t: Timed) {
    t.move.Background? ==>
      var e := Event(t.now, t.move.input);
      DoesNotAssign(g, ip, e) && (Ended(e).Some? ==> !Frees(y, Ended(e).value, ip, t.now))
  }

  ghost predicate AlwaysSpares(g: Global, y: System, ip: IPv4, moves: seq<Timed>)
    decreases |moves|
  {
    moves == [] || (Spares(g, y, ip, moves[0]) && AlwaysSpares(g, Next(g, y, moves[0]), ip, moves[1..]))
  }

  // ---- The invariant ---------------------------------------------------------------

  /** The row keeps other clients off the address before `until`, whatever its state says. */
  ghost predicate Guarded(t: Table, mac: Text, ip: IPv4, until: int) {
    ip in t && t[ip].mac == mac && until <= t[ip].end + 1
  }

  /** A claim is over, or covered by the lease table. */
  ghost predicate Backed(g: Global, t: Table, clock: int, c: Belief) {
    || Over(c.end, clock)
    || (c.end.At? && c.end.time <= clock + g.Term() && Guarded(t, NormalizeMAC(c.mac), c.ip, c.end.time))
  }

  ghost predicate AllBacked(g: Global, y: System, ip: IPv4) {
    && Consistent(y.server)
    && !Assigned(g, y.server.statics, ip)
    && y.server.clock <= y.clock
    && (forall m | m in y.requests :: m.sentAt <= y.clock)
    && (forall c | c in Claims(y) && c.ip == ip :: Backed(g, y.server.leases, y.clock, c))
  }

  /** One step leaves an unassigned address guarded, unless it ends the very lease that guards it. */
  lemma StepGuards(g: Global, s: State, e: Event, mac: Text, ip: IPv4, until: int)
    requires Consistent(s) && s.clock <= e.now < until <= e.now + g.Term()
    requires !Assigned(g, s.statics, ip) && DoesNotAssign(g, ip, e)
    requires Guarded(s.leases, mac, ip, until)
    requires Ended(e) == Some(mac) ==> GetLeaseByMAC(s.leases, mac) != Some(ip) || until <= e.now + 1
    ensures Guarded(Step(g, s, e).0.leases, mac, ip, until)
  {
    if Written(g, s, e).Some? {
      var w := Written(g, s, e).value;
      var row := WriteEffect(g, s, e);
      if w.ip == ip {
        assert Normalized(s.leases[ip].mac);
        assert w.mac == mac;
      }
    } else {
      OtherEffect(g, s, e);
    }
  }

  lemma StepKeepsBacked(g: Global, s: State, clock: int, e: Event, c: Belief)
    requires Consistent(s) && s.clock <= clock <= e.now
    requires !Assigned(g, s.statics, c.ip) && DoesNotAssign(g, c.ip, e)
    requires Ended(e) == Some(NormalizeMAC(c.mac)) ==>
      GetLeaseByMAC(s.leases, NormalizeMAC(c.mac)) != Some(c.ip) || Over(c.end, e.now + 1)
    requires Backed(g, s.leases, clock, c)
    ensures Backed(g, Step(g, s, e).0.leases, e.now, c)
  {
    if !Over(c.end, e.now) {
      StepGuards(g, s, e, NormalizeMAC(c.mac), c.ip, c.end.time);
    }
  }

  lemma RefreshAssigns(g: Global, s: State, e: Event, ip: IPv4)
    requires !Assigned(g, s.statics, ip) && DoesNotAssign(g, ip, e)
    ensures !Assigned(g, Step(g, s, e).0.statics, ip)
  {
    OtherFields(g, s, e);
  }

  /** A server step that frees no claimed address leaves every claim backed that was there before. */
  lemma ServerStepKeepsBacked(g: Global, y: System, y': System, e: Event, ip: IPv4)
    requires AllBacked(g, y, ip) && y.clock <= e.now && DoesNotAssign(g, ip, e)
    requires y'.server == Step(g, y.server, e).0 && y'.clock == e.now && y'.requests == y.requests
    requires Claims(y') <= Claims(y)
    requires forall c | c in Claims(y') && c.ip == ip && Ended(e) == Some(NormalizeMAC(c.mac)) ::
      GetLeaseByMAC(y.server.leases, NormalizeMAC(c.mac)) != Some(ip) || Over(c.end, e.now + 1)
    ensures AllBacked(g, y', ip)
  {
    StepConserves(g, y.server, e);
    OtherFields(g, y.server, e);
    RefreshAssigns(g, y.server, e, ip);
    forall c | c in Claims(y') && c.ip == ip
      ensures Backed(g, y'.server.leases, y'.clock, c)
    {
      StepKeepsBacked(g, y.server, y.clock, e, c);
    }
  }

  // ---- When the lease table outlasts the client's belief ---------------------------

  /**
   The server keeps an address at least as long as the client was told: option 51 is zero,
   or finite and not longer than the term of the row. The two differ because option 51 is
   cut to 32 bits and the term to 64.
   */
  predicate TermCovers(g: Global) {
    g.LeaseOption() == 0 || (g.LeaseOption() != INFINITE && g.LeaseOption() * SECOND <= g.Term())
  }

  /** A fresh ACK is backed: the server's term starts no earlier than the client's. */
  lemma AckIsBacked(g: Global, s: State, m: RequestMsg, now: int, pings: Pings, sent: bool)
    requires TermCovers(g) && m.sentAt <= now
    requires Step(g, s, RequestEvent(m, now, pings, sent)).1.Ack?
    ensures var (s', reply) := Step(g, s, RequestEvent(m, now, pings, sent));
      Backed(g, s'.leases, now, BeliefOf(AckMsg(m.mac, reply.ip, m.sentAt, g.LeaseOption())))
  {
    var row := WriteEffect(g, s, RequestEvent(m, now, pings, sent));
  }

  lemma ReceiveKeepsBacked(g: Global, y: System, ip: IPv4, t: Timed)
    requires TermCovers(g) && AllBacked(g, y, ip) && Enabled(y, t) && t.move.ServerReceives?
    ensures AllBacked(g, Next(g, y, t), ip)
  {
    var msg := t.move.msg;
    var e := RequestEvent(msg, t.now, t.move.pings, t.move.sent);
    var y' := Next(g, y, t);
    var reply := Step(g, y.server, e).1;
    ServerStepKeepsBacked(g, y, y'.(acks := y.acks), e, ip);
    if reply.Ack? {
      AckIsBacked(g, y.server, msg, t.now, t.move.pings, t.move.sent);
      var ack := AckMsg(msg.mac, reply.ip, msg.sentAt, g.LeaseOption());
      assert Claims(y') == Claims(y) + {BeliefOf(ack)};
    }
  }

  /** One move of a client, the network, the server or the operator keeps every claim to a spared address backed. */
  lemma NextKeepsBacked(g: Global, y: System, ip: IPv4, t: Timed)
    requires TermCovers(g) && AllBacked(g, y, ip) && Enabled(y, t) && Spares(g, y, ip, t)
    ensures AllBacked(g, Next(g, y, t), ip)
  {
    var y' := Next(g, y, t);
    match t.move
    case ServerReceives(_, _, _) => ReceiveKeepsBacked(g, y, ip, t);
    case ClientReleases(mac, sent) =>
      ServerStepKeepsBacked(g, y, y', Event(t.now, Packet(Release(mac), {}, sent)), ip);
    case Background(input) =>
      ServerStepKeepsBacked(g, y, y', Event(t.now, input), ip);
    case _ =>
      assert Claims(y') <= Claims(y);
  }

  lemma BackedIsExclusive(g: Global, y: System, ip: IPv4)
    requires AllBacked(g, y, ip)
    ensures Exclusive(y, ip)
  {
  }

  /** Over every run, whatever the network and the operator do, the lease table backs every claim to the address. */
  lemma {:induction false} RunKeepsBacked(g: Global, y: System, ip: IPv4, moves: seq<Timed>)
    requires TermCovers(g) && AllBacked(g, y, ip) && Possible(g, y, moves) && AlwaysSpares(g, y, ip, moves)
    ensures AllBacked(g, After(g, y, moves), ip)
    decreases |moves|
  {
    if moves != [] {
      NextKeepsBacked(g, y, ip, moves[0]);
      RunKeepsBacked(g, Next(g, y, moves[0]), ip, moves[1..]);
    }
  }

  /**
   Mutual exclusion: in every run of clients, network, server and operator, however REQUESTs
   and ACKs are lost, delayed, duplicated or reordered, no two clients ever believe at the
   same time that they hold the same address, as long as the run does not assign the address
   to a static host or free it under a client that claims it.
   */
  lemma {:induction false} NoTwoClientsShareAnAddress(g: Global, y: System, ip: IPv4, moves: seq<Timed>)
    requires TermCovers(g) && Quiescent(y) && !Assigned(g, y.server.statics, ip)
    requires Possible(g, y, moves) && AlwaysSpares(g, y, ip, moves)
    ensures Exclusive(After(g, y, moves), ip)
  {
    RunKeepsBacked(g, y, ip, moves);
    BackedIsExclusive(g, After(g, y, moves), ip);
  }

  // ---- Fixed configurations --------------------------------------------------------

  /** No configuration change, no revocation, no late RELEASE, and only configured hosts seeded. */
  predicate LeavesConfiguration(statics: seq<StaticHost>, t: Timed) {
    t.move.Background? ==>
      Ended(Event(t.now, t.move.input)).None? && FixedConfiguration(statics, Event(t.now, t.move.input))
  }

  lemma {:induction false} FixedConfigurationSpares(g: Global, y: System, ip: IPv4, moves: seq<Timed>)
    requires !Reserved(g, y.server.statics, ip)
    requires forall i | 0 <= i < |moves| :: LeavesConfiguration(y.server.statics, moves[i])
    ensures AlwaysSpares(g, y, ip, moves)
    decreases |moves|
  {
    if moves != [] {
      SparesUnreserved(g, y, ip, moves[0]);
      FixedConfigurationSpares(g, Next(g, y, moves[0]), ip, moves[1..]);
    }
  }

  lemma SparesUnreserved(g: Global, y: System, ip: IPv4, t: Timed)
    requires !Reserved(g, y.server.statics, ip) && LeavesConfiguration(y.server.statics, t)
    ensures Spares(g, y, ip, t)
    ensures Next(g, y, t).server.statics == y.server.statics
  {
    match t.move
    case ServerReceives(msg, pings, sent) => OtherFields(g, y.server, RequestEvent(msg, t.now, pings, sent));
    case ClientReleases(mac, sent) => OtherFields(g, y.server, Event(t.now, Packet(Release(mac), {}, sent)));
    case Background(input) =>
      OtherFields(g, y.server, Event(t.now, input));
      if input.SeedStaticLease? {
        var i :| 0 <= i < |y.server.statics| && y.server.statics[i] == input.host;
        assert g.resolve(y.server.statics[i].ipAddress) != Some(ip);
      }
    case _ =>
  }

  /** Under a fixed configuration no two clients ever hold any one unreserved address. */
  lemma {:induction false} NoTwoClientsShareAnyAddress(g: Global, y: System, moves: seq<Timed>)
    requires TermCovers(g) && Quiescent(y) && Possible(g, y, moves)
    requires forall i | 0 <= i < |moves| :: LeavesConfiguration(y.server.statics, moves[i])
    ensures forall ip | !Reserved(g, y.server.statics, ip) :: Exclusive(After(g, y, moves), ip)
  {
    forall ip | !Reserved(g, y.server.statics, ip)
      ensures Exclusive(After(g, y, moves), ip)
    {
      AssignedIsReserved(g, y.server.statics, ip);
      FixedConfigurationSpares(g, y, ip, moves);
      NoTwoClientsShareAnAddress(g, y, ip, moves);
    }
  }
}
