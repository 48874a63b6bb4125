/**
 The daemon as a state machine: one step per handled packet or administrative call
 (internal/dhcp/server.go, internal/allocator/allocator.go, internal/db/db.go). Every step
 is atomic and happens at one instant `now`. The class `Server.Server` is proved against
 `Step`; the run theorems are about `Run`.
 */
module ServerModel {
  import opened Wrappers
  import opened Config
  import opened LeaseTable
  import opened Allocation

  /** What handlePacket reads off a packet. */
  datatype Message =
    | Discover(mac: Text, requested: Option<IPv4>)
    | Request(mac: Text, serverId: Option<IPv4>, requested: Option<IPv4>, ciaddr: IPv4, hostname: Text)
    | Release(mac: Text)
    | Decline
    | Inform(ciaddr: IPv4)
    | Unhandled
    | BootRequest(mac: Text, hostname: Text)
    | Unparseable

  datatype Input =
    | Packet(msg: Message, pings: Pings, sent: bool)  // sent: the reply's socket write succeeds
    | ExpireLeases
    | SeedStaticLease(host: StaticHost)
    | RevokeStaticLease(mac: Text)
    | Refresh(subnets: seq<SubnetConfig>, statics: seq<StaticHost>)

  datatype Event = Event(now: int, input: Input)

  datatype Reply =
    | NoReply
    | Offer(ip: IPv4, subnet: SubnetConfig)
    | Ack(ip: IPv4, subnet: SubnetConfig)
    | Nak
    | BootReply(ip: IPv4, subnet: SubnetConfig)
    | InformAck(subnet: SubnetConfig)

  /** The counters of Stats that the handlers change. */
  datatype Stats = Stats(
    discover: nat, offer: nat, request: nat, ack: nat, nak: nat, release: nat,
    inform: nat, decline: nat, bootReply: nat, packetsSent: nat, errors: nat)

  const ZERO_STATS := Stats(0, 0, 0, 0, 0, 0, 0, 0, 0, 0, 0)

  datatype State = State(
    subnets: seq<SubnetConfig>,
    statics: seq<StaticHost>,
    leases: Table,
    nextId: nat,
    deny: set<IPv4>,
    stats: Stats,
    clock: int)

  function Start(subnets: seq<SubnetConfig>, statics: seq<StaticHost>, now: int): State {
    State(subnets, statics, map[], 0, {}, ZERO_STATS, now)
  }

  /** Bitwise AND, as `IP.Mask` and `IPNet.Contains` apply it byte by byte. */
  function And(a: nat, b: nat): nat
    decreases a
  {
    if a == 0 || b == 0 then 0
    else (if a % 2 == 1 && b % 2 == 1 then 1 else 0) + 2 * And(a / 2, b / 2)
  }

  predicate Contains(g: Global, subnet: SubnetConfig, ip: IPv4) {
    match (g.parseIP(subnet.network), g.parseIP(subnet.netmask))
    case (Some(network), Some(mask)) => And(And(network, mask), mask) == And(ip, mask)
    case _ => false
  }

  /** findSubnetForIP: the first configured subnet containing the address. */
  function FindSubnetForIP(g: Global, subnets: seq<SubnetConfig>, ip: IPv4): Option<SubnetConfig> {
    if subnets == [] then None
    else if Contains(g, subnets[0], ip) then Some(subnets[0])
    else FindSubnetForIP(g, subnets[1..], ip)
  }

  predicate IsStaticLease(statics: seq<StaticHost>, mac: Text) {
    exists i | 0 <= i < |statics| :: NormalizeMAC(statics[i].macAddress) == NormalizeMAC(mac)
  }

  function ProbeFor(g: Global, s: State, now: int, pings: Pings, mac: Text): Probe {
    Probe(s.leases, now, pings, g.pingRetries, NormalizeMAC(mac))
  }

  ghost function Allocate(g: Global, s: State, now: int, pings: Pings, mac: Text, requested: Option<IPv4>): Outcome {
    AllocateIP(g, s.subnets, s.statics, ProbeFor(g, s, now, pings, mac), s.deny, requested)
  }

  /** CreateLease */
  function CreateLease(g: Global, s: State, now: int, mac: Text, ip: IPv4, hostname: Text, isStatic: bool): State {
    s.(leases := Upsert(s.leases, s.nextId, NormalizeMAC(mac), ip, hostname, now, now + g.Term(), isStatic),
       nextId := NextId(s.leases, s.nextId, ip))
  }

  /** sendPacket */
  function Sent(s: State, sent: bool): State {
    if sent then s.(stats := s.stats.(packetsSent := s.stats.packetsSent + 1))
    else s.(stats := s.stats.(errors := s.stats.errors + 1))
  }

  /** sendNak */
  function Refuse(s: State, sent: bool): (State, Reply) {
    var s' := Sent(s, sent);
    (s'.(stats := s'.stats.(nak := s'.stats.nak + 1)), Nak)
  }

  ghost function HandleDiscover(g: Global, s: State, now: int, pings: Pings, sent: bool,
                                mac: Text, requested: Option<IPv4>): (State, Reply)
  {
    var r := Allocate(g, s, now, pings, mac, requested);
    var s1 := s.(deny := r.deny);
    if r.ip.None? then (s1, NoReply)
    else
      match FindSubnetForIP(g, s.subnets, r.ip.value)
      case None => (s1, NoReply)
      case Some(subnet) =>
        var s2 := Sent(s1, sent);
        (s2.(stats := s2.stats.(offer := s2.stats.offer + 1)), Offer(r.ip.value, subnet))
  }

  /** The address a REQUEST is about: option 50, else ciaddr. */
  function RequestedAddress(requested: Option<IPv4>, ciaddr: IPv4): Option<IPv4> {
    if requested.Some? && requested.value != UNSPECIFIED then requested
    else if ciaddr != UNSPECIFIED then Some(ciaddr)
    else None
  }

  predicate ForAnotherServer(g: Global, msg: Message) {
    msg.Request? && msg.serverId.Some? && msg.serverId.value != g.serverIP
  }

  /** The end of handleRequest: record the lease, then send the ACK. */
  function Acknowledge(g: Global, s: State, now: int, sent: bool, mac: Text, hostname: Text, ip: IPv4,
                       subnet: SubnetConfig): (State, Reply)
  {
    var s1 := CreateLease(g, s, now, mac, ip, hostname, IsStaticLease(s.statics, mac));
    var s2 := Sent(s1, sent);
    (s2.(stats := s2.stats.(ack := s2.stats.ack + 1)), Ack(ip, subnet))
  }

  /** The rest of handleRequest, once the address is known. */
  ghost function AnswerRequest(g: Global, s: State, now: int, pings: Pings, sent: bool,
                               mac: Text, hostname: Text, ip: IPv4): (State, Reply)
  {
    var r := Allocate(g, s, now, pings, mac, Some(ip));
    var s1 := s.(deny := r.deny);
    if r.ip != Some(ip) then Refuse(s1, sent)
    else
      match FindSubnetForIP(g, s.subnets, ip)
      case None => Refuse(s1, sent)
      case Some(subnet) => Acknowledge(g, s1, now, sent, mac, hostname, ip, subnet)
  }

  ghost function HandleRequest(g: Global, s: State, now: int, pings: Pings, sent: bool,
                               msg: Message): (State, Reply)
    requires msg.Request?
  {
    if ForAnotherServer(g, msg) then (s, NoReply)
    else
      match RequestedAddress(msg.requested, msg.ciaddr)
      case None => Refuse(s, sent)
      case Some(ip) => AnswerRequest(g, s, now, pings, sent, msg.mac, msg.hostname, ip)
  }

  function HandleInform(g: Global, s: State, sent: bool, ciaddr: IPv4): (State, Reply) {
    match FindSubnetForIP(g, s.subnets, ciaddr)
    case None => (s, NoReply)
    case Some(subnet) => (Sent(s, sent), InformAck(subnet))
  }

  /** The end of handleBootP: record the lease, then send the BOOTREPLY. */
  function AnswerBootP(g: Global, s: State, now: int, sent: bool, mac: Text, hostname: Text, ip: IPv4,
                       subnet: SubnetConfig): (State, Reply)
  {
    var s1 := Sent(CreateLease(g, s, now, mac, ip, hostname, true), sent);
    (s1.(stats := s1.stats.(bootReply := s1.stats.bootReply + 1)), BootReply(ip, subnet))
  }

  function HandleBootP(g: Global, s: State, now: int, sent: bool, mac: Text, hostname: Text): (State, Reply) {
    match StaticIP(g, s.statics, mac)
    case None => (s, NoReply)
    case Some(ip) =>
      match FindSubnetForIP(g, s.subnets, ip)
      case None => (s, NoReply)
      case Some(subnet) =>
        if !subnet.enableBootP then (s, NoReply)
        else AnswerBootP(g, s, now, sent, mac, hostname, ip, subnet)
  }

  /** The allocation for a client returns: no scan wraps, or there is an address to return. */
  ghost predicate AllocationReturns(g: Global, s: State, now: int, pings: Pings, mac: Text, requested: Option<IPv4>) {
    Returns(g, s.subnets, s.statics, ProbeFor(g, s, now, pings, mac), s.deny, requested)
  }

  /** The packet's handler returns. */
  ghost predicate HandlerReturns(g: Global, s: State, now: int, pings: Pings, msg: Message) {
    match msg
    case Discover(mac, requested) => AllocationReturns(g, s, now, pings, mac, requested)
    case Request(mac, _, requested, ciaddr, _) =>
      var asked := RequestedAddress(requested, ciaddr);
      ForAnotherServer(g, msg) || asked.None? || AllocationReturns(g, s, now, pings, mac, asked)
    case _ => true
  }

  /** handlePacket */
  ghost function HandlePacket(g: Global, s: State, now: int, pings: Pings, sent: bool, msg: Message): (State, Reply) {
    match msg
    case Discover(mac, requested) =>
      HandleDiscover(g, s.(stats := s.stats.(discover := s.stats.discover + 1)), now, pings, sent, mac, requested)
    case Request(_, _, _, _, _) =>
      HandleRequest(g, s.(stats := s.stats.(request := s.stats.request + 1)), now, pings, sent, msg)
    case Release(mac) =>
      (s.(stats := s.stats.(release := s.stats.release + 1),
          leases := EndLatest(s.leases, NormalizeMAC(mac), now)), NoReply)
    case Decline => (s.(stats := s.stats.(decline := s.stats.decline + 1)), NoReply)
    case Inform(ciaddr) =>
      HandleInform(g, s.(stats := s.stats.(inform := s.stats.inform + 1)), sent, ciaddr)
    case Unhandled => (s, NoReply)
    case BootRequest(mac, hostname) => HandleBootP(g, s, now, sent, mac, hostname)
    case Unparseable => (s.(stats := s.stats.(errors := s.stats.errors + 1)), NoReply)
  }

  /** SeedStaticLease: an address that does not resolve is an error and changes nothing. */
  function Seed(g: Global, s: State, now: int, host: StaticHost): State {
    match g.resolve(host.ipAddress)
    case None => s
    case Some(ip) =>
      s.(leases := Upsert(s.leases, s.nextId, NormalizeMAC(host.macAddress), ip, host.hostname,
                          now, now + STATIC_TERM, true),
         nextId := NextId(s.leases, s.nextId, ip))
  }

  ghost function Step(g: Global, s: State, e: Event): (State, Reply) {
    var (s', reply) :=
      match e.input
      case Packet(msg, pings, sent) => HandlePacket(g, s, e.now, pings, sent, msg)
      case ExpireLeases => (s.(leases := LeaseTable.ExpireLeases(s.leases, e.now)), NoReply)
      case SeedStaticLease(host) => (Seed(g, s, e.now, host), NoReply)
      case RevokeStaticLease(mac) => (s.(leases := EndLatest(s.leases, NormalizeMAC(mac), e.now)), NoReply)
      case Refresh(subnets, statics) => (s.(subnets := subnets, statics := statics), NoReply);
    (s'.(clock := e.now), reply)
  }

  // ---- Runs ------------------------------------------------------------------------

  /** The clock never goes back. */
  predicate Ordered(clock: int, events: seq<Event>)
    decreases |events|
  {
    events == [] || (clock <= events[0].now && Ordered(events[0].now, events[1..]))
  }

  ghost function Run(g: Global, s: State, events: seq<Event>): State
    decreases |events|
  {
    if events == [] then s else Run(g, Step(g, s, events[0]).0, events[1..])
  }

  ghost function Replies(g: Global, s: State, events: seq<Event>): (r: seq<Reply>)
    ensures |r| == |events|
    decreases |events|
  {
    if events == [] then []
    else [Step(g, s, events[0]).1] + Replies(g, Step(g, s, events[0]).0, events[1..])
  }

  lemma {:induction false} RunAppend(g: Global, s: State, first: seq<Event>, rest: seq<Event>)
    ensures Run(g, s, first + rest) == Run(g, Run(g, s, first), rest)
    decreases |first|
  {
    if first == [] {
      assert first + rest == rest;
    } else {
      assert (first + rest)[1..] == first[1..] + rest;
      RunAppend(g, Step(g, s, first[0]).0, first[1..], rest);
    }
  }
}
