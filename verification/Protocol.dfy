/**
 What the daemon does with each message, in the numbers of the standards: message types and
 option codes of RFC 2132, and for every request which reply it draws.
 */
module Protocol {
  import opened Wrappers
  import opened Config
  import opened LeaseTable
  import opened Allocation
  import opened ServerModel
  import opened PacketFormat
  import opened Packet
  import opened DomainNames
  import opened Replies
  import opened Messages
  import opened WireFormat
  import opened Subnets

  // ---- Which message a packet is ---------------------------------------------------

  /** The address in a four-byte option. */
  function AddressIn(p: Fields, code: byte): Option<IPv4> {
    if code in p.options && |p.options[code]| == 4 then
      AddressBytesFit(p.options[code]);
      Some(Number4(p.options[code], 0))
    else None
  }

  lemma AddressBytesFit(b: seq<byte>)
    requires |b| == 4
    ensures 0 <= Number4(b, 0) < 0x1_0000_0000
  {
  }

  function HostNameIn(p: Fields): Text {
    if 12 in p.options then p.options[12] else []
  }

  predicate IsType(p: Fields, t: byte) {
    53 in p.options && p.options[53] == [t]
  }

  /** Option 53 says which message it is; 50, 54 and 12 are the requested address, the server and the host name. */
  lemma ClassifyByNumber(p: Fields)
    ensures IsType(p, 1) ==> Classify(p) == Discover(MACAddressString(p.chAddr), AddressIn(p, 50))
    ensures IsType(p, 3) ==>
      Classify(p) == Request(MACAddressString(p.chAddr), AddressIn(p, 54), AddressIn(p, 50), p.ciAddr, HostNameIn(p))
    ensures IsType(p, 4) ==> Classify(p) == Decline
    ensures IsType(p, 7) ==> Classify(p) == Release(MACAddressString(p.chAddr))
    ensures IsType(p, 8) ==> Classify(p) == Inform(p.ciAddr)
    ensures forall t: byte | IsType(p, t) && t !in {1, 3, 4, 7, 8} :: Classify(p) == Unhandled
    ensures 53 in p.options && |p.options[53]| != 1 ==> Classify(p) == Unparseable
    ensures 53 !in p.options && p.opCode == 1 ==> Classify(p) == BootRequest(MACAddressString(p.chAddr), HostNameIn(p))
    ensures 53 !in p.options && p.opCode != 1 ==> Classify(p) == Unparseable
  {
  }

  // ---- Which reply a message draws -------------------------------------------------

  /** A REQUEST names no server, or this one. */
  predicate IsForUs(g: Global, msg: Message)
    requires msg.Request?
  {
    msg.serverId == None || msg.serverId == Some(g.serverIP)
  }

  /** The address a REQUEST is about: a non-zero option 50, else a non-zero ciaddr. */
  predicate IsAbout(msg: Message, ip: IPv4)
    requires msg.Request?
  {
    ip != 0 && (msg.requested == Some(ip) || (msg.requested in {None, Some(0)} && msg.ciaddr == ip))
  }

  /** A REQUEST for this server is answered by an ACK or a NAK; one that names another is ignored. */
  lemma RequestIsAnsweredIff(g: Global, s: State, now: int, pings: Pings, sent: bool, msg: Message)
    requires msg.Request?
    ensures var (s', reply) := Step(g, s, Event(now, Input.Packet(msg, pings, sent)));
      && (msg.serverId == None || msg.serverId == Some(g.serverIP) ==> reply.Ack? || reply.Nak?)
      && (msg.serverId.Some? && msg.serverId.value != g.serverIP ==>
            reply.NoReply? && s'.leases == s.leases && s'.deny == s.deny)
  {
  }

  /** It is acknowledged exactly if allocation grants the very address it is about, and a subnet has it. */
  lemma RequestIsAckedIff(g: Global, s: State, now: int, pings: Pings, sent: bool, msg: Message, ip: IPv4)
    requires msg.Request? && IsForUs(g, msg) && IsAbout(msg, ip)
    ensures var reply := Step(g, s, Event(now, Input.Packet(msg, pings, sent))).1;
      var granted := Allocate(g, s, now, pings, msg.mac, Some(ip)).ip;
      var subnet := FindSubnetForIP(g, s.subnets, ip);
      reply == if granted == Some(ip) && subnet.Some? then Ack(ip, subnet.value) else Nak
  {
  }

  /** A REQUEST for no address is refused. */
  lemma RequestForNothingIsRefused(g: Global, s: State, now: int, pings: Pings, sent: bool, msg: Message)
    requires msg.Request? && IsForUs(g, msg) && msg.requested in {None, Some(0)} && msg.ciaddr == 0
    ensures Step(g, s, Event(now, Input.Packet(msg, pings, sent))).1 == Nak
  {
  }

  /** A DISCOVER draws an OFFER of what allocation finds, exactly if a subnet has it; no lease is written. */
  lemma DiscoverIsOfferedIff(g: Global, s: State, now: int, pings: Pings, sent: bool, msg: Message)
    requires msg.Discover?
    ensures var (s', reply) := Step(g, s, Event(now, Input.Packet(msg, pings, sent)));
      var found := Allocate(g, s, now, pings, msg.mac, msg.requested);
      && reply == (if found.ip.Some? && FindSubnetForIP(g, s.subnets, found.ip.value).Some?
                   then Offer(found.ip.value, FindSubnetForIP(g, s.subnets, found.ip.value).value)
                   else NoReply)
      && s'.leases == s.leases && s'.deny == found.deny
  {
  }

  /** A BOOTREQUEST draws a BOOTREPLY exactly for a static host in a subnet with BOOTP. */
  lemma BootRequestIsAnsweredIff(g: Global, s: State, now: int, pings: Pings, sent: bool, msg: Message)
    requires msg.BootRequest?
    ensures var (s', reply) := Step(g, s, Event(now, Input.Packet(msg, pings, sent)));
      var ip := StaticIP(g, s.statics, msg.mac);
      var subnet := if ip.Some? then FindSubnetForIP(g, s.subnets, ip.value) else None;
      if subnet.Some? && subnet.value.enableBootP then
        && reply == BootReply(ip.value, subnet.value)
        && s'.leases == Upsert(s.leases, s.nextId, NormalizeMAC(msg.mac), ip.value, msg.hostname,
                               now, now + g.Term(), true)
      else reply == NoReply && s'.leases == s.leases
  {
  }

  /** An INFORM is answered exactly if its sender's address is in a subnet; nothing is written. */
  lemma InformIsAnsweredIff(g: Global, s: State, now: int, pings: Pings, sent: bool, msg: Message)
    requires msg.Inform?
    ensures var (s', reply) := Step(g, s, Event(now, Input.Packet(msg, pings, sent)));
      var subnet := FindSubnetForIP(g, s.subnets, msg.ciaddr);
      && reply == (if subnet.Some? then InformAck(subnet.value) else NoReply)
      && s'.leases == s.leases && s'.deny == s.deny
  {
  }

  /** A RELEASE ends the client's latest lease; a DECLINE and any other message change no table. Neither is answered. */
  lemma OthersAreSilent(g: Global, s: State, now: int, pings: Pings, sent: bool, msg: Message)
    requires msg.Release? || msg.Decline? || msg.Unhandled? || msg.Unparseable?
    ensures var (s', reply) := Step(g, s, Event(now, Input.Packet(msg, pings, sent)));
      && reply == NoReply && s'.deny == s.deny
      && s'.leases == if msg.Release? then EndLatest(s.leases, NormalizeMAC(msg.mac), now) else s.leases
  {
  }

  /** A seeded row ends 36525 days after it is written. */
  lemma SeedIsWritten(g: Global, s: State, now: int, host: StaticHost, ip: IPv4)
    requires g.resolve(host.ipAddress) == Some(ip)
    ensures Step(g, s, Event(now, SeedStaticLease(host))).0.leases
      == Upsert(s.leases, s.nextId, NormalizeMAC(host.macAddress), ip, host.hostname,
                now, now + 3155760000 * 1000000000, true)
  {
  }

  // ---- The packet of a reply -------------------------------------------------------

  /** What every reply copies from its request, and what it never does. */
  predicate CopiesRequest(request: Fields, q: Fields) {
    && q.opCode == 2 && q.hops == 0 && q.secs == 0
    && q.hwType == request.hwType && q.hwLen == request.hwLen && q.chAddr == request.chAddr
    && q.xid == request.xid && q.flags == request.flags && q.giAddr == request.giAddr
  }

  predicate IsOption(q: Fields, code: byte, value: seq<byte>) {
    code in q.options && q.options[code] == value
  }

  /** The server identifier and the lease time, in bytes. */
  predicate NamesServer(g: Global, q: Fields) {
    54 in q.options && |q.options[54]| == 4 && Number4(q.options[54], 0) == g.serverIP
  }

  predicate StatesLeaseTime(g: Global, q: Fields) {
    51 in q.options && |q.options[51]| == 4 && Number4(q.options[51], 0) == g.leaseTime % 4294967296
  }

  /** The packet each kind of reply is sent as. */
  predicate IsPacketOf(g: Global, request: Fields, reply: Reply, q: Fields) {
    && CopiesRequest(request, q)
    && match reply
       case NoReply => false
       case Offer(ip, _) =>
         && IsOption(q, 53, [2]) && NamesServer(g, q) && StatesLeaseTime(g, q)
         && q.yiAddr == ip && q.ciAddr == 0 && q.siAddr == g.serverIP
       case Ack(ip, _) =>
         && IsOption(q, 53, [5]) && NamesServer(g, q) && StatesLeaseTime(g, q)
         && q.yiAddr == ip && q.ciAddr == 0 && q.siAddr == g.serverIP
       case InformAck(_) =>
         && IsOption(q, 53, [5]) && NamesServer(g, q) && StatesLeaseTime(g, q)
         && q.yiAddr == 0 && q.ciAddr == 0 && q.siAddr == g.serverIP
       case Nak =>
         && IsOption(q, 53, [6]) && NamesServer(g, q) && q.options.Keys == {53, 54}
         && q.yiAddr == 0 && q.ciAddr == 0 && q.siAddr == g.serverIP
       case BootReply(ip, subnet) =>
         && (forall code | code in {51, 53, 54, 58, 59} :: code !in q.options)
         && q.yiAddr == ip && q.ciAddr == request.ciAddr
         && IsBootServer(g, subnet, q.siAddr)
  }

  /** siaddr of a BOOTREPLY: the next server if one is configured, else this server if a boot file is. */
  predicate IsBootServer(g: Global, subnet: SubnetConfig, siAddr: IPv4) {
    && (subnet.nextServer != [] && g.parseIP(subnet.nextServer).Some? ==>
          Some(siAddr) == g.parseIP(subnet.nextServer))
    && (subnet.nextServer != [] && g.parseIP(subnet.nextServer).None? ==> siAddr == 0)
    && (subnet.nextServer == [] && subnet.bootFilename != [] ==> siAddr == g.serverIP)
    && (subnet.nextServer == [] && subnet.bootFilename == [] ==> siAddr == 0)
  }

  lemma LeasePacketIs(g: Global, request: Fields, msgType: byte, ip: IPv4, subnet: SubnetConfig)
    ensures var q := LeaseReply(g, request, msgType, ip, subnet);
      && CopiesRequest(request, q) && IsOption(q, 53, [msgType]) && NamesServer(g, q) && StatesLeaseTime(g, q)
      && q.yiAddr == ip && q.ciAddr == 0 && q.siAddr == g.serverIP
  {
    var base := LeaseOptions(g, msgType);
    SubnetOptionsKeep(g, subnet, base, 53);
    SubnetOptionsKeep(g, subnet, base, 54);
    SubnetOptionsKeep(g, subnet, base, 51);
    NumberBytes(g.serverIP, 0);
    NumberBytes(g.LeaseOption(), 0);
  }

  lemma NakPacketIs(g: Global, request: Fields)
    ensures IsPacketOf(g, request, Nak, NakReply(g, request))
  {
    NumberBytes(g.serverIP, 0);
  }

  lemma BootPacketIs(g: Global, request: Fields, ip: IPv4, subnet: SubnetConfig)
    ensures IsPacketOf(g, request, BootReply(ip, subnet), BootReplyPacket(g, request, ip, subnet))
  {
    forall code | code in {51, 53, 54, 58, 59}
      ensures code !in BootReplyPacket(g, request, ip, subnet).options
    {
      DHCPOnlyIsNoSubnetCode(code);
      SubnetOptionsKeep(g, subnet, map[], code);
    }
  }

  /** Each kind of reply is sent as the packet that says so. */
  lemma ReplyIsTyped(g: Global, request: Fields, reply: Reply)
    ensures ReplyPacket(g, request, reply).Some? <==> reply != NoReply
    ensures reply != NoReply ==> IsPacketOf(g, request, reply, ReplyPacket(g, request, reply).value)
  {
    match reply
    case NoReply =>
    case Offer(ip, subnet) => LeasePacketIs(g, request, 2, ip, subnet);
    case Ack(ip, subnet) => LeasePacketIs(g, request, 5, ip, subnet);
    case InformAck(subnet) => LeasePacketIs(g, request, 5, UNSPECIFIED, subnet);
    case Nak => NakPacketIs(g, request);
    case BootReply(ip, subnet) => BootPacketIs(g, request, ip, subnet);
  }

  // ---- From the message to the packet ----------------------------------------------

  /** What may answer a packet: an OFFER a DISCOVER, an ACK or NAK a REQUEST, an ACK without address an INFORM. */
  predicate MayAnswer(request: Fields, q: Fields) {
    && CopiesRequest(request, q)
    && (IsType(request, 1) ==> IsOption(q, 53, [2]))
    && (IsType(request, 3) ==> IsOption(q, 53, [5]) || (IsOption(q, 53, [6]) && q.yiAddr == 0))
    && (IsType(request, 8) ==> IsOption(q, 53, [5]) && q.yiAddr == 0)
    && (53 in request.options ==> IsType(request, 1) || IsType(request, 3) || IsType(request, 8))
    && (53 !in request.options ==> request.opCode == 1)
    && (53 !in request.options ==> forall code | code in {51, 53, 54, 58, 59} :: code !in q.options)
  }

  lemma KindOfReply(g: Global, s: State, now: int, pings: Pings, sent: bool, msg: Message)
    ensures var reply := HandlePacket(g, s, now, pings, sent, msg).1;
      && (reply.Offer? ==> msg.Discover?)
      && (reply.Ack? || reply.Nak? ==> msg.Request?)
      && (reply.InformAck? ==> msg.Inform?)
      && (reply.BootReply? ==> msg.BootRequest?)
  {
  }

  /** Whatever a packet draws may answer it. */
  lemma AnswerIsTyped(g: Global, s: State, now: int, pings: Pings, sent: bool, request: Fields)
    ensures var reply := HandlePacket(g, s, now, pings, sent, Classify(request)).1;
      var q := ReplyPacket(g, request, reply);
      q.Some? ==> MayAnswer(request, q.value)
  {
    var reply := HandlePacket(g, s, now, pings, sent, Classify(request)).1;
    KindOfReply(g, s, now, pings, sent, Classify(request));
    AnswerOfKind(g, request, reply);
  }

  lemma AnswerOfKind(g: Global, request: Fields, reply: Reply)
    requires reply.Offer? ==> Classify(request).Discover?
    requires reply.Ack? || reply.Nak? ==> Classify(request).Request?
    requires reply.InformAck? ==> Classify(request).Inform?
    requires reply.BootReply? ==> Classify(request).BootRequest?
    ensures reply != NoReply ==> MayAnswer(request, ReplyPacket(g, request, reply).value)
    ensures ReplyPacket(g, request, reply).Some? <==> reply != NoReply
  {
    ReplyIsTyped(g, request, reply);
    ClassifyByNumber(request);
  }

  /** The same on the wire, byte by byte. */
  lemma ReplyOnTheWire(g: Global, request: Fields, reply: Reply, buf: seq<byte>)
    requires reply != NoReply && Shaped(ReplyPacket(g, request, reply).value)
    requires IsPrinted(ReplyPacket(g, request, reply).value, buf)
    ensures |buf| >= 300 && buf[0] == 2 && Number4(buf, 4) == request.xid && Number4(buf, 24) == request.giAddr
    ensures reply.Offer? ==> HasOption(buf, 53, [2]) && Number4(buf, 16) == reply.ip
    ensures reply.Ack? ==> HasOption(buf, 53, [5]) && Number4(buf, 16) == reply.ip
    ensures reply.Nak? ==> HasOption(buf, 53, [6]) && Number4(buf, 16) == 0
    ensures reply.InformAck? ==> HasOption(buf, 53, [5]) && Number4(buf, 16) == 0
    ensures reply.BootReply? ==> Number4(buf, 16) == reply.ip
    ensures var q := ReplyPacket(g, request, reply).value;
      OptionsEncodable(q.options) ==> ParseOptions(buf[240..]) == q.options && (reply.BootReply? ==> 53 !in q.options)
  {
    var q := ReplyPacket(g, request, reply).value;
    ReplyIsTyped(g, request, reply);
    PrintedHeader(q, buf);
    PrintedOptions(q, buf);
    if !reply.BootReply? {
      PrintedOption(q, buf, 53);
    }
  }

  lemma RepliesAreShaped(g: Global, request: Fields, reply: Reply)
    requires reply != NoReply
    ensures Shaped(ReplyPacket(g, request, reply).value)
  {
  }

  // ---- The options of a subnet -----------------------------------------------------

  /** A list of usable servers under a code. */
  predicate ListsServers(g: Global, options: Options, code: byte, servers: seq<Text>) {
    servers != [] ==> code in options && AreAddresses(options[code], ParseIPs(g, servers))
  }

  lemma ServersAreListed(g: Global, subnet: SubnetConfig, options: Options, code: byte, servers: seq<Text>)
    requires CarriesSubnet(g, options, subnet)
    requires servers != [] ==> IsPut(g, subnet, Put(code, PutAddresses(ParseIPs(g, servers))))
    ensures ListsServers(g, options, code, servers)
  {
    ServersAreCarried(g, subnet, options, code, servers);
    AddressListBytes(ParseIPs(g, servers));
  }

  /** Each server list stands under the option code the standards give it. */
  lemma ServerOptionNumbers(g: Global, subnet: SubnetConfig, base: Options)
    ensures var options := AddSubnetOptions(g, subnet, base);
      && ListsServers(g, options, 3, subnet.routers)
      && ListsServers(g, options, 4, subnet.timeServers)
      && ListsServers(g, options, 6, subnet.domainNameServers)
      && ListsServers(g, options, 9, subnet.lprServers)
      && ListsServers(g, options, 42, subnet.ntpServers)
      && ListsServers(g, options, 44, subnet.netBIOSNameServers)
      && ListsServers(g, options, 45, subnet.netBIOSDDServers)
      && ListsServers(g, options, 69, subnet.smtpServers)
  {
    var options := AddSubnetOptions(g, subnet, base);
    SubnetOptionsCarry(g, subnet, base);
    ServersAreListed(g, subnet, options, 3, subnet.routers);
    ServersAreListed(g, subnet, options, 4, subnet.timeServers);
    ServersAreListed(g, subnet, options, 6, subnet.domainNameServers);
    ServersAreListed(g, subnet, options, 9, subnet.lprServers);
    ServersAreListed(g, subnet, options, 42, subnet.ntpServers);
    ServersAreListed(g, subnet, options, 44, subnet.netBIOSNameServers);
    ServersAreListed(g, subnet, options, 45, subnet.netBIOSDDServers);
    ServersAreListed(g, subnet, options, 69, subnet.smtpServers);
  }

  /** So do the mask, the names, the node type -- the subnet's own, or the global one -- and the MTU. */
  lemma OtherOptionNumbers(g: Global, subnet: SubnetConfig, base: Options)
    ensures var options := AddSubnetOptions(g, subnet, base);
      && (g.parseIP(subnet.netmask).Some? ==>
            1 in options && |options[1]| == 4 && Number4(options[1], 0) == g.parseIP(subnet.netmask).value)
      && (subnet.domainName != [] ==> 15 in options && options[15] == subnet.domainName)
      && (subnet.domainSearch != [] ==> 119 in options && options[119] == EncodeNames(subnet.domainSearch))
      && 46 in options
      && options[46] == (match subnet.netBIOSNodeType
                         case Some(n) => [n % 256]
                         case None => [g.netBIOSNodeType % 256])
      && (subnet.interfaceMTU.Some? ==>
            26 in options && |options[26]| == 2 && Number2(options[26], 0) == subnet.interfaceMTU.value % 65536)
  {
    SubnetOptionsCarry(g, subnet, base);
    MaskOptionIs(g, subnet, AddSubnetOptions(g, subnet, base));
    NamesAreCarried(g, subnet, AddSubnetOptions(g, subnet, base));
    NodeOptionsAre(g, subnet, AddSubnetOptions(g, subnet, base));
  }

  lemma MaskOptionIs(g: Global, subnet: SubnetConfig, options: Options)
    requires CarriesSubnet(g, options, subnet)
    ensures g.parseIP(subnet.netmask).Some? ==>
      1 in options && |options[1]| == 4 && Number4(options[1], 0) == g.parseIP(subnet.netmask).value
  {
    if g.parseIP(subnet.netmask).Some? {
      var put := Put(1, PutUint32(g.parseIP(subnet.netmask).value));
      assert IsPut(g, subnet, put) && put.code in options && options[put.code] == put.value;
      NumberBytes(g.parseIP(subnet.netmask).value, 0);
    }
  }

  lemma NodeOptionsAre(g: Global, subnet: SubnetConfig, options: Options)
    requires CarriesSubnet(g, options, subnet)
    ensures 46 in options
    ensures options[46] == (match subnet.netBIOSNodeType
                            case Some(n) => [n % 256]
                            case None => [g.netBIOSNodeType % 256])
    ensures subnet.interfaceMTU.Some? ==>
      26 in options && |options[26]| == 2 && Number2(options[26], 0) == subnet.interfaceMTU.value % 65536
  {
    var node := Put(46, [NodeType(g, subnet)]);
    assert IsPut(g, subnet, node) && node.code in options && options[node.code] == node.value;
    if subnet.interfaceMTU.Some? {
      var mtu := Put(26, PutUint16(subnet.interfaceMTU.value % 0x1_0000));
      assert IsPut(g, subnet, mtu) && mtu.code in options && options[mtu.code] == mtu.value;
      NumberBytes(0, subnet.interfaceMTU.value % 0x1_0000);
    }
  }

  /** The usable servers of a list are exactly its entries that parse, in order. */
  lemma {:induction false} UsableServersAre(g: Global, a: seq<Text>, b: seq<Text>)
    ensures ParseIPs(g, a + b) == ParseIPs(g, a) + ParseIPs(g, b)
    ensures |a| == 1 ==> ParseIPs(g, a) == match g.parseIP(a[0]) case Some(ip) => [ip] case None => []
  {
    if a == [] {
      assert a + b == b;
    } else {
      assert (a + b)[1..] == a[1..] + b;
      UsableServersAre(g, a[1..], b);
    }
  }

  /** The mask a reply carries, and the address it gives, as a client compares them bit by bit. */
  lemma ReplyIsInSubnet(g: Global, subnets: seq<SubnetConfig>, request: Fields, msgType: byte, ip: IPv4,
                        subnet: SubnetConfig)
    requires FindSubnetForIP(g, subnets, ip) == Some(subnet)
    ensures var q := LeaseReply(g, request, msgType, ip, subnet);
      && 1 in q.options && |q.options[1]| == 4 && g.parseIP(subnet.network).Some?
      && 0 <= Number4(q.options[1], 0)
      && AgreeUnder(Number4(q.options[1], 0), g.parseIP(subnet.network).value, q.yiAddr)
  {
    FindSubnetIsFirst(g, subnets, ip);
    OtherOptionNumbers(g, subnet, LeaseOptions(g, msgType));
  }
}
