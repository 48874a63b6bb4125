/**
 The server object of internal/dhcp/server.go. Its handlers bump counters, call the
 allocator and fill reply packets in place; each is proved to make the step of ServerModel
 and to send the reply packet of Replies.
 */
module Server {
  import opened Wrappers
  import opened Config
  import opened LeaseTable
  import opened Allocation
  import opened PacketFormat
  import opened Packet
  import opened ServerModel
  import opened Replies
  import opened Messages
  import opened Allocator
  import opened Protocol
  import DomainNames

  class Server {
    const global: Global
    const allocator: Allocator
    var stats: Stats
    ghost var clock: int

    ghost predicate Valid()
      reads this, allocator, allocator.db
    {
      allocator.Valid() && allocator.global == global
    }

    ghost function State(): State
      reads this, allocator, allocator.db
      requires Valid()
    {
      ServerModel.State(allocator.subnets, allocator.statics, allocator.db.Leases(), allocator.db.nextLeaseId,
                        allocator.db.Denied(), stats, clock)
    }

    constructor (allocator: Allocator, ghost now: int)
      requires allocator.Valid()
      ensures Valid() && this.allocator == allocator && stats == ZERO_STATS && clock == now
    {
      this.global, this.allocator := allocator.global, allocator;
      this.stats, this.clock := ZERO_STATS, now;
    }

    /** findSubnetForIP */
    method FindSubnet(ip: IPv4) returns (r: Option<SubnetConfig>)
      requires Valid()
      ensures r == FindSubnetForIP(global, allocator.subnets, ip)
    {
      var subnets := allocator.subnets;
      var i := 0;
      while i < |subnets|
        invariant 0 <= i <= |subnets|
        invariant FindSubnetForIP(global, subnets, ip) == FindSubnetForIP(global, subnets[i..], ip)
      {
        assert subnets[i..][1..] == subnets[i + 1..];
        var network := global.parseIP(subnets[i].network);
        var mask := global.parseIP(subnets[i].netmask);
        if network.Some? && mask.Some? && And(And(network.value, mask.value), mask.value) == And(ip, mask.value) {
          return Some(subnets[i]);
        }
        i := i + 1;
      }
      return None;
    }

    /** isStaticLease */
    method IsStatic(macAddr: Text) returns (r: bool)
      requires Valid()
      ensures r <==> IsStaticLease(allocator.statics, macAddr)
    {
      var mac := NormalizeMAC(macAddr);
      for i := 0 to |allocator.statics|
        invariant forall j | 0 <= j < i :: NormalizeMAC(allocator.statics[j].macAddress) != mac
      {
        if NormalizeMAC(allocator.statics[i].macAddress) == mac {
          return true;
        }
      }
      return false;
    }

    /** parseIPs */
    method UsableServers(ips: seq<Text>) returns (r: seq<IPv4>)
      ensures r == ParseIPs(global, ips)
    {
      r := [];
      var i := 0;
      while i < |ips|
        invariant 0 <= i <= |ips|
        invariant r + ParseIPs(global, ips[i..]) == ParseIPs(global, ips)
      {
        ParseIPsStep(global, r, ips, i);
        var ip := global.parseIP(ips[i]);
        if ip.Some? {
          r := r + [ip.value];
        }
        i := i + 1;
      }
      assert r + ParseIPs(global, ips[i..]) == r;
    }

    method AddServerList(packet: Packet, code: byte, servers: seq<Text>)
      modifies packet`options
      ensures packet.options == Apply(old(packet.options), Servers(global, code, servers))
    {
      if |servers| > 0 {
        var ips := UsableServers(servers);
        packet.SetAddresses(code, ips);
        var put := Put(code, PutAddresses(ips));
        assert [put][1..] == [] && Apply(packet.options, []) == packet.options;
      }
    }

    /** addSubnetOptions: the mask, the router and name servers, and the names. */
    method AddMaskAndNames(packet: Packet, subnet: SubnetConfig)
      modifies packet`options
      ensures packet.options == Apply(old(packet.options), MaskAndNamePuts(global, subnet))
    {
      ghost var start := packet.options;
      ghost var puts := MaskPut(global, subnet);
      var mask := global.parseIP(subnet.netmask);
      if mask.Some? {
        packet.SetSubnetMask(mask.value);
        assert puts[1..] == [] && Apply(packet.options, []) == packet.options;
      }
      ApplyAppend(start, puts, Servers(global, OPTION_ROUTER, subnet.routers));
      AddServerList(packet, OPTION_ROUTER, subnet.routers);
      puts := puts + Servers(global, OPTION_ROUTER, subnet.routers);
      ApplyAppend(start, puts, Servers(global, OPTION_DNS, subnet.domainNameServers));
      AddServerList(packet, OPTION_DNS, subnet.domainNameServers);
      puts := puts + Servers(global, OPTION_DNS, subnet.domainNameServers);
      ApplyAppend(start, puts, NamePuts(subnet));
      AddNames(packet, subnet);
    }

    method AddNames(packet: Packet, subnet: SubnetConfig)
      modifies packet`options
      ensures packet.options == Apply(old(packet.options), NamePuts(subnet))
    {
      ghost var start := packet.options;
      ghost var name := if subnet.domainName == [] then [] else [Put(OPTION_DOMAIN_NAME, subnet.domainName)];
      ghost var search :=
        if subnet.domainSearch == [] then []
        else [Put(OPTION_DOMAIN_SEARCH, DomainNames.EncodeNames(subnet.domainSearch))];
      ApplyAppend(start, name, search);
      if subnet.domainName != [] {
        packet.SetDomainName(subnet.domainName);
        assert name[1..] == [] && Apply(packet.options, []) == packet.options;
      }
      if |subnet.domainSearch| > 0 {
        packet.SetDomainSearch(subnet.domainSearch);
        assert search[1..] == [] && Apply(packet.options, []) == packet.options;
      }
    }

    /** addSubnetOptions: the remaining server lists. */
    method AddServerLists(packet: Packet, subnet: SubnetConfig)
      modifies packet`options
      ensures packet.options == Apply(old(packet.options), ServerPuts(global, subnet))
    {
      ghost var start := packet.options;
      AddServerList(packet, OPTION_NTP_SERVERS, subnet.ntpServers);
      ghost var puts := Servers(global, OPTION_NTP_SERVERS, subnet.ntpServers);
      ApplyAppend(start, puts, Servers(global, OPTION_TIME_SERVER, subnet.timeServers));
      AddServerList(packet, OPTION_TIME_SERVER, subnet.timeServers);
      puts := puts + Servers(global, OPTION_TIME_SERVER, subnet.timeServers);
      ApplyAppend(start, puts, Servers(global, OPTION_SMTP_SERVER, subnet.smtpServers));
      AddServerList(packet, OPTION_SMTP_SERVER, subnet.smtpServers);
      puts := puts + Servers(global, OPTION_SMTP_SERVER, subnet.smtpServers);
      ApplyAppend(start, puts, Servers(global, OPTION_LPR_SERVER, subnet.lprServers));
      AddServerList(packet, OPTION_LPR_SERVER, subnet.lprServers);
      puts := puts + Servers(global, OPTION_LPR_SERVER, subnet.lprServers);
      ApplyAppend(start, puts, Servers(global, OPTION_NETBIOS_NAME_SERVERS, subnet.netBIOSNameServers));
      AddServerList(packet, OPTION_NETBIOS_NAME_SERVERS, subnet.netBIOSNameServers);
      puts := puts + Servers(global, OPTION_NETBIOS_NAME_SERVERS, subnet.netBIOSNameServers);
      ApplyAppend(start, puts, Servers(global, OPTION_NETBIOS_DD_SERVER, subnet.netBIOSDDServers));
      AddServerList(packet, OPTION_NETBIOS_DD_SERVER, subnet.netBIOSDDServers);
    }

    /** addSubnetOptions: node type and MTU, as one and two bytes. */
    method AddNodeAndMTU(packet: Packet, subnet: SubnetConfig)
      modifies packet`options
      ensures packet.options == Apply(old(packet.options), NodeAndMTUPuts(global, subnet))
    {
      ghost var start := packet.options;
      ghost var node := [Put(OPTION_NETBIOS_NODE_TYPE, [NodeType(global, subnet)])];
      ApplyAppend(start, node, MTUPut(subnet));
      var nodeType := if subnet.netBIOSNodeType.Some? then subnet.netBIOSNodeType.value else global.netBIOSNodeType;
      packet.SetNetBIOSNodeType(nodeType % 0x100);
      assert node[1..] == [] && Apply(packet.options, []) == packet.options;
      if subnet.interfaceMTU.Some? {
        packet.SetInterfaceMTU(subnet.interfaceMTU.value % 0x1_0000);
        assert MTUPut(subnet)[1..] == [] && Apply(packet.options, []) == packet.options;
      }
    }

    /** addSubnetOptions */
    method AddOptions(packet: Packet, subnet: SubnetConfig)
      modifies packet`options
      ensures packet.options == AddSubnetOptions(global, subnet, old(packet.options))
    {
      ghost var start := packet.options;
      ghost var names := MaskAndNamePuts(global, subnet);
      ghost var servers := ServerPuts(global, subnet);
      ApplyAppend(start, names, servers);
      ApplyAppend(start, names + servers, NodeAndMTUPuts(global, subnet));
      AddMaskAndNames(packet, subnet);
      AddServerLists(packet, subnet);
      AddNodeAndMTU(packet, subnet);
    }

    /** createOffer and createAck, which differ in the message type. */
    method CreateLeaseReply(request: Packet, msgType: byte, ip: IPv4, subnet: SubnetConfig) returns (reply: Packet)
      ensures fresh(reply) && reply.Value() == LeaseReply(global, request.Value(), msgType, ip, subnet)
    {
      reply := new Packet(ReplyHeader(request.Value(), UNSPECIFIED, ip, global.serverIP));
      reply.SetMessageType(msgType);
      reply.SetServerIdentifier(global.serverIP);
      reply.SetLeaseTime(global.LeaseOption());
      assert reply.options == LeaseOptions(global, msgType);
      AddOptions(reply, subnet);
    }

    /** createBootReply */
    method CreateBootReply(request: Packet, ip: IPv4, subnet: SubnetConfig) returns (reply: Packet)
      ensures fresh(reply) && reply.Value() == BootReplyPacket(global, request.Value(), ip, subnet)
    {
      reply := new Packet(ReplyHeader(request.Value(), request.ciAddr, ip, UNSPECIFIED));
      SetBootFields(reply, subnet);
      assert reply.Value() == BootReplyPacket(global, request.Value(), ip, subnet).(options := map[]);
      AddOptions(reply, subnet);
    }

    /** The boot server, its name and the boot file, where the subnet configures them. */
    method SetBootFields(reply: Packet, subnet: SubnetConfig)
      requires reply.siAddr == UNSPECIFIED
      modifies reply`siAddr, reply`sName, reply`file
      ensures reply.siAddr == BootServer(global, subnet)
      ensures reply.sName ==
        if subnet.serverHostname != [] then TextField(subnet.serverHostname, 64) else old(reply.sName)
      ensures reply.file ==
        if subnet.bootFilename != [] then TextField(subnet.bootFilename, 128) else old(reply.file)
    {
      if subnet.nextServer != [] {
        var siaddr := global.parseIP(subnet.nextServer);
        if siaddr.Some? {
          reply.siAddr := siaddr.value;
        }
      } else if subnet.bootFilename != [] {
        reply.siAddr := global.serverIP;
      }
      if subnet.serverHostname != [] {
        reply.SetServerHostname(subnet.serverHostname);
      }
      if subnet.bootFilename != [] {
        reply.SetBootFilename(subnet.bootFilename);
      }
    }

    /** sendPacket: the socket write succeeds or fails. */
    method SendPacket(sent: bool)
      requires Valid()
      modifies this`stats
      ensures Valid() && State() == Sent(old(State()), sent)
    {
      if sent {
        stats := stats.(packetsSent := stats.packetsSent + 1);
      } else {
        stats := stats.(errors := stats.errors + 1);
      }
    }

    /** sendNak */
    method CreateNak(request: Packet) returns (nak: Packet)
      ensures fresh(nak) && nak.Value() == NakReply(global, request.Value())
    {
      nak := new Packet(ReplyHeader(request.Value(), UNSPECIFIED, UNSPECIFIED, global.serverIP));
      nak.SetMessageType(DHCP_NAK);
      nak.SetServerIdentifier(global.serverIP);
    }

    /** The packet for a decided reply. */
    method BuildReply(request: Packet, r: Reply) returns (reply: Option<Packet>)
      ensures IsReply(reply, request.Value(), r)
    {
      match r
      case NoReply => reply := None;
      case Offer(ip, subnet) =>
        var offer := CreateLeaseReply(request, DHCP_OFFER, ip, subnet);
        reply := Some(offer);
      case Ack(ip, subnet) =>
        var ack := CreateLeaseReply(request, DHCP_ACK, ip, subnet);
        reply := Some(ack);
      case Nak =>
        var nak := CreateNak(request);
        reply := Some(nak);
      case BootReply(ip, subnet) =>
        var answer := CreateBootReply(request, ip, subnet);
        reply := Some(answer);
      case InformAck(subnet) =>
        var ack := CreateLeaseReply(request, DHCP_ACK, request.ciAddr, subnet);
        ack.yiAddr := UNSPECIFIED;
        reply := Some(ack);
    }

    /** sendNak: count the refusal. */
    method Refuse(sent: bool) returns (r: Reply)
      requires Valid()
      modifies this`stats
      ensures Valid() && (State(), r) == ServerModel.Refuse(old(State()), sent)
    {
      SendPacket(sent);
      stats := stats.(nak := stats.nak + 1);
      return Nak;
    }

    /** The packet object handed to the socket is the one the reply stands for. */
    ghost predicate IsReply(reply: Option<Packet>, request: Fields, r: Reply)
      reads if reply.Some? then {reply.value} else {}
    {
      match ReplyPacket(global, request, r)
      case None => reply.None?
      case Some(v) => reply.Some? && reply.value.Value() == v
    }

    /** The call into the allocator: only the deny set may change. */
    method Allocate(mac: Text, requested: Option<IPv4>, now: int, pings: Pings) returns (ip: Option<IPv4>)
      requires Valid()
      requires AllocationReturns(global, State(), now, pings, mac, requested)
      modifies allocator.db
      ensures Valid()
      ensures var r := ServerModel.Allocate(global, old(State()), now, pings, mac, requested);
        ip == r.ip && State() == old(State()).(deny := r.deny)
    {
      ip := allocator.AllocateIP(mac, requested, now, pings);
    }

    /** The call into the allocator that records a lease. */
    method RecordLease(mac: Text, ip: IPv4, hostname: Text, isStatic: bool, now: int)
      requires Valid()
      modifies allocator.db
      ensures Valid() && State() == CreateLease(global, old(State()), now, mac, ip, hostname, isStatic)
    {
      allocator.CreateLease(mac, ip, hostname, isStatic, now);
    }

    method HandleDiscover(packet: Packet, requested: Option<IPv4>, now: int, pings: Pings, sent: bool)
      returns (r: Reply)
      requires Valid()
      requires AllocationReturns(global, State(), now, pings, MACAddressString(packet.chAddr), requested)
      modifies this`stats, allocator.db
      ensures Valid()
      ensures (State(), r) == ServerModel.HandleDiscover(global, old(State()), now, pings, sent,
                                                       MACAddressString(packet.chAddr), requested)
    {
      var mac := MACAddressString(packet.chAddr);
      var ip := Allocate(mac, requested, now, pings);
      if ip.None? {
        return NoReply;
      }
      var subnet := FindSubnet(ip.value);
      if subnet.None? {
        return NoReply;
      }
      SendPacket(sent);
      stats := stats.(offer := stats.offer + 1);
      return Offer(ip.value, subnet.value);
    }

    method HandleRequest(packet: Packet, now: int, pings: Pings, sent: bool) returns (r: Reply)
      requires Valid()
      requires HandlerReturns(global, State(), now, pings, RequestMessage(packet.Value()))
      modifies this`stats, allocator.db
      ensures Valid()
      ensures (State(), r) == ServerModel.HandleRequest(global, old(State()), now, pings, sent,
                                                      RequestMessage(packet.Value()))
    {
      var mac := MACAddressString(packet.chAddr);
      var requested := GetAddressOption(packet.Value(), OPTION_REQUESTED_IP);
      var serverId := GetAddressOption(packet.Value(), OPTION_SERVER_IDENTIFIER);
      if serverId.Some? && serverId.value != global.serverIP {
        return NoReply;
      }
      var ip: IPv4;
      if requested.Some? && requested.value != UNSPECIFIED {
        ip := requested.value;
      } else if packet.ciAddr != UNSPECIFIED {
        ip := packet.ciAddr;
      } else {
        r := Refuse(sent);
        return;
      }
      r := AnswerRequest(mac, Hostname(packet.Value()), ip, now, pings, sent);
    }

    /** The rest of handleRequest, once the address is known. */
    method AnswerRequest(mac: Text, hostname: Text, ip: IPv4, now: int, pings: Pings, sent: bool)
      returns (r: Reply)
      requires Valid()
      requires AllocationReturns(global, State(), now, pings, mac, Some(ip))
      modifies this`stats, allocator.db
      ensures Valid()
      ensures (State(), r) == ServerModel.AnswerRequest(global, old(State()), now, pings, sent, mac, hostname, ip)
    {
      var granted := Allocate(mac, Some(ip), now, pings);
      if granted.None? || granted.value != ip {
        r := Refuse(sent);
        return;
      }
      var subnet := FindSubnet(ip);
      if subnet.None? {
        r := Refuse(sent);
        return;
      }
      r := Acknowledge(mac, hostname, ip, subnet.value, now, sent);
    }

    /** The end of handleRequest: record the lease, then send the ACK. */
    method Acknowledge(mac: Text, hostname: Text, ip: IPv4, subnet: SubnetConfig, now: int, sent: bool)
      returns (r: Reply)
      requires Valid()
      modifies this`stats, allocator.db
      ensures Valid()
      ensures (State(), r) == ServerModel.Acknowledge(global, old(State()), now, sent, mac, hostname, ip, subnet)
    {
      var isStatic := IsStatic(mac);
      RecordLease(mac, ip, hostname, isStatic, now);
      SendPacket(sent);
      stats := stats.(ack := stats.ack + 1);
      return Ack(ip, subnet);
    }

    method HandleRelease(packet: Packet, now: int)
      requires Valid()
      modifies allocator.db
      ensures Valid()
      ensures State() == old(State()).(
        leases := EndLatest(old(State()).leases, NormalizeMAC(MACAddressString(packet.chAddr)), now))
    {
      var _ := allocator.ReleaseLease(MACAddressString(packet.chAddr), now);
    }

    method HandleInform(packet: Packet, sent: bool) returns (r: Reply)
      requires Valid()
      modifies this`stats
      ensures Valid()
      ensures (State(), r) == ServerModel.HandleInform(global, old(State()), sent, packet.ciAddr)
    {
      var subnet := FindSubnet(packet.ciAddr);
      if subnet.None? {
        return NoReply;
      }
      SendPacket(sent);
      return InformAck(subnet.value);
    }

    method HandleBootP(packet: Packet, now: int, sent: bool) returns (r: Reply)
      requires Valid()
      modifies this`stats, allocator.db
      ensures Valid()
      ensures (State(), r) == ServerModel.HandleBootP(global, old(State()), now, sent,
                                                    MACAddressString(packet.chAddr), Hostname(packet.Value()))
    {
      var mac := MACAddressString(packet.chAddr);
      var ip := allocator.GetStaticIP(mac);
      if ip.None? {
        return NoReply;
      }
      var subnet := FindSubnet(ip.value);
      if subnet.None? || !subnet.value.enableBootP {
        return NoReply;
      }
      r := AnswerBootP(mac, Hostname(packet.Value()), ip.value, subnet.value, now, sent);
    }

    /** The end of handleBootP: record the lease, then send the BOOTREPLY. */
    method AnswerBootP(mac: Text, hostname: Text, ip: IPv4, subnet: SubnetConfig, now: int, sent: bool)
      returns (r: Reply)
      requires Valid()
      modifies this`stats, allocator.db
      ensures Valid()
      ensures (State(), r) == ServerModel.AnswerBootP(global, old(State()), now, sent, mac, hostname, ip, subnet)
    {
      RecordLease(mac, ip, hostname, true, now);
      SendPacket(sent);
      stats := stats.(bootReply := stats.bootReply + 1);
      return BootReply(ip, subnet);
    }

    /** handlePacket: one packet is one step of the state machine, and the reply sent is that step's reply. */
    method HandlePacket(packet: Packet, now: int, pings: Pings, sent: bool) returns (reply: Option<Packet>, r: Reply)
      requires Valid()
      requires HandlerReturns(global, State(), now, pings, Classify(packet.Value()))
      modifies this`stats, this`clock, allocator.db
      ensures Valid()
      ensures (State(), r)
        == Step(global, old(State()), Event(now, Input.Packet(Classify(packet.Value()), pings, sent)))
      ensures IsReply(reply, packet.Value(), r)
      ensures reply.Some? ==> MayAnswer(packet.Value(), reply.value.Value())
    {
      AnswerIsTyped(global, State(), now, pings, sent, packet.Value());
      r := Dispatch(packet, now, pings, sent);
      clock := now;
      reply := BuildReply(packet, r);
    }

    method Dispatch(packet: Packet, now: int, pings: Pings, sent: bool) returns (r: Reply)
      requires Valid()
      requires HandlerReturns(global, State(), now, pings, Classify(packet.Value()))
      modifies this`stats, allocator.db
      ensures Valid()
      ensures (State(), r) == ServerModel.HandlePacket(global, old(State()), now, pings, sent, Classify(packet.Value()))
    {
      var msgType := GetUint8Option(packet.Value(), OPTION_MESSAGE_TYPE);
      if msgType.None? {
        r := HandleUntyped(packet, now, sent);
      } else if msgType.value == DHCP_DISCOVER {
        stats := stats.(discover := stats.discover + 1);
        r := HandleDiscover(packet, GetAddressOption(packet.Value(), OPTION_REQUESTED_IP), now, pings, sent);
      } else if msgType.value == DHCP_REQUEST {
        stats := stats.(request := stats.request + 1);
        r := HandleRequest(packet, now, pings, sent);
      } else {
        r := DispatchOther(packet, msgType.value, now, sent);
      }
    }

    /** A packet without a usable message type: BOOTP only if the option is absent. */
    method HandleUntyped(packet: Packet, now: int, sent: bool) returns (r: Reply)
      requires Valid() && GetUint8Option(packet.Value(), OPTION_MESSAGE_TYPE).None?
      modifies this`stats, allocator.db
      ensures Valid()
      ensures (State(), r) == ServerModel.HandlePacket(global, old(State()), now, {}, sent, Classify(packet.Value()))
    {
      if OPTION_MESSAGE_TYPE !in packet.options && packet.opCode == BOOT_REQUEST {
        r := HandleBootP(packet, now, sent);
      } else {
        stats := stats.(errors := stats.errors + 1);
        r := NoReply;
      }
    }

    /** RELEASE, DECLINE, INFORM and the message types the server does not handle. */
    method DispatchOther(packet: Packet, msgType: byte, now: int, sent: bool) returns (r: Reply)
      requires Valid() && GetUint8Option(packet.Value(), OPTION_MESSAGE_TYPE) == Some(msgType)
      requires msgType != DHCP_DISCOVER && msgType != DHCP_REQUEST
      modifies this`stats, allocator.db
      ensures Valid()
      ensures (State(), r) == ServerModel.HandlePacket(global, old(State()), now, {}, sent, Classify(packet.Value()))
    {
      if msgType == DHCP_RELEASE {
        stats := stats.(release := stats.release + 1);
        HandleRelease(packet, now);
        r := NoReply;
      } else if msgType == DHCP_DECLINE {
        stats := stats.(decline := stats.decline + 1);
        r := NoReply;
      } else if msgType == DHCP_INFORM {
        stats := stats.(inform := stats.inform + 1);
        r := HandleInform(packet, sent);
      } else {
        r := NoReply;
      }
    }
  }

  lemma ParseIPsStep(g: Global, r: seq<IPv4>, ips: seq<Text>, i: nat)
    requires i < |ips|
    ensures r + ParseIPs(g, ips[i..])
      == (match g.parseIP(ips[i]) case Some(ip) => r + [ip] case None => r) + ParseIPs(g, ips[i + 1..])
  {
    assert ips[i..][1..] == ips[i + 1..];
  }
}
