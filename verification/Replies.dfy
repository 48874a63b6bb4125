/**
 The reply packets of internal/dhcp/server.go as values, and what a client reads back from
 their bytes.
 */
module Replies {
  import opened Wrappers
  import opened Config
  import opened PacketFormat
  import opened Packet
  import opened ServerModel
  import opened DomainNames

  const BOOT_REPLY: byte := 2
  const DHCP_OFFER: byte := 2
  const DHCP_ACK: byte := 5
  const DHCP_NAK: byte := 6

  type Options = map<byte, seq<byte>>

  /** parseIPs: entries that do not parse are dropped. */
  function ParseIPs(g: Global, ips: seq<Text>): seq<IPv4> {
    if ips == [] then []
    else (match g.parseIP(ips[0]) case Some(ip) => [ip] case None => []) + ParseIPs(g, ips[1..])
  }

  /** One option a reply is given. */
  datatype Put = Put(code: byte, value: seq<byte>)

  function Apply(options: Options, puts: seq<Put>): Options
    decreases |puts|
  {
    if puts == [] then options else Apply(options[puts[0].code := puts[0].value], puts[1..])
  }

  function Servers(g: Global, code: byte, servers: seq<Text>): seq<Put> {
    if servers == [] then [] else [Put(code, PutAddresses(ParseIPs(g, servers)))]
  }

  function MaskPut(g: Global, subnet: SubnetConfig): seq<Put> {
    match g.parseIP(subnet.netmask)
    case Some(mask) => [Put(OPTION_SUBNET_MASK, PutUint32(mask))]
    case None => []
  }

  function NamePuts(subnet: SubnetConfig): seq<Put> {
    (if subnet.domainName == [] then [] else [Put(OPTION_DOMAIN_NAME, subnet.domainName)])
      + (if subnet.domainSearch == [] then [] else [Put(OPTION_DOMAIN_SEARCH, EncodeNames(subnet.domainSearch))])
  }

  function NodeType(g: Global, subnet: SubnetConfig): byte {
    (match subnet.netBIOSNodeType case Some(n) => n case None => g.netBIOSNodeType) % 0x100
  }

  function MTUPut(subnet: SubnetConfig): seq<Put> {
    match subnet.interfaceMTU
    case Some(mtu) => [Put(OPTION_INTERFACE_MTU, PutUint16(mtu % 0x1_0000))]
    case None => []
  }

  function MaskAndNamePuts(g: Global, subnet: SubnetConfig): seq<Put> {
    MaskPut(g, subnet)
      + Servers(g, OPTION_ROUTER, subnet.routers)
      + Servers(g, OPTION_DNS, subnet.domainNameServers)
      + NamePuts(subnet)
  }

  function ServerPuts(g: Global, subnet: SubnetConfig): seq<Put> {
    Servers(g, OPTION_NTP_SERVERS, subnet.ntpServers)
      + Servers(g, OPTION_TIME_SERVER, subnet.timeServers)
      + Servers(g, OPTION_SMTP_SERVER, subnet.smtpServers)
      + Servers(g, OPTION_LPR_SERVER, subnet.lprServers)
      + Servers(g, OPTION_NETBIOS_NAME_SERVERS, subnet.netBIOSNameServers)
      + Servers(g, OPTION_NETBIOS_DD_SERVER, subnet.netBIOSDDServers)
  }

  function NodeAndMTUPuts(g: Global, subnet: SubnetConfig): seq<Put> {
    [Put(OPTION_NETBIOS_NODE_TYPE, [NodeType(g, subnet)])] + MTUPut(subnet)
  }

  /** addSubnetOptions: the options of a subnet in the order the code adds them. */
  function SubnetPuts(g: Global, subnet: SubnetConfig): seq<Put> {
    MaskAndNamePuts(g, subnet) + ServerPuts(g, subnet) + NodeAndMTUPuts(g, subnet)
  }

  function AddSubnetOptions(g: Global, subnet: SubnetConfig, options: Options): Options {
    Apply(options, SubnetPuts(g, subnet))
  }

  /** The fields every reply copies from its request. */
  function ReplyHeader(request: Fields, ciAddr: IPv4, yiAddr: IPv4, siAddr: IPv4): Fields {
    Fields(BOOT_REPLY, request.hwType, request.hwLen, 0, request.xid, 0, request.flags,
           ciAddr, yiAddr, siAddr, request.giAddr, request.chAddr, Zeros(64), Zeros(128), map[])
  }

  function LeaseOptions(g: Global, msgType: byte): Options {
    map[OPTION_MESSAGE_TYPE := [msgType],
        OPTION_SERVER_IDENTIFIER := PutUint32(g.serverIP),
        OPTION_LEASE_TIME := PutUint32(g.LeaseOption())]
  }

  /** createOffer and createAck */
  function LeaseReply(g: Global, request: Fields, msgType: byte, ip: IPv4, subnet: SubnetConfig): Fields {
    ReplyHeader(request, UNSPECIFIED, ip, g.serverIP).(
      options := AddSubnetOptions(g, subnet, LeaseOptions(g, msgType)))
  }

  /** sendNak */
  function NakReply(g: Global, request: Fields): Fields {
    ReplyHeader(request, UNSPECIFIED, UNSPECIFIED, g.serverIP).(
      options := map[OPTION_MESSAGE_TYPE := [DHCP_NAK], OPTION_SERVER_IDENTIFIER := PutUint32(g.serverIP)])
  }

  /** The boot server address of a BOOTREPLY. */
  function BootServer(g: Global, subnet: SubnetConfig): IPv4 {
    if subnet.nextServer != [] then
      match g.parseIP(subnet.nextServer) case Some(ip) => ip case None => UNSPECIFIED
    else if subnet.bootFilename != [] then g.serverIP
    else UNSPECIFIED
  }

  /** createBootReply */
  function BootReplyPacket(g: Global, request: Fields, ip: IPv4, subnet: SubnetConfig): Fields {
    ReplyHeader(request, request.ciAddr, ip, BootServer(g, subnet)).(
      sName := if subnet.serverHostname != [] then TextField(subnet.serverHostname, 64) else Zeros(64),
      file := if subnet.bootFilename != [] then TextField(subnet.bootFilename, 128) else Zeros(128),
      options := AddSubnetOptions(g, subnet, map[]))
  }

  /** The packet sent for a reply of the state machine. */
  function ReplyPacket(g: Global, request: Fields, reply: Reply): Option<Fields> {
    match reply
    case NoReply => None
    case Offer(ip, subnet) => Some(LeaseReply(g, request, DHCP_OFFER, ip, subnet))
    case Ack(ip, subnet) => Some(LeaseReply(g, request, DHCP_ACK, ip, subnet))
    case Nak => Some(NakReply(g, request))
    case BootReply(ip, subnet) => Some(BootReplyPacket(g, request, ip, subnet))
    case InformAck(subnet) => Some(LeaseReply(g, request, DHCP_ACK, UNSPECIFIED, subnet))
  }

  // ---- Which replies fit the wire --------------------------------------------------

  /** At most 63 usable servers per list, and names of at most 255 encoded bytes. */
  predicate Fits(g: Global, subnet: SubnetConfig) {
    && |ParseIPs(g, subnet.routers)| <= 63
    && |ParseIPs(g, subnet.domainNameServers)| <= 63
    && |ParseIPs(g, subnet.ntpServers)| <= 63
    && |ParseIPs(g, subnet.timeServers)| <= 63
    && |ParseIPs(g, subnet.smtpServers)| <= 63
    && |ParseIPs(g, subnet.lprServers)| <= 63
    && |ParseIPs(g, subnet.netBIOSNameServers)| <= 63
    && |ParseIPs(g, subnet.netBIOSDDServers)| <= 63
    && |subnet.domainName| <= 255
    && |EncodeNames(subnet.domainSearch)| <= 255
  }

  /** The options of a subnet, each with its own code. */
  predicate IsServers(g: Global, code: byte, servers: seq<Text>, put: Put) {
    servers != [] && put == Put(code, PutAddresses(ParseIPs(g, servers)))
  }

  predicate IsMaskOrNamePut(g: Global, subnet: SubnetConfig, put: Put) {
    || (g.parseIP(subnet.netmask).Some? && put == Put(OPTION_SUBNET_MASK, PutUint32(g.parseIP(subnet.netmask).value)))
    || IsServers(g, OPTION_ROUTER, subnet.routers, put)
    || IsServers(g, OPTION_DNS, subnet.domainNameServers, put)
    || (subnet.domainName != [] && put == Put(OPTION_DOMAIN_NAME, subnet.domainName))
    || (subnet.domainSearch != [] && put == Put(OPTION_DOMAIN_SEARCH, EncodeNames(subnet.domainSearch)))
  }

  predicate IsServerPut(g: Global, subnet: SubnetConfig, put: Put) {
    || IsServers(g, OPTION_NTP_SERVERS, subnet.ntpServers, put)
    || IsServers(g, OPTION_TIME_SERVER, subnet.timeServers, put)
    || IsServers(g, OPTION_SMTP_SERVER, subnet.smtpServers, put)
    || IsServers(g, OPTION_LPR_SERVER, subnet.lprServers, put)
    || IsServers(g, OPTION_NETBIOS_NAME_SERVERS, subnet.netBIOSNameServers, put)
    || IsServers(g, OPTION_NETBIOS_DD_SERVER, subnet.netBIOSDDServers, put)
  }

  predicate IsNodeOrMTUPut(g: Global, subnet: SubnetConfig, put: Put) {
    || put == Put(OPTION_NETBIOS_NODE_TYPE, [NodeType(g, subnet)])
    || (subnet.interfaceMTU.Some? && put == Put(OPTION_INTERFACE_MTU, PutUint16(subnet.interfaceMTU.value % 0x1_0000)))
  }

  predicate IsPut(g: Global, subnet: SubnetConfig, put: Put) {
    IsMaskOrNamePut(g, subnet, put) || IsServerPut(g, subnet, put) || IsNodeOrMTUPut(g, subnet, put)
  }

  lemma InConcat(a: seq<Put>, b: seq<Put>, put: Put)
    ensures put in a + b <==> put in a || put in b
  {
  }

  lemma ServersAre(g: Global, code: byte, servers: seq<Text>, put: Put)
    ensures put in Servers(g, code, servers) <==> IsServers(g, code, servers, put)
  {
  }

  lemma MaskAndNamePutsAre(g: Global, subnet: SubnetConfig, put: Put)
    ensures put in MaskAndNamePuts(g, subnet) <==> IsMaskOrNamePut(g, subnet, put)
  {
    var a, b := Servers(g, OPTION_ROUTER, subnet.routers), Servers(g, OPTION_DNS, subnet.domainNameServers);
    InConcat(MaskPut(g, subnet), a, put);
    InConcat(MaskPut(g, subnet) + a, b, put);
    InConcat(MaskPut(g, subnet) + a + b, NamePuts(subnet), put);
    ServersAre(g, OPTION_ROUTER, subnet.routers, put);
    ServersAre(g, OPTION_DNS, subnet.domainNameServers, put);
  }

  lemma ServerPutsAre(g: Global, subnet: SubnetConfig, put: Put)
    ensures put in ServerPuts(g, subnet) <==> IsServerPut(g, subnet, put)
  {
    var a := Servers(g, OPTION_NTP_SERVERS, subnet.ntpServers);
    var b := Servers(g, OPTION_TIME_SERVER, subnet.timeServers);
    var c := Servers(g, OPTION_SMTP_SERVER, subnet.smtpServers);
    var d := Servers(g, OPTION_LPR_SERVER, subnet.lprServers);
    var e := Servers(g, OPTION_NETBIOS_NAME_SERVERS, subnet.netBIOSNameServers);
    var f := Servers(g, OPTION_NETBIOS_DD_SERVER, subnet.netBIOSDDServers);
    InConcat(a, b, put);
    InConcat(a + b, c, put);
    InConcat(a + b + c, d, put);
    InConcat(a + b + c + d, e, put);
    InConcat(a + b + c + d + e, f, put);
    ServersAre(g, OPTION_NTP_SERVERS, subnet.ntpServers, put);
    ServersAre(g, OPTION_TIME_SERVER, subnet.timeServers, put);
    ServersAre(g, OPTION_SMTP_SERVER, subnet.smtpServers, put);
    ServersAre(g, OPTION_LPR_SERVER, subnet.lprServers, put);
    ServersAre(g, OPTION_NETBIOS_NAME_SERVERS, subnet.netBIOSNameServers, put);
    ServersAre(g, OPTION_NETBIOS_DD_SERVER, subnet.netBIOSDDServers, put);
  }

  lemma SubnetPutsAre(g: Global, subnet: SubnetConfig, put: Put)
    ensures put in SubnetPuts(g, subnet) <==> IsPut(g, subnet, put)
  {
    MaskAndNamePutsAre(g, subnet, put);
    ServerPutsAre(g, subnet, put);
    InConcat(MaskAndNamePuts(g, subnet), ServerPuts(g, subnet), put);
    InConcat(MaskAndNamePuts(g, subnet) + ServerPuts(g, subnet), NodeAndMTUPuts(g, subnet), put);
  }

  lemma {:induction false} ApplyKeeps(options: Options, puts: seq<Put>, code: byte)
    requires forall put | put in puts :: put.code != code
    ensures code in Apply(options, puts) <==> code in options
    ensures code in options ==> Apply(options, puts)[code] == options[code]
    decreases |puts|
  {
    if puts != [] {
      ApplyKeeps(options[puts[0].code := puts[0].value], puts[1..], code);
    }
  }

  lemma {:induction false} ApplyGives(options: Options, puts: seq<Put>, put: Put)
    requires put in puts && forall other | other in puts && other.code == put.code :: other == put
    ensures put.code in Apply(options, puts) && Apply(options, puts)[put.code] == put.value
    decreases |puts|
  {
    if put in puts[1..] {
      ApplyGives(options[puts[0].code := puts[0].value], puts[1..], put);
    } else {
      ApplyKeeps(options[puts[0].code := puts[0].value], puts[1..], put.code);
    }
  }

  lemma {:induction false} ApplyEncodable(options: Options, puts: seq<Put>)
    requires OptionsEncodable(options)
    requires forall put | put in puts :: put.code != OPTION_PAD && put.code != OPTION_END && |put.value| <= 255
    ensures OptionsEncodable(Apply(options, puts))
    decreases |puts|
  {
    if puts != [] {
      ApplyEncodable(options[puts[0].code := puts[0].value], puts[1..]);
    }
  }

  lemma {:induction false} ApplyAppend(options: Options, first: seq<Put>, rest: seq<Put>)
    ensures Apply(options, first + rest) == Apply(Apply(options, first), rest)
    decreases |first|
  {
    if first == [] {
      assert first + rest == rest;
    } else {
      assert (first + rest)[1..] == first[1..] + rest;
      ApplyAppend(options[first[0].code := first[0].value], first[1..], rest);
    }
  }

  lemma SubnetOptionsEncodable(g: Global, subnet: SubnetConfig, options: Options)
    requires Fits(g, subnet) && OptionsEncodable(options)
    ensures OptionsEncodable(AddSubnetOptions(g, subnet, options))
  {
    forall put | put in SubnetPuts(g, subnet)
      ensures put.code != OPTION_PAD && put.code != OPTION_END && |put.value| <= 255
    {
      SubnetPutsAre(g, subnet, put);
      PutFits(g, subnet, put);
    }
    ApplyEncodable(options, SubnetPuts(g, subnet));
  }

  lemma PutFits(g: Global, subnet: SubnetConfig, put: Put)
    requires Fits(g, subnet) && IsPut(g, subnet, put)
    ensures put.code != OPTION_PAD && put.code != OPTION_END && |put.value| <= 255
  {
    if IsServerPut(g, subnet, put) {
      ServerPutFits(g, subnet, put);
    } else if IsMaskOrNamePut(g, subnet, put) {
      MaskOrNamePutFits(g, subnet, put);
    }
  }

  lemma ServersFit(g: Global, code: byte, servers: seq<Text>, put: Put)
    requires IsServers(g, code, servers, put) && |ParseIPs(g, servers)| <= 63
    ensures put.code == code && |put.value| <= 255
  {
    AddressesReadBack(ParseIPs(g, servers));
  }

  lemma ServerPutFits(g: Global, subnet: SubnetConfig, put: Put)
    requires Fits(g, subnet) && IsServerPut(g, subnet, put)
    ensures put.code != OPTION_PAD && put.code != OPTION_END && |put.value| <= 255
  {
    if IsServers(g, OPTION_NTP_SERVERS, subnet.ntpServers, put) {
      ServersFit(g, OPTION_NTP_SERVERS, subnet.ntpServers, put);
    } else if IsServers(g, OPTION_TIME_SERVER, subnet.timeServers, put) {
      ServersFit(g, OPTION_TIME_SERVER, subnet.timeServers, put);
    } else if IsServers(g, OPTION_SMTP_SERVER, subnet.smtpServers, put) {
      ServersFit(g, OPTION_SMTP_SERVER, subnet.smtpServers, put);
    } else if IsServers(g, OPTION_LPR_SERVER, subnet.lprServers, put) {
      ServersFit(g, OPTION_LPR_SERVER, subnet.lprServers, put);
    } else if IsServers(g, OPTION_NETBIOS_NAME_SERVERS, subnet.netBIOSNameServers, put) {
      ServersFit(g, OPTION_NETBIOS_NAME_SERVERS, subnet.netBIOSNameServers, put);
    } else {
      ServersFit(g, OPTION_NETBIOS_DD_SERVER, subnet.netBIOSDDServers, put);
    }
  }

  lemma MaskOrNamePutFits(g: Global, subnet: SubnetConfig, put: Put)
    requires Fits(g, subnet) && IsMaskOrNamePut(g, subnet, put)
    ensures put.code != OPTION_PAD && put.code != OPTION_END && |put.value| <= 255
  {
    if IsServers(g, OPTION_ROUTER, subnet.routers, put) {
      ServersFit(g, OPTION_ROUTER, subnet.routers, put);
    } else if IsServers(g, OPTION_DNS, subnet.domainNameServers, put) {
      ServersFit(g, OPTION_DNS, subnet.domainNameServers, put);
    }
  }

  predicate MaskOrNameCode(code: byte) {
    code in {OPTION_SUBNET_MASK, OPTION_ROUTER, OPTION_DNS, OPTION_DOMAIN_NAME, OPTION_DOMAIN_SEARCH}
  }

  predicate ServerCode(code: byte) {
    code in {OPTION_NTP_SERVERS, OPTION_TIME_SERVER, OPTION_SMTP_SERVER, OPTION_LPR_SERVER,
             OPTION_NETBIOS_NAME_SERVERS, OPTION_NETBIOS_DD_SERVER}
  }

  predicate NodeOrMTUCode(code: byte) {
    code in {OPTION_NETBIOS_NODE_TYPE, OPTION_INTERFACE_MTU}
  }

  predicate SubnetCode(code: byte) {
    MaskOrNameCode(code) || ServerCode(code) || NodeOrMTUCode(code)
  }

  /** Every option of the subnet is in the finished reply: no later one overwrites it. */
  ghost predicate CarriesSubnet(g: Global, options: Options, subnet: SubnetConfig) {
    forall put | IsPut(g, subnet, put) :: put.code in options && options[put.code] == put.value
  }

  lemma MaskOrNameCodesAreDistinct(g: Global, subnet: SubnetConfig, a: Put, b: Put)
    requires IsMaskOrNamePut(g, subnet, a)
    ensures MaskOrNameCode(a.code)
    ensures IsMaskOrNamePut(g, subnet, b) && a.code == b.code ==> a == b
  {
  }

  lemma ServerCodesAreDistinct(g: Global, subnet: SubnetConfig, a: Put, b: Put)
    requires IsServerPut(g, subnet, a)
    ensures ServerCode(a.code)
    ensures IsServerPut(g, subnet, b) && a.code == b.code ==> a == b
  {
  }

  lemma PutCode(g: Global, subnet: SubnetConfig, put: Put)
    requires IsPut(g, subnet, put)
    ensures MaskOrNameCode(put.code) <==> IsMaskOrNamePut(g, subnet, put)
    ensures ServerCode(put.code) <==> IsServerPut(g, subnet, put)
    ensures NodeOrMTUCode(put.code) <==> IsNodeOrMTUPut(g, subnet, put)
  {
    if IsMaskOrNamePut(g, subnet, put) {
      MaskOrNameCodesAreDistinct(g, subnet, put, put);
    }
    if IsServerPut(g, subnet, put) {
      ServerCodesAreDistinct(g, subnet, put, put);
    }
  }

  lemma PutCodesAreDistinct(g: Global, subnet: SubnetConfig, a: Put, b: Put)
    requires IsPut(g, subnet, a) && IsPut(g, subnet, b) && a.code == b.code
    ensures a == b && SubnetCode(a.code)
  {
    PutCode(g, subnet, a);
    PutCode(g, subnet, b);
    if MaskOrNameCode(a.code) {
      MaskOrNameCodesAreDistinct(g, subnet, a, b);
    } else if ServerCode(a.code) {
      ServerCodesAreDistinct(g, subnet, a, b);
    }
  }

  lemma SubnetOptionsCarry(g: Global, subnet: SubnetConfig, options: Options)
    ensures CarriesSubnet(g, AddSubnetOptions(g, subnet, options), subnet)
  {
    var puts := SubnetPuts(g, subnet);
    forall put | IsPut(g, subnet, put)
      ensures put.code in Apply(options, puts) && Apply(options, puts)[put.code] == put.value
    {
      SubnetPutsAre(g, subnet, put);
      forall other | other in puts && other.code == put.code
        ensures other == put
      {
        SubnetPutsAre(g, subnet, other);
        PutCodesAreDistinct(g, subnet, put, other);
      }
      ApplyGives(options, puts, put);
    }
  }

  /** Options outside the subnet's own codes are left alone. */
  lemma SubnetOptionsKeep(g: Global, subnet: SubnetConfig, options: Options, code: byte)
    requires !SubnetCode(code)
    ensures code in AddSubnetOptions(g, subnet, options) <==> code in options
    ensures code in options ==> AddSubnetOptions(g, subnet, options)[code] == options[code]
  {
    forall put | put in SubnetPuts(g, subnet)
      ensures put.code != code
    {
      SubnetPutsAre(g, subnet, put);
      PutCodesAreDistinct(g, subnet, put, put);
    }
    ApplyKeeps(options, SubnetPuts(g, subnet), code);
  }

  /** One server list in the finished reply. */
  lemma ServersAreCarried(g: Global, subnet: SubnetConfig, options: Options, code: byte, servers: seq<Text>)
    requires CarriesSubnet(g, options, subnet)
    requires servers != [] ==> IsPut(g, subnet, Put(code, PutAddresses(ParseIPs(g, servers))))
    ensures servers != [] ==> code in options && options[code] == PutAddresses(ParseIPs(g, servers))
    ensures servers != [] ==> GetAddresses(options[code]) == ParseIPs(g, servers)
    ensures OptionsEncodable(options) ==> |ParseIPs(g, servers)| <= 63
  {
    AddressesReadBack(ParseIPs(g, servers));
    if servers != [] {
      var put := Put(code, PutAddresses(ParseIPs(g, servers)));
      assert put.code in options && options[put.code] == put.value;
    }
  }

  lemma AllServersAreCarried(g: Global, subnet: SubnetConfig, q: Fields)
    requires CarriesSubnet(g, q.options, subnet)
    ensures ReadsAllServers(g, subnet, q)
    ensures OptionsEncodable(q.options) ==> Fits(g, subnet)
  {
    ServersAreCarried(g, subnet, q.options, OPTION_ROUTER, subnet.routers);
    ServersAreCarried(g, subnet, q.options, OPTION_DNS, subnet.domainNameServers);
    ServersAreCarried(g, subnet, q.options, OPTION_NTP_SERVERS, subnet.ntpServers);
    ServersAreCarried(g, subnet, q.options, OPTION_TIME_SERVER, subnet.timeServers);
    ServersAreCarried(g, subnet, q.options, OPTION_SMTP_SERVER, subnet.smtpServers);
    ServersAreCarried(g, subnet, q.options, OPTION_LPR_SERVER, subnet.lprServers);
    ServersAreCarried(g, subnet, q.options, OPTION_NETBIOS_NAME_SERVERS, subnet.netBIOSNameServers);
    ServersAreCarried(g, subnet, q.options, OPTION_NETBIOS_DD_SERVER, subnet.netBIOSDDServers);
    NamesAreCarried(g, subnet, q.options);
  }

  lemma NamesAreCarried(g: Global, subnet: SubnetConfig, options: Options)
    requires CarriesSubnet(g, options, subnet)
    ensures subnet.domainName != [] ==>
      OPTION_DOMAIN_NAME in options && options[OPTION_DOMAIN_NAME] == subnet.domainName
    ensures subnet.domainSearch != [] ==>
      OPTION_DOMAIN_SEARCH in options && options[OPTION_DOMAIN_SEARCH] == EncodeNames(subnet.domainSearch)
  {
    var name := Put(OPTION_DOMAIN_NAME, subnet.domainName);
    var search := Put(OPTION_DOMAIN_SEARCH, EncodeNames(subnet.domainSearch));
    assert subnet.domainName != [] ==> IsPut(g, subnet, name);
    assert subnet.domainSearch != [] ==> IsPut(g, subnet, search);
  }

  // ---- Reading a reply -------------------------------------------------------------

  /** A client decoding the server lists. */
  predicate ReadsServers(g: Global, q: Fields, code: byte, servers: seq<Text>) {
    servers != [] ==> code in q.options && GetAddresses(q.options[code]) == ParseIPs(g, servers)
  }

  predicate ReadsAllServers(g: Global, subnet: SubnetConfig, q: Fields) {
    && ReadsServers(g, q, OPTION_ROUTER, subnet.routers)
    && ReadsServers(g, q, OPTION_DNS, subnet.domainNameServers)
    && ReadsServers(g, q, OPTION_NTP_SERVERS, subnet.ntpServers)
    && ReadsServers(g, q, OPTION_TIME_SERVER, subnet.timeServers)
    && ReadsServers(g, q, OPTION_SMTP_SERVER, subnet.smtpServers)
    && ReadsServers(g, q, OPTION_LPR_SERVER, subnet.lprServers)
    && ReadsServers(g, q, OPTION_NETBIOS_NAME_SERVERS, subnet.netBIOSNameServers)
    && ReadsServers(g, q, OPTION_NETBIOS_DD_SERVER, subnet.netBIOSDDServers)
  }

  /** What a client learns from the parsed reply. */
  predicate ReadsAsMeant(g: Global, request: Fields, msgType: byte, ip: IPv4, subnet: SubnetConfig, q: Fields) {
    && q.opCode == BOOT_REPLY && q.xid == request.xid && q.giAddr == request.giAddr
    && q.chAddr == request.chAddr && q.yiAddr == ip
    && GetUint8Option(q, OPTION_MESSAGE_TYPE) == Some(msgType)
    && GetAddressOption(q, OPTION_SERVER_IDENTIFIER) == Some(g.serverIP)
    && GetAddressOption(q, OPTION_LEASE_TIME) == Some(g.LeaseOption())
    && ReadsAllServers(g, subnet, q)
    && (subnet.domainSearch != [] && ShortNames(MapLabels(subnet.domainSearch)) ==>
          OPTION_DOMAIN_SEARCH in q.options
          && Decode(q.options[OPTION_DOMAIN_SEARCH], []) == Some(MapLabels(subnet.domainSearch)))
  }

  /** The address lies in the subnet under the mask the reply carries. */
  predicate InSubnetByMask(g: Global, subnet: SubnetConfig, ip: IPv4, q: Fields) {
    && g.parseIP(subnet.network).Some?
    && GetAddressOption(q, OPTION_SUBNET_MASK).Some?
    && var mask := GetAddressOption(q, OPTION_SUBNET_MASK).value;
       And(And(g.parseIP(subnet.network).value, mask), mask) == And(ip, mask)
  }

  lemma LeaseOptionsRead(g: Global, msgType: byte, subnet: SubnetConfig, q: Fields)
    requires q.options == AddSubnetOptions(g, subnet, LeaseOptions(g, msgType))
    ensures GetUint8Option(q, OPTION_MESSAGE_TYPE) == Some(msgType)
    ensures GetAddressOption(q, OPTION_SERVER_IDENTIFIER) == Some(g.serverIP)
    ensures GetAddressOption(q, OPTION_LEASE_TIME) == Some(g.LeaseOption())
  {
    SubnetOptionsKeep(g, subnet, LeaseOptions(g, msgType), OPTION_MESSAGE_TYPE);
    SubnetOptionsKeep(g, subnet, LeaseOptions(g, msgType), OPTION_SERVER_IDENTIFIER);
    SubnetOptionsKeep(g, subnet, LeaseOptions(g, msgType), OPTION_LEASE_TIME);
    WordReadsBack(g.serverIP);
    WordReadsBack(g.LeaseOption());
  }

  lemma LeaseReplyReads(g: Global, request: Fields, msgType: byte, ip: IPv4, subnet: SubnetConfig)
    ensures ReadsAsMeant(g, request, msgType, ip, subnet, LeaseReply(g, request, msgType, ip, subnet))
  {
    var q := LeaseReply(g, request, msgType, ip, subnet);
    SubnetOptionsCarry(g, subnet, LeaseOptions(g, msgType));
    LeaseOptionsRead(g, msgType, subnet, q);
    AllServersAreCarried(g, subnet, q);
    NamesAreCarried(g, subnet, q.options);
    SearchListReadsBack(subnet.domainSearch);
  }

  lemma {:induction false} FoundSubnetContains(g: Global, subnets: seq<SubnetConfig>, ip: IPv4)
    requires FindSubnetForIP(g, subnets, ip).Some?
    ensures exists i | 0 <= i < |subnets| ::
      && subnets[i] == FindSubnetForIP(g, subnets, ip).value
      && Contains(g, subnets[i], ip)
      && forall j | 0 <= j < i :: !Contains(g, subnets[j], ip)
  {
    if Contains(g, subnets[0], ip) {
      assert subnets[0] == FindSubnetForIP(g, subnets, ip).value;
    } else {
      FoundSubnetContains(g, subnets[1..], ip);
      var i :| 0 <= i < |subnets[1..]| && subnets[1..][i] == FindSubnetForIP(g, subnets, ip).value
        && Contains(g, subnets[1..][i], ip) && forall j | 0 <= j < i :: !Contains(g, subnets[1..][j], ip);
      assert forall j | 0 <= j < i + 1 :: j > 0 ==> subnets[j] == subnets[1..][j - 1];
      assert subnets[i + 1] == FindSubnetForIP(g, subnets, ip).value;
    }
  }

  /** A reply with a subnet's options survives the wire exactly when the lists fit and the address is carried. */
  lemma SubnetReplyRoundTrips(g: Global, subnet: SubnetConfig, base: Options, q: Fields, order: seq<byte>)
    requires Shaped(q) && OptionsEncodable(base)
    requires q.options == AddSubnetOptions(g, subnet, base) && IsOrder(order, q.options)
    ensures Parse(Encode(q, order)) == Success(q) <==> Fits(g, subnet) && CarriesAddress(q, Encode(q, order))
  {
    RoundTrip(q, order);
    if Fits(g, subnet) {
      SubnetOptionsEncodable(g, subnet, base);
    }
    if OptionsEncodable(q.options) {
      SubnetOptionsCarry(g, subnet, base);
      AllServersAreCarried(g, subnet, q);
    }
  }

  /**
   When a reply carries the client's hardware address: always up to 16 bytes, and up to 208
   exactly if the rest of it is what the reply's server name and boot file hold.
   */
  lemma ReplyCarriesAddressIff(q: Fields, order: seq<byte>)
    requires Shaped(q) && IsOrder(order, q.options) && |q.chAddr| == q.hwLen <= 208
    ensures CarriesAddress(q, Encode(q, order)) <==>
      q.hwLen <= 16 || q.chAddr[16..] == (q.sName + q.file)[..q.hwLen as int - 16]
  {
    AddressIsCarriedIff(q, order);
    if q.hwLen > 16 {
      var n := q.hwLen as int;
      assert Names(q) == q.chAddr[..16] + (q.sName + q.file);
      assert Names(q)[..n] == q.chAddr[..16] + (q.sName + q.file)[..n - 16];
      assert q.chAddr == q.chAddr[..16] + q.chAddr[16..];
      if q.chAddr == Names(q)[..n] {
        assert q.chAddr[16..] == (q.chAddr[..16] + (q.sName + q.file)[..n - 16])[16..];
      }
    }
  }

  lemma ShortAddressIsCarried(q: Fields, order: seq<byte>)
    requires Shaped(q) && IsOrder(order, q.options)
    ensures |q.chAddr| == q.hwLen <= 16 ==> CarriesAddress(q, Encode(q, order))
  {
    if |q.chAddr| == q.hwLen {
      AddressIsCarriedIff(q, order);
    }
  }

  /** In an OFFER or ACK these fields are zero, so the rest of the address must be. */
  lemma LeaseReplyCarriesAddressIff(g: Global, request: Fields, msgType: byte, ip: IPv4, subnet: SubnetConfig,
                                    order: seq<byte>)
    requires |request.chAddr| == request.hwLen <= 208
    requires IsOrder(order, LeaseReply(g, request, msgType, ip, subnet).options)
    ensures CarriesAddress(LeaseReply(g, request, msgType, ip, subnet),
                           Encode(LeaseReply(g, request, msgType, ip, subnet), order)) <==>
      forall i | 16 <= i < request.hwLen :: request.chAddr[i] == 0
  {
    var q := LeaseReply(g, request, msgType, ip, subnet);
    ReplyCarriesAddressIff(q, order);
    if q.hwLen > 16 {
      var n := q.hwLen as int - 16;
      assert (q.sName + q.file)[..n] == Zeros(n);
      TailIsZeroIff(q.chAddr, 16);
    }
  }

  lemma TailIsZeroIff(v: seq<byte>, from: nat)
    requires from <= |v|
    ensures v[from..] == Zeros(|v| - from) <==> forall i | from <= i < |v| :: v[i] == 0
  {
    assert forall i | from <= i < |v| :: v[i] == v[from..][i - from];
    assert forall j | 0 <= j < |v| - from :: v[from..][j] == v[from + j];
  }

  lemma MaskIsCarried(g: Global, subnet: SubnetConfig, q: Fields, ip: IPv4)
    requires CarriesSubnet(g, q.options, subnet) && Contains(g, subnet, ip)
    ensures InSubnetByMask(g, subnet, ip, q)
  {
    var mask := g.parseIP(subnet.netmask).value;
    var put := Put(OPTION_SUBNET_MASK, PutUint32(mask));
    assert put.code in q.options && q.options[put.code] == put.value by {
      assert IsPut(g, subnet, put);
    }
    WordReadsBack(mask);
  }

  lemma FoundMaskIsCarried(g: Global, subnets: seq<SubnetConfig>, subnet: SubnetConfig, q: Fields, ip: IPv4)
    requires CarriesSubnet(g, q.options, subnet) && FindSubnetForIP(g, subnets, ip) == Some(subnet)
    ensures InSubnetByMask(g, subnet, ip, q)
  {
    FoundSubnetContains(g, subnets, ip);
    MaskIsCarried(g, subnet, q, ip);
  }

  /**
   A reply reads back as meant: for a parsed request and a subnet found for the address, the
   bytes of the OFFER or ACK -- for every order of its options -- parse to the very reply
   exactly when the subnet's lists fit their options and the bytes carry the hardware address
   (always, up to 16 bytes of it); and a client reads the request's
   xid, giaddr and chaddr, the configured lease time and server identifier, the exact server
   lists, and an address inside the first matching subnet under the mask of option 1.
   */
  lemma ReplyReadsBack(g: Global, subnets: seq<SubnetConfig>, request: Fields, msgType: byte, ip: IPv4,
                       subnet: SubnetConfig, order: seq<byte>)
    requires FindSubnetForIP(g, subnets, ip) == Some(subnet)
    requires IsOrder(order, LeaseReply(g, request, msgType, ip, subnet).options)
    ensures var q := LeaseReply(g, request, msgType, ip, subnet);
      && (Parse(Encode(q, order)) == Success(q) <==> Fits(g, subnet) && CarriesAddress(q, Encode(q, order)))
      && (|request.chAddr| == request.hwLen <= 16 ==> CarriesAddress(q, Encode(q, order)))
      && ReadsAsMeant(g, request, msgType, ip, subnet, q)
      && InSubnetByMask(g, subnet, ip, q)
  {
    var q := LeaseReply(g, request, msgType, ip, subnet);
    SubnetReplyRoundTrips(g, subnet, LeaseOptions(g, msgType), q, order);
    ShortAddressIsCarried(q, order);
    LeaseReplyReads(g, request, msgType, ip, subnet);
    SubnetOptionsCarry(g, subnet, LeaseOptions(g, msgType));
    FoundMaskIsCarried(g, subnets, subnet, q, ip);
  }

  predicate DHCPOnly(code: byte) {
    code in {OPTION_LEASE_TIME, OPTION_MESSAGE_TYPE, OPTION_SERVER_IDENTIFIER,
             OPTION_RENEWAL_TIME, OPTION_REBINDING_TIME}
  }

  lemma DHCPOnlyIsNoSubnetCode(code: byte)
    requires DHCPOnly(code)
    ensures !SubnetCode(code)
  {
  }

  /**
   A BOOTREPLY carries none of the DHCP-only options (lease time, message type, server
   identifier, renewal and rebinding times), keeps the client's own address, and reads back
   unchanged exactly when the subnet's lists fit and the bytes carry the hardware address.
   */
  lemma BootReplyReadsBack(g: Global, request: Fields, ip: IPv4, subnet: SubnetConfig, order: seq<byte>)
    requires IsOrder(order, BootReplyPacket(g, request, ip, subnet).options)
    ensures var q := BootReplyPacket(g, request, ip, subnet);
      && (forall code | DHCPOnly(code) :: code !in q.options)
      && (Parse(Encode(q, order)) == Success(q) <==> Fits(g, subnet) && CarriesAddress(q, Encode(q, order)))
      && (|request.chAddr| == request.hwLen <= 16 ==> CarriesAddress(q, Encode(q, order)))
      && ReadsAllServers(g, subnet, q)
      && q.ciAddr == request.ciAddr && q.xid == request.xid && q.chAddr == request.chAddr && q.yiAddr == ip
  {
    var q := BootReplyPacket(g, request, ip, subnet);
    forall code | DHCPOnly(code)
      ensures code !in q.options
    {
      DHCPOnlyIsNoSubnetCode(code);
      SubnetOptionsKeep(g, subnet, map[], code);
    }
    SubnetReplyRoundTrips(g, subnet, map[], q, order);
    ShortAddressIsCarried(q, order);
    SubnetOptionsCarry(g, subnet, map[]);
    AllServersAreCarried(g, subnet, q);
  }

  /** The boot file and server name of a BOOTREPLY read back whole when they leave room for the NUL. */
  lemma BootNamesReadBack(g: Global, request: Fields, ip: IPv4, subnet: SubnetConfig)
    requires 0 !in subnet.bootFilename && 0 !in subnet.serverHostname
    ensures var q := BootReplyPacket(g, request, ip, subnet);
      && Shaped(q)
      && (UntilNul(q.file) == subnet.bootFilename <==> |subnet.bootFilename| <= 127)
      && (UntilNul(q.sName) == subnet.serverHostname <==> |subnet.serverHostname| <= 63)
  {
    TextFieldReadsBack(subnet.bootFilename, 128);
    TextFieldReadsBack(subnet.serverHostname, 64);
  }
}
