/**
 The packet object of internal/dhcp/packet.go: the parser and printer with their loops, and
 the setters that fill a reply in place. `Value` is the packet's value, and the methods are
 proved against the functions of PacketFormat and DomainNames.
 */
module Packet {
  import opened Wrappers
  import opened Config
  import opened PacketFormat
  import DomainNames

  const OPTION_SUBNET_MASK: byte := 1
  const OPTION_ROUTER: byte := 3
  const OPTION_TIME_SERVER: byte := 4
  const OPTION_DNS: byte := 6
  const OPTION_LPR_SERVER: byte := 9
  const OPTION_HOSTNAME: byte := 12
  const OPTION_DOMAIN_NAME: byte := 15
  const OPTION_INTERFACE_MTU: byte := 26
  const OPTION_NTP_SERVERS: byte := 42
  const OPTION_NETBIOS_NAME_SERVERS: byte := 44
  const OPTION_NETBIOS_DD_SERVER: byte := 45
  const OPTION_NETBIOS_NODE_TYPE: byte := 46
  const OPTION_REQUESTED_IP: byte := 50
  const OPTION_LEASE_TIME: byte := 51
  const OPTION_MESSAGE_TYPE: byte := 53
  const OPTION_SERVER_IDENTIFIER: byte := 54
  const OPTION_RENEWAL_TIME: byte := 58
  const OPTION_REBINDING_TIME: byte := 59
  const OPTION_SMTP_SERVER: byte := 69
  const OPTION_DOMAIN_SEARCH: byte := 119

  /** The bytes of an address-list option. */
  function PutAddresses(ips: seq<IPv4>): seq<byte> {
    if ips == [] then [] else PutUint32(ips[0]) + PutAddresses(ips[1..])
  }

  /** Reading an address-list option, four bytes at a time. */
  function GetAddresses(value: seq<byte>): seq<IPv4> {
    if |value| < 4 then [] else [Word(value[0], value[1], value[2], value[3])] + GetAddresses(value[4..])
  }

  lemma {:induction false} AddressesReadBack(ips: seq<IPv4>)
    ensures GetAddresses(PutAddresses(ips)) == ips && |PutAddresses(ips)| == 4 * |ips|
  {
    if ips != [] {
      WordReadsBack(ips[0]);
      AddressesReadBack(ips[1..]);
      assert PutAddresses(ips)[4..] == PutAddresses(ips[1..]);
    }
  }

  lemma PutAddressesAppend(ips: seq<IPv4>, ip: IPv4)
    ensures PutAddresses(ips + [ip]) == PutAddresses(ips) + PutUint32(ip)
  {
    if ips == [] {
      assert ips + [ip] == [ip] && [ip][1..] == [];
    } else {
      assert (ips + [ip])[1..] == ips[1..] + [ip];
      PutAddressesAppend(ips[1..], ip);
    }
  }

  /** A NUL-terminated text field of `n` bytes; longer texts lose their end. */
  function TextField(name: Text, n: nat): seq<byte>
    requires n > 0
  {
    Fixed(if |name| < n then name else name[..n - 1], n)
  }

  /** Reading a NUL-terminated text field. */
  function UntilNul(field: seq<byte>): Text {
    if field == [] || field[0] == 0 then [] else [field[0]] + UntilNul(field[1..])
  }

  /** A text without NUL bytes reads back up to the last byte of the field, which stays NUL. */
  lemma TextFieldReadsBack(name: Text, n: nat)
    requires n > 0 && 0 !in name
    ensures |TextField(name, n)| == n
    ensures UntilNul(TextField(name, n)) == if |name| < n then name else name[..n - 1]
  {
    var kept := if |name| < n then name else name[..n - 1];
    assert TextField(name, n) == kept + Zeros(n - |kept|);
    UntilNulStops(kept, Zeros(n - |kept|));
  }

  lemma {:induction false} UntilNulStops(kept: Text, rest: seq<byte>)
    requires 0 !in kept && rest != [] && rest[0] == 0
    ensures UntilNul(kept + rest) == kept
  {
    if kept == [] {
      assert kept + rest == rest;
    } else {
      assert (kept + rest)[1..] == kept[1..] + rest;
      UntilNulStops(kept[1..], rest);
    }
  }

  function GetUint8Option(p: Fields, code: byte): Option<byte> {
    if code in p.options && |p.options[code]| == 1 then Some(p.options[code][0]) else None
  }

  function GetAddressOption(p: Fields, code: byte): Option<IPv4> {
    if code in p.options && |p.options[code]| == 4 then
      var v := p.options[code];
      Some(Word(v[0], v[1], v[2], v[3]))
    else None
  }

  /** The bytes of a packet for some order of its options. */
  ghost predicate IsPrinted(p: Fields, buf: seq<byte>)
    requires Shaped(p)
  {
    exists order :: IsOrder(order, p.options) && buf == Encode(p, order)
  }

  /** ParsePacket reads back what ToBytes prints exactly if that carries the address and the options fit. */
  lemma PrintedReadsBack(p: Fields, buf: seq<byte>)
    requires Shaped(p) && IsPrinted(p, buf)
    ensures Parse(buf) == Success(p) <==> CarriesAddress(p, buf) && OptionsEncodable(p.options)
  {
    var order :| IsOrder(order, p.options) && buf == Encode(p, order);
    RoundTrip(p, order);
  }

  class Packet {
    var opCode: byte
    var hwType: byte
    var hwLen: byte
    var hops: byte
    var xid: IPv4
    var secs: Word16
    var flags: Word16
    var ciAddr: IPv4
    var yiAddr: IPv4
    var siAddr: IPv4
    var giAddr: IPv4
    var chAddr: seq<byte>
    var sName: seq<byte>
    var file: seq<byte>
    var options: map<byte, seq<byte>>

    function Value(): Fields
      reads this
    {
      Fields(opCode, hwType, hwLen, hops, xid, secs, flags, ciAddr, yiAddr, siAddr, giAddr,
             chAddr, sName, file, options)
    }

    constructor (v: Fields)
      ensures Value() == v
    {
      opCode, hwType, hwLen, hops := v.opCode, v.hwType, v.hwLen, v.hops;
      xid, secs, flags := v.xid, v.secs, v.flags;
      ciAddr, yiAddr, siAddr, giAddr := v.ciAddr, v.yiAddr, v.siAddr, v.giAddr;
      chAddr, sName, file, options := v.chAddr, v.sName, v.file, v.options;
    }

    /** ParsePacket on a window of the receive buffer; a panic comes back as a failure of its own kind. */
    static method ParsePacket(data: seq<byte>, beyond: seq<byte>) returns (r: Result<Packet, ParseError>)
      ensures r.Success? <==> ParseIn(data, beyond).Success?
      ensures r.Success? ==> fresh(r.value) && r.value.Value() == ParseIn(data, beyond).value
      ensures r.Failure? ==> r.error == ParseIn(data, beyond).error
    {
      if |data| < 236 {
        return Failure(TooSmall);
      }
      var end := HardwareEnd(data[2]);
      if end < 28 || end > |data| + |beyond| {
        return Failure(Panic);
      }
      var p := new Packet(Fields(
        data[0], data[1], data[2], data[3],
        Word(data[4], data[5], data[6], data[7]),
        Half(data[8], data[9]),
        Half(data[10], data[11]),
        Word(data[12], data[13], data[14], data[15]),
        Word(data[16], data[17], data[18], data[19]),
        Word(data[20], data[21], data[22], data[23]),
        Word(data[24], data[25], data[26], data[27]),
        (data + beyond)[28..end],
        data[44..108],
        data[108..236],
        map[]));
      if |data| > 236 {
        if |data| >= 240 && data[236..240] == MAGIC_COOKIE {
          p.ParseOptionField(data[240..]);
        }
      }
      return Success(p);
    }

    /** parseOptions: every read is in bounds, and the loop adds the triples the specification reads. */
    method ParseOptionField(data: seq<byte>)
      modifies this`options
      ensures options == old(options) + ParseOptions(data)
    {
      var i := 0;
      while i < |data|
        invariant 0 <= i <= |data|
        invariant options + ParseOptions(data[i..]) == old(options) + ParseOptions(data)
        decreases |data| - i
      {
        ParseStep(options, data, i);
        var option := data[i];
        if option == OPTION_END {
          break;
        }
        if option == OPTION_PAD {
          i := i + 1;
          continue;
        }
        if i + 1 >= |data| {
          break;
        }
        var length := data[i + 1] as int;
        if i + 2 + length > |data| {
          break;
        }
        options := options[option := data[i + 2..i + 2 + length]];
        i := i + 2 + length;
      }
    }

    /** ToBytes: the bytes of the packet for some order of its options. */
    method ToBytes() returns (buf: seq<byte>)
      requires Shaped(Value())
      ensures IsPrinted(Value(), buf)
    {
      buf := [opCode, hwType, hwLen, hops]
        + PutUint32(xid) + PutUint16(secs) + PutUint16(flags)
        + PutUint32(ciAddr) + PutUint32(yiAddr) + PutUint32(siAddr) + PutUint32(giAddr);
      buf := buf + (Fixed(chAddr, 16) + sName + file);
      buf := buf + MAGIC_COOKIE;
      ghost var order;
      buf, order := AppendOptions(buf);
      buf := buf + [OPTION_END];
      ghost var p := Value();
      assert buf == Unpadded(p, order);
      buf := Pad(buf);
      assert IsOrder(order, p.options) && buf == Encode(p, order);
    }

    /** The walk over the option map, in whatever order. */
    method AppendOptions(head: seq<byte>) returns (buf: seq<byte>, ghost order: seq<byte>)
      ensures IsOrder(order, options) && buf == head + EncodeOptions(options, order)
    {
      buf, order := head, [];
      var remaining := options.Keys;
      while remaining != {}
        invariant remaining <= options.Keys
        invariant forall k :: k in order <==> k in options && k !in remaining
        invariant forall i, j | 0 <= i < j < |order| :: order[i] != order[j]
        invariant buf == head + EncodeOptions(options, order)
        decreases remaining
      {
        var opt :| opt in remaining;
        var val := options[opt];
        EncodeOptionsAppend(options, order, opt);
        buf := buf + [opt];
        buf := buf + [|val| % 0x100];
        buf := buf + val;
        order := order + [opt];
        remaining := remaining - {opt};
      }
    }

    method SetMessageType(msgType: byte)
      modifies this`options
      ensures options == old(options)[OPTION_MESSAGE_TYPE := [msgType]]
    {
      options := options[OPTION_MESSAGE_TYPE := [msgType]];
    }

    method SetLeaseTime(seconds: IPv4)
      modifies this`options
      ensures options == old(options)[OPTION_LEASE_TIME := PutUint32(seconds)]
    {
      options := options[OPTION_LEASE_TIME := PutUint32(seconds)];
    }

    method SetServerIdentifier(ip: IPv4)
      modifies this`options
      ensures options == old(options)[OPTION_SERVER_IDENTIFIER := PutUint32(ip)]
    {
      options := options[OPTION_SERVER_IDENTIFIER := PutUint32(ip)];
    }

    method SetSubnetMask(mask: IPv4)
      modifies this`options
      ensures options == old(options)[OPTION_SUBNET_MASK := PutUint32(mask)]
    {
      options := options[OPTION_SUBNET_MASK := PutUint32(mask)];
    }

    /** The loop shared by SetRouter, SetDNS and the other seven address-list setters. */
    method SetAddresses(code: byte, ips: seq<IPv4>)
      modifies this`options
      ensures options == old(options)[code := PutAddresses(ips)]
    {
      var buf: seq<byte> := [];
      for i := 0 to |ips|
        invariant options == old(options) && buf == PutAddresses(ips[..i])
      {
        PutAddressesAppend(ips[..i], ips[i]);
        assert ips[..i + 1] == ips[..i] + [ips[i]];
        buf := buf + PutUint32(ips[i]);
      }
      assert ips[..|ips|] == ips;
      options := options[code := buf];
    }

    method SetDomainName(domain: Text)
      modifies this`options
      ensures options == old(options)[OPTION_DOMAIN_NAME := domain]
    {
      options := options[OPTION_DOMAIN_NAME := domain];
    }

    method SetDomainSearch(domains: seq<Text>)
      modifies this`options
      ensures options == old(options)[OPTION_DOMAIN_SEARCH := DomainNames.EncodeNames(domains)]
    {
      var buf: seq<byte> := [];
      var i := 0;
      while i < |domains|
        invariant 0 <= i <= |domains| && options == old(options)
        invariant buf + DomainNames.EncodeNames(domains[i..]) == DomainNames.EncodeNames(domains)
      {
        var name := EncodeDomainName(domains[i]);
        assert domains[i..][1..] == domains[i + 1..];
        Regroup(buf, name, DomainNames.EncodeNames(domains[i + 1..]));
        buf := buf + name;
        i := i + 1;
      }
      assert domains[i..] == [] && buf + [] == buf;
      options := options[OPTION_DOMAIN_SEARCH := buf];
    }

    method SetNetBIOSNodeType(nodeType: byte)
      modifies this`options
      ensures options == old(options)[OPTION_NETBIOS_NODE_TYPE := [nodeType]]
    {
      options := options[OPTION_NETBIOS_NODE_TYPE := [nodeType]];
    }

    method SetInterfaceMTU(mtu: Word16)
      modifies this`options
      ensures options == old(options)[OPTION_INTERFACE_MTU := PutUint16(mtu)]
    {
      options := options[OPTION_INTERFACE_MTU := PutUint16(mtu)];
    }

    method SetServerHostname(name: Text)
      modifies this`sName
      ensures sName == TextField(name, 64)
    {
      sName := Fixed(if |name| < 64 then name else name[..63], 64);
    }

    method SetBootFilename(name: Text)
      modifies this`file
      ensures file == TextField(name, 128)
    {
      file := Fixed(if |name| < 128 then name else name[..127], 128);
    }
  }

  /** The padding at the end of ToBytes. */
  method Pad(unpadded: seq<byte>) returns (buf: seq<byte>)
    ensures buf == PadTo300(unpadded)
  {
    buf := unpadded;
    while |buf| < 300
      invariant |unpadded| <= |buf| && (|buf| <= 300 || buf == unpadded)
      invariant buf == unpadded + Zeros(|buf| - |unpadded|)
      decreases 300 - |buf|
    {
      buf := buf + [0];
    }
  }

  /** encodeDomainName: the loop over the segments of the trimmed name. */
  method EncodeDomainName(name: Text) returns (buf: seq<byte>)
    ensures buf == DomainNames.EncodeName(name)
  {
    var labels := DomainNames.Split(DomainNames.TrimDot(name));
    buf := [];
    var i := 0;
    while i < |labels|
      invariant 0 <= i <= |labels|
      invariant buf + DomainNames.EncodeLabels(DomainNames.NonEmpty(labels[i..]))
        == DomainNames.EncodeLabels(DomainNames.NonEmpty(labels))
    {
      var segment := labels[i];
      LabelStep(buf, labels, i);
      i := i + 1;
      if segment == [] {
        continue;
      }
      buf := buf + [|segment| % 0x100];
      buf := buf + segment;
    }
    buf := buf + [0];
  }

  /** One turn of the loop over a name's segments. */
  lemma LabelStep(buf: seq<byte>, labels: seq<Text>, i: nat)
    requires i < |labels|
    ensures buf + DomainNames.EncodeLabels(DomainNames.NonEmpty(labels[i..]))
      == (if labels[i] == [] then buf else buf + [|labels[i]| % 0x100] + labels[i])
         + DomainNames.EncodeLabels(DomainNames.NonEmpty(labels[i + 1..]))
  {
    assert labels[i..][1..] == labels[i + 1..];
    var rest := DomainNames.NonEmpty(labels[i + 1..]);
    if labels[i] == [] {
      assert [] + rest == rest;
    } else {
      assert ([labels[i]] + rest)[1..] == rest;
      Regroup(buf, DomainNames.EncodeLabel(labels[i]), DomainNames.EncodeLabels(rest));
      Regroup(buf, [|labels[i]| % 0x100], labels[i]);
    }
  }

  /** One turn of the parsing loop, in terms of the specification. */
  lemma ParseStep(options: map<byte, seq<byte>>, data: seq<byte>, i: nat)
    requires i < |data|
    ensures data[i] == OPTION_PAD ==> ParseOptions(data[i..]) == ParseOptions(data[i + 1..])
    ensures data[i] == OPTION_END ==> ParseOptions(data[i..]) == map[]
    ensures data[i] != OPTION_PAD && (i + 1 == |data| || i + 2 + data[i + 1] as int > |data|) ==>
      ParseOptions(data[i..]) == map[]
    ensures data[i] != OPTION_PAD && data[i] != OPTION_END && i + 1 < |data| && i + 2 + data[i + 1] as int <= |data| ==>
      var next := i + 2 + data[i + 1] as int;
      options[data[i] := data[i + 2..next]] + ParseOptions(data[next..]) == options + ParseOptions(data[i..])
  {
    assert data[i..][1..] == data[i + 1..];
    if i + 1 < |data| && i + 2 + data[i + 1] as int <= |data| {
      var next := i + 2 + data[i + 1] as int;
      assert data[i..][2..next - i] == data[i + 2..next] && data[i..][next - i..] == data[next..];
      UnionAssociates(options, map[data[i] := data[i + 2..next]], ParseOptions(data[next..]));
    }
  }

  lemma UnionAssociates(a: map<byte, seq<byte>>, b: map<byte, seq<byte>>, c: map<byte, seq<byte>>)
    ensures a + b + c == a + (b + c)
  {
  }

  lemma {:induction false} EncodeOptionsAppend(options: map<byte, seq<byte>>, order: seq<byte>, code: byte)
    requires code in options && forall k | k in order :: k in options
    ensures EncodeOptions(options, order + [code])
      == EncodeOptions(options, order) + EncodeOption(code, options[code])
  {
    if order == [] {
      assert order + [code] == [code] && [code][1..] == [];
    } else {
      assert (order + [code])[1..] == order[1..] + [code];
      EncodeOptionsAppend(options, order[1..], code);
    }
  }
}
