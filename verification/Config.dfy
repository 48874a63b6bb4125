/**
 Configuration records of the daemon (internal/config/config.go) and the value types
 they are made of. Go strings are byte sequences, so text is a `seq<byte>`; an IPv4
 address is its 32-bit number.
 */
module Config {
  import opened Wrappers

  type byte = x: int | 0 <= x < 0x100

  type Text = seq<byte>

  type IPv4 = x: int | 0 <= x < 0x1_0000_0000

  const MAX_IPV4: IPv4 := 0xFFFF_FFFF
  const UNSPECIFIED: IPv4 := 0

  /** Ticks of the clock in one second: Go's `time.Time` counts nanoseconds. */
  const SECOND: int := 1_000_000_000

  /** `AddDate(100, 0, 0)`: the term of a seeded static lease. */
  const STATIC_TERM: int := 36525 * 86400 * SECOND

  datatype DynamicRange = DynamicRange(startAddress: Text, endAddress: Text)

  datatype SubnetConfig = SubnetConfig(
    network: Text,
    netmask: Text,
    dynamicRanges: seq<DynamicRange>,
    enableBootP: bool,
    nextServer: Text,
    serverHostname: Text,
    bootFilename: Text,
    netBIOSNodeType: Option<int>,
    domainNameServers: seq<Text>,
    domainName: Text,
    domainSearch: seq<Text>,
    interfaceMTU: Option<int>,
    ntpServers: seq<Text>,
    timeServers: seq<Text>,
    smtpServers: seq<Text>,
    lprServers: seq<Text>,
    netBIOSNameServers: seq<Text>,
    netBIOSDDServers: seq<Text>,
    routers: seq<Text>)

  datatype StaticHost = StaticHost(macAddress: Text, ipAddress: Text, hostname: Text)

  /**
   The global section, the server's own address and the lookups the daemon depends on:
   `parseIP` is `net.ParseIP(..).To4()`, `resolve` also falls back to a host-name lookup,
   `arp` names the hardware address behind an address, and `reason` words a denial.
   */
  datatype Global = Global(
    leaseTime: int,
    pingRetries: int,
    netBIOSNodeType: int,
    serverIP: IPv4,
    parseIP: Text -> Option<IPv4>,
    resolve: Text -> Option<IPv4>,
    arp: IPv4 -> Text,
    reason: Text -> Text)
  {
    /** The lease term in clock ticks, a product of 64-bit integers: it wraps. */
    function Term(): int { Wrap64(leaseTime * SECOND) }

    /** `uint32(LeaseTime)`: the seconds in option 51. */
    function LeaseOption(): IPv4 { leaseTime % 0x1_0000_0000 }
  }

  /** Two's-complement wrap-around of a 64-bit integer. */
  function Wrap64(x: int): (r: int)
    ensures -0x8000_0000_0000_0000 <= r < 0x8000_0000_0000_0000
    ensures -0x8000_0000_0000_0000 <= x < 0x8000_0000_0000_0000 ==> r == x
  {
    (x + 0x8000_0000_0000_0000) % 0x1_0000_0000_0000_0000 - 0x8000_0000_0000_0000
  }

  function Lower(c: byte): byte {
    if 65 <= c <= 90 then c + 32 else c
  }

  function NormalizeMAC(mac: Text): Text {
    seq(|mac|, i requires 0 <= i < |mac| => Lower(mac[i]))
  }

  /** Normalising lowers the letters A to Z, byte by byte, and keeps everything else. */
  lemma NormalizeMACLowers(mac: Text, i: nat)
    requires i < |mac|
    ensures |NormalizeMAC(mac)| == |mac|
    ensures mac[i] in [65, 66, 67, 68, 69, 70] ==> NormalizeMAC(mac)[i] == mac[i] + 32
    ensures 65 <= mac[i] <= 90 ==> NormalizeMAC(mac)[i] == mac[i] + 32
    ensures mac[i] < 65 || mac[i] > 90 ==> NormalizeMAC(mac)[i] == mac[i]
  {
  }

  predicate Normalized(mac: Text) {
    NormalizeMAC(mac) == mac
  }

  lemma NormalizeMACIsIdempotent(mac: Text)
    ensures Normalized(NormalizeMAC(mac))
  {
    var n := NormalizeMAC(mac);
    assert forall i | 0 <= i < |n| :: NormalizeMAC(n)[i] == n[i];
  }
}
