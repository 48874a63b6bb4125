/** What handlePacket reads off a packet: the message, and the client's name. */
module Messages {
  import opened Wrappers
  import opened Config
  import opened PacketFormat
  import opened Packet
  import opened ServerModel

  const BOOT_REQUEST: byte := 1

  const DHCP_DISCOVER: byte := 1
  const DHCP_REQUEST: byte := 3
  const DHCP_DECLINE: byte := 4
  const DHCP_RELEASE: byte := 7
  const DHCP_INFORM: byte := 8

  const COLON: byte := 58

  function HexDigit(n: int): byte
    requires 0 <= n < 16
  {
    if n < 10 then 48 + n else 87 + n
  }

  /** MACAddressString: lower-case hexadecimal pairs joined by colons. */
  function MACAddressString(chAddr: seq<byte>): Text {
    if chAddr == [] then []
    else
      [HexDigit(chAddr[0] / 16), HexDigit(chAddr[0] % 16)]
        + (if |chAddr| == 1 then [] else [COLON] + MACAddressString(chAddr[1..]))
  }

  /** The sixteen digits 0 to 9 and a to f. */
  const HEX: seq<byte> := [48, 49, 50, 51, 52, 53, 54, 55, 56, 57, 97, 98, 99, 100, 101, 102]

  lemma HexDigitIs(n: int)
    requires 0 <= n < 16
    ensures HexDigit(n) == HEX[n]
  {
  }

  predicate SpelledAt(s: Text, k: nat, b: byte) {
    k + 1 < |s| && s[k] == HexDigit(b as int / 16) && s[k + 1] == HexDigit(b as int % 16)
  }

  lemma MACAddressStep(chAddr: seq<byte>)
    requires chAddr != []
    ensures var s := MACAddressString(chAddr);
      && SpelledAt(s, 0, chAddr[0])
      && (|chAddr| == 1 ==> |s| == 2)
      && (|chAddr| > 1 ==> |s| >= 3 && s[2] == 58 && s[3..] == MACAddressString(chAddr[1..]))
  {
  }

  lemma SpelledFurther(s: Text, k: nat, b: byte)
    requires |s| >= 3 && SpelledAt(s[3..], k, b)
    ensures SpelledAt(s, 3 + k, b)
    ensures k + 2 < |s[3..]| ==> s[3 + k + 2] == s[3..][k + 2]
  {
    assert s[3 + k] == s[3..][k] && s[3 + k + 1] == s[3..][k + 1];
  }

  lemma {:induction false} MACAddressDigits(chAddr: seq<byte>, i: nat)
    requires i < |chAddr|
    ensures |MACAddressString(chAddr)| == 3 * |chAddr| - 1
    ensures SpelledAt(MACAddressString(chAddr), 3 * i, chAddr[i])
    ensures i + 1 < |chAddr| ==> MACAddressString(chAddr)[3 * i + 2] == 58
  {
    var s := MACAddressString(chAddr);
    MACAddressStep(chAddr);
    if |chAddr| > 1 {
      var j := if i == 0 then 0 else i - 1;
      MACAddressDigits(chAddr[1..], j);
      if i > 0 {
        SpelledFurther(s, 3 * j, chAddr[i]);
      }
    }
  }

  /** The name of a hardware address: two lower-case hexadecimal digits per byte, and colons between. */
  lemma MACAddressIsSpelled(chAddr: seq<byte>, i: nat)
    requires i < |chAddr|
    ensures |MACAddressString(chAddr)| == 3 * |chAddr| - 1
    ensures var s, n := MACAddressString(chAddr), chAddr[i] as int;
      s[3 * i] == HEX[n / 16] && s[3 * i + 1] == HEX[n % 16] && (i + 1 < |chAddr| ==> s[3 * i + 2] == 58)
  {
    MACAddressDigits(chAddr, i);
    HexDigitIs(chAddr[i] as int / 16);
    HexDigitIs(chAddr[i] as int % 16);
  }

  /** A client's name is already normalised. */
  lemma {:induction false} MACAddressIsNormalized(chAddr: seq<byte>)
    ensures Normalized(MACAddressString(chAddr))
  {
    var s := MACAddressString(chAddr);
    if chAddr != [] {
      MACAddressIsNormalized(chAddr[1..]);
      var rest := MACAddressString(chAddr[1..]);
      forall i | 0 <= i < |s|
        ensures NormalizeMAC(s)[i] == s[i]
      {
        if i >= 3 {
          assert s[i] == rest[i - 3] && NormalizeMAC(rest)[i - 3] == rest[i - 3];
        }
      }
    }
  }

  /** Two hardware addresses have the same name only if they are equal. */
  lemma {:induction false} MACAddressIsInjective(a: seq<byte>, b: seq<byte>)
    requires MACAddressString(a) == MACAddressString(b)
    ensures a == b
    decreases |a|
  {
    var s := MACAddressString(a);
    var t := MACAddressString(b);
    if a != [] && b != [] {
      assert s[0] == t[0] && s[1] == t[1];
      assert a[0] == a[0] as int / 16 * 16 + a[0] % 16 && b[0] == b[0] as int / 16 * 16 + b[0] % 16;
      assert |a| == 1 <==> |s| == 2;
      assert |b| == 1 <==> |t| == 2;
      if |a| > 1 {
        assert s[3..] == MACAddressString(a[1..]) && t[3..] == MACAddressString(b[1..]);
        MACAddressIsInjective(a[1..], b[1..]);
      }
      assert a == [a[0]] + a[1..] && b == [b[0]] + b[1..];
    }
  }

  function Hostname(p: Fields): Text {
    if OPTION_HOSTNAME in p.options then p.options[OPTION_HOSTNAME] else []
  }

  function RequestMessage(p: Fields): Message {
    Request(MACAddressString(p.chAddr), GetAddressOption(p, OPTION_SERVER_IDENTIFIER),
            GetAddressOption(p, OPTION_REQUESTED_IP), p.ciAddr, Hostname(p))
  }

  /**
   The dispatch of handlePacket. A packet whose message type option is present but not one
   byte long is malformed, never a BOOTP request.
   */
  function Classify(p: Fields): Message {
    var mac := MACAddressString(p.chAddr);
    match GetUint8Option(p, OPTION_MESSAGE_TYPE)
    case None =>
      if OPTION_MESSAGE_TYPE !in p.options && p.opCode == BOOT_REQUEST then BootRequest(mac, Hostname(p))
      else Unparseable
    case Some(msgType) =>
      if msgType == DHCP_DISCOVER then Discover(mac, GetAddressOption(p, OPTION_REQUESTED_IP))
      else if msgType == DHCP_REQUEST then
        RequestMessage(p)
      else if msgType == DHCP_RELEASE then Release(mac)
      else if msgType == DHCP_DECLINE then Decline
      else if msgType == DHCP_INFORM then Inform(p.ciAddr)
      else Unhandled
  }
}
