/**
 The wire format in the numbers of the standards: byte positions of section 2 of RFC 2131, the
 magic cookie and the pad and end options of sections 2 and 3 of RFC 2132.
 */
module WireFormat {
  import opened Wrappers
  import opened Config
  import opened PacketFormat
  import opened Packet

  /** Four bytes in network order. */
  function Number4(b: seq<byte>, at: nat): int
    requires at + 4 <= |b|
  {
    b[at] as int * 16777216 + b[at + 1] as int * 65536 + b[at + 2] as int * 256 + b[at + 3] as int
  }

  function Number2(b: seq<byte>, at: nat): int
    requires at + 2 <= |b|
  {
    b[at] as int * 256 + b[at + 1] as int
  }

  lemma WordIsNumber(b: seq<byte>, at: nat)
    requires at + 4 <= |b|
    ensures Word(b[at], b[at + 1], b[at + 2], b[at + 3]) == Number4(b, at)
  {
  }

  /** A code, a length and a value at some place after the magic cookie. */
  ghost predicate HasOption(buf: seq<byte>, code: byte, value: seq<byte>) {
    exists at: nat :: OptionAt(buf, at, code, value)
  }

  predicate OptionAt(buf: seq<byte>, at: nat, code: byte, value: seq<byte>) {
    240 <= at && StandsAt(buf, at, code, value)
  }

  predicate StandsAt(body: seq<byte>, at: nat, code: byte, value: seq<byte>) {
    && at + 2 + |value| <= |body|
    && body[at] == code && body[at + 1] == |value| && body[at + 2..at + 2 + |value|] == value
  }

  /** The header of every printed packet, by position. */
  lemma PrintedHeader(p: Fields, buf: seq<byte>)
    requires Shaped(p) && IsPrinted(p, buf)
    ensures |buf| >= 300
    ensures buf[0] == p.opCode && buf[1] == p.hwType && buf[2] == p.hwLen && buf[3] == p.hops
    ensures Number4(buf, 4) == p.xid && Number2(buf, 8) == p.secs && Number2(buf, 10) == p.flags
    ensures Number4(buf, 12) == p.ciAddr && Number4(buf, 16) == p.yiAddr
    ensures Number4(buf, 20) == p.siAddr && Number4(buf, 24) == p.giAddr
  {
    var order :| IsOrder(order, p.options) && buf == Encode(p, order);
    EncodedFront(p, order);
    FrontReadsBack(p, buf);
  }

  lemma PrintedNames(p: Fields, buf: seq<byte>)
    requires Shaped(p) && IsPrinted(p, buf)
    ensures |buf| >= 300
    ensures forall i | 0 <= i < 16 :: buf[28 + i] == if i < |p.chAddr| then p.chAddr[i] else 0
    ensures buf[44..108] == p.sName && buf[108..236] == p.file
    ensures buf[236] == 99 && buf[237] == 130 && buf[238] == 83 && buf[239] == 99
  {
    var order :| IsOrder(order, p.options) && buf == Encode(p, order);
    EncodedFront(p, order);
    NamesReadBack(p, buf);
    forall i | 0 <= i < 16
      ensures buf[28 + i] == if i < |p.chAddr| then p.chAddr[i] else 0
    {
      assert buf[28 + i] == buf[28..236][i] == Names(p)[i] == Fixed(p.chAddr, 16)[i];
    }
    assert buf[236] == buf[236..240][0] && buf[237] == buf[236..240][1];
    assert buf[238] == buf[236..240][2] && buf[239] == buf[236..240][3];
  }

  lemma StandsFurther(first: seq<byte>, rest: seq<byte>, at: nat, code: byte, value: seq<byte>)
    requires StandsAt(rest, at, code, value)
    ensures StandsAt(first + rest, |first| + at, code, value)
  {
    var body, n := first + rest, |first|;
    assert body[n..] == rest;
    assert body[n + at] == rest[at] && body[n + at + 1] == rest[at + 1];
    assert body[n + at + 2..n + at + 2 + |value|] == rest[at + 2..at + 2 + |value|];
  }

  lemma {:induction false} OptionIsEncoded(options: map<byte, seq<byte>>, order: seq<byte>, code: byte)
    returns (at: nat)
    requires code in order && (forall k | k in order :: k in options) && |options[code]| <= 255
    ensures StandsAt(EncodeOptions(options, order), at, code, options[code])
    decreases |order|
  {
    var first, rest := EncodeOption(order[0], options[order[0]]), EncodeOptions(options, order[1..]);
    if order[0] == code {
      at := 0;
      assert (first + rest)[2..2 + |options[code]|] == options[code];
    } else {
      var at' := OptionIsEncoded(options, order[1..], code);
      at := |first| + at';
      StandsFurther(first, rest, at', code, options[code]);
    }
  }

  /** Every option of a printed packet stands in its bytes as code, length and value. */
  lemma PrintedOption(p: Fields, buf: seq<byte>, code: byte)
    requires Shaped(p) && IsPrinted(p, buf) && code in p.options && |p.options[code]| <= 255
    ensures HasOption(buf, code, p.options[code])
  {
    var order :| IsOrder(order, p.options) && buf == Encode(p, order);
    EncodedFront(p, order);
    var body := EncodeOptions(p.options, order);
    var at := OptionIsEncoded(p.options, order, code);
    StandsInLonger(body, buf[240..], at, code, p.options[code]);
    StandsFurther(buf[..240], buf[240..], at, code, p.options[code]);
    assert buf[..240] + buf[240..] == buf;
    assert OptionAt(buf, 240 + at, code, p.options[code]);
  }

  /** The whole option field reads as the options. */
  lemma PrintedOptions(p: Fields, buf: seq<byte>)
    requires Shaped(p) && IsPrinted(p, buf)
    ensures |buf| >= 300
    ensures OptionsEncodable(p.options) ==> ParseOptions(buf[240..]) == p.options
  {
    var order :| IsOrder(order, p.options) && buf == Encode(p, order);
    EncodedFront(p, order);
    if OptionsEncodable(p.options) {
      EncodedTail(p, order);
    }
  }

  lemma StandsInLonger(body: seq<byte>, longer: seq<byte>, at: nat, code: byte, value: seq<byte>)
    requires StandsAt(body, at, code, value) && body <= longer
    ensures StandsAt(longer, at, code, value)
  {
    assert longer[..|body|] == body;
    assert longer[at + 2..at + 2 + |value|] == body[at + 2..at + 2 + |value|];
  }

  lemma OnlyOrder(order: seq<byte>, code: byte)
    requires forall k :: k in order <==> k == code
    requires forall i, j | 0 <= i < j < |order| :: order[i] != order[j]
    ensures order == [code]
  {
    assert code in order;
    assert order[0] in order && order[|order| - 1] in order;
  }

  /** A packet with one option, to the last byte: the option, the end mark 255, and zeros. */
  lemma OneOptionPrinted(p: Fields, buf: seq<byte>, code: byte, value: seq<byte>)
    requires Shaped(p) && IsPrinted(p, buf) && p.options == map[code := value] && |value| <= 255
    ensures |buf| >= 243 + |value|
    ensures buf[240..] == [code, |value|] + value + [255] + Zeros(|buf| - 243 - |value|)
    ensures |buf| == if 243 + |value| < 300 then 300 else 243 + |value|
  {
    var order :| IsOrder(order, p.options) && buf == Encode(p, order);
    OnlyOrder(order, code);
    assert order[1..] == [] && EncodeOptions(p.options, order[1..]) == [];
    assert EncodeOptions(p.options, order) == [code, |value|] + value;
    var head := Front(p) + Names(p) + MAGIC_COOKIE;
    assert |head| == 240;
    assert Unpadded(p, order) == head + ([code, |value|] + value + [255]);
    assert buf == head + ([code, |value|] + value + [255] + Zeros(|buf| - 243 - |value|));
  }

  // ---- Reading ---------------------------------------------------------------------

  predicate HasCookie(data: seq<byte>) {
    |data| >= 240 && data[236] == 99 && data[237] == 130 && data[238] == 83 && data[239] == 99
  }

  /** The fields of every parsed datagram, by position. */
  lemma ParsedHeader(data: seq<byte>)
    requires |data| >= 236 && data[2] < 228 && 28 + data[2] as int <= |data|
    ensures Parse(data).Success?
    ensures var p := Parse(data).value;
      && p.opCode == data[0] && p.hwType == data[1] && p.hwLen == data[2] && p.hops == data[3]
      && p.xid == Number4(data, 4) && p.secs == Number2(data, 8) && p.flags == Number2(data, 10)
      && p.ciAddr == Number4(data, 12) && p.yiAddr == Number4(data, 16)
      && p.siAddr == Number4(data, 20) && p.giAddr == Number4(data, 24)
      && p.chAddr == data[28..28 + data[2] as int]
      && p.sName == data[44..108] && p.file == data[108..236]
      && p.options == if HasCookie(data) then ParseOptions(data[240..]) else map[]
  {
    if |data| >= 240 {
      assert data[236..240] == [data[236], data[237], data[238], data[239]];
    }
  }

  /** The option field: 0 is skipped, 255 ends it, a truncated option is dropped, a later value replaces an earlier. */
  lemma OptionFieldReads(data: seq<byte>, code: byte)
    ensures data == [] || data[0] == 255 ==> ParseOptions(data) == map[]
    ensures data != [] && data[0] == 0 ==> ParseOptions(data) == ParseOptions(data[1..])
    ensures |data| == 1 && data[0] != 0 ==> ParseOptions(data) == map[]
    ensures |data| >= 2 && data[0] != 0 && data[0] != 255 && |data| < 2 + data[1] as int ==> ParseOptions(data) == map[]
    ensures |data| >= 2 && data[0] != 0 && data[0] != 255 && |data| >= 2 + data[1] as int ==>
      var rest := ParseOptions(data[2 + data[1] as int..]);
      && (code in ParseOptions(data) <==> code in rest || code == data[0])
      && (code in rest ==> ParseOptions(data)[code] == rest[code])
      && (code !in rest && code == data[0] ==> ParseOptions(data)[code] == data[2..2 + data[1] as int])
  {
  }

  /**
   A datagram whose options begin 53, 1, t is of message type t: option 53 reads as the one
   byte t, unless a later option 53 takes its place.
   */
  lemma MessageTypeIsRead(data: seq<byte>, t: byte)
    requires |data| >= 243 && data[2] < 228 && 28 + data[2] as int <= |data| && HasCookie(data)
    requires data[240] == 53 && data[241] == 1 && data[242] == t
    requires 53 !in ParseOptions(data[243..])
    ensures Parse(data).Success? && 53 in Parse(data).value.options && Parse(data).value.options[53] == [t]
  {
    ParsedHeader(data);
    var field := data[240..];
    assert field[2..3] == [t] && field[3..] == data[243..];
    OptionFieldReads(field, 53);
  }

  // ---- Values ----------------------------------------------------------------------

  lemma NumberFurther(first: seq<byte>, rest: seq<byte>, at: nat)
    requires |first| == 4
    ensures Number4(first + rest, 0) == Number4(first, 0)
    ensures at + 4 <= |rest| ==> Number4(first + rest, 4 + at) == Number4(rest, at)
  {
  }

  lemma AddressListStep(ips: seq<IPv4>) returns (first: seq<byte>, rest: seq<byte>)
    requires ips != []
    ensures PutAddresses(ips) == first + rest && |first| == 4 && Number4(first, 0) == ips[0]
    ensures rest == PutAddresses(ips[1..])
  {
    first, rest := PutUint32(ips[0]), PutAddresses(ips[1..]);
    NumberBytes(ips[0], 0);
  }

  /** The bytes are those of the addresses, four each, in order. */
  predicate AreAddresses(bytes: seq<byte>, ips: seq<IPv4>) {
    |bytes| == 4 * |ips| && forall i | 0 <= i < |ips| :: Number4(bytes, 4 * i) == ips[i]
  }

  lemma AddressesFurther(first: seq<byte>, rest: seq<byte>, ips: seq<IPv4>)
    requires ips != [] && |first| == 4 && Number4(first, 0) == ips[0] && AreAddresses(rest, ips[1..])
    ensures AreAddresses(first + rest, ips)
  {
    forall i | 0 <= i < |ips|
      ensures Number4(first + rest, 4 * i) == ips[i]
    {
      if i == 0 {
        NumberFurther(first, rest, 0);
      } else {
        NumberFurther(first, rest, 4 * (i - 1));
        assert Number4(rest, 4 * (i - 1)) == ips[1..][i - 1];
      }
    }
  }

  /** An address list is four bytes per address, in order. */
  lemma {:induction false} AddressListBytes(ips: seq<IPv4>)
    ensures AreAddresses(PutAddresses(ips), ips)
  {
    if ips != [] {
      var first, rest := AddressListStep(ips);
      AddressListBytes(ips[1..]);
      AddressesFurther(first, rest, ips);
    }
  }

  /** Single numbers, likewise. */
  lemma NumberBytes(x: IPv4, y: Word16)
    ensures |PutUint32(x)| == 4 && Number4(PutUint32(x), 0) == x
    ensures |PutUint16(y)| == 2 && Number2(PutUint16(y), 0) == y
  {
    WordReadsBack(x);
  }
}
