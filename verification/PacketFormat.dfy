/**
 The wire format of internal/dhcp/packet.go as functions on byte sequences: the fixed
 header of section 2 of RFC 2131 and the option field of section 2 of RFC 2132.
 */
module PacketFormat {
  import opened Wrappers
  import opened Config

  type Word16 = x: int | 0 <= x < 0x1_0000

  /** The value of a packet. Address fields are 32-bit numbers, printed as four bytes. */
  datatype Fields = Fields(
    opCode: byte,
    hwType: byte,
    hwLen: byte,
    hops: byte,
    xid: IPv4,
    secs: Word16,
    flags: Word16,
    ciAddr: IPv4,
    yiAddr: IPv4,
    siAddr: IPv4,
    giAddr: IPv4,
    chAddr: seq<byte>,
    sName: seq<byte>,
    file: seq<byte>,
    options: map<byte, seq<byte>>)

  const OPTION_PAD: byte := 0
  const OPTION_END: byte := 255
  const MAGIC_COOKIE: seq<byte> := [99, 130, 83, 99]

  /** `TooSmall` is an error value; `Panic` is the run-time panic of a slice out of bounds. */
  datatype ParseError = TooSmall | Panic

  // ---- Numbers ---------------------------------------------------------------------

  function Word(a: byte, b: byte, c: byte, d: byte): IPv4 {
    ((a as int * 0x100 + b as int) * 0x100 + c as int) * 0x100 + d as int
  }

  function Half(a: byte, b: byte): Word16 {
    a as int * 0x100 + b as int
  }

  function PutUint32(x: IPv4): seq<byte> {
    [x / 0x100 / 0x100 / 0x100, x / 0x100 / 0x100 % 0x100, x / 0x100 % 0x100, x % 0x100]
  }

  function PutUint16(x: Word16): seq<byte> {
    [x / 0x100, x % 0x100]
  }

  lemma WordReadsBack(x: IPv4)
    ensures var b := PutUint32(x); Word(b[0], b[1], b[2], b[3]) == x
  {
    var high: int := x / 0x100;
    var higher: int := high / 0x100;
    assert x == high * 0x100 + x % 0x100;
    assert high == higher * 0x100 + high % 0x100;
    assert higher == higher / 0x100 * 0x100 + higher % 0x100;
  }

  // ---- Printing --------------------------------------------------------------------

  /** `copy` into a zeroed field of `n` bytes. */
  function Fixed(v: seq<byte>, n: nat): (r: seq<byte>)
    ensures |r| == n
  {
    if |v| >= n then v[..n] else v + Zeros(n - |v|)
  }

  function Zeros(n: nat): (r: seq<byte>)
    ensures |r| == n
  {
    seq(n, _ => 0)
  }

  predicate Shaped(p: Fields) {
    |p.sName| == 64 && |p.file| == 128
  }

  /** The first 28 bytes. */
  function Front(p: Fields): (r: seq<byte>)
    ensures |r| == 28
  {
    [p.opCode, p.hwType, p.hwLen, p.hops]
      + PutUint32(p.xid) + PutUint16(p.secs) + PutUint16(p.flags)
      + PutUint32(p.ciAddr) + PutUint32(p.yiAddr) + PutUint32(p.siAddr) + PutUint32(p.giAddr)
  }

  /** Bytes 28 to 236: hardware address, server name and boot file. */
  function Names(p: Fields): seq<byte> {
    Fixed(p.chAddr, 16) + p.sName + p.file
  }

  function EncodeOption(code: byte, value: seq<byte>): seq<byte> {
    [code, |value| % 0x100] + value
  }

  function EncodeOptions(options: map<byte, seq<byte>>, order: seq<byte>): seq<byte>
    requires forall k | k in order :: k in options
  {
    if order == [] then [] else EncodeOption(order[0], options[order[0]]) + EncodeOptions(options, order[1..])
  }

  /** One possible order of a walk over the option map. */
  ghost predicate IsOrder(order: seq<byte>, options: map<byte, seq<byte>>) {
    && (forall k :: k in order <==> k in options)
    && forall i, j | 0 <= i < j < |order| :: order[i] != order[j]
  }

  function Unpadded(p: Fields, order: seq<byte>): seq<byte>
    requires forall k | k in order :: k in p.options
  {
    Front(p) + Names(p) + MAGIC_COOKIE + EncodeOptions(p.options, order) + [OPTION_END]
  }

  function PadTo300(buf: seq<byte>): seq<byte> {
    if |buf| < 300 then buf + Zeros(300 - |buf|) else buf
  }

  /** ToBytes, for one order of the options. */
  function Encode(p: Fields, order: seq<byte>): seq<byte>
    requires forall k | k in order :: k in p.options
  {
    PadTo300(Unpadded(p, order))
  }

  // ---- Parsing ---------------------------------------------------------------------

  /**
   The option field read as type-length-value triples: pads are skipped, END or a truncated
   triple stops the reading, and the last of several equal codes wins.
   */
  function ParseOptions(data: seq<byte>): map<byte, seq<byte>>
    decreases |data|
  {
    if data == [] || data[0] == OPTION_END then map[]
    else if data[0] == OPTION_PAD then ParseOptions(data[1..])
    else if |data| < 2 || |data| < 2 + data[1] as int then map[]
    else map[data[0] := data[2..2 + data[1] as int]] + ParseOptions(data[2 + data[1] as int..])
  }

  function ParseTail(data: seq<byte>): map<byte, seq<byte>> {
    if |data| >= 240 && data[236..240] == MAGIC_COOKIE then ParseOptions(data[240..]) else map[]
  }

  /** The end of the hardware address: the sum `28 + data[2]` is computed in one byte. */
  function HardwareEnd(hwLen: byte): byte {
    (28 + hwLen as int) % 0x100
  }

  /** The fields of a datagram around its hardware address. */
  function FieldsAround(data: seq<byte>, chAddr: seq<byte>): Fields
    requires |data| >= 236
  {
    Fields(
      data[0], data[1], data[2], data[3],
      Word(data[4], data[5], data[6], data[7]),
      Half(data[8], data[9]),
      Half(data[10], data[11]),
      Word(data[12], data[13], data[14], data[15]),
      Word(data[16], data[17], data[18], data[19]),
      Word(data[20], data[21], data[22], data[23]),
      Word(data[24], data[25], data[26], data[27]),
      chAddr,
      data[44..108],
      data[108..236],
      ParseTail(data))
  }

  /**
   ParsePacket on `data`, a window on a receive buffer that goes on with `beyond`: a slice may
   reach up to the end of the buffer, and one that reaches further, or backwards, panics.
   */
  function ParseIn(data: seq<byte>, beyond: seq<byte>): Result<Fields, ParseError> {
    if |data| < 236 then Failure(TooSmall)
    else if HardwareEnd(data[2]) < 28 || HardwareEnd(data[2]) > |data| + |beyond| then Failure(Panic)
    else Success(FieldsAround(data, (data + beyond)[28..HardwareEnd(data[2])]))
  }

  /** ParsePacket on bytes with nothing behind them. */
  function Parse(data: seq<byte>): Result<Fields, ParseError> {
    if |data| < 236 then Failure(TooSmall)
    else if HardwareEnd(data[2]) < 28 || HardwareEnd(data[2]) > |data| then Failure(Panic)
    else Success(FieldsAround(data, data[28..HardwareEnd(data[2])]))
  }

  /** What lies beyond the datagram matters only to a hardware address that reaches over its end. */
  lemma ParseIgnoresBeyond(data: seq<byte>, beyond: seq<byte>)
    requires beyond == [] || |data| < 236 || data[2] >= 228 || 28 + data[2] as int <= |data|
    ensures ParseIn(data, beyond) == Parse(data)
  {
    if |data| >= 236 && 28 <= HardwareEnd(data[2]) <= |data| {
      assert (data + beyond)[28..HardwareEnd(data[2])] == data[28..HardwareEnd(data[2])];
    }
  }

  // ---- The option field round trip -------------------------------------------------

  predicate OptionsEncodable(options: map<byte, seq<byte>>) {
    forall k | k in options :: k != OPTION_PAD && k != OPTION_END && |options[k]| <= 255
  }

  function Restrict(options: map<byte, seq<byte>>, keys: seq<byte>): map<byte, seq<byte>>
    requires forall k | k in keys :: k in options
  {
    map k | k in keys :: options[k]
  }

  /** Reading one encoded option and going on after it. */
  lemma OptionReadsBack(code: byte, value: seq<byte>, tail: seq<byte>)
    requires code != OPTION_PAD && code != OPTION_END && |value| <= 255
    ensures ParseOptions(EncodeOption(code, value) + tail) == map[code := value] + ParseOptions(tail)
  {
    var data := EncodeOption(code, value) + tail;
    assert data[0] == code && data[1] == |value|;
    assert data[2..2 + |value|] == value && data[2 + |value|..] == tail;
  }

  lemma {:induction false} OptionsReadBack(options: map<byte, seq<byte>>, order: seq<byte>, rest: seq<byte>)
    requires OptionsEncodable(options)
    requires forall k | k in order :: k in options
    requires rest != [] && rest[0] == OPTION_END
    ensures ParseOptions(EncodeOptions(options, order) + rest) == Restrict(options, order)
  {
    if order == [] {
      assert EncodeOptions(options, order) + rest == rest;
    } else {
      var k: byte := order[0];
      var v := options[k];
      var tail := EncodeOptions(options, order[1..]) + rest;
      OptionsReadBack(options, order[1..], rest);
      OptionReadsBack(k, v, tail);
      RestrictStep(options, order);
      Regroup(EncodeOption(k, v), EncodeOptions(options, order[1..]), rest);
    }
  }

  lemma Regroup(a: seq<byte>, b: seq<byte>, c: seq<byte>)
    ensures a + b + c == a + (b + c)
  {
  }

  lemma RestrictStep(options: map<byte, seq<byte>>, order: seq<byte>)
    requires order != [] && forall k | k in order :: k in options
    ensures Restrict(options, order) == map[order[0] := options[order[0]]] + Restrict(options, order[1..])
  {
  }

  /** Whatever the bytes, what is read is encodable: codes 0 and 255 never occur, and lengths fit a byte. */
  lemma {:induction false} ParsedOptionsAreEncodable(data: seq<byte>)
    ensures OptionsEncodable(ParseOptions(data))
    decreases |data|
  {
    if data == [] || data[0] == OPTION_END {
    } else if data[0] == OPTION_PAD {
      ParsedOptionsAreEncodable(data[1..]);
    } else if |data| >= 2 && |data| >= 2 + data[1] as int {
      ParsedOptionsAreEncodable(data[2 + data[1] as int..]);
    }
  }

  // ---- The packet round trip -------------------------------------------------------

  /** The bytes from position 28 on begin with the whole hardware address. */
  predicate CarriesAddress(p: Fields, buf: seq<byte>) {
    && |p.chAddr| == p.hwLen < 228
    && 28 + p.hwLen as int <= |buf|
    && p.chAddr == buf[28..28 + p.hwLen as int]
  }

  /** Packets whose printed bytes carry their hardware address and whose options fit their length bytes. */
  predicate Printable(p: Fields, order: seq<byte>)
    requires forall k | k in order :: k in p.options
  {
    CarriesAddress(p, Encode(p, order)) && OptionsEncodable(p.options)
  }

  /**
   What that means: an address of up to 16 bytes is always carried; one of up to 208 bytes
   exactly if it goes on with the server name and boot file; a longer one runs on into the
   magic cookie and the options.
   */
  lemma AddressIsCarriedIff(p: Fields, order: seq<byte>)
    requires Shaped(p) && IsOrder(order, p.options) && |p.chAddr| == p.hwLen
    ensures p.hwLen <= 16 ==> CarriesAddress(p, Encode(p, order))
    ensures p.hwLen <= 208 ==>
      (CarriesAddress(p, Encode(p, order)) <==> p.chAddr == Names(p)[..p.hwLen])
    ensures 208 < p.hwLen < 228 && CarriesAddress(p, Encode(p, order)) ==>
      p.chAddr[..208] == Names(p) && p.chAddr[208..] <= Encode(p, order)[236..]
  {
    EncodedFront(p, order);
    SliceOfSlice(Encode(p, order), 28, p.hwLen);
  }

  lemma SliceOfSlice(d: seq<byte>, at: nat, n: nat)
    requires at + 227 <= |d| && at == 28
    ensures n <= 208 ==> d[at..at + n] == d[at..at + 208][..n]
    ensures 208 < n < 228 ==> d[at..at + n][..208] == d[at..at + 208] && d[at..at + n][208..] <= d[at + 208..]
  {
    if 208 < n < 228 {
      assert d[at..at + n][208..] == d[at + 208..][..n - 208];
    }
  }

  lemma Assembled(front: seq<byte>, names: seq<byte>, cookie: seq<byte>, body: seq<byte>, padding: seq<byte>)
    requires |front| == 28 && |names| == 208 && |cookie| == 4
    ensures var d := front + names + cookie + body + padding;
      && d[..28] == front && d[28..236] == names && d[236..240] == cookie && body <= d[240..]
  {
    var d := front + names + cookie + body + padding;
    assert d[240..] == body + padding;
  }

  lemma PaddedIs(p: Fields, order: seq<byte>) returns (padding: seq<byte>)
    requires Shaped(p) && IsOrder(order, p.options)
    ensures Encode(p, order)
      == Front(p) + Names(p) + MAGIC_COOKIE + (EncodeOptions(p.options, order) + [OPTION_END]) + padding
  {
    var u := Unpadded(p, order);
    padding := if |u| < 300 then Zeros(300 - |u|) else [];
    Regroup(Front(p) + Names(p) + MAGIC_COOKIE, EncodeOptions(p.options, order), [OPTION_END]);
  }

  /** The header of an encoded packet, position by position. */
  lemma EncodedFront(p: Fields, order: seq<byte>)
    requires Shaped(p) && IsOrder(order, p.options)
    ensures var d := Encode(p, order);
      && |d| >= 300
      && d[..28] == Front(p)
      && d[28..236] == Names(p)
      && d[236..240] == MAGIC_COOKIE
      && EncodeOptions(p.options, order) + [OPTION_END] <= d[240..]
  {
    var padding := PaddedIs(p, order);
    Assembled(Front(p), Names(p), MAGIC_COOKIE, EncodeOptions(p.options, order) + [OPTION_END], padding);
  }

  lemma EncodedTail(p: Fields, order: seq<byte>)
    requires Shaped(p) && IsOrder(order, p.options) && OptionsEncodable(p.options)
    ensures ParseTail(Encode(p, order)) == p.options
  {
    EncodedFront(p, order);
    var d := Encode(p, order);
    var options := EncodeOptions(p.options, order);
    var rest := d[240..][|options|..];
    assert d[240..] == options + rest;
    assert rest[0] == (options + [OPTION_END])[|options|];
    OptionsReadBack(p.options, order, rest);
    assert Restrict(p.options, order) == p.options;
  }

  /** Where the eight parts of the front stand. */
  lemma PartsStand(h: seq<byte>, x: seq<byte>, s: seq<byte>, f: seq<byte>,
                   c: seq<byte>, y: seq<byte>, i: seq<byte>, g: seq<byte>)
    requires |h| == |x| == |c| == |y| == |i| == |g| == 4 && |s| == |f| == 2
    ensures var front := h + x + s + f + c + y + i + g;
      && |front| == 28 && front[0..4] == h && front[4..8] == x && front[8..10] == s && front[10..12] == f
      && front[12..16] == c && front[16..20] == y && front[20..24] == i && front[24..28] == g
  {
  }

  lemma FrontStands(p: Fields)
    ensures var front := Front(p);
      && front[0..4] == [p.opCode, p.hwType, p.hwLen, p.hops] && front[4..8] == PutUint32(p.xid)
      && front[8..10] == PutUint16(p.secs) && front[10..12] == PutUint16(p.flags)
      && front[12..16] == PutUint32(p.ciAddr) && front[16..20] == PutUint32(p.yiAddr)
      && front[20..24] == PutUint32(p.siAddr) && front[24..28] == PutUint32(p.giAddr)
  {
    PartsStand([p.opCode, p.hwType, p.hwLen, p.hops], PutUint32(p.xid), PutUint16(p.secs), PutUint16(p.flags),
               PutUint32(p.ciAddr), PutUint32(p.yiAddr), PutUint32(p.siAddr), PutUint32(p.giAddr));
    Regrouped(p);
  }

  lemma Regrouped(p: Fields)
    ensures Front(p) == [p.opCode, p.hwType, p.hwLen, p.hops] + PutUint32(p.xid) + PutUint16(p.secs)
      + PutUint16(p.flags) + PutUint32(p.ciAddr) + PutUint32(p.yiAddr) + PutUint32(p.siAddr) + PutUint32(p.giAddr)
  {
  }

  lemma WordAt(front: seq<byte>, d: seq<byte>, at: nat, x: IPv4)
    requires |d| >= 28 && d[..28] == front && at + 4 <= 28 && front[at..at + 4] == PutUint32(x)
    ensures Word(d[at], d[at + 1], d[at + 2], d[at + 3]) == x
  {
    WordReadsBack(x);
    assert d[at] == front[at..at + 4][0] && d[at + 1] == front[at..at + 4][1];
    assert d[at + 2] == front[at..at + 4][2] && d[at + 3] == front[at..at + 4][3];
  }

  lemma HalfAt(front: seq<byte>, d: seq<byte>, at: nat, x: Word16)
    requires |d| >= 28 && d[..28] == front && at + 2 <= 28 && front[at..at + 2] == PutUint16(x)
    ensures Half(d[at], d[at + 1]) == x
  {
    assert d[at] == front[at..at + 2][0] && d[at + 1] == front[at..at + 2][1];
  }

  lemma FourAt(front: seq<byte>, d: seq<byte>, a: byte, b: byte, c: byte, e: byte)
    requires |d| >= 28 && d[..28] == front && front[0..4] == [a, b, c, e]
    ensures d[0] == a && d[1] == b && d[2] == c && d[3] == e
  {
    assert d[0] == front[0..4][0] && d[1] == front[0..4][1] && d[2] == front[0..4][2] && d[3] == front[0..4][3];
  }

  lemma FrontReadsBack(p: Fields, d: seq<byte>)
    requires |d| >= 28 && d[..28] == Front(p)
    ensures d[0] == p.opCode && d[1] == p.hwType && d[2] == p.hwLen && d[3] == p.hops
    ensures Word(d[4], d[5], d[6], d[7]) == p.xid
    ensures Half(d[8], d[9]) == p.secs && Half(d[10], d[11]) == p.flags
    ensures Word(d[12], d[13], d[14], d[15]) == p.ciAddr && Word(d[16], d[17], d[18], d[19]) == p.yiAddr
    ensures Word(d[20], d[21], d[22], d[23]) == p.siAddr && Word(d[24], d[25], d[26], d[27]) == p.giAddr
  {
    FrontStands(p);
    FourAt(Front(p), d, p.opCode, p.hwType, p.hwLen, p.hops);
    WordAt(Front(p), d, 4, p.xid);
    HalfAt(Front(p), d, 8, p.secs);
    HalfAt(Front(p), d, 10, p.flags);
    WordAt(Front(p), d, 12, p.ciAddr);
    WordAt(Front(p), d, 16, p.yiAddr);
    WordAt(Front(p), d, 20, p.siAddr);
    WordAt(Front(p), d, 24, p.giAddr);
  }

  lemma NamesReadBack(p: Fields, d: seq<byte>)
    requires Shaped(p) && |d| >= 236 && d[28..236] == Names(p)
    ensures d[44..108] == p.sName && d[108..236] == p.file
  {
    assert d[44..108] == d[28..236][16..80] == p.sName;
    assert d[108..236] == d[28..236][80..208] == p.file;
  }

  /**
   The codec round trip, exactly: a packet comes back unchanged from its own bytes, through
   the padding to 300 bytes, if and only if it is printable in the order its options were
   walked in. Every packet with a hardware address of hwLen <= 16 bytes, option codes other
   than 0 and 255, and values of at most 255 bytes is, in every order (AddressIsCarriedIff).
   */
  lemma RoundTrip(p: Fields, order: seq<byte>)
    requires Shaped(p) && IsOrder(order, p.options)
    ensures Parse(Encode(p, order)) == Success(p) <==> Printable(p, order)
  {
    var d := Encode(p, order);
    EncodedFront(p, order);
    FrontReadsBack(p, d);
    NamesReadBack(p, d);
    if Printable(p, order) {
      EncodedTail(p, order);
    }
    if Parse(d) == Success(p) {
      assert p.options == ParseOptions(d[240..]);
      ParsedOptionsAreEncodable(d[240..]);
    }
  }

  /** A hardware address longer than its field runs on into the name fields, which are printed back too. */
  lemma LongAddressIsRecoverable(data: seq<byte>)
    requires Parse(data).Success? && 16 < data[2] <= 208
    ensures var p := Parse(data).value;
      p.hwLen <= |Names(p)| && p.chAddr == Names(p)[..p.hwLen]
  {
    var p := Parse(data).value;
    var n: int := data[2];
    assert data[28..28 + n][..16] == data[28..44];
    assert data[28..44] + data[44..108] + data[108..236] == data[28..236];
    assert data[28..236][..n] == data[28..28 + n];
  }

  /**
   Canonicalisation: for every datagram that parses, printing the parsed packet and parsing
   again changes nothing if and only if the hardware address is carried; and it is wherever
   it ends inside the fixed header.
   */
  lemma ParsePrintParse(data: seq<byte>, order: seq<byte>)
    requires Parse(data).Success? && IsOrder(order, Parse(data).value.options)
    ensures var p := Parse(data).value;
      && Shaped(p)
      && (Parse(Encode(p, order)) == Parse(data) <==> CarriesAddress(p, Encode(p, order)))
      && (data[2] <= 208 ==> CarriesAddress(p, Encode(p, order)))
  {
    var p := Parse(data).value;
    if |data| >= 240 {
      ParsedOptionsAreEncodable(data[240..]);
    }
    AddressIsCarriedIff(p, order);
    if 16 < p.hwLen <= 208 {
      LongAddressIsRecoverable(data);
    }
    RoundTrip(p, order);
  }

  /**
   ParsePacket gives a packet exactly for datagrams of at least 236 bytes whose hardware address
   ends inside the receive buffer; on any other of that size the slice panics. From a hardware
   length of 228 on, the byte addition wraps, and it panics in every buffer; below, it does
   where the buffer ends first, as the raw socket's exact-size buffers may.
   */
  lemma ParseSucceedsExactly(data: seq<byte>, beyond: seq<byte>)
    ensures ParseIn(data, beyond).Success? <==>
      |data| >= 236 && data[2] < 228 && 28 + data[2] as int <= |data| + |beyond|
    ensures ParseIn(data, beyond) == Failure(Panic) <==>
      |data| >= 236 && (data[2] >= 228 || 28 + data[2] as int > |data| + |beyond|)
  {
  }
}
