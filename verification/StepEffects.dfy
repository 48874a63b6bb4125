/**
 The effect of one step on the lease table, in the form the run theorems use: a step
 writes one lease, or ends one client's latest lease, or expires old rows, or leaves the
 table alone.
 */
module StepEffects {
  import opened Wrappers
  import opened Config
  import opened LeaseTable
  import opened Allocation
  import opened ServerModel

  /** The client and address of the lease this step writes, if it writes one. */
  datatype Write = Write(mac: Text, ip: IPv4)

  ghost function Written(g: Global, s: State, e: Event): Option<Write> {
    match Step(g, s, e).1
    case Ack(ip, _) => Some(Write(NormalizeMAC(PacketMAC(e)), ip))
    case BootReply(ip, _) => Some(Write(NormalizeMAC(PacketMAC(e)), ip))
    case _ =>
      if e.input.SeedStaticLease? && g.resolve(e.input.host.ipAddress).Some? then
        Some(Write(NormalizeMAC(e.input.host.macAddress), g.resolve(e.input.host.ipAddress).value))
      else None
  }

  function PacketMAC(e: Event): Text {
    if e.input.Packet? then
      match e.input.msg
      case Discover(mac, _) => mac
      case Request(mac, _, _, _, _) => mac
      case Release(mac) => mac
      case BootRequest(mac, _) => mac
      case _ => []
    else []
  }

  /** The client whose latest lease this step ends. */
  function Ended(e: Event): Option<Text> {
    match e.input
    case Packet(Release(mac), _, _) => Some(NormalizeMAC(mac))
    case RevokeStaticLease(mac) => Some(NormalizeMAC(mac))
    case _ => None
  }

  /** The host name recorded with a written lease. */
  function Hostname(e: Event): Text {
    match e.input
    case Packet(Request(_, _, _, _, hostname), _, _) => hostname
    case Packet(BootRequest(_, hostname), _, _) => hostname
    case SeedStaticLease(host) => host.hostname
    case _ => []
  }

  function LeaseEnd(g: Global, e: Event): int {
    e.now + (if e.input.Packet? then g.Term() else STATIC_TERM)
  }

  /** The is_static value a new row gets; an existing row keeps its own. */
  function MarkedStatic(s: State, e: Event): bool {
    e.input.Packet? && e.input.msg.Request? ==> IsStaticLease(s.statics, e.input.msg.mac)
  }

  /** Nobody else's row protects the address at this moment. */
  ghost predicate Claimable(s: State, now: int, w: Write) {
    w.ip in s.leases ==> NormalizeMAC(s.leases[w.ip].mac) == w.mac || now > s.leases[w.ip].end
  }

  ghost predicate ClientHasLiveRow(s: State, now: int, mac: Text) {
    exists ip | ip in s.leases :: s.leases[ip].mac == mac && Live(s.leases[ip], now)
  }

  /** Why a packet may write a lease. */
  ghost predicate Justified(g: Global, s: State, now: int, w: Write) {
    if StaticIP(g, s.statics, w.mac).Some? then
      StaticIP(g, s.statics, w.mac) == Some(w.ip) && Reserved(g, s.statics, w.ip)
    else if ClientHasLiveRow(s, now, w.mac) then
      w.ip in s.leases && s.leases[w.ip].mac == w.mac && Live(s.leases[w.ip], now)
    else
      w.ip !in s.deny && Claimable(s, now, w)
  }

  lemma StaticIPOfNormalized(g: Global, statics: seq<StaticHost>, mac: Text)
    ensures StaticIP(g, statics, NormalizeMAC(mac)) == StaticIP(g, statics, mac)
  {
    NormalizeMACIsIdempotent(mac);
    if statics != [] {
      StaticIPOfNormalized(g, statics[1..], mac);
    }
  }

  function NewRow(g: Global, s: State, e: Event, w: Write): Lease {
    Granted(Lookup(s.leases, w.ip), s.nextId, w.mac, w.ip, Hostname(e), e.now, LeaseEnd(g, e), MarkedStatic(s, e))
  }

  lemma WriteUpserts(g: Global, s: State, e: Event)
    requires Written(g, s, e).Some?
    ensures var w := Written(g, s, e).value;
      && Step(g, s, e).0.leases == s.leases[w.ip := NewRow(g, s, e, w)]
      && Step(g, s, e).0.nextId == NextId(s.leases, s.nextId, w.ip)
      && Ended(e).None?
  {
  }

  lemma WriteIsJustified(g: Global, s: State, e: Event)
    requires Written(g, s, e).Some?
    ensures Normalized(Written(g, s, e).value.mac)
    ensures e.input.Packet? ==> Justified(g, s, e.now, Written(g, s, e).value)
  {
    var w := Written(g, s, e).value;
    if e.input.Packet? {
      NormalizeMACIsIdempotent(PacketMAC(e));
      StaticIPOfNormalized(g, s.statics, PacketMAC(e));
      StaticIPIsReserved(g, s.statics, PacketMAC(e));
      if e.input.msg.Request? {
        var p := ProbeFor(g, s, e.now, e.input.pings, e.input.msg.mac);
        GrantCases(g, s.subnets, s.statics, p, s.deny, Some(w.ip));
        assert HasLiveRow(p) <==> ClientHasLiveRow(s, e.now, w.mac);
      }
    } else {
      NormalizeMACIsIdempotent(e.input.host.macAddress);
    }
  }

  /** A step that writes a lease changes exactly that row, and a packet does so only for a reason. */
  lemma WriteEffect(g: Global, s: State, e: Event) returns (row: Lease)
    requires Written(g, s, e).Some?
    ensures var w := Written(g, s, e).value;
      && row == NewRow(g, s, e, w)
      && Step(g, s, e).0.leases == s.leases[w.ip := row]
      && Step(g, s, e).0.nextId == NextId(s.leases, s.nextId, w.ip)
      && row.mac == w.mac && row.state.Active? && row.start == e.now && row.end == LeaseEnd(g, e)
      && (if w.ip in s.leases then
            row.id == s.leases[w.ip].id && row.isStatic == s.leases[w.ip].isStatic && row.ip == s.leases[w.ip].ip
          else row.id == s.nextId && row.ip == w.ip)
      && Normalized(w.mac)
      && (e.input.Packet? ==> Justified(g, s, e.now, w))
      && Ended(e).None?
  {
    WriteUpserts(g, s, e);
    WriteIsJustified(g, s, e);
    row := NewRow(g, s, e, Written(g, s, e).value);
  }

  /** A step that writes no lease. */
  lemma OtherEffect(g: Global, s: State, e: Event)
    requires Written(g, s, e).None?
    ensures Step(g, s, e).0.nextId == s.nextId
    ensures Step(g, s, e).0.leases ==
      if Ended(e).Some? then EndLatest(s.leases, Ended(e).value, e.now)
      else if e.input.ExpireLeases? then LeaseTable.ExpireLeases(s.leases, e.now)
      else s.leases
  {
  }

  /** Configuration changes only by Refresh, and the deny set only grows. */
  lemma OtherFields(g: Global, s: State, e: Event)
    ensures var s' := Step(g, s, e).0;
      && s'.clock == e.now
      && s.deny <= s'.deny
      && (!e.input.Refresh? ==> s'.subnets == s.subnets && s'.statics == s.statics)
  {
    if e.input.Packet? && (e.input.msg.Discover? || e.input.msg.Request?) {
      var p := ProbeFor(g, s, e.now, e.input.pings, e.input.msg.mac);
      if e.input.msg.Discover? {
        AllocationDeniesSquatters(g, s.subnets, s.statics, p, s.deny, e.input.msg.requested);
      } else {
        AllocationDeniesSquatters(g, s.subnets, s.statics, p, s.deny,
                                  RequestedAddress(e.input.msg.requested, e.input.msg.ciaddr));
      }
    }
  }
}
