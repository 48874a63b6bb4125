/**
 Invariants of every run: conservation of the lease table, one live lease per client, and
 the accounting of requests and replies.
 */
module Invariants {
  import opened Wrappers
  import opened Config
  import opened LeaseTable
  import opened Allocation
  import opened ServerModel
  import opened StepEffects

  // ---- Conservation ----------------------------------------------------------------

  /** Rows are well formed, and a row in state expired is past its end. */
  ghost predicate Consistent(s: State) {
    && WellFormed(s.leases, s.nextId)
    && forall ip | ip in s.leases && s.leases[ip].state.Expired? :: s.leases[ip].end <= s.clock
  }

  lemma StepConserves(g: Global, s: State, e: Event)
    requires Consistent(s) && s.clock <= e.now
    ensures Consistent(Step(g, s, e).0)
    ensures Conserves(s.leases, Step(g, s, e).0.leases)
  {
    OtherFields(g, s, e);
    if Written(g, s, e).Some? {
      var row := WriteEffect(g, s, e);
      WriteConserves(s, Step(g, s, e).0, Written(g, s, e).value.ip, row);
    } else {
      OtherEffect(g, s, e);
      OtherConserves(s, Step(g, s, e).0, Ended(e), e.input.ExpireLeases?);
    }
  }

  lemma WriteConserves(s: State, s': State, ip: IPv4, row: Lease)
    requires Consistent(s) && s.clock <= s'.clock
    requires s'.leases == s.leases[ip := row] && s'.nextId == NextId(s.leases, s.nextId, ip)
    requires row.state.Active? && Normalized(row.mac)
    requires
      if ip in s.leases then
        row.id == s.leases[ip].id && row.isStatic == s.leases[ip].isStatic && row.ip == s.leases[ip].ip
      else row.id == s.nextId && row.ip == ip
    ensures Consistent(s') && Conserves(s.leases, s'.leases)
  {
  }

  lemma OtherConserves(s: State, s': State, ended: Option<Text>, expire: bool)
    requires Consistent(s) && s.clock <= s'.clock && s'.nextId == s.nextId
    requires s'.leases ==
      if ended.Some? then EndLatest(s.leases, ended.value, s'.clock)
      else if expire then LeaseTable.ExpireLeases(s.leases, s'.clock)
      else s.leases
    ensures Consistent(s') && Conserves(s.leases, s'.leases)
  {
    if ended.Some? {
      EndLatestKeeps(s.leases, s.nextId, ended.value, s'.clock);
    } else if expire {
      ExpireLeasesKeeps(s.leases, s.nextId, s'.clock);
    }
  }

  /**
   Over every run, whatever packets, administrative calls and configuration changes it
   holds: rows never disappear, the id, address and is_static of a row never change, and
   the table stays well formed.
   */
  lemma {:induction false} RunConserves(g: Global, s: State, events: seq<Event>)
    requires Consistent(s) && Ordered(s.clock, events)
    ensures Consistent(Run(g, s, events))
    ensures Conserves(s.leases, Run(g, s, events).leases)
    decreases |events|
  {
    if events != [] {
      StepConserves(g, s, events[0]);
      OtherFields(g, s, events[0]);
      RunConserves(g, Step(g, s, events[0]).0, events[1..]);
    }
  }

  /** The counts of GetStats. */
  function ActiveRows(t: Table): set<IPv4> { set ip | ip in t && t[ip].state.Active? }
  function StaticRows(t: Table): set<IPv4> { set ip | ip in t && t[ip].state.Active? && t[ip].isStatic }
  function ExpiredRows(t: Table): set<IPv4> { set ip | ip in t && t[ip].state.Expired? }

  lemma CountsAddUp(t: Table)
    ensures |ActiveRows(t)| + |ExpiredRows(t)| == |t|
    ensures |StaticRows(t)| <= |ActiveRows(t)|
  {
    assert ActiveRows(t) + ExpiredRows(t) == t.Keys;
    assert ActiveRows(t) !! ExpiredRows(t);
    SubsetIsSmaller(StaticRows(t), ActiveRows(t));
  }

  /** GetStats: the active and expired counts add up to the number of rows, which never shrinks. */
  lemma StatsAddUp(g: Global, s: State, events: seq<Event>)
    requires Consistent(s) && Ordered(s.clock, events)
    ensures var t := Run(g, s, events).leases;
      && |ActiveRows(t)| + |ExpiredRows(t)| == |t|
      && |StaticRows(t)| <= |ActiveRows(t)|
      && |s.leases| <= |t|
  {
    RunConserves(g, s, events);
    CountsAddUp(Run(g, s, events).leases);
    SubsetIsSmaller(s.leases.Keys, Run(g, s, events).leases.Keys);
  }

  lemma {:induction false} SubsetIsSmaller<T>(a: set<T>, b: set<T>)
    requires a <= b
    ensures |a| <= |b|
  {
    assert b == a + (b - a);
    assert |b| == |a| + |b - a|;
  }

  // ---- One live lease per client ---------------------------------------------------

  ghost predicate DistinctMACs(statics: seq<StaticHost>) {
    forall i, j | 0 <= i < j < |statics| ::
      NormalizeMAC(statics[i].macAddress) != NormalizeMAC(statics[j].macAddress)
  }

  /** A fixed configuration: no Refresh, and only configured hosts are seeded. */
  predicate FixedConfiguration(statics: seq<StaticHost>, e: Event) {
    && !e.input.Refresh?
    && (e.input.SeedStaticLease? ==> e.input.host in statics)
  }

  /** At most one live row per client; a static client's live row is at its own address. */
  ghost predicate OneLivePerClient(g: Global, s: State) {
    && (forall a, b | a in s.leases && b in s.leases && s.leases[a].mac == s.leases[b].mac
          && Live(s.leases[a], s.clock) && Live(s.leases[b], s.clock) :: a == b)
    && (forall a | a in s.leases && Live(s.leases[a], s.clock) && StaticIP(g, s.statics, s.leases[a].mac).Some? ::
          StaticIP(g, s.statics, s.leases[a].mac) == Some(a))
  }

  lemma {:induction false} StaticIPOfHost(g: Global, statics: seq<StaticHost>, host: StaticHost)
    requires DistinctMACs(statics) && host in statics && g.resolve(host.ipAddress).Some?
    ensures StaticIP(g, statics, host.macAddress) == g.resolve(host.ipAddress)
  {
    if statics[0] != host {
      var i :| 0 <= i < |statics| && statics[i] == host;
      assert NormalizeMAC(statics[0].macAddress) != NormalizeMAC(host.macAddress);
      assert statics[1..][i - 1] == host;
      StaticIPOfHost(g, statics[1..], host);
    }
  }

  lemma {:induction false} StepKeepsOneLive(g: Global, s: State, e: Event)
    requires DistinctMACs(s.statics) && FixedConfiguration(s.statics, e) && s.clock <= e.now
    requires OneLivePerClient(g, s)
    ensures OneLivePerClient(g, Step(g, s, e).0)
  {
    OtherFields(g, s, e);
    if Written(g, s, e).Some? {
      var row := WriteEffect(g, s, e);
      SeedIsJustified(g, s, e);
      WriteKeepsOneLive(g, s, Step(g, s, e).0, Written(g, s, e).value, row);
    } else {
      OtherEffect(g, s, e);
      OtherKeepsOneLive(g, s, Step(g, s, e).0, Ended(e), e.input.ExpireLeases?);
    }
  }

  lemma SeedIsJustified(g: Global, s: State, e: Event)
    requires DistinctMACs(s.statics) && FixedConfiguration(s.statics, e)
    ensures e.input.SeedStaticLease? && g.resolve(e.input.host.ipAddress).Some? ==>
      StaticIP(g, s.statics, NormalizeMAC(e.input.host.macAddress)) == g.resolve(e.input.host.ipAddress)
  {
    if e.input.SeedStaticLease? && g.resolve(e.input.host.ipAddress).Some? {
      StaticIPOfHost(g, s.statics, e.input.host);
      StaticIPOfNormalized(g, s.statics, e.input.host.macAddress);
    }
  }

  lemma OtherKeepsOneLive(g: Global, s: State, s': State, ended: Option<Text>, expire: bool)
    requires OneLivePerClient(g, s) && s.clock <= s'.clock && s'.statics == s.statics
    requires s'.leases ==
      if ended.Some? then EndLatest(s.leases, ended.value, s'.clock)
      else if expire then LeaseTable.ExpireLeases(s.leases, s'.clock)
      else s.leases
    ensures OneLivePerClient(g, s')
  {
    assert forall a | a in s'.leases && Live(s'.leases[a], s'.clock) ::
      Live(s.leases[a], s.clock) && s.leases[a].mac == s'.leases[a].mac;
  }

  lemma WriteKeepsOneLive(g: Global, s: State, s': State, w: Write, row: Lease)
    requires OneLivePerClient(g, s) && s.clock <= s'.clock && s'.statics == s.statics
    requires s'.leases == s.leases[w.ip := row] && row.mac == w.mac
    requires Justified(g, s, s'.clock, w) || StaticIP(g, s.statics, w.mac) == Some(w.ip)
    ensures OneLivePerClient(g, s')
  {
    assert forall a | a in s.leases && s.leases[a].mac == w.mac && Live(s.leases[a], s'.clock) :: a == w.ip;
  }

  /**
   With a fixed configuration of distinct static MACs, every state reachable from an empty
   table has at most one live lease per client, static clients hold only their own address,
   and every expired row has ended.
   */
  lemma {:induction false} OneLiveLeasePerClient(g: Global, s: State, events: seq<Event>)
    requires DistinctMACs(s.statics) && Ordered(s.clock, events)
    requires forall i | 0 <= i < |events| :: FixedConfiguration(s.statics, events[i])
    requires s.leases == map[] || (OneLivePerClient(g, s) && Consistent(s))
    ensures OneLivePerClient(g, Run(g, s, events)) && Consistent(Run(g, s, events))
    decreases |events|
  {
    if events != [] {
      var s' := Step(g, s, events[0]).0;
      StepKeepsOneLive(g, s, events[0]);
      StepConserves(g, s, events[0]);
      OtherFields(g, s, events[0]);
      OneLiveLeasePerClient(g, s', events[1..]);
    }
  }

  // ---- Accounting ------------------------------------------------------------------

  /** Events of a run that satisfy a condition. */
  function Count(events: seq<Event>, f: Event -> bool): nat {
    if events == [] then 0 else (if f(events[0]) then 1 else 0) + Count(events[1..], f)
  }

  function CountReplies(replies: seq<Reply>, f: Reply -> bool): nat {
    if replies == [] then 0 else (if f(replies[0]) then 1 else 0) + CountReplies(replies[1..], f)
  }

  /** A REQUEST whose server identifier is not this server's. */
  predicate IsForAnotherServer(g: Global, e: Event) {
    && e.input.Packet? && e.input.msg.Request?
    && e.input.msg.serverId.Some? && e.input.msg.serverId.value != g.serverIP
  }

  predicate IsUnparseable(e: Event) {
    e.input.Packet? && e.input.msg.Unparseable?
  }

  predicate IsDiscover(e: Event) { e.input.Packet? && e.input.msg.Discover? }
  predicate IsRequest(e: Event) { e.input.Packet? && e.input.msg.Request? }
  predicate IsRelease(e: Event) { e.input.Packet? && e.input.msg.Release? }
  predicate IsInform(e: Event) { e.input.Packet? && e.input.msg.Inform? }
  predicate IsDecline(e: Event) { e.input.Packet? && e.input.msg.Decline? }

  /** The socket takes the reply to this packet. */
  predicate IsSent(e: Event) { e.input.Packet? && e.input.sent }

  function Bit(b: bool): nat { if b then 1 else 0 }

  /** How the counters of received messages move with one event. */
  predicate CountsMessage(t: Stats, t': Stats, e: Event) {
    && t'.discover == t.discover + Bit(IsDiscover(e))
    && t'.request == t.request + Bit(IsRequest(e))
    && t'.release == t.release + Bit(IsRelease(e))
    && t'.inform == t.inform + Bit(IsInform(e))
    && t'.decline == t.decline + Bit(IsDecline(e))
  }

  /** How the counters of replies move with the reply of one event. */
  predicate CountsReply(t: Stats, t': Stats, e: Event, reply: Reply) {
    && t'.offer == t.offer + Bit(reply.Offer?)
    && t'.ack == t.ack + Bit(reply.Ack?)
    && t'.nak == t.nak + Bit(reply.Nak?)
    && t'.bootReply == t.bootReply + Bit(reply.BootReply?)
    && t'.packetsSent == t.packetsSent + Bit(!reply.NoReply? && IsSent(e))
    && t'.errors == t.errors + Bit((!reply.NoReply? && !IsSent(e)) || IsUnparseable(e))
  }

  /** Which messages draw an ACK or a NAK, and which may draw an OFFER or a BOOTREPLY. */
  predicate AnswersInKind(g: Global, e: Event, reply: Reply) {
    && ((reply.Ack? || reply.Nak?) <==> (IsRequest(e) && !IsForAnotherServer(g, e)))
    && (reply.Offer? ==> IsDiscover(e))
    && (reply.BootReply? ==> e.input.Packet? && e.input.msg.BootRequest?)
    && (IsForAnotherServer(g, e) || IsUnparseable(e) ==> reply.NoReply?)
  }

  predicate Accounts(g: Global, t: Stats, t': Stats, e: Event, reply: Reply) {
    CountsMessage(t, t', e) && CountsReply(t, t', e, reply) && AnswersInKind(g, e, reply)
  }

  lemma BootPAccounts(g: Global, s: State, e: Event)
    requires e.input.Packet? && e.input.msg.BootRequest?
    ensures var (s', reply) := Step(g, s, e);
      Accounts(g, s.stats, s'.stats, e, reply)
  {
  }

  lemma RefusedAccounts(g: Global, s: State, e: Event)
    requires IsRequest(e)
    requires IsForAnotherServer(g, e) || RequestedAddress(e.input.msg.requested, e.input.msg.ciaddr).None?
    ensures var (s', reply) := Step(g, s, e);
      Accounts(g, s.stats, s'.stats, e, reply)
  {
  }

  lemma RequestAccounts(g: Global, s: State, e: Event)
    requires IsRequest(e) && !IsForAnotherServer(g, e)
    requires RequestedAddress(e.input.msg.requested, e.input.msg.ciaddr).Some?
    ensures var (s', reply) := Step(g, s, e);
      Accounts(g, s.stats, s'.stats, e, reply)
  {
  }

  lemma DiscoverAccounts(g: Global, s: State, e: Event)
    requires IsDiscover(e)
    ensures var (s', reply) := Step(g, s, e);
      Accounts(g, s.stats, s'.stats, e, reply)
  {
  }

  lemma PacketAccounts(g: Global, s: State, e: Event)
    requires e.input.Packet? && !IsRequest(e) && !IsDiscover(e) && !e.input.msg.BootRequest?
    ensures var (s', reply) := Step(g, s, e);
      Accounts(g, s.stats, s'.stats, e, reply)
  {
  }

  lemma CallAccounts(g: Global, s: State, e: Event)
    requires !e.input.Packet?
    ensures var (s', reply) := Step(g, s, e);
      Accounts(g, s.stats, s'.stats, e, reply)
  {
  }

  /** One event moves exactly the counters of its message and of its reply, and is answered in kind. */
  lemma {:induction false} StepAccounts(g: Global, s: State, e: Event)
    ensures var (s', reply) := Step(g, s, e);
      Accounts(g, s.stats, s'.stats, e, reply)
  {
    if !e.input.Packet? {
      CallAccounts(g, s, e);
    } else if e.input.msg.BootRequest? {
      BootPAccounts(g, s, e);
    } else if IsRequest(e)
      && !IsForAnotherServer(g, e) && RequestedAddress(e.input.msg.requested, e.input.msg.ciaddr).Some? {
      RequestAccounts(g, s, e);
    } else if IsRequest(e) {
      RefusedAccounts(g, s, e);
    } else if IsDiscover(e) {
      DiscoverAccounts(g, s, e);
    } else {
      PacketAccounts(g, s, e);
    }
  }

  /** Over every run the counters of received messages count exactly the messages of their kind. */
  lemma {:induction false} EveryMessageIsCounted(g: Global, s: State, events: seq<Event>)
    ensures var t, t' := s.stats, Run(g, s, events).stats;
      && t'.discover - t.discover == Count(events, e => IsDiscover(e))
      && t'.request - t.request == Count(events, e => IsRequest(e))
      && t'.release - t.release == Count(events, e => IsRelease(e))
      && t'.inform - t.inform == Count(events, e => IsInform(e))
      && t'.decline - t.decline == Count(events, e => IsDecline(e))
    decreases |events|
  {
    if events != [] {
      StepAccounts(g, s, events[0]);
      EveryMessageIsCounted(g, Step(g, s, events[0]).0, events[1..]);
    }
  }

  /**
   Over every run the counters of replies count exactly the replies of their kind, and every
   reply or dropped packet is counted once as sent or as an error.
   */
  lemma {:induction false} EveryReplyIsCounted(g: Global, s: State, events: seq<Event>)
    ensures var t, t' := s.stats, Run(g, s, events).stats;
      var replies := Replies(g, s, events);
      && t'.offer - t.offer == CountReplies(replies, (r: Reply) => r.Offer?)
      && t'.ack - t.ack == CountReplies(replies, (r: Reply) => r.Ack?)
      && t'.nak - t.nak == CountReplies(replies, (r: Reply) => r.Nak?)
      && t'.bootReply - t.bootReply == CountReplies(replies, (r: Reply) => r.BootReply?)
      && (t'.packetsSent + t'.errors) - (t.packetsSent + t.errors)
           == CountReplies(replies, (r: Reply) => !r.NoReply?) + Count(events, e => IsUnparseable(e))
    decreases |events|
  {
    if events != [] {
      StepAccounts(g, s, events[0]);
      EveryReplyIsCounted(g, Step(g, s, events[0]).0, events[1..]);
    }
  }

  /**
   Over every run each REQUEST meant for this server draws exactly one ACK or NAK, so these
   and the REQUESTs for another server add up to all REQUESTs received; OFFERs do not
   outnumber DISCOVERs, nor BOOTREPLYs BOOTREQUESTs.
   */
  lemma {:induction false} EveryRequestIsAnswered(g: Global, s: State, events: seq<Event>)
    ensures var replies := Replies(g, s, events);
      && CountReplies(replies, (r: Reply) => r.Ack?) + CountReplies(replies, (r: Reply) => r.Nak?)
           + Count(events, e => IsForAnotherServer(g, e)) == Count(events, e => IsRequest(e))
      && CountReplies(replies, (r: Reply) => r.Offer?) <= Count(events, e => IsDiscover(e))
      && CountReplies(replies, (r: Reply) => r.BootReply?)
           <= Count(events, (e: Event) => e.input.Packet? && e.input.msg.BootRequest?)
    ensures forall i | 0 <= i < |events| :: AnswersInKind(g, events[i], Replies(g, s, events)[i])
    decreases |events|
  {
    if events != [] {
      StepAccounts(g, s, events[0]);
      EveryRequestIsAnswered(g, Step(g, s, events[0]).0, events[1..]);
    }
  }

  /** Each ACK of a run comes with an active row for that client and address, ending a term from now. */
  lemma EveryAckIsRecorded(g: Global, s: State, e: Event)
    requires Step(g, s, e).1.Ack?
    ensures e.input.Packet? && e.input.msg.Request?
    ensures var (s', reply) := Step(g, s, e);
      && !ForAnotherServer(g, e.input.msg)
      && RequestedAddress(e.input.msg.requested, e.input.msg.ciaddr) == Some(reply.ip)
      && FindSubnetForIP(g, s.subnets, reply.ip) == Some(reply.subnet)
      && reply.ip in s'.leases
      && HeldBy(s'.leases[reply.ip], NormalizeMAC(e.input.msg.mac))
      && s'.leases[reply.ip].start == e.now && s'.leases[reply.ip].end == e.now + g.Term()
      && s'.leases[reply.ip].hostname == e.input.msg.hostname
      && (s'.leases[reply.ip].isStatic <==>
            if reply.ip in s.leases then s.leases[reply.ip].isStatic
            else exists h | h in s.statics :: NormalizeMAC(h.macAddress) == NormalizeMAC(e.input.msg.mac))
      && (forall ip | ip in s.leases && ip != reply.ip :: ip in s'.leases && s'.leases[ip] == s.leases[ip])
      && Justified(g, s, e.now, Write(NormalizeMAC(e.input.msg.mac), reply.ip))
  {
    var _ := WriteEffect(g, s, e);
  }
}
