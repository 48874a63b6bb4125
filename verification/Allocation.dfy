/**
 What the allocator decides (internal/allocator/allocator.go), as functions of the
 tables, the clock and the ping oracle. The class `Allocator.Allocator` runs the loops.
 */
module Allocation {
  import opened Wrappers
  import opened Config
  import opened LeaseTable

  /** The replies to ping of one step: (address, attempt) pairs that were answered. */
  type Pings = set<(IPv4, nat)>

  /** pingCheck fails only when every attempt is answered. */
  predicate AnswersPing(pings: Pings, retries: int, ip: IPv4) {
    forall i: nat | i < retries :: (ip, i) in pings
  }

  /** Everything one allocation reads, apart from the deny set it may extend. */
  datatype Probe = Probe(leases: Table, now: int, pings: Pings, retries: int, mac: Text)

  predicate Answers(p: Probe, ip: IPv4) {
    AnswersPing(p.pings, p.retries, ip)
  }

  /** isIPAvailable */
  predicate Available(p: Probe, deny: set<IPv4>, ip: IPv4) {
    && ip !in deny
    && (ip in p.leases ==> NormalizeMAC(p.leases[ip].mac) == p.mac || p.now > p.leases[ip].end)
  }

  /** An address a scan stops at. */
  predicate Free(p: Probe, deny: set<IPv4>, ip: IPv4) {
    Available(p, deny, ip) && !Answers(p, ip)
  }

  /** An address a scan puts on the deny list: available, but someone answers there. */
  predicate Squatter(p: Probe, deny: set<IPv4>, ip: IPv4) {
    Available(p, deny, ip) && Answers(p, ip)
  }

  function Squatters(p: Probe, deny: set<IPv4>, low: int, high: int): set<IPv4> {
    set ip: IPv4 | low <= ip < high && Squatter(p, deny, ip)
  }

  /** An address, if one was found, and the deny set afterwards. */
  datatype Outcome = Outcome(ip: Option<IPv4>, deny: set<IPv4>)

  /** Pinging one available address. */
  function TryAddress(p: Probe, deny: set<IPv4>, ip: IPv4): Outcome {
    if !Available(p, deny, ip) then Outcome(None, deny)
    else if Answers(p, ip) then Outcome(None, deny + {ip})
    else Outcome(Some(ip), deny)
  }

  /** The addresses from `low` to `high`, one by one. */
  function ScanRange(p: Probe, deny: set<IPv4>, low: IPv4, high: IPv4): Outcome
    decreases high - low
  {
    if low > high then Outcome(None, deny)
    else
      var first := TryAddress(p, deny, low);
      if first.ip.Some? || low == high then first
      else ScanRange(p, first.deny, low + 1, high)
  }

  /** A range that parses and is not reversed; any other one is skipped. */
  datatype Range = Range(low: IPv4, high: IPv4)

  function ParseRange(g: Global, r: DynamicRange): Option<Range> {
    match (g.parseIP(r.startAddress), g.parseIP(r.endAddress))
    case (Some(low), Some(high)) => if low <= high then Some(Range(low, high)) else None
    case _ => None
  }

  /**
   What the loop of findAvailableIPInRange visits: at 255.255.255.255 its cursor wraps, and
   a range that ends there goes on with the addresses from 0.0.0.0 up to where it began.
   */
  function Swept(r: Range): seq<Range> {
    if r.high == MAX_IPV4 && r.low > 0 then [r, Range(0, r.low - 1)] else [r]
  }

  function SweptRange(g: Global, r: DynamicRange): seq<Range> {
    match ParseRange(g, r)
    case Some(range) => Swept(range)
    case None => []
  }

  function ParsedRanges(g: Global, ranges: seq<DynamicRange>): seq<Range> {
    if ranges == [] then [] else SweptRange(g, ranges[0]) + ParsedRanges(g, ranges[1..])
  }

  /** The addresses of all subnets' dynamic ranges in the order AllocateIP walks them. */
  function Pool(g: Global, subnets: seq<SubnetConfig>): seq<Range> {
    if subnets == [] then [] else ParsedRanges(g, subnets[0].dynamicRanges) + Pool(g, subnets[1..])
  }

  /** The loop over the pool. */
  function ScanPool(p: Probe, deny: set<IPv4>, pool: seq<Range>): Outcome
    decreases |pool|
  {
    if pool == [] then Outcome(None, deny)
    else
      var first := ScanRange(p, deny, pool[0].low, pool[0].high);
      if first.ip.Some? then first else ScanPool(p, first.deny, pool[1..])
  }

  /** getStaticIP: the first host with this MAC whose address resolves. */
  function StaticIP(g: Global, statics: seq<StaticHost>, mac: Text): Option<IPv4> {
    if statics == [] then None
    else if NormalizeMAC(statics[0].macAddress) == NormalizeMAC(mac) && g.resolve(statics[0].ipAddress).Some? then
      g.resolve(statics[0].ipAddress)
    else
      StaticIP(g, statics[1..], mac)
  }

  /** The addresses configured for static hosts. */
  predicate Reserved(g: Global, statics: seq<StaticHost>, ip: IPv4) {
    exists i | 0 <= i < |statics| :: g.resolve(statics[i].ipAddress) == Some(ip)
  }

  /** Some client is given the address statically: getStaticIP returns it. */
  ghost predicate Assigned(g: Global, statics: seq<StaticHost>, ip: IPv4) {
    exists mac :: StaticIP(g, statics, mac) == Some(ip)
  }

  /** The lease AllocateIP hands out again. */
  ghost function LiveLease(p: Probe): Option<IPv4> {
    match GetLeaseByMAC(p.leases, p.mac)
    case Some(ip) => if p.now < p.leases[ip].end then Some(ip) else None
    case None => None
  }

  /** AllocateIP: static entry, live lease, requested address, then the pool. */
  ghost function AllocateIP(g: Global, subnets: seq<SubnetConfig>, statics: seq<StaticHost>,
                            p: Probe, deny: set<IPv4>, requested: Option<IPv4>): Outcome
  {
    var static_ := StaticIP(g, statics, p.mac);
    if static_.Some? then Outcome(static_, deny)
    else if LiveLease(p).Some? then Outcome(LiveLease(p), deny)
    else
      var asked :=
        if requested.Some? && requested.value != UNSPECIFIED then TryAddress(p, deny, requested.value)
        else Outcome(None, deny);
      if asked.ip.Some? then asked else ScanPool(p, asked.deny, Pool(g, subnets))
  }

  // ---- One range -------------------------------------------------------------------

  /** A deny set that grew during an allocation: only answering addresses were added. */
  ghost predicate GrewByAnswering(p: Probe, deny: set<IPv4>, deny': set<IPv4>) {
    deny <= deny' && forall ip | ip in deny' && ip !in deny :: Squatter(p, deny, ip)
  }

  /** Denying squatters neither frees nor takes away any address a scan could stop at. */
  lemma FreeIsStable(p: Probe, deny: set<IPv4>, deny': set<IPv4>)
    requires GrewByAnswering(p, deny, deny')
    ensures forall ip :: Free(p, deny', ip) == Free(p, deny, ip)
  {
  }

  /** The range scan returns the least free address and denies exactly the squatters before it. */
  lemma {:induction false} ScanRangeFindsLeast(p: Probe, deny: set<IPv4>, low: IPv4, high: IPv4)
    ensures var r := ScanRange(p, deny, low, high);
      match r.ip
      case Some(ip) =>
        && low <= ip <= high && Free(p, deny, ip)
        && (forall x: IPv4 | low <= x < ip :: !Free(p, deny, x))
        && r.deny == deny + Squatters(p, deny, low, ip)
      case None =>
        && (forall x: IPv4 | low <= x <= high :: !Available(p, r.deny, x) && !Free(p, deny, x))
        && r.deny == deny + Squatters(p, deny, low, high + 1)
    decreases high - low
  {
    if low <= high {
      var first := TryAddress(p, deny, low);
      if first.ip.None? && low < high {
        ScanRangeFindsLeast(p, first.deny, low + 1, high);
        assert GrewByAnswering(p, deny, first.deny);
        FreeIsStable(p, deny, first.deny);
        var r := ScanRange(p, deny, low, high);
        var top := if r.ip.Some? then r.ip.value else high + 1;
        assert first.deny + Squatters(p, first.deny, low + 1, top) == deny + Squatters(p, deny, low, top);
      } else if first.ip.None? {
        assert Squatters(p, deny, low, high + 1) == if Squatter(p, deny, low) then {low} else {};
      } else {
        assert Squatters(p, deny, low, low) == {};
      }
    } else {
      assert Squatters(p, deny, low, high + 1) == {};
    }
  }

  // ---- The uint32 cursor -----------------------------------------------------------

  /** `currentInt++` on a uint32: the largest value wraps to zero. */
  function NextCursor(current: IPv4): IPv4 {
    if current == MAX_IPV4 then 0 else current + 1
  }

  function CursorAfter(start: IPv4, steps: nat): IPv4 {
    if steps == 0 then start else NextCursor(CursorAfter(start, steps - 1))
  }

  lemma {:induction false} CursorCounts(start: IPv4, steps: nat)
    requires start + steps <= MAX_IPV4
    ensures CursorAfter(start, steps) == start + steps
  {
    if steps > 0 {
      CursorCounts(start, steps - 1);
    }
  }

  /**
   The cursor of a scan that finds nothing ever passes the end of its range exactly when
   that end is not 255.255.255.255: there the increment wraps to zero.
   */
  lemma ScanEndsIffBelowMaximum(start: IPv4, end: IPv4)
    requires start <= end
    ensures (exists steps: nat :: CursorAfter(start, steps) > end) <==> end < MAX_IPV4
  {
    if end < MAX_IPV4 {
      CursorCounts(start, end - start + 1);
      assert CursorAfter(start, end - start + 1) > end;
    }
  }

  lemma {:induction false} CursorGoesOn(start: IPv4, a: nat, b: nat)
    ensures CursorAfter(start, a + b) == CursorAfter(CursorAfter(start, a), b)
  {
    if b > 0 {
      CursorGoesOn(start, a, b - 1);
    }
  }

  /** The wrapping cursor comes by every address. */
  lemma CursorReaches(start: IPv4, ip: IPv4) returns (steps: nat)
    ensures CursorAfter(start, steps) == ip
  {
    if start <= ip {
      steps := ip - start;
      CursorCounts(start, steps);
    } else {
      var turns := MAX_IPV4 - start;
      CursorCounts(start, turns);
      assert CursorAfter(start, turns + 1) == 0;
      steps := turns + 1 + ip;
      CursorGoesOn(start, turns + 1, ip);
      CursorCounts(0, ip);
    }
  }

  /** The deny set after some turns of the cursor loop that found nothing. */
  function DenyAfter(p: Probe, deny: set<IPv4>, start: IPv4, turns: nat): set<IPv4> {
    if turns == 0 then deny
    else TryAddress(p, DenyAfter(p, deny, start, turns - 1), CursorAfter(start, turns - 1)).deny
  }

  /** The loop leaves its range, or finds an address, at this turn. */
  predicate StopsAt(p: Probe, deny: set<IPv4>, start: IPv4, end: IPv4, turn: nat) {
    || CursorAfter(start, turn) > end
    || TryAddress(p, DenyAfter(p, deny, start, turn), CursorAfter(start, turn)).ip.Some?
  }

  lemma {:induction false} DenyGrows(p: Probe, deny: set<IPv4>, start: IPv4, turns: nat)
    ensures GrewByAnswering(p, deny, DenyAfter(p, deny, start, turns))
  {
    if turns > 0 {
      DenyGrows(p, deny, start, turns - 1);
      FreeIsStable(p, deny, DenyAfter(p, deny, start, turns - 1));
    }
  }

  /** The cursor loop runs for ever exactly when its range ends at 255.255.255.255 and no address at all is free. */
  lemma ScanRunsForeverIff(p: Probe, deny: set<IPv4>, start: IPv4, end: IPv4)
    requires start <= end
    ensures (forall turn: nat :: !StopsAt(p, deny, start, end, turn)) <==>
      end == MAX_IPV4 && forall ip: IPv4 :: !Free(p, deny, ip)
  {
    if end < MAX_IPV4 {
      CursorCounts(start, end - start + 1);
      assert StopsAt(p, deny, start, end, end - start + 1);
    } else if ip: IPv4 :| Free(p, deny, ip) {
      var turn := CursorReaches(start, ip);
      DenyGrows(p, deny, start, turn);
      FreeIsStable(p, deny, DenyAfter(p, deny, start, turn));
      assert StopsAt(p, deny, start, end, turn);
    } else {
      forall turn: nat
        ensures !StopsAt(p, deny, start, end, turn)
      {
        DenyGrows(p, deny, start, turn);
        FreeIsStable(p, deny, DenyAfter(p, deny, start, turn));
        assert !Free(p, deny, CursorAfter(start, turn));
        assert !Free(p, DenyAfter(p, deny, start, turn), CursorAfter(start, turn));
      }
    }
  }

  /** A configuration without wrapping scans. */
  predicate ScansEnd(g: Global, subnets: seq<SubnetConfig>) {
    forall r | r in Pool(g, subnets) :: r.high < MAX_IPV4
  }

  /** A scan finds an address outside its range exactly when it wraps and only there is one free. */
  lemma ScanStaysInRangeIff(p: Probe, deny: set<IPv4>, r: Range)
    requires r.low <= r.high
    ensures var found := ScanPool(p, deny, Swept(r)).ip;
      (found.Some? && !InRange(r, found.value)) <==>
        && r.high == MAX_IPV4
        && (forall ip | InRange(r, ip) :: !Free(p, deny, ip))
        && (exists ip: IPv4 :: ip < r.low && Free(p, deny, ip))
  {
    var first := ScanRange(p, deny, r.low, r.high);
    ScanRangeFindsLeast(p, deny, r.low, r.high);
    if first.ip.None? && r.high == MAX_IPV4 && r.low > 0 {
      assert GrewByAnswering(p, deny, first.deny);
      FreeIsStable(p, deny, first.deny);
      ScanRangeFindsLeast(p, first.deny, 0, r.low - 1);
      var second := ScanRange(p, first.deny, 0, r.low - 1);
      assert Swept(r)[1..] == [Range(0, r.low - 1)];
      assert ScanPool(p, first.deny, [Range(0, r.low - 1)]).ip == second.ip;
      assert forall ip | InRange(r, ip) :: !Free(p, deny, ip);
    } else {
      assert first.ip.None? ==> Swept(r)[1..] == [];
    }
  }

  /** With a wrapping scan in the pool, allocation finds any free address there is, in whatever network. */
  lemma WrappingPoolIsEverything(g: Global, subnets: seq<SubnetConfig>, ip: IPv4)
    requires !ScansEnd(g, subnets)
    ensures exists r :: r in Pool(g, subnets) && InRange(r, ip)
  {
    var r :| r in Pool(g, subnets) && r.high == MAX_IPV4;
    if !InRange(r, ip) {
      WrappedPartner(g, subnets, r);
      assert InRange(Range(0, r.low - 1), ip);
    }
  }

  lemma {:induction false} WrappedPartner(g: Global, subnets: seq<SubnetConfig>, r: Range)
    requires r in Pool(g, subnets) && r.high == MAX_IPV4 && r.low > 0
    ensures Range(0, r.low - 1) in Pool(g, subnets)
  {
    if r in ParsedRanges(g, subnets[0].dynamicRanges) {
      WrappedPartnerInRanges(g, subnets[0].dynamicRanges, r);
    } else {
      WrappedPartner(g, subnets[1..], r);
    }
  }

  lemma {:induction false} WrappedPartnerInRanges(g: Global, ranges: seq<DynamicRange>, r: Range)
    requires r in ParsedRanges(g, ranges) && r.high == MAX_IPV4 && r.low > 0
    ensures Range(0, r.low - 1) in ParsedRanges(g, ranges)
  {
    if r in SweptRange(g, ranges[0]) {
      assert SweptRange(g, ranges[0])[1] == Range(0, r.low - 1);
    } else {
      WrappedPartnerInRanges(g, ranges[1..], r);
    }
  }

  // ---- The whole pool --------------------------------------------------------------

  ghost predicate InRange(r: Range, ip: IPv4) {
    r.low <= ip <= r.high
  }

  /** `ip` is met by the pool scan before address `stop` of range `k`. */
  ghost predicate Before(pool: seq<Range>, k: nat, stop: int, ip: IPv4) {
    || (exists j | 0 <= j < k && j < |pool| :: InRange(pool[j], ip))
    || (k < |pool| && pool[k].low <= ip < stop)
  }

  /**
   The pool scan is first-fit in (range, address) order: it stops at the first free
   address, or fails when no address of any range is free; it denies exactly the
   squatters it met on the way.
   */
  lemma {:induction false} ScanPoolIsFirstFit(p: Probe, deny: set<IPv4>, pool: seq<Range>)
    returns (k: nat, stop: int)
    ensures var r := ScanPool(p, deny, pool);
      && (r.ip.Some? ==> k < |pool| && InRange(pool[k], r.ip.value) && stop == r.ip.value && Free(p, deny, r.ip.value))
      && (r.ip.None? ==> k == |pool|)
      && (forall ip: IPv4 | Before(pool, k, stop, ip) :: !Free(p, deny, ip))
      && (forall ip: IPv4 :: ip in r.deny <==> ip in deny || (Before(pool, k, stop, ip) && Squatter(p, deny, ip)))
    decreases |pool|
  {
    if pool == [] {
      k, stop := 0, 0;
    } else {
      var first := ScanRange(p, deny, pool[0].low, pool[0].high);
      ScanRangeFindsLeast(p, deny, pool[0].low, pool[0].high);
      if first.ip.Some? {
        k, stop := 0, first.ip.value;
      } else {
        var k', stop' := ScanPoolIsFirstFit(p, first.deny, pool[1..]);
        k, stop := k' + 1, stop';
        FreeIsStable(p, deny, first.deny);
        forall ip: IPv4
          ensures Before(pool, k, stop, ip) <==> InRange(pool[0], ip) || Before(pool[1..], k', stop', ip)
        {
          BeforeStep(pool, k', stop', ip);
        }
      }
    }
  }

  lemma BeforeStep(pool: seq<Range>, k: nat, stop: int, ip: IPv4)
    requires pool != []
    ensures Before(pool, k + 1, stop, ip) <==> InRange(pool[0], ip) || Before(pool[1..], k, stop, ip)
  {
    if j :| 0 <= j < k + 1 && j < |pool| && InRange(pool[j], ip) {
      if j > 0 {
        assert InRange(pool[1..][j - 1], ip);
      }
    }
    if j :| 0 <= j < k && j < |pool[1..]| && InRange(pool[1..][j], ip) {
      assert InRange(pool[j + 1], ip);
    }
  }

  // ---- AllocateIP ------------------------------------------------------------------

  ghost predicate HasLiveRow(p: Probe) {
    exists ip | ip in p.leases :: p.leases[ip].mac == p.mac && Live(p.leases[ip], p.now)
  }

  ghost predicate Acceptable(p: Probe, deny: set<IPv4>, requested: Option<IPv4>) {
    requested.Some? && requested.value != UNSPECIFIED && Free(p, deny, requested.value)
  }

  ghost predicate PoolHasFree(p: Probe, deny: set<IPv4>, pool: seq<Range>) {
    exists k, ip: IPv4 | 0 <= k < |pool| && InRange(pool[k], ip) :: Free(p, deny, ip)
  }

  /** LiveLease finds a live row of the client whenever there is one, and none otherwise. */
  lemma LiveLeaseIsLive(p: Probe)
    ensures LiveLease(p).Some? <==> HasLiveRow(p)
    ensures LiveLease(p).Some? ==>
      var ip := LiveLease(p).value;
      ip in p.leases && p.leases[ip].mac == p.mac && Live(p.leases[ip], p.now)
  {
    if LiveLease(p).None? {
      NoLiveRow(p.leases, p.mac, p.now);
    }
  }

  lemma {:induction false} StaticIPIsReserved(g: Global, statics: seq<StaticHost>, mac: Text)
    ensures StaticIP(g, statics, mac).Some? ==> Reserved(g, statics, StaticIP(g, statics, mac).value)
  {
    if statics != [] && StaticIP(g, statics, mac).Some? {
      var ip := StaticIP(g, statics, mac).value;
      if g.resolve(statics[0].ipAddress) != Some(ip) {
        StaticIPIsReserved(g, statics[1..], mac);
        var i :| 0 <= i < |statics[1..]| && g.resolve(statics[1..][i].ipAddress) == Some(ip);
        assert g.resolve(statics[i + 1].ipAddress) == Some(ip);
      }
    }
  }

  /** A client's static address is one that is configured. */
  lemma AssignedIsReserved(g: Global, statics: seq<StaticHost>, ip: IPv4)
    ensures Assigned(g, statics, ip) ==> Reserved(g, statics, ip)
  {
    if mac :| StaticIP(g, statics, mac) == Some(ip) {
      StaticIPIsReserved(g, statics, mac);
    }
  }

  /** The deny set before the pool scan: the requested address may have been added. */
  function AskedDeny(p: Probe, deny: set<IPv4>, requested: Option<IPv4>): set<IPv4> {
    if requested.Some? && requested.value != UNSPECIFIED && Squatter(p, deny, requested.value) then
      deny + {requested.value}
    else
      deny
  }

  /**
   Allocation is complete: it fails exactly when there is no static entry, no live lease,
   no acceptable request, and no free address in any valid range.
   */
  lemma AllocationIsComplete(g: Global, subnets: seq<SubnetConfig>, statics: seq<StaticHost>,
                             p: Probe, deny: set<IPv4>, requested: Option<IPv4>)
    ensures AllocateIP(g, subnets, statics, p, deny, requested).ip.None? <==>
      && StaticIP(g, statics, p.mac).None?
      && !HasLiveRow(p)
      && !Acceptable(p, deny, requested)
      && !PoolHasFree(p, deny, Pool(g, subnets))
  {
    LiveLeaseIsLive(p);
    var pool := Pool(g, subnets);
    var asked := AskedDeny(p, deny, requested);
    FreeIsStable(p, deny, asked);
    var k, stop := ScanPoolIsFirstFit(p, asked, pool);
    if ScanPool(p, asked, pool).ip.None? {
      forall j, ip: IPv4 | 0 <= j < |pool| && InRange(pool[j], ip)
        ensures !Free(p, deny, ip)
      {
        assert Before(pool, k, stop, ip);
      }
    }
  }

  /** `ip` is the first free address of the pool, and it lies in range `k`. */
  ghost predicate FirstFit(p: Probe, deny: set<IPv4>, pool: seq<Range>, k: nat, ip: IPv4) {
    && k < |pool|
    && InRange(pool[k], ip)
    && Free(p, deny, ip)
    && forall other: IPv4 | Before(pool, k, ip, other) :: !Free(p, deny, other)
  }

  /**
   What a granted address is: a reserved one, the client's own live lease with the latest
   end, or, when the client has no live lease, a free one -- the requested address if that
   is free, else the first free address of the pool in (subnet, range, address) order.
   */
  lemma AllocationFollowsPriority(g: Global, subnets: seq<SubnetConfig>, statics: seq<StaticHost>,
                                  p: Probe, deny: set<IPv4>, requested: Option<IPv4>)
    requires AllocateIP(g, subnets, statics, p, deny, requested).ip.Some?
    ensures var r := AllocateIP(g, subnets, statics, p, deny, requested);
      var ip := r.ip.value;
      if StaticIP(g, statics, p.mac).Some? then
        Some(ip) == StaticIP(g, statics, p.mac) && Reserved(g, statics, ip) && r.deny == deny
      else if HasLiveRow(p) then
        Latest(p.leases, p.mac, ip) && Live(p.leases[ip], p.now) && r.deny == deny
      else if Acceptable(p, deny, requested) then
        Some(ip) == requested && r.deny == deny
      else
        exists k: nat :: FirstFit(p, deny, Pool(g, subnets), k, ip)
  {
    StaticIPIsReserved(g, statics, p.mac);
    LiveLeaseIsLive(p);
    var pool := Pool(g, subnets);
    var asked := AskedDeny(p, deny, requested);
    FreeIsStable(p, deny, asked);
    var k, stop := ScanPoolIsFirstFit(p, asked, pool);
    if StaticIP(g, statics, p.mac).None? && !HasLiveRow(p) && !Acceptable(p, deny, requested) {
      assert FirstFit(p, deny, pool, k, ScanPool(p, asked, pool).ip.value);
    }
  }

  /** An allocation only ever denies addresses that were available and answered a ping. */
  lemma AllocationDeniesSquatters(g: Global, subnets: seq<SubnetConfig>, statics: seq<StaticHost>,
                                  p: Probe, deny: set<IPv4>, requested: Option<IPv4>)
    ensures GrewByAnswering(p, deny, AllocateIP(g, subnets, statics, p, deny, requested).deny)
  {
    var asked := AskedDeny(p, deny, requested);
    var _, _ := ScanPoolIsFirstFit(p, asked, Pool(g, subnets));
  }

  /** The three ways an address reaches a client, as the run theorems need them. */
  lemma GrantCases(g: Global, subnets: seq<SubnetConfig>, statics: seq<StaticHost>,
                   p: Probe, deny: set<IPv4>, requested: Option<IPv4>)
    requires AllocateIP(g, subnets, statics, p, deny, requested).ip.Some?
    ensures var ip := AllocateIP(g, subnets, statics, p, deny, requested).ip.value;
      if StaticIP(g, statics, p.mac).Some? then
        Some(ip) == StaticIP(g, statics, p.mac) && Reserved(g, statics, ip)
      else if HasLiveRow(p) then
        ip in p.leases && p.leases[ip].mac == p.mac && Live(p.leases[ip], p.now)
      else
        Available(p, deny, ip)
  {
    AllocationFollowsPriority(g, subnets, statics, p, deny, requested);
  }

  /** An example: with no ranges at all, whatever free address is asked for is granted. */
  lemma RequestedAddressNeedsNoRange(g: Global, ip: IPv4)
    requires ip != UNSPECIFIED
    ensures AllocateIP(g, [], [], Probe(map[], 0, {}, 1, []), {}, Some(ip)).ip == Some(ip)
  {
    assert (ip, 0) !in Probe(map[], 0, {}, 1, []).pings;
  }

  /**
   A client without a static entry and a live lease is granted an address outside every
   range exactly when it asks for one: a requested address is checked against no range.
   */
  lemma GrantLeavesPoolIff(g: Global, subnets: seq<SubnetConfig>, statics: seq<StaticHost>,
                           p: Probe, deny: set<IPv4>, requested: Option<IPv4>)
    requires StaticIP(g, statics, p.mac).None? && !HasLiveRow(p)
    requires AllocateIP(g, subnets, statics, p, deny, requested).ip.Some?
    ensures var ip := AllocateIP(g, subnets, statics, p, deny, requested).ip.value;
      (forall r | r in Pool(g, subnets) :: !InRange(r, ip)) <==>
        Acceptable(p, deny, requested) && forall r | r in Pool(g, subnets) :: !InRange(r, requested.value)
  {
    AllocationFollowsPriority(g, subnets, statics, p, deny, requested);
    var pool := Pool(g, subnets);
    var ip := AllocateIP(g, subnets, statics, p, deny, requested).ip.value;
    if !Acceptable(p, deny, requested) {
      var k: nat :| FirstFit(p, deny, pool, k, ip);
      assert pool[k] in pool && InRange(pool[k], ip);
    }
  }

  // ---- Whether AllocateIP returns --------------------------------------------------

  function ConfiguredIn(g: Global, ranges: seq<DynamicRange>): seq<Range> {
    if ranges == [] then []
    else (match ParseRange(g, ranges[0]) case Some(r) => [r] case None => []) + ConfiguredIn(g, ranges[1..])
  }

  /** The valid ranges of all subnets, as they are configured. */
  function Configured(g: Global, subnets: seq<SubnetConfig>): seq<Range> {
    if subnets == [] then [] else ConfiguredIn(g, subnets[0].dynamicRanges) + Configured(g, subnets[1..])
  }

  function SweptAll(ranges: seq<Range>): seq<Range> {
    if ranges == [] then [] else Swept(ranges[0]) + SweptAll(ranges[1..])
  }

  lemma {:induction false} SweptAllAppend(a: seq<Range>, b: seq<Range>)
    ensures SweptAll(a + b) == SweptAll(a) + SweptAll(b)
  {
    if a == [] {
      assert a + b == b;
    } else {
      assert (a + b)[1..] == a[1..] + b;
      SweptAllAppend(a[1..], b);
    }
  }

  lemma {:induction false} ParsedIsSwept(g: Global, ranges: seq<DynamicRange>)
    ensures ParsedRanges(g, ranges) == SweptAll(ConfiguredIn(g, ranges))
    ensures forall r | r in ConfiguredIn(g, ranges) :: r.low <= r.high
  {
    if ranges != [] {
      ParsedIsSwept(g, ranges[1..]);
      match ParseRange(g, ranges[0])
      case Some(r) =>
        assert ([r] + ConfiguredIn(g, ranges[1..]))[1..] == ConfiguredIn(g, ranges[1..]);
      case None =>
        assert [] + ConfiguredIn(g, ranges[1..]) == ConfiguredIn(g, ranges[1..]);
        assert [] + ParsedRanges(g, ranges[1..]) == ParsedRanges(g, ranges[1..]);
    }
  }

  /** The pool is what the scans of the configured ranges visit. */
  lemma {:induction false} PoolIsSwept(g: Global, subnets: seq<SubnetConfig>)
    ensures Pool(g, subnets) == SweptAll(Configured(g, subnets))
    ensures forall r | r in Configured(g, subnets) :: r.low <= r.high
  {
    if subnets != [] {
      ParsedIsSwept(g, subnets[0].dynamicRanges);
      PoolIsSwept(g, subnets[1..]);
      SweptAllAppend(ConfiguredIn(g, subnets[0].dynamicRanges), Configured(g, subnets[1..]));
    }
  }

  lemma {:induction false} SweptEndsIff(ranges: seq<Range>)
    ensures (forall r | r in SweptAll(ranges) :: r.high < MAX_IPV4) <==>
      forall r | r in ranges :: r.high < MAX_IPV4
  {
    if ranges != [] {
      SweptEndsIff(ranges[1..]);
      assert ranges == [ranges[0]] + ranges[1..];
      assert ranges[0] == Swept(ranges[0])[0];
      forall r | r in SweptAll(ranges)
        ensures r in Swept(ranges[0]) || r in SweptAll(ranges[1..])
      {
      }
    }
  }

  /** The walk over the ranges returns: each scan it comes to stops at some turn. */
  ghost predicate WalkReturns(p: Probe, deny: set<IPv4>, ranges: seq<Range>)
    decreases |ranges|
  {
    ranges == [] ||
    (&& (exists turn: nat :: StopsAt(p, deny, ranges[0].low, ranges[0].high, turn))
     && var first := ScanPool(p, deny, Swept(ranges[0]));
        first.ip.Some? || WalkReturns(p, first.deny, ranges[1..]))
  }

  /** AllocateIP returns: it has an address before the scans, or the walk over the ranges returns. */
  ghost predicate Returns(g: Global, subnets: seq<SubnetConfig>, statics: seq<StaticHost>,
                          p: Probe, deny: set<IPv4>, requested: Option<IPv4>)
  {
    || StaticIP(g, statics, p.mac).Some?
    || LiveLease(p).Some?
    || Acceptable(p, deny, requested)
    || WalkReturns(p, AskedDeny(p, deny, requested), Configured(g, subnets))
  }

  /** A scan that wraps and finds nothing has shown that no address is free. */
  lemma WrappedScanSeesAll(p: Probe, deny: set<IPv4>, r: Range)
    requires r.low <= r.high == MAX_IPV4
    ensures ScanPool(p, deny, Swept(r)).ip.None? <==> forall ip: IPv4 :: !Free(p, deny, ip)
  {
    var k, stop := ScanPoolIsFirstFit(p, deny, Swept(r));
    if ScanPool(p, deny, Swept(r)).ip.None? {
      forall ip: IPv4
        ensures !Free(p, deny, ip)
      {
        assert InRange(Swept(r)[0], ip) || InRange(Swept(r)[1], ip);
        assert Before(Swept(r), k, stop, ip);
      }
    }
  }

  lemma {:induction false} WalkReturnsIff(p: Probe, deny: set<IPv4>, ranges: seq<Range>)
    requires forall r | r in ranges :: r.low <= r.high
    ensures WalkReturns(p, deny, ranges) <==>
      (forall r | r in ranges :: r.high < MAX_IPV4) || ScanPool(p, deny, SweptAll(ranges)).ip.Some?
    decreases |ranges|
  {
    if ranges != [] {
      var r, rest := ranges[0], ranges[1..];
      var first := ScanPool(p, deny, Swept(r));
      assert ranges == [r] + rest;
      ScanPoolAppend(p, deny, Swept(r), SweptAll(rest));
      ScanRunsForeverIff(p, deny, r.low, r.high);
      WalkReturnsIff(p, first.deny, rest);
      if r.high == MAX_IPV4 {
        WrappedScanSeesAll(p, deny, r);
        if first.ip.None? {
          WrappedScanIsLast(p, deny, r, SweptAll(rest));
        }
      }
    }
  }

  /** AllocateIP returns if and only if it has an address to return or no scan wraps. */
  lemma ReturnsIffFruitful(g: Global, subnets: seq<SubnetConfig>, statics: seq<StaticHost>,
                           p: Probe, deny: set<IPv4>, requested: Option<IPv4>)
    ensures Returns(g, subnets, statics, p, deny, requested) <==>
      ScansEnd(g, subnets) || AllocateIP(g, subnets, statics, p, deny, requested).ip.Some?
  {
    PoolIsSwept(g, subnets);
    SweptEndsIff(Configured(g, subnets));
    WalkReturnsIff(p, AskedDeny(p, deny, requested), Configured(g, subnets));
  }

  /** It fails to return exactly when some scan wraps, the client has nothing, and no address at all is free. */
  lemma ReturnsIff(g: Global, subnets: seq<SubnetConfig>, statics: seq<StaticHost>,
                   p: Probe, deny: set<IPv4>, requested: Option<IPv4>)
    ensures Returns(g, subnets, statics, p, deny, requested) <==>
      || ScansEnd(g, subnets)
      || StaticIP(g, statics, p.mac).Some?
      || HasLiveRow(p)
      || exists ip: IPv4 :: Free(p, deny, ip)
  {
    ReturnsIffFruitful(g, subnets, statics, p, deny, requested);
    AllocationIsComplete(g, subnets, statics, p, deny, requested);
    if !ScansEnd(g, subnets) {
      if ip: IPv4 :| Free(p, deny, ip) {
        WrappingPoolIsEverything(g, subnets, ip);
        var r :| r in Pool(g, subnets) && InRange(r, ip);
        var k :| 0 <= k < |Pool(g, subnets)| && Pool(g, subnets)[k] == r;
        assert PoolHasFree(p, deny, Pool(g, subnets));
      }
    }
  }

  // ---- Loop steps ------------------------------------------------------------------

  /** The pool seen from the middle of a subnet's list of ranges. */
  lemma ParsedRangesStep(g: Global, ranges: seq<DynamicRange>, j: nat)
    requires j < |ranges|
    ensures ParsedRanges(g, ranges[j..])
      == SweptRange(g, ranges[j]) + ParsedRanges(g, ranges[j + 1..])
  {
    assert ranges[j..][1..] == ranges[j + 1..];
  }

  lemma PoolStep(g: Global, subnets: seq<SubnetConfig>, i: nat)
    requires i < |subnets|
    ensures Pool(g, subnets[i..]) == ParsedRanges(g, subnets[i].dynamicRanges) + Pool(g, subnets[i + 1..])
  {
    assert subnets[i..][1..] == subnets[i + 1..];
  }

  /** One turn of the loop over a subnet's ranges. */
  lemma ScanPoolStep(g: Global, p: Probe, deny: set<IPv4>, ranges: seq<DynamicRange>, j: nat, later: seq<Range>)
    requires j < |ranges|
    ensures var rest := ParsedRanges(g, ranges[j + 1..]) + later;
      var first := ScanPool(p, deny, SweptRange(g, ranges[j]));
      ScanPool(p, deny, ParsedRanges(g, ranges[j..]) + later)
        == if first.ip.Some? then first else ScanPool(p, first.deny, rest)
  {
    ParsedRangesStep(g, ranges, j);
    var rest := ParsedRanges(g, ranges[j + 1..]) + later;
    assert ParsedRanges(g, ranges[j..]) + later == SweptRange(g, ranges[j]) + rest;
    ScanPoolAppend(p, deny, SweptRange(g, ranges[j]), rest);
  }

  lemma {:induction false} ScanPoolAppend(p: Probe, deny: set<IPv4>, pool: seq<Range>, rest: seq<Range>)
    ensures var first := ScanPool(p, deny, pool);
      ScanPool(p, deny, pool + rest) == if first.ip.Some? then first else ScanPool(p, first.deny, rest)
    decreases |pool|
  {
    if pool == [] {
      assert pool + rest == rest;
    } else {
      assert (pool + rest)[1..] == pool[1..] + rest;
      ScanPoolAppend(p, ScanRange(p, deny, pool[0].low, pool[0].high).deny, pool[1..], rest);
    }
  }

  /** A scan that wraps and finds nothing leaves no free address for any later range. */
  lemma WrappedScanIsLast(p: Probe, deny: set<IPv4>, r: Range, rest: seq<Range>)
    requires r.low <= r.high == MAX_IPV4 && ScanPool(p, deny, Swept(r)).ip.None?
    ensures ScanPool(p, ScanPool(p, deny, Swept(r)).deny, rest).ip.None?
  {
    var _, _ := ScanPoolIsFirstFit(p, deny, Swept(r));
    WrappedScanSeesAll(p, deny, r);
    var deny' := ScanPool(p, deny, Swept(r)).deny;
    assert GrewByAnswering(p, deny, deny');
    FreeIsStable(p, deny, deny');
    var _, _ := ScanPoolIsFirstFit(p, deny', rest);
  }

  /** When the walk over the pool returns, so does the scan of the next range. */
  lemma NextScanReturns(g: Global, p: Probe, deny: set<IPv4>, ranges: seq<DynamicRange>, j: nat, later: seq<Range>)
    requires j < |ranges|
    requires (forall range | range in ParsedRanges(g, ranges) :: range.high < MAX_IPV4)
      || ScanPool(p, deny, ParsedRanges(g, ranges[j..]) + later).ip.Some?
    ensures ScanPool(p, deny, SweptRange(g, ranges[j])).ip.Some?
      || forall range | range in SweptRange(g, ranges[j]) :: range.high < MAX_IPV4
  {
    ScanPoolStep(g, p, deny, ranges, j, later);
    if ParseRange(g, ranges[j]).Some? {
      var range := ParseRange(g, ranges[j]).value;
      RangeIsParsed(g, ranges, j);
      if range.high == MAX_IPV4 && ScanPool(p, deny, Swept(range)).ip.None? {
        WrappedScanIsLast(p, deny, range, ParsedRanges(g, ranges[j + 1..]) + later);
      }
    }
  }

  lemma {:induction false} RangeIsParsed(g: Global, ranges: seq<DynamicRange>, j: nat)
    requires j < |ranges|
    ensures forall range | range in SweptRange(g, ranges[j]) :: range in ParsedRanges(g, ranges)
  {
    if j > 0 {
      RangeIsParsed(g, ranges[1..], j - 1);
    }
  }

  /** One turn of the cursor loop, with the ranges still to be swept. */
  lemma SweepStep(p: Probe, deny: set<IPv4>, low: IPv4, high: IPv4, later: seq<Range>)
    requires low <= high
    ensures var first := TryAddress(p, deny, low);
      ScanPool(p, deny, [Range(low, high)] + later)
        == if first.ip.Some? then first
           else ScanPool(p, first.deny, (if low < high then [Range(low + 1, high)] else []) + later)
  {
    assert ([Range(low, high)] + later)[1..] == later;
    if low < high {
      assert ([Range(low + 1, high)] + later)[1..] == later;
    } else {
      assert [] + later == later;
    }
  }

  /** A wrapping range among a subnet's ranges makes the whole pool wrap. */
  lemma {:induction false} RangeIsInPool(g: Global, subnets: seq<SubnetConfig>, i: nat, r: Range)
    requires i < |subnets| && r in ParsedRanges(g, subnets[i].dynamicRanges)
    ensures r in Pool(g, subnets)
  {
    if i > 0 {
      RangeIsInPool(g, subnets[1..], i - 1, r);
    }
  }
}
