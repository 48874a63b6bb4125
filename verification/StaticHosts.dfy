/**
 The life of a static host (internal/api/api.go over the sqlite3-config plugin): every
 handler writes the configuration, refreshes the allocator's cache and then brings the lease
 table in step. After each handler the active rows are the configured pairs, exactly when no
 accepted request used an unusual spelling of its MAC address or an address another host has.
 */
module StaticHosts {
  import opened Wrappers
  import opened Config
  import opened LeaseTable
  import opened Messages
  import Migration
  import ServerModel

  /** The library calls and the clock-free parameters of a handler. */
  datatype Net = Net(resolve: Text -> Option<IPv4>, parseMAC: Text -> Option<seq<byte>>)
  {
    /** net.ParseMAC reads back the string form of a hardware address. */
    ghost predicate Lawful() {
      forall hw: seq<byte> | |hw| == 6 :: parseMAC(MACAddressString(hw)) == Some(hw)
    }

    /** A spelling that validation leaves alone. */
    predicate Canonical(mac: Text) {
      match parseMAC(mac)
      case Some(hw) => MACAddressString(hw) == mac
      case None => false
    }
  }

  datatype Site = Site(hosts: map<Text, StaticHost>, leases: Table, nextId: nat)

  datatype Request =
    | Add(host: StaticHost)
    | Update(mac: Text, host: StaticHost)
    | Delete(mac: Text)

  /** The host as the handler sees it; an update takes its MAC address from the path. */
  function Named(op: Request): StaticHost
    requires !op.Delete?
  {
    match op
    case Add(host) => host.(macAddress := NormalizeMAC(host.macAddress))
    case Update(mac, host) => host.(macAddress := NormalizeMAC(mac))
  }

  /** What the plugin makes of the request: the new configuration, or a refusal. */
  function Configure(net: Net, hosts: map<Text, StaticHost>, op: Request): Option<map<Text, StaticHost>> {
    match op
    case Delete(mac) =>
      var key := NormalizeMAC(mac);
      if key != [] && key in hosts then Some(hosts - {key}) else None
    case _ =>
      match Migration.ValidateStaticHost(net.parseMAC, Named(op))
      case None => None
      case Some(h) => if (h.macAddress in hosts) == op.Update? then Some(hosts[h.macAddress := h]) else None
  }

  /** The spelling under which the plugin keeps a MAC address, if it takes it at all. */
  function KeyOf(net: Net, mac: Text): Option<Text> {
    match net.parseMAC(mac)
    case Some(hw) => if |hw| == 6 then Some(MACAddressString(hw)) else None
    case None => None
  }

  /**
   Which requests are accepted, and what they configure: an add a host that is not there, an
   update the host named in the path, whatever MAC address its body has, a delete a host that is.
   */
  lemma ConfigureExactly(net: Net, hosts: map<Text, StaticHost>, mac: Text, body: StaticHost)
    ensures var key := KeyOf(net, NormalizeMAC(body.macAddress));
      Configure(net, hosts, Add(body)) ==
        if body.macAddress != [] && key.Some? && body.ipAddress != [] && key.value !in hosts
        then Some(hosts[key.value := StaticHost(key.value, body.ipAddress, body.hostname)]) else None
    ensures var key := KeyOf(net, NormalizeMAC(mac));
      Configure(net, hosts, Update(mac, body)) ==
        if mac != [] && key.Some? && body.ipAddress != [] && key.value in hosts
        then Some(hosts[key.value := StaticHost(key.value, body.ipAddress, body.hostname)]) else None
    ensures Configure(net, hosts, Delete(mac)) ==
      if mac != [] && NormalizeMAC(mac) in hosts then Some(hosts - {NormalizeMAC(mac)}) else None
  {
  }

  /** SeedStaticLease under the handler's own spelling. */
  function Seed(net: Net, site: Site, host: StaticHost, now: int): Site {
    match net.resolve(host.ipAddress)
    case None => site
    case Some(ip) =>
      site.(leases := Upsert(site.leases, site.nextId, host.macAddress, ip, host.hostname,
                             now, now + STATIC_TERM, true),
            nextId := NextId(site.leases, site.nextId, ip))
  }

  ghost function Revoke(site: Site, mac: Text, now: int): Site {
    site.(leases := EndLatest(site.leases, mac, now))
  }

  /** One request: a refusal by the plugin ends it before anything has changed. */
  ghost function Handle(net: Net, site: Site, op: Request, now: int): (Site, bool) {
    match Configure(net, site.hosts, op)
    case None => (site, false)
    case Some(hosts) =>
      var written := site.(hosts := hosts);
      match op
      case Add(_) => (Seed(net, written, Named(op), now), true)
      case Update(_, _) => (Seed(net, Revoke(written, Named(op).macAddress, now), Named(op), now), true)
      case Delete(mac) => (Revoke(written, NormalizeMAC(mac), now), true)
  }

  // ---- The mirror ------------------------------------------------------------------

  predicate HasAddress(net: Net, hosts: map<Text, StaticHost>, mac: Text, ip: IPv4) {
    mac in hosts && net.resolve(hosts[mac].ipAddress) == Some(ip)
  }

  /** The active rows of the table are exactly the configured pairs. */
  ghost predicate Mirror(net: Net, site: Site) {
    forall mac, ip :: HasAddress(net, site.hosts, mac, ip) <==> ip in site.leases && HeldBy(site.leases[ip], mac)
  }

  /** What every handler keeps: a well-formed table, and hosts stored under canonical keys. */
  ghost predicate Sound(net: Net, site: Site) {
    && WellFormed(site.leases, site.nextId)
    && (forall mac | mac in site.hosts :: net.Canonical(mac) && site.hosts[mac].macAddress == mac)
  }

  /** Another host already has the address. */
  ghost predicate Taken(net: Net, hosts: map<Text, StaticHost>, mac: Text, address: Text) {
    && net.resolve(address).Some?
    && exists other | other in hosts && other != mac :: net.resolve(hosts[other].ipAddress) == net.resolve(address)
  }

  /**
   What the administrator has to see to: a canonical spelling and an address of one's own. A
   request that seeds nothing and leaves nothing to revoke may be spelled in any way.
   */
  ghost predicate Fits(net: Net, site: Site, op: Request) {
    Configure(net, site.hosts, op).Some? && !op.Delete? ==>
      var h := Named(op);
      var key := Migration.ValidateStaticHost(net.parseMAC, h).value.macAddress;
      if h.macAddress == key then !Taken(net, site.hosts, key, h.ipAddress)
      else
        && net.resolve(h.ipAddress).None?
        && (op.Update? ==> net.resolve(site.hosts[key].ipAddress).None?)
  }

  lemma KeyIsCanonical(net: Net, op: Request)
    requires net.Lawful() && !op.Delete? && Migration.ValidateStaticHost(net.parseMAC, Named(op)).Some?
    ensures var key := Migration.ValidateStaticHost(net.parseMAC, Named(op)).value.macAddress;
      net.Canonical(key) && (net.Canonical(Named(op).macAddress) <==> key == Named(op).macAddress)
  {
  }

  lemma NamedIsNormalized(op: Request)
    requires !op.Delete?
    ensures Normalized(Named(op).macAddress)
  {
    NormalizeMACIsIdempotent(if op.Add? then op.host.macAddress else op.mac);
  }

  lemma SeedKeeps(net: Net, site: Site, h: StaticHost, now: int)
    requires WellFormed(site.leases, site.nextId) && Normalized(h.macAddress)
    ensures var after := Seed(net, site, h, now);
      && WellFormed(after.leases, after.nextId) && after.hosts == site.hosts
      && Conserves(site.leases, after.leases)
  {
    var ip := net.resolve(h.ipAddress);
    if ip.Some? {
      UpsertKeeps(site.leases, site.nextId, h.macAddress, ip.value, h.hostname, now, now + STATIC_TERM, true);
    }
  }

  lemma HandleKeepsTable(net: Net, site: Site, op: Request, now: int)
    requires WellFormed(site.leases, site.nextId)
    ensures var (after, ok) := Handle(net, site, op, now);
      && WellFormed(after.leases, after.nextId) && Conserves(site.leases, after.leases)
      && after.hosts == (if ok then Configure(net, site.hosts, op).value else site.hosts)
  {
    var hosts := Configure(net, site.hosts, op);
    if hosts.Some? {
      var written := site.(hosts := hosts.value);
      match op
      case Delete(mac) => EndLatestKeeps(site.leases, site.nextId, NormalizeMAC(mac), now);
      case Add(_) =>
        NamedIsNormalized(op);
        SeedKeeps(net, written, Named(op), now);
      case Update(_, _) =>
        NamedIsNormalized(op);
        EndLatestKeeps(site.leases, site.nextId, Named(op).macAddress, now);
        SeedKeeps(net, Revoke(written, Named(op).macAddress, now), Named(op), now);
    }
  }

  /** Every handler keeps the table well formed and its rows; a refused request changes nothing at all. */
  lemma HandleKeepsSound(net: Net, site: Site, op: Request, now: int)
    requires net.Lawful() && Sound(net, site)
    ensures Sound(net, Handle(net, site, op, now).0)
    ensures Conserves(site.leases, Handle(net, site, op, now).0.leases)
    ensures !Handle(net, site, op, now).1 ==> Handle(net, site, op, now).0 == site
  {
    HandleKeepsTable(net, site, op, now);
    if !op.Delete? && Configure(net, site.hosts, op).Some? {
      KeyIsCanonical(net, op);
    }
  }

  // ---- Revoking --------------------------------------------------------------------

  /** A host that has one active row at most has none once it is revoked. */
  lemma RevokedRows(t: Table, mac: Text, now: int)
    requires UniqueIds(t)
    requires forall a, b | a in t && b in t && HeldBy(t[a], mac) && HeldBy(t[b], mac) :: a == b
    ensures forall ip | ip in t :: ip in EndLatest(t, mac, now)
    ensures forall ip, m | ip in EndLatest(t, mac, now) ::
      HeldBy(EndLatest(t, mac, now)[ip], m) <==> ip in t && HeldBy(t[ip], m) && m != mac
  {
    forall ip | ip in t && HeldBy(t[ip], mac)
      ensures GetLeaseByMAC(t, mac) == Some(ip)
    {
      LatestExists(t, mac, ip);
    }
  }

  lemma MirrorHoldsOneRow(net: Net, site: Site, mac: Text)
    requires Mirror(net, site)
    ensures forall a, b | a in site.leases && b in site.leases
      && HeldBy(site.leases[a], mac) && HeldBy(site.leases[b], mac) :: a == b
  {
    forall a, b | a in site.leases && b in site.leases && HeldBy(site.leases[a], mac) && HeldBy(site.leases[b], mac)
      ensures a == b
    {
      assert HasAddress(net, site.hosts, mac, a) && HasAddress(net, site.hosts, mac, b);
    }
  }

  // ---- One handler at a time -------------------------------------------------------

  /** The client has an active row at the address. */
  predicate Holds(t: Table, mac: Text, ip: IPv4) {
    ip in t && HeldBy(t[ip], mac)
  }

  /** Removing a host and revoking its lease keeps the others in step. */
  lemma RevokeMirrors(net: Net, site: Site, mac: Text, now: int)
    requires Sound(net, site) && Mirror(net, site)
    ensures Mirror(net, Revoke(site.(hosts := site.hosts - {mac}), mac, now))
  {
    MirrorHoldsOneRow(net, site, mac);
    RevokedRows(site.leases, mac, now);
    var after := Revoke(site.(hosts := site.hosts - {mac}), mac, now);
    forall m, a
      ensures HasAddress(net, after.hosts, m, a) <==> a in after.leases && HeldBy(after.leases[a], m)
    {
      assert HasAddress(net, after.hosts, m, a) <==> HasAddress(net, site.hosts, m, a) && m != mac;
    }
  }

  /**
   A table in step with the hosts but for one, seeded with that host: it is in step with all of
   them exactly when the row carries the host's key and no other host has the address.
   */
  lemma SeedMirrors(net: Net, others: map<Text, StaticHost>, site: Site, key: Text, h: StaticHost, now: int)
    requires key !in others && site.hosts == others[key := h.(macAddress := key)]
    requires Mirror(net, site.(hosts := others))
    requires net.resolve(h.ipAddress).Some?
    ensures Mirror(net, Seed(net, site, h, now)) <==> h.macAddress == key && !Taken(net, others, key, h.ipAddress)
  {
    var ip := net.resolve(h.ipAddress).value;
    var after := Seed(net, site, h, now);
    assert Holds(after.leases, h.macAddress, ip);
    assert HasAddress(net, site.hosts, key, ip);
    if h.macAddress == key && !Taken(net, others, key, h.ipAddress) {
      forall m, a
        ensures HasAddress(net, after.hosts, m, a) <==> a in after.leases && HeldBy(after.leases[a], m)
      {
        if a == ip {
          assert m != key && m in others ==> net.resolve(others[m].ipAddress) != Some(ip);
        } else {
          assert HasAddress(net, others, m, a) <==> Holds(site.leases, m, a);
        }
      }
    } else if h.macAddress == key {
      var other :| other in others && other != key && net.resolve(others[other].ipAddress) == Some(ip);
      assert HasAddress(net, after.hosts, other, ip) && !HeldBy(after.leases[ip], other);
    } else {
      assert HasAddress(net, after.hosts, key, ip) && !HeldBy(after.leases[ip], key);
    }
  }

  lemma AddMirrorsIff(net: Net, site: Site, op: Request, now: int)
    requires net.Lawful() && Sound(net, site) && Mirror(net, site)
    requires op.Add? && Configure(net, site.hosts, op).Some?
    ensures Mirror(net, Handle(net, site, op, now).0) <==> Fits(net, site, op)
  {
    var h := Named(op);
    var hosts := Configure(net, site.hosts, op).value;
    var key := Migration.ValidateStaticHost(net.parseMAC, h).value.macAddress;
    if net.resolve(h.ipAddress).Some? {
      SeedMirrors(net, site.hosts, site.(hosts := hosts), key, h, now);
    } else {
      forall m, a
        ensures HasAddress(net, hosts, m, a) <==> HasAddress(net, site.hosts, m, a)
      {
      }
    }
  }

  /** An update spelled canonically first takes the host out of the table. */
  lemma CanonicalUpdateMirrorsIff(net: Net, site: Site, op: Request, now: int)
    requires net.Lawful() && Sound(net, site) && Mirror(net, site)
    requires op.Update? && Configure(net, site.hosts, op).Some?
    requires Migration.ValidateStaticHost(net.parseMAC, Named(op)).value.macAddress == Named(op).macAddress
    ensures Mirror(net, Handle(net, site, op, now).0) <==> Fits(net, site, op)
  {
    var h := Named(op);
    var key := h.macAddress;
    var others := site.hosts - {key};
    var hosts := Configure(net, site.hosts, op).value;
    assert hosts == others[key := h];
    RevokeMirrors(net, site, key, now);
    var revoked := Revoke(site.(hosts := hosts), key, now);
    assert revoked.(hosts := others) == Revoke(site.(hosts := others), key, now);
    if net.resolve(h.ipAddress).Some? {
      SeedMirrors(net, others, revoked, key, h, now);
      TakenByOthers(net, site.hosts, key, h.ipAddress);
    } else {
      forall m, a
        ensures HasAddress(net, hosts, m, a) <==> HasAddress(net, others, m, a)
      {
      }
    }
  }

  lemma NothingToRevoke(net: Net, site: Site, mac: Text)
    requires Mirror(net, site) && mac !in site.hosts
    ensures GetLeaseByMAC(site.leases, mac).None?
  {
    forall ip | ip in site.leases
      ensures !HeldBy(site.leases[ip], mac)
    {
      assert !HasAddress(net, site.hosts, mac, ip);
    }
  }

  /** A host's own entry does not count as taking its address. */
  lemma TakenByOthers(net: Net, hosts: map<Text, StaticHost>, mac: Text, address: Text)
    ensures Taken(net, hosts, mac, address) <==> Taken(net, hosts - {mac}, mac, address)
  {
    if Taken(net, hosts, mac, address) {
      var other :| other in hosts && other != mac && net.resolve(hosts[other].ipAddress) == net.resolve(address);
      assert other in hosts - {mac};
    }
  }

  /** Under any other spelling nothing is revoked, and whatever is seeded belongs to no host. */
  lemma OtherUpdateMirrorsIff(net: Net, site: Site, op: Request, now: int)
    requires net.Lawful() && Sound(net, site) && Mirror(net, site)
    requires op.Update? && Configure(net, site.hosts, op).Some?
    requires Migration.ValidateStaticHost(net.parseMAC, Named(op)).value.macAddress != Named(op).macAddress
    ensures Mirror(net, Handle(net, site, op, now).0) <==> Fits(net, site, op)
  {
    var h := Named(op);
    var key := Migration.ValidateStaticHost(net.parseMAC, h).value.macAddress;
    KeyIsCanonical(net, op);
    assert h.macAddress !in site.hosts;
    NothingToRevoke(net, site, h.macAddress);
    var hosts := Configure(net, site.hosts, op).value;
    var after := Handle(net, site, op, now).0;
    var address := net.resolve(h.ipAddress);
    if address.Some? {
      assert HasAddress(net, hosts, key, address.value) && !HeldBy(after.leases[address.value], key);
    } else {
      var previous := net.resolve(site.hosts[key].ipAddress);
      if previous.Some? {
        assert HasAddress(net, site.hosts, key, previous.value) && !HasAddress(net, hosts, key, previous.value);
      } else {
        forall m, a
          ensures HasAddress(net, hosts, m, a) <==> HasAddress(net, site.hosts, m, a)
        {
        }
      }
    }
  }

  /** A handler keeps the table in step with the configuration exactly when its request fits. */
  lemma HandlerMirrorsIff(net: Net, site: Site, op: Request, now: int)
    requires net.Lawful() && Sound(net, site) && Mirror(net, site)
    ensures Mirror(net, Handle(net, site, op, now).0) <==> Fits(net, site, op)
  {
    if Configure(net, site.hosts, op).Some? {
      match op
      case Delete(mac) => RevokeMirrors(net, site, NormalizeMAC(mac), now);
      case Add(_) => AddMirrorsIff(net, site, op, now);
      case Update(_, _) =>
        if Migration.ValidateStaticHost(net.parseMAC, Named(op)).value.macAddress == Named(op).macAddress {
          CanonicalUpdateMirrorsIff(net, site, op, now);
        } else {
          OtherUpdateMirrorsIff(net, site, op, now);
        }
    }
  }

  // ---- Runs ------------------------------------------------------------------------

  datatype Timed = Timed(op: Request, now: int)

  /** In step before the run and after each of its handlers. */
  ghost predicate AlwaysMirrors(net: Net, site: Site, run: seq<Timed>)
    decreases |run|
  {
    && Mirror(net, site)
    && (run != [] ==> AlwaysMirrors(net, Handle(net, site, run[0].op, run[0].now).0, run[1..]))
  }

  ghost predicate AlwaysFits(net: Net, site: Site, run: seq<Timed>)
    decreases |run|
  {
    run != [] ==>
      Fits(net, site, run[0].op) && AlwaysFits(net, Handle(net, site, run[0].op, run[0].now).0, run[1..])
  }

  /** Over whole runs: the active rows are the configured pairs after every handler iff every request fits. */
  lemma {:induction false} RunMirrorsIff(net: Net, site: Site, run: seq<Timed>)
    requires net.Lawful() && Sound(net, site) && Mirror(net, site)
    ensures AlwaysMirrors(net, site, run) <==> AlwaysFits(net, site, run)
    decreases |run|
  {
    if run != [] {
      var site' := Handle(net, site, run[0].op, run[0].now).0;
      HandlerMirrorsIff(net, site, run[0].op, run[0].now);
      HandleKeepsSound(net, site, run[0].op, run[0].now);
      if Mirror(net, site') {
        RunMirrorsIff(net, site', run[1..]);
      }
    }
  }

  /** An empty site is in step. */
  lemma EmptyMirrors(net: Net)
    ensures Sound(net, Site(map[], map[], 1)) && Mirror(net, Site(map[], map[], 1))
  {
    forall mac, ip
      ensures !HasAddress(net, map[], mac, ip)
    {
    }
  }

  /** No address shared by two hosts. */
  ghost predicate Exclusive(net: Net, hosts: map<Text, StaticHost>) {
    forall a, b, ip | HasAddress(net, hosts, a, ip) && HasAddress(net, hosts, b, ip) :: a == b
  }

  ghost predicate Disciplined(net: Net, site: Site, run: seq<Timed>)
    decreases |run|
  {
    && Exclusive(net, site.hosts)
    && (run != [] ==>
          && (run[0].op.Delete? || net.Canonical(Named(run[0].op).macAddress))
          && Disciplined(net, Handle(net, site, run[0].op, run[0].now).0, run[1..]))
  }

  lemma CanonicalAndExclusiveFits(net: Net, site: Site, op: Request)
    requires net.Lawful() && Sound(net, site)
    requires op.Delete? || net.Canonical(Named(op).macAddress)
    requires var hosts := Configure(net, site.hosts, op); hosts.Some? ==> Exclusive(net, hosts.value)
    ensures Fits(net, site, op)
  {
    if Configure(net, site.hosts, op).Some? && !op.Delete? {
      var h := Named(op);
      KeyIsCanonical(net, op);
      var hosts := Configure(net, site.hosts, op).value;
      if Taken(net, site.hosts, h.macAddress, h.ipAddress) {
        var other :| other in site.hosts && other != h.macAddress
          && net.resolve(site.hosts[other].ipAddress) == net.resolve(h.ipAddress);
        var ip := net.resolve(h.ipAddress).value;
        assert HasAddress(net, hosts, other, ip) && HasAddress(net, hosts, h.macAddress, ip);
      }
    }
  }

  /**
   With canonical MAC addresses and no address shared by two hosts, the active rows are exactly
   the configured pairs after every handler of every run from an empty site.
   */
  lemma DisciplinedRunsMirror(net: Net, run: seq<Timed>)
    requires net.Lawful() && Disciplined(net, Site(map[], map[], 1), run)
    ensures AlwaysMirrors(net, Site(map[], map[], 1), run)
  {
    EmptyMirrors(net);
    DisciplinedFits(net, Site(map[], map[], 1), run);
    RunMirrorsIff(net, Site(map[], map[], 1), run);
  }

  lemma {:induction false} DisciplinedFits(net: Net, site: Site, run: seq<Timed>)
    requires net.Lawful() && Sound(net, site) && Disciplined(net, site, run)
    ensures AlwaysFits(net, site, run)
    decreases |run|
  {
    if run != [] {
      CanonicalAndExclusiveFits(net, site, run[0].op);
      HandleKeepsSound(net, site, run[0].op, run[0].now);
      DisciplinedFits(net, Handle(net, site, run[0].op, run[0].now).0, run[1..]);
    }
  }

  /** The first host at an address keeps its configuration but loses its row to the second. */
  lemma SharedAddressBreaksMirror(net: Net, a: seq<byte>, b: seq<byte>, address: Text, now: int)
    requires net.Lawful() && |a| == 6 && |b| == 6 && a != b
    requires address != [] && net.resolve(address).Some?
    ensures !AlwaysMirrors(net, Site(map[], map[], 1),
              [Timed(Add(StaticHost(MACAddressString(a), address, [])), now),
               Timed(Add(StaticHost(MACAddressString(b), address, [])), now)])
  {
    var x := Add(StaticHost(MACAddressString(a), address, []));
    var y := Add(StaticHost(MACAddressString(b), address, []));
    var site := Site(map[], map[], 1);
    var site' := Handle(net, site, x, now).0;
    var run := [Timed(x, now), Timed(y, now)];
    EmptyMirrors(net);
    HostIsAccepted(net, site, x, a, now);
    HostIsAccepted(net, site', y, b, now);
    if MACAddressString(a) == MACAddressString(b) {
      MACAddressIsInjective(a, b);
    }
    assert MACAddressString(a) in site'.hosts && site'.hosts[MACAddressString(a)].ipAddress == address;
    assert Taken(net, site'.hosts, MACAddressString(b), address);
    assert !Fits(net, site', y);
    assert run[1..][0] == run[1];
    assert !AlwaysFits(net, site', run[1..]);
    RunMirrorsIff(net, site, run);
  }

  /** A new host in the canonical spelling is accepted and stored as it is. */
  lemma HostIsAccepted(net: Net, site: Site, op: Request, hw: seq<byte>, now: int)
    requires net.Lawful() && |hw| == 6 && op.Add? && op.host.macAddress == MACAddressString(hw)
    requires op.host.ipAddress != [] && MACAddressString(hw) !in site.hosts
    ensures Named(op) == op.host && Configure(net, site.hosts, op) == Some(site.hosts[MACAddressString(hw) := op.host])
    ensures Handle(net, site, op, now).0.hosts == site.hosts[MACAddressString(hw) := op.host]
  {
    MACAddressIsNormalized(hw);
    assert MACAddressString(hw) != [];
  }

  /** A host added under another spelling is configured under one name and seeded under another. */
  lemma OtherSpellingBreaksMirror(net: Net, host: StaticHost, now: int)
    requires net.Lawful() && host.ipAddress != [] && net.resolve(host.ipAddress).Some?
    requires var mac := NormalizeMAC(host.macAddress);
      mac != [] && net.parseMAC(mac).Some? && |net.parseMAC(mac).value| == 6 && !net.Canonical(mac)
    ensures !AlwaysMirrors(net, Site(map[], map[], 1), [Timed(Add(host), now)])
  {
    EmptyMirrors(net);
    assert !Fits(net, Site(map[], map[], 1), Add(host));
    RunMirrorsIff(net, Site(map[], map[], 1), [Timed(Add(host), now)]);
  }

  // ---- The handlers as events of the daemon ----------------------------------------

  /** What an accepted request makes the allocator do, after a refresh that may have failed. */
  function HandlerEvents(net: Net, hosts: map<Text, StaticHost>, op: Request,
                         refreshed: Option<(seq<SubnetConfig>, seq<StaticHost>)>, now: int): seq<ServerModel.Event>
  {
    if Configure(net, hosts, op).None? then []
    else
      var refresh := match refreshed
        case Some(r) => [ServerModel.Event(now, ServerModel.Refresh(r.0, r.1))]
        case None => [];
      match op
      case Add(_) => refresh + [ServerModel.Event(now, ServerModel.SeedStaticLease(Named(op)))]
      case Update(_, _) =>
        refresh + [ServerModel.Event(now, ServerModel.RevokeStaticLease(Named(op).macAddress)),
                   ServerModel.Event(now, ServerModel.SeedStaticLease(Named(op)))]
      case Delete(mac) => refresh + [ServerModel.Event(now, ServerModel.RevokeStaticLease(mac))]
  }

  /** A handler does to the lease table what these events of the state machine do, and nothing to the rest. */
  lemma HandlerIsRun(g: Global, net: Net, s: ServerModel.State, hosts: map<Text, StaticHost>, op: Request,
                     refreshed: Option<(seq<SubnetConfig>, seq<StaticHost>)>, now: int)
    requires net.resolve == g.resolve
    ensures var after := ServerModel.Run(g, s, HandlerEvents(net, hosts, op, refreshed, now));
      var site := Handle(net, Site(hosts, s.leases, s.nextId), op, now).0;
      after.leases == site.leases && after.nextId == site.nextId && after.deny == s.deny && after.stats == s.stats
  {
    var s1 := match refreshed case Some(r) => s.(subnets := r.0, statics := r.1, clock := now) case None => s;
    if Configure(net, hosts, op).Some? {
      var all := HandlerEvents(net, hosts, op, refreshed, now);
      var refresh := if refreshed.Some? then all[..1] else [];
      var rest := if refreshed.Some? then all[1..] else all;
      assert all == refresh + rest;
      ServerModel.RunAppend(g, s, refresh, rest);
      assert ServerModel.Run(g, s, refresh) == s1;
      HandlerRuns(g, net, s1, hosts, op, now, rest);
    }
  }

  lemma HandlerRuns(g: Global, net: Net, s: ServerModel.State, hosts: map<Text, StaticHost>, op: Request, now: int,
                    events: seq<ServerModel.Event>)
    requires net.resolve == g.resolve && Configure(net, hosts, op).Some?
    requires events == HandlerEvents(net, hosts, op, None, now)
    ensures var after := ServerModel.Run(g, s, events);
      var site := Handle(net, Site(hosts, s.leases, s.nextId), op, now).0;
      after.leases == site.leases && after.nextId == site.nextId && after.deny == s.deny && after.stats == s.stats
  {
    if !op.Delete? {
      NamedIsNormalized(op);
    }
    var s1 := ServerModel.Step(g, s, events[0]).0;
    if op.Update? {
      assert events[1..] == [events[1]] && events[1..][1..] == [];
      assert ServerModel.Run(g, s, events) == ServerModel.Run(g, s1, [events[1]]);
      assert [events[1]][1..] == [];
      assert ServerModel.Run(g, s1, [events[1]]) == ServerModel.Step(g, s1, events[1]).0;
    } else {
      assert events[1..] == [];
      assert ServerModel.Run(g, s, events) == s1;
    }
  }
}
