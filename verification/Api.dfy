/**
 The static-host handlers of internal/api/api.go over the objects they change: the store
 behind the configuration plugin, the allocator's cache and the lease table. Each is proved
 against the request it stands for in StaticHosts.
 */
module Api {
  import opened Wrappers
  import opened Config
  import opened Allocator
  import opened StaticHosts
  import Migration
  import Store

  /** The plugin's answers to a refresh, each of which may be an error. */
  datatype Refreshed = Refreshed(subnets: Option<seq<SubnetConfig>>, statics: Option<seq<StaticHost>>)

  class API {
    const alloc: Allocator
    const store: Store.Store
    const parseMAC: Text -> Option<seq<byte>>

    ghost predicate Valid()
      reads alloc, alloc.db
    {
      alloc.Valid()
    }

    function Net(): Net {
      StaticHosts.Net(alloc.global.resolve, parseMAC)
    }

    ghost function Site(): Site
      reads store, alloc, alloc.db
      requires Valid()
    {
      StaticHosts.Site(Store.HostView(store.hosts), alloc.db.Leases(), alloc.db.nextLeaseId)
    }

    constructor (alloc: Allocator, store: Store.Store, parseMAC: Text -> Option<seq<byte>>)
      requires alloc.Valid()
      ensures Valid() && this.alloc == alloc && this.store == store && this.parseMAC == parseMAC
    {
      this.alloc, this.store, this.parseMAC := alloc, store, parseMAC;
    }

    /** The plugin decodes and validates a host before it writes it. */
    method PluginWrite(host: StaticHost, update: bool) returns (ok: bool)
      modifies store`hosts
      ensures var op := if update then Update(host.macAddress, host) else Add(host);
        match Configure(Net(), Store.HostView(old(store.hosts)), op)
        case Some(hosts) => ok && Store.HostView(store.hosts) == hosts
        case None => !ok && store.hosts == old(store.hosts)
    {
      var decoded := Migration.ValidateStaticHost(parseMAC, host.(macAddress := NormalizeMAC(host.macAddress)));
      if decoded.None? {
        return false;
      }
      Migration.HostKeyIsCanonical(parseMAC, host.(macAddress := NormalizeMAC(host.macAddress)));
      if update {
        ok := store.UpdateStaticHost(decoded.value);
      } else {
        ok := store.InsertStaticHost(decoded.value);
      }
    }

    /** refreshAllocator: a failed refresh is only logged. */
    method RefreshAllocator(refreshed: Refreshed)
      requires Valid()
      modifies alloc`subnets, alloc`statics
      ensures Valid()
      ensures (alloc.subnets, alloc.statics) ==
        if refreshed.subnets.Some? && refreshed.statics.Some? then (refreshed.subnets.value, refreshed.statics.value)
        else (old(alloc.subnets), old(alloc.statics))
    {
      var _ := alloc.Refresh(refreshed.subnets, refreshed.statics);
    }

    /** addStaticHostHandler: write, refresh, seed. */
    method AddStaticHost(body: StaticHost, refreshed: Refreshed, now: int) returns (ok: bool)
      requires Valid()
      modifies store`hosts, alloc`subnets, alloc`statics, alloc.db`leases, alloc.db`nextLeaseId
      ensures Valid() && (Site(), ok) == Handle(Net(), old(Site()), Add(body), now)
      ensures !ok ==> (alloc.subnets, alloc.statics) == old((alloc.subnets, alloc.statics))
    {
      var host := body.(macAddress := NormalizeMAC(body.macAddress));
      NormalizeMACIsIdempotent(body.macAddress);
      ok := PluginWrite(host, false);
      if !ok {
        return;
      }
      RefreshAllocator(refreshed);
      var _ := alloc.SeedStaticLease(host, now);
    }

    /** updateStaticHostHandler: write, refresh, revoke the old lease, seed the new one. */
    method UpdateStaticHost(mac: Text, body: StaticHost, refreshed: Refreshed, now: int) returns (ok: bool)
      requires Valid()
      modifies store`hosts, alloc`subnets, alloc`statics, alloc.db`leases, alloc.db`nextLeaseId
      ensures Valid() && (Site(), ok) == Handle(Net(), old(Site()), Update(mac, body), now)
      ensures !ok ==> (alloc.subnets, alloc.statics) == old((alloc.subnets, alloc.statics))
    {
      var host := body.(macAddress := NormalizeMAC(mac));
      NormalizeMACIsIdempotent(mac);
      ok := PluginWrite(host, true);
      if !ok {
        return;
      }
      RefreshAllocator(refreshed);
      alloc.RevokeStaticLease(host.macAddress, now);
      var _ := alloc.SeedStaticLease(host, now);
    }

    /** deleteStaticHostHandler: write, refresh, revoke. */
    method DeleteStaticHost(macParam: Text, refreshed: Refreshed, now: int) returns (ok: bool)
      requires Valid()
      modifies store`hosts, alloc`subnets, alloc`statics, alloc.db`leases, alloc.db`nextLeaseId
      ensures Valid() && (Site(), ok) == Handle(Net(), old(Site()), Delete(macParam), now)
      ensures !ok ==> (alloc.subnets, alloc.statics) == old((alloc.subnets, alloc.statics))
    {
      var mac := NormalizeMAC(macParam);
      NormalizeMACIsIdempotent(macParam);
      if mac == [] {
        return false;
      }
      ok := store.DeleteStaticHost(mac);
      if !ok {
        return;
      }
      RefreshAllocator(refreshed);
      alloc.RevokeStaticLease(mac, now);
    }
  }
}
