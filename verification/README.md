# Verified model of go-dhcpd

go-dhcpd is a DHCPv4 and BOOTP server with an SQLite lease database, a configuration plugin
and an HTTP API. This project models the parts of it that decide who gets which address, what
goes over the wire, and what the configuration store holds, and proves what those parts
promise.

`dafny verify dfyconfig.toml` checks everything.

## How it is organised

Each stateful component of the program is a class whose methods change its fields the way the
Go code does. Each method is proved against a function on values, and the theorems are lemmas
about those functions and about whole runs of them.

| part | values and theorems | objects |
|---|---|---|
| lease and deny tables | `LeaseTable` | `Database` |
| allocation | `Allocation`, `AddressPool` | `Allocator` |
| server state machine | `ServerModel`, `StepEffects`, `Invariants`, `Guarantees`, `StaticAddresses`, `LazyExpiry`, `LazyExpiryLimits`, `Subnets`, `Protocol` | `Server` |
| clients and network | `Exclusion`, `ExclusionLimits` | |
| packet codec | `PacketFormat`, `WireFormat`, `DomainNames`, `Replies`, `Messages` | `Packet` |
| configuration store | `SubnetStore`, `StoreRefinement` | `Store` |
| migration tool | `Migration` | `Migration` (methods) |
| static-host handlers | `StaticHosts` | `Api` |

The main results:

- **Mutual exclusion end to end.** With any number of clients and a network that loses, delays,
  duplicates and reorders REQUEST and ACK messages, no two clients ever believe at the same
  time that they hold the same address, if it is assigned to no static host
  (`Exclusion.NoTwoClientsShareAnAddress`). The server may meanwhile load any configurations
  that do not assign the address, seed and revoke leases, and receive RELEASEs of any age, as
  long as none of them frees the address under a client that claims it. Exclusion holds if and
  only if option 51 is zero, or no static host is assigned the address and the term of a row,
  which wraps at 64 bits, covers the duration of option 51, which wraps at 32 and means "for
  ever" at 0xffffffff (`ExclusionLimits.ExclusionHoldsIff`,
  `ExclusionLimits.LeaseTimesThatCover`); and a late RELEASE or a revocation is harmless if and
  only if it does not end the lease behind an open claim
  (`ExclusionLimits.ExclusionSurvivesEndingIff`).
- **Lazy expiry equals eager expiry**, by a bisimulation (`LazyExpiry.LazyExpiryEqualsEager`), on
  clocks that increase strictly (`LazyExpiryLimits.EqualInstantsBreakLaziness`).
- **The lease guarantee** over every continuation of an ACK (`Guarantees.AckedLeaseIsHonoured`),
  with the one exception named exactly (`Guarantees.LiveLeaseCanBeTakenIffReserved`).
- **A static host keeps its address** until its seeded lease ends if and only if no event cuts
  that lease short, its own ACK among them (`StaticAddresses.SeededLeaseIsPermanentIff`).
- **Allocation** is complete and first-fit, and denies exactly the squatters it met, also where the
  cursor of a scan wraps past 255.255.255.255.
- **In the numbers of the standards**: the byte positions, magic cookie, message types and option
  codes on the wire (`WireFormat`, `Protocol`), which reply each message draws
  (`Protocol.RequestIsAnsweredIff`, `Protocol.DiscoverIsOfferedIff`), which packet it is sent as
  (`Protocol.ReplyIsTyped`), which subnet an address is in, bit by bit
  (`Subnets.FindSubnetIsFirst`), and which configured address is granted first
  (`AddressPool.GrantIsFirstFree`).
- **The codec** round-trips exactly on the packets whose bytes carry their hardware address, as they
  always do up to 16 bytes of it, and whose options fit, for every order of the options.
- **Replies read back as meant** exactly when the subnet's lists fit their options and the bytes carry
  the hardware address.
- **The normalised store refines a map**, with or without cascading deletes.
- **The migration tool is a fold** over that map.
- **The active leases mirror the configured static hosts** after every handler if and only if
  every accepted request fits (`StaticHosts.RunMirrorsIff`).

## Assumptions

- Every handled packet and every administrative call is one atomic step at one instant. The
  program starts a goroutine per packet (internal/dhcp/server.go:189,
  internal/dhcp/server.go:215) and its mutex guards only the configuration caches
  (internal/allocator/allocator.go:23), so the check-then-write of AllocateIP and CreateLease is
  not serialised there.
- The clock never runs backwards. Lazy expiry needs it to be strictly increasing
  (`LazyExpiryLimits.EqualInstantsBreakLaziness`). Clients and
  server share one clock; a client counts its lease from the moment it sent the request, as
  section 4.4.1 of RFC 2131 says.
- A client's RELEASE reaches the server in the step in which the client drops its lease, and
  ACKs to it that are still in the network are discarded. Other RELEASEs may reach the server
  at any time; the runs of the exclusion theorem hold those that free no claimed address.
- One function `resolve` stands for the two lookups of a static host's address: getStaticIP takes
  the first address a name has (internal/allocator/allocator.go:147-157) and resolveStaticAddress
  the first IPv4 one (internal/allocator/allocator.go:406-421), and both take an IPv6 literal. The
  model is about static addresses for which the two agree on an IPv4 address, or on none.
- The replies to pings, whether a socket write succeeds, and what the plugin returns to a
  refresh are given with each step. `net.ParseIP`, `net.ParseMAC` and the host-name lookup are
  function parameters; they give the same answer throughout a run. `net.ParseMAC` reads back
  the string form of a six-byte address.
- `ORDER BY lease_end DESC LIMIT 1` breaks ties by the smaller row id.

## Where the code and its documentation differ

The model follows the code.

- The expiry loop only logs (internal/dhcp/server.go:704-712); `ExpireLeases` is an optional
  step, and `LazyExpiry` shows that it makes no difference to any reply.
- SeedStaticLease calls its lease "effectively permanent" (internal/allocator/allocator.go:370),
  but the host's next ACK resets the end to one lease time (internal/allocator/allocator.go:315),
  and isIPAvailable never consults the static list: one tick past that end another client is
  acknowledged there (`StaticAddresses.SeededLeaseIsCutShort`). When the seeded lease does last
  is `StaticAddresses.SeededLeaseIsPermanentIff`, and when an address, static or not, goes to a
  dynamic client is `StaticAddresses.DynamicClientIsAckedIff`.
- DeleteSubnet says the cascade removes the child rows (internal/sqlite3store/store.go:393-394).
  That depends on the connection; the store is right either way (`StoreRefinement.RunRefines`).
- AllocateIP does not check that a requested address lies in a dynamic range
  (internal/allocator/allocator.go:105-111): with no ranges at all any free address is granted
  (`Allocation.RequestedAddressNeedsNoRange`), and a client is granted an address outside all
  ranges exactly when it asks for one (`Allocation.GrantLeavesPoolIff`).
- ParsePacket is not total: hardware lengths from 228 on wrap the one-byte sum at
  internal/dhcp/packet.go:98 and panic, and so do smaller ones that reach past the receive buffer,
  which the raw socket cuts to the size of the datagram (internal/dhcp/rawsocket.go:145)
  (`PacketFormat.ParseSucceedsExactly`).
- A range that ends at 255.255.255.255 and has no free address is not given up: the cursor wraps,
  the scan goes on at 0.0.0.0, and it may hand out an address outside the range
  (`Allocation.ScanStaysInRangeIff`). It runs for ever when no address at all is free
  (`Allocation.ScanRunsForeverIff`).
- A lease time of more than 9223372036 seconds, which the configuration loader accepts, wraps the
  term of a row (internal/allocator/allocator.go:307), and option 51 wraps differently
  (internal/dhcp/server.go:506) (`ExclusionLimits.LeaseTimesThatCover`).

## Model

| member | source | states |
|---|---|---|
| Exclusion.NoTwoClientsShareAnAddress | internal/dhcp/server.go:292-346 | where the term covers option 51: in every run of any number of clients, the network, the server and the operator that neither assigns an unassigned address nor frees it under a claim, no two clients believe at one time that they hold it |
| Exclusion.NoTwoClientsShareAnyAddress | internal/dhcp/server.go:292-346 | under a fixed configuration without late RELEASEs that holds for all unreserved addresses at once |
| Exclusion.RunKeepsBacked | internal/allocator/allocator.go:305-334 | over every such run each ACK in flight and each belief about the address is over, or covered by a row of that client that ends at most one tick earlier |
| Exclusion.NextKeepsBacked | internal/allocator/allocator.go:164-189 | one move of a client, the network, the server or the operator that spares the address keeps every claim to it so covered |
| Exclusion.StepGuards | internal/allocator/allocator.go:164-189 | one server step, whatever it is, leaves an unassigned address guarded unless it seeds there or ends the very lease that guards it |
| Exclusion.AckIsBacked | internal/allocator/allocator.go:305-334 | where the term covers option 51, the row written for an ACK ends no earlier than the client will compute from its send time |
| ExclusionLimits.ExclusionHoldsIff | internal/allocator/allocator.go:307-315 | where two clients may take an address, exclusion holds in all runs if and only if option 51 is zero, or is finite and not longer than the wrapped 64-bit term and no static host is assigned the address |
| ExclusionLimits.AssignedAddressBreaksExclusion | internal/allocator/allocator.go:87-91 | a dynamic client and then the static host are acknowledged at one address and both hold it |
| ExclusionLimits.OwnerIsAcked | internal/allocator/allocator.go:87-91 | a static host's REQUEST for its own address in a subnet is acknowledged whoever holds the row |
| ExclusionLimits.LeaseTimesThatCover | internal/dhcp/server.go:506 | which lease times these are while the term does not wrap, and that 10000000000 and 18446744074 are not among them while -10000000000 is |
| ExclusionLimits.UncoveredTermBreaksExclusion | internal/allocator/allocator.go:307-315 | where the term does not cover option 51, a run of six moves after which two clients hold one address |
| ExclusionLimits.StaleReleaseBreaksExclusion | internal/allocator/allocator.go:337-352 | a late RELEASE or a revocation that ends the lease behind an open claim lets a waiting second client take the address while the first holds it |
| ExclusionLimits.EndingIsHarmless | internal/allocator/allocator.go:337-402 | any other late RELEASE or revocation leaves exclusion in every continuation |
| ExclusionLimits.ExclusionSurvivesEndingIff | internal/allocator/allocator.go:337-402 | where another client waits for the address, exclusion survives a late RELEASE or a revocation if and only if it does not end the lease behind a claim still open one tick later |
| ExclusionLimits.FreeRequestIsAcked | internal/dhcp/server.go:292-346 | a client without a live lease that requests an address nothing stands in the way of gets exactly that address, and exactly that row is written |
| LazyExpiry.LazyExpiryEqualsEager | internal/db/db.go:299-307 | two schedules that differ only in where ExpireLeases runs send the same replies |
| LazyExpiryLimits.EqualInstantsBreakLaziness | internal/db/db.go:299-307 | two schedules at one instant that differ in one sweep and answer a REQUEST differently |
| LazyExpiry.SweepsAreInvisible | internal/db/db.go:299-307 | a run with sweeps from one state answers like the run without them from any bisimilar state |
| LazyExpiry.StepBisimulates | internal/allocator/allocator.go:164-189 | tables that differ only on rows past their end give every event the same reply and stay so related |
| LazyExpiry.RelatedEndLatest | internal/db/db.go:130-156 | ending a client's latest lease keeps tables related, although the two queries may pick different ended rows |
| Guarantees.AckedLeaseIsHonoured | internal/dhcp/server.go:292-346 | after an ACK, of an address that is no other client's by configuration, to a client that holds no other live lease, for one lease term and over every continuation without a RELEASE of that client: the row stays, nobody else is granted the address, its DISCOVERs are answered with it and its REQUESTs for it acknowledged |
| Guarantees.AckIsSole | internal/allocator/allocator.go:84-130 | where every client has at most one live lease, each ACK goes to a client that holds no other |
| Guarantees.LeaseIsHonoured | internal/allocator/allocator.go:84-130 | the same for any client, static or not, that holds such an address as its only live lease, until any moment within its term, through any new configuration under which it may hold it |
| Guarantees.StepProtects | internal/allocator/allocator.go:164-189 | no single step other than the owner's release or an administrative change takes a protected address from its owner, unless it is another client's by configuration |
| Guarantees.StepProtectsIff | internal/allocator/allocator.go:305-402 | one step keeps such a row until a given moment if and only if it neither ends it nor rewrites it to end before |
| Guarantees.LiveLeaseCanBeTakenIffReserved | internal/allocator/allocator.go:84-99 | a live lease can be acknowledged to another client before it ends if and only if the address is that client's static address inside a configured subnet |
| StaticAddresses.SeededLeaseIsCutShort | internal/allocator/allocator.go:305-384 | a seeded host is acknowledged, and one tick past one term later, long before the seeded end, another client is acknowledged at the static address |
| StaticAddresses.DynamicClientIsAckedIff | internal/allocator/allocator.go:104-189 | an address, static or not, can be acknowledged to a dynamic client without a live lease at a moment if and only if it is usable, in a subnet, not denied, and the row there is the client's own or past its end |
| StaticAddresses.StaticLeaseLastsIff | internal/allocator/allocator.go:305-402 | over every run up to a moment a static host's row lasts until then if and only if no event cuts it short, and while it lasts the address goes to nobody else |
| StaticAddresses.SeededLeaseIsPermanentIff | internal/allocator/allocator.go:358-384 | a seeded row lasts its hundred years if and only if no ACK or BOOTREPLY to the host resets it to an earlier end and it is neither released nor revoked |
| StaticAddresses.RenewsIff | internal/allocator/allocator.go:305-402 | an event cuts a static host's row short exactly if it is the host's own granted REQUEST or BOOTREQUEST with too short a term, too early a seeding, or an ending of this row |
| StaticAddresses.OwnerIsAckedIff | internal/dhcp/server.go:292-346 | a static host's REQUEST is acknowledged exactly when it is for its own address, in a subnet, and not for another server |
| Guarantees.AckProtectsIffTermNonNegative | internal/allocator/allocator.go:305-334 | right after an ACK the address is unavailable to all other clients if and only if the wrapped term is not negative |
| Guarantees.DenialIsPermanent | internal/db/db.go:226-258 | over every run an address that is denied, never reserved and carries no live lease is not offered, acknowledged or given by BOOTP |
| Guarantees.OfferIsHonouredByNextRequest | internal/dhcp/server.go:263-346 | an offered address that is requested next, at any later time, is acknowledged in the same subnet if the client has it statically or still live or it is neither denied nor answers the ping, and refused otherwise |
| Invariants.RunConserves | internal/db/db.go:89-127 | over every run rows never disappear, and id, address and is_static of a row never change; expired rows have ended; ids and MACs stay well formed |
| Invariants.StatsAddUp | internal/db/db.go:310-346 | after every run active plus expired rows are all rows, static ones are among the active, and the number of rows has not shrunk |
| Invariants.OneLiveLeasePerClient | internal/allocator/allocator.go:84-130 | with distinct static MACs and a fixed configuration, every reachable state has at most one live row per client, static clients hold only their own address, and every expired row has ended |
| Invariants.StepKeepsOneLive | internal/allocator/allocator.go:305-384 | one step keeps at most one live row per client |
| Invariants.EveryRequestIsAnswered | internal/dhcp/server.go:220-346 | over every run ACKs plus NAKs plus REQUESTs for another server are the REQUESTs received, OFFERs do not outnumber DISCOVERs nor BOOTREPLYs BOOTREQUESTs, and each packet is answered in kind |
| Invariants.EveryMessageIsCounted | internal/dhcp/server.go:220-377 | over every run the DISCOVER, REQUEST, RELEASE, INFORM and DECLINE counters count exactly those messages |
| Invariants.EveryReplyIsCounted | internal/dhcp/server.go:263-535 | over every run the OFFER, ACK, NAK and BOOTREPLY counters count exactly those replies, and each reply or dropped packet counts once as sent or as an error |
| Invariants.StepAccounts | internal/dhcp/server.go:220-535 | one event moves exactly the counters of its message and of its reply, and a REQUEST draws an ACK or a NAK exactly when it is not for another server |
| Protocol.ClassifyByNumber | internal/dhcp/server.go:220-260 | option 53 of one byte 1, 3, 4, 7, 8 is a DISCOVER, REQUEST, DECLINE, RELEASE, INFORM with options 50, 54 and 12 as requested address, server and host name; without it opcode 1 is a BOOTREQUEST; anything else is dropped |
| Protocol.RequestIsAnsweredIff | internal/dhcp/server.go:297-301 | a REQUEST that names no server or this one draws an ACK or NAK; one that names another draws nothing and changes neither leases nor deny list |
| Protocol.RequestIsAckedIff | internal/dhcp/server.go:303-346 | it is about option 50 unless that is absent or zero, else about ciaddr, and is acknowledged exactly if allocation grants that very address and a subnet has it |
| Protocol.RequestForNothingIsRefused | internal/dhcp/server.go:308-312 | a REQUEST for no address is refused |
| Protocol.DiscoverIsOfferedIff | internal/dhcp/server.go:263-289 | a DISCOVER draws an OFFER of the address allocation finds exactly if a subnet has it; no lease is written |
| Protocol.BootRequestIsAnsweredIff | internal/dhcp/server.go:383-414 | a BOOTREQUEST is answered, and a static lease written, exactly for a static host in a subnet with BOOTP |
| Protocol.InformIsAnsweredIff | internal/dhcp/server.go:367-377 | an INFORM is answered exactly if ciaddr is in a subnet, and nothing is written |
| Protocol.OthersAreSilent | internal/dhcp/server.go:349-364 | a RELEASE ends the client's latest lease, a DECLINE and anything else change no table, and none is answered |
| Protocol.SeedIsWritten | internal/allocator/allocator.go:364-383 | a seeded row is written as static and ends 36525 days later |
| Protocol.ReplyIsTyped | internal/dhcp/server.go:421-535 | each kind of reply is sent with opcode 2, the request's hardware fields, xid, flags and giaddr, and with message type 2, 5, 6 or none, yiaddr, siaddr, server identifier and lease time as the kind demands |
| Protocol.AnswerIsTyped | internal/dhcp/server.go:220-260 | what answers a packet of type 1 says 2, of type 3 says 5 or 6, of type 8 says 5 with no address, and of no type carries none of options 51, 53, 54, 58, 59 |
| Protocol.ReplyOnTheWire | internal/dhcp/packet.go:141-179 | the same of the printed bytes: opcode, xid, giaddr, yiaddr by position, and option 53 as code, length and value |
| Protocol.ServerOptionNumbers | internal/dhcp/server.go:547-607 | the eight server lists stand under options 3, 4, 6, 9, 42, 44, 45 and 69, four bytes an address, in order |
| Protocol.OtherOptionNumbers | internal/dhcp/server.go:538-617 | mask, domain name, search list, node type and MTU stand under options 1, 15, 119, 46 and 26, the node type being the subnet's own or else the global one |
| Protocol.UsableServersAre | internal/dhcp/server.go:750-759 | the usable servers of a list are exactly its entries that parse, in order |
| Protocol.ReplyIsInSubnet | internal/dhcp/server.go:461-510 | the address given agrees with the subnet's network in every bit of the mask in option 1 |
| Invariants.EveryAckIsRecorded | internal/dhcp/server.go:315-338 | each ACK comes with an active row for that client and address that ends at now plus the lease time, leaves all other rows alone, and had a reason to be given |
| StepEffects.WriteEffect | internal/allocator/allocator.go:305-384 | a step that grants a lease changes exactly one row, keeps its id and is_static, and has a static entry, a live lease or an unclaimed, undenied address behind it |
| StepEffects.OtherEffect | internal/dhcp/server.go:349-377 | every other step ends one client's latest lease, expires ended rows, or leaves the table alone |
| StepEffects.OtherFields | internal/allocator/allocator.go:258-276 | the deny set only grows and the configuration changes only by Refresh |
| Allocation.ScanRangeFindsLeast | internal/allocator/allocator.go:192-235 | the scan returns the least free address of the range and denies exactly the available, answering addresses before it; on failure none is available any more |
| Allocation.ScanEndsIffBelowMaximum | internal/allocator/allocator.go:219-232 | the uint32 cursor ever passes the end of a range if and only if that end is below 255.255.255.255 |
| Allocation.ScanStaysInRangeIff | internal/allocator/allocator.go:219-232 | a scan hands out an address outside its range if and only if the range ends at 255.255.255.255, has no free address, and one below it is free |
| Allocation.ScanRunsForeverIff | internal/allocator/allocator.go:218-232 | the cursor loop runs for ever if and only if its range ends at 255.255.255.255 and no address at all is free |
| Allocation.ReturnsIff | internal/allocator/allocator.go:84-130 | the scans AllocateIP comes to all stop if and only if none wraps, or there is a static entry, a live lease, or any free address at all |
| Allocation.GrantLeavesPoolIff | internal/allocator/allocator.go:104-127 | a client without static entry and live lease is granted an address outside all ranges if and only if it asks for one that is acceptable |
| Allocation.RequestedAddressNeedsNoRange | internal/allocator/allocator.go:104-111 | with no ranges configured, whatever address is asked for on an empty table is granted |
| Allocation.WrappedScanIsLast | internal/allocator/allocator.go:113-127 | a scan that wraps and finds nothing leaves nothing for any later range |
| Allocation.ScanPoolIsFirstFit | internal/allocator/allocator.go:113-127 | the walk over subnets and ranges stops at the first free address in (subnet, range, address) order and denies exactly the squatters met before it |
| Allocation.AllocationIsComplete | internal/allocator/allocator.go:84-130 | AllocateIP fails if and only if there is no static entry, no live lease, no acceptable request and no free address in any valid range |
| Allocation.AllocationFollowsPriority | internal/allocator/allocator.go:84-130 | the address granted follows the priority static, live lease, requested, first fit |
| AddressPool.FailureMeansNoneFree | internal/allocator/allocator.go:113-129 | when AllocateIP fails, no address between the parsed start and end of any range of any subnet is free |
| AddressPool.GrantIsFirstFree | internal/allocator/allocator.go:113-232 | an address taken from the ranges lies between the parsed start and end of one of them, is the least free there, and no range before it in the configuration has a free one; where that range ends at 255.255.255.255 it may be the least of all instead |
| AddressPool.StaticIPIsNoneIff | internal/allocator/allocator.go:140-161 | a MAC address has no static address exactly if no host has it at an address that resolves |
| AddressPool.StaticIPIsFirstHost | internal/allocator/allocator.go:140-161 | otherwise it is the address of the first such host |
| AddressPool.OwnRowIsReusedIff | internal/allocator/allocator.go:93-102 | a client's only row is given again exactly while it is active and now is before its end |
| AddressPool.RequestedIsProbed | internal/allocator/allocator.go:104-111 | a requested address on an empty table is granted exactly if it is not denied and some ping attempt is silent, and denied exactly if all are answered |
| Allocation.AllocationDeniesSquatters | internal/allocator/allocator.go:238-277 | an allocation adds to the deny set only addresses that were available and answered a ping |
| Allocation.FreeIsStable | internal/allocator/allocator.go:164-189 | denying squatters neither frees nor takes away any address a scan could stop at |
| Allocation.LiveLeaseIsLive | internal/allocator/allocator.go:97-102 | the lease AllocateIP reuses exists exactly when the client has a live row, and is one |
| Allocator.Allocator.GetStaticIP | internal/allocator/allocator.go:140-161 | the loop finds the first host with the MAC whose address resolves |
| Allocator.Allocator.IsIPAvailable | internal/allocator/allocator.go:164-189 | true exactly for an undenied address whose row, if any, is the client's own or past its end |
| Allocator.Allocator.PingCheck | internal/allocator/allocator.go:238-277 | the address is denied, under the hardware address ARP detects and the reason made of it, exactly when every attempt is answered; nothing else changes |
| Allocator.Allocator.FindAvailableIPInRange | internal/allocator/allocator.go:192-235 | whenever its loop ends, it returns the address and leaves the deny set of the range scan |
| Allocator.Allocator.Sweep | internal/allocator/allocator.go:219-232 | the uint32 cursor loop, wrap-around included, ends and visits exactly the addresses of the scan |
| Allocator.Allocator.AllocateIP | internal/allocator/allocator.go:84-130 | whenever it returns at all, the address and deny set are those of the specification and no lease row changes |
| Allocator.Allocator.CreateLease | internal/allocator/allocator.go:305-334 | exactly the row of the address is updated or inserted, ending at now plus the lease time |
| Allocator.Allocator.ReleaseLease | internal/allocator/allocator.go:337-352 | the client's latest active row ends now; an error exactly when it has none |
| Allocator.Allocator.RevokeStaticLease | internal/allocator/allocator.go:390-402 | the host's latest active row ends now, silently when there is none |
| Allocator.Allocator.SeedStaticLease | internal/allocator/allocator.go:358-384 | exactly the row of the resolved address is written, for a hundred years; an unresolvable address changes nothing |
| Allocator.Allocator.Refresh | internal/allocator/allocator.go:45-60 | the caches become the plugin's two answers, or stay as they are when either is an error |
| LeaseTable.LatestIsUnique | internal/db/db.go:130-156 | the query by MAC has one answer once ties are broken by row id |
| LeaseTable.LatestExists | internal/db/db.go:130-156 | a client with an active row has a latest one |
| LeaseTable.NoLiveRow | internal/allocator/allocator.go:97-102 | when the latest row has ended, none of the client's rows is live |
| LeaseTable.UpsertWrites | internal/allocator/allocator.go:305-334 | a grant writes every field of a new row, and all but id, address and is_static of an old one |
| LeaseTable.EndLatestWrites | internal/allocator/allocator.go:337-402 | ending a client's latest lease expires that row as of now and changes nothing else |
| LeaseTable.ExpireLeasesExactly | internal/db/db.go:299-307 | a sweep changes the state of the active, non-static rows past their end and nothing else |
| Database.Database.AddLease | internal/db/db.go:89-109 | refused exactly when the address has a row; otherwise the table gains that row under a fresh id |
| Database.Database.UpdateLease | internal/db/db.go:112-127 | exactly the row of the address changes, in every field but id, address and is_static |
| Database.Database.GetLeaseByMAC | internal/db/db.go:130-156 | the active row of the client with the latest end |
| Database.Database.GetLeaseByIP | internal/db/db.go:159-185 | the row of the address, if any |
| Database.Database.AddDenyAddress | internal/db/db.go:226-247 | the row of the address is added or rewritten with the hardware address, reason and time given, its id kept; all other rows stay |
| Database.Database.IsDenyAddress | internal/db/db.go:250-258 | true exactly for denied addresses |
| Database.Database.ExpireLeases | internal/db/db.go:299-307 | exactly the active, non-static rows past their end become expired |
| Database.Database.GetStats | internal/db/db.go:310-346 | the counts are those of the rows, and active plus expired is the number of rows |
| Server.Server.HandlePacket | internal/dhcp/server.go:220-260 | whenever the handler returns, state and reply are those of the step of the state machine, and the packet sent is the one the reply stands for |
| Server.Server.HandleDiscover | internal/dhcp/server.go:263-289 | the handler makes the DISCOVER step |
| Server.Server.HandleRequest | internal/dhcp/server.go:292-346 | the handler makes the REQUEST step, whichever of its exits it takes |
| Server.Server.HandleRelease | internal/dhcp/server.go:349-356 | the handler makes the RELEASE step |
| Server.Server.HandleInform | internal/dhcp/server.go:367-377 | the handler makes the INFORM step |
| Server.Server.HandleBootP | internal/dhcp/server.go:383-414 | the handler makes the BOOTREQUEST step |
| Server.Server.FindSubnet | internal/dhcp/server.go:658-693 | the loop finds the first subnet that contains the address |
| Server.Server.AddOptions | internal/dhcp/server.go:538-617 | the options filled in place are the subnet's options over the ones already there |
| Server.Server.CreateLeaseReply | internal/dhcp/server.go:461-510 | the packet built in place is the OFFER or ACK of the specification |
| Server.Server.CreateBootReply | internal/dhcp/server.go:421-458 | the packet built in place is the BOOTREPLY of the specification |
| Server.Server.UsableServers | internal/dhcp/server.go:750-759 | the loop keeps exactly the entries that parse, in order |
| Server.Server.IsStatic | internal/dhcp/server.go:738-746 | true exactly when a host is configured under the MAC |
| Replies.ReplyReadsBack | internal/dhcp/server.go:461-617 | the bytes of an OFFER or ACK parse back to it, for every option order, if and only if the lists fit and the bytes carry the hardware address, as they do up to 16 bytes; a client reads xid, giaddr, chaddr, lease time, server id, the exact lists, and an address in the first matching subnet under the mask carried |
| Replies.LeaseReplyCarriesAddressIff | internal/dhcp/server.go:461-510 | an OFFER or ACK carries a hardware address of up to 208 bytes if and only if all of it from byte 16 on is zero |
| Replies.ReplyCarriesAddressIff | internal/dhcp/packet.go:156-158 | any reply carries one of up to 208 bytes if and only if, from byte 16 on, it is what server name and boot file hold |
| Replies.BootReplyReadsBack | internal/dhcp/server.go:421-458 | a BOOTREPLY carries none of options 51, 53, 54, 58, 59 and reads back if and only if the lists fit and the bytes carry the hardware address |
| Replies.BootNamesReadBack | internal/dhcp/packet.go:315-328 | boot file and server name read back whole if and only if they have at most 127 and 63 bytes |
| Replies.FoundSubnetContains | internal/dhcp/server.go:658-693 | the subnet found is the first one that contains the address |
| Subnets.FindSubnetIsFirst | internal/dhcp/server.go:658-693 | no subnet is found exactly if the address is in none; otherwise it is the first the address is in |
| Subnets.ContainsIff | internal/dhcp/server.go:659-691 | an address is in a subnet exactly if network and mask parse and it agrees with the network in every bit where the mask has a one |
| Subnets.AndBit | internal/dhcp/server.go:659-691 | bitwise AND, bit by bit |
| Replies.SubnetOptionsCarry | internal/dhcp/server.go:538-617 | every option of the subnet is in the finished reply: no later one overwrites it |
| PacketFormat.RoundTrip | internal/dhcp/packet.go:81-179 | for every option order, a packet comes back unchanged from its bytes if and only if they carry its hardware address and its options are encodable |
| PacketFormat.AddressIsCarriedIff | internal/dhcp/packet.go:141-179 | a hardware address is always carried up to 16 bytes, up to 208 exactly if it goes on with the name fields, and beyond only if it runs on into cookie and options |
| PacketFormat.ParsePrintParse | internal/dhcp/packet.go:81-179 | for every datagram that parses, printing and parsing again changes nothing if and only if the hardware address is carried, and it is up to 208 bytes |
| PacketFormat.ParseSucceedsExactly | internal/dhcp/packet.go:81-114 | parsing gives a packet exactly from 236 bytes on, for hardware lengths below 228 whose address ends inside the receive buffer; from 236 bytes on it panics exactly for all others |
| PacketFormat.ParseIgnoresBeyond | internal/dhcp/packet.go:98 | what lies in the buffer beyond the datagram matters only to a hardware address that reaches over its end |
| WireFormat.PrintedHeader | internal/dhcp/packet.go:141-155 | in every printed packet opcode, type, length and hops are bytes 0 to 3, and xid, secs, flags and the four addresses stand in network order at 4, 8, 10, 12, 16, 20 and 24 |
| WireFormat.PrintedNames | internal/dhcp/packet.go:156-161 | the hardware address stands at 28, padded with zeros to 16, server name and boot file at 44 and 108, and bytes 236 to 239 are 99, 130, 83, 99 |
| WireFormat.PrintedOption | internal/dhcp/packet.go:163-168 | every option stands after the cookie as code, length and value |
| WireFormat.PrintedOptions | internal/dhcp/packet.go:141-179 | the printed option field reads as exactly the options |
| WireFormat.OneOptionPrinted | internal/dhcp/packet.go:163-179 | a packet with one option, to the last byte: option, 255, zeros up to 300 bytes |
| WireFormat.ParsedHeader | internal/dhcp/packet.go:81-114 | every field of a parsed datagram is the bytes at its position, and options are read exactly if bytes 236 to 239 are 99, 130, 83, 99 |
| WireFormat.OptionFieldReads | internal/dhcp/packet.go:117-138 | 0 is skipped, 255 ends the field, a truncated option is dropped, and a later value replaces an earlier one |
| WireFormat.MessageTypeIsRead | internal/dhcp/packet.go:117-138 | options that begin 53, 1, t give option 53 the one byte t, unless a later option 53 replaces it |
| PacketFormat.OptionsReadBack | internal/dhcp/packet.go:117-138 | an option field written in any order reads back as exactly those options |
| PacketFormat.ParsedOptionsAreEncodable | internal/dhcp/packet.go:117-138 | whatever the bytes, codes 0 and 255 never occur and every value fits its length byte |
| Packet.Packet.ParsePacket | internal/dhcp/packet.go:81-114 | a fresh packet with the parsed value, the error, or the panic of the specification, for any receive buffer around the datagram |
| Packet.Packet.ParseOptionField | internal/dhcp/packet.go:117-138 | the index loop adds exactly the triples of the recursive reading, and ends |
| Packet.Packet.ToBytes | internal/dhcp/packet.go:141-179 | the bytes are those of the packet for some order of its options |
| Packet.Packet.AppendOptions | internal/dhcp/packet.go:163-168 | the walk over the option map writes every option once |
| Packet.PrintedReadsBack | internal/dhcp/packet.go:81-179 | whatever order the option map was walked in, the printed bytes parse back to the packet if and only if they carry its hardware address and its options are encodable |
| Packet.Packet.SetAddresses | internal/dhcp/packet.go:228-243 | the option becomes the list of addresses, four bytes each, and no other option changes |
| Packet.Packet.SetDomainSearch | internal/dhcp/packet.go:253-259 | the option becomes the encoded names one after the other |
| Packet.EncodeDomainName | internal/dhcp/packet.go:263-274 | the loop writes the non-empty labels of the trimmed name and a zero |
| Packet.AddressesReadBack | internal/dhcp/packet.go:228-310 | an address list reads back, and takes four bytes per address |
| WireFormat.AddressListBytes | internal/dhcp/packet.go:228-310 | the i-th address of a list is the four bytes from 4i on, in network order |
| Packet.TextFieldReadsBack | internal/dhcp/packet.go:315-328 | a text without NUL bytes reads back up to the last byte of its field |
| DomainNames.SearchListReadsBack | internal/dhcp/packet.go:253-274 | decoding by section 3.1 of RFC 1035 returns each name's non-empty labels, name by name, if and only if every label has at most 63 bytes |
| DomainNames.SplitCutsAtDots | internal/dhcp/packet.go:263-274 | the segments of a name have no dots and joined by dots they are the name |
| DomainNames.SplitAtDot | internal/dhcp/packet.go:263-274 | a name is cut at byte 46 and nowhere else |
| DomainNames.NameBytes | internal/dhcp/packet.go:263-274 | a name is its non-empty labels one after the other, and a zero |
| DomainNames.DecodeReads | internal/dhcp/packet.go:250-274 | a decoder ends a name at a zero and reads no length of 64 or more |
| DomainNames.TrailingDotIsIgnored | internal/dhcp/packet.go:263-274 | a trailing dot does not change the labels of a name |
| Messages.MACAddressIsInjective | internal/dhcp/packet.go:361-363 | two hardware addresses have the same name only if they are equal |
| Messages.MACAddressIsNormalized | internal/dhcp/packet.go:361-363 | a client's name is already in normalised spelling |
| Messages.MACAddressIsSpelled | internal/dhcp/packet.go:361-363 | two lower-case hexadecimal digits per byte, and colons between |
| Config.Wrap64 | internal/allocator/allocator.go:307 | the 64-bit product wraps, and is exact wherever it fits |
| Config.NormalizeMACIsIdempotent | internal/config/config.go:115-117 | normalising a MAC address twice is normalising it once |
| Config.NormalizeMACLowers | internal/config/config.go:115-117 | the letters A to Z are lowered and everything else is kept |
| StoreRefinement.RunRefines | internal/sqlite3store/store.go:323-408 | any sequence of inserts, updates and deletes, cascading or not, leaves exactly the map a plain table of configurations would hold and succeeds and fails alike |
| StoreRefinement.StoreListsTheMap | internal/sqlite3store/store.go:194-268 | after any run from an empty store GetSubnets lists exactly the map's values in order of network |
| StoreRefinement.GetSubnetsListsView | internal/sqlite3store/store.go:194-268 | for any consistent store GetSubnets is the listing of its map: ascending, complete, each value whole |
| StoreRefinement.InsertRefines | internal/sqlite3store/store.go:323-351 | an insert fails exactly when the network is in the map and otherwise adds exactly that configuration |
| StoreRefinement.UpdateRefines | internal/sqlite3store/store.go:355-391 | an update fails exactly when the network is absent and otherwise replaces exactly that configuration |
| StoreRefinement.DeleteRefines | internal/sqlite3store/store.go:395-408 | a delete fails exactly when the network is absent and otherwise removes exactly it, whether or not its child rows go |
| StoreRefinement.NextIdIsFresh | internal/sqlite3store/store.go:84 | no child row, not even an orphan, belongs to the id the next insert will use |
| StoreRefinement.OrderAscending | internal/sqlite3store/store.go:195-199 | ORDER BY network puts the rows in strictly ascending order and loses none |
| StoreRefinement.LessIsBytewise | internal/sqlite3store/store.go:195-199 | the order is byte-wise: the smaller byte at the first difference, or the shorter text |
| SubnetStore.ListReadsBack | internal/sqlite3store/store.go:423-443 | a list written where no row of the subnet was left reads back in order |
| SubnetStore.OtherListsStay | internal/sqlite3store/store.go:423-443 | writing one subnet's list does not touch what the others read |
| SubnetStore.ClearChildrenReads | internal/sqlite3store/store.go:410-421 | clearing a subnet's children leaves it none and the others all of theirs |
| SubnetStore.AssembleReadsBack | internal/sqlite3store/store.go:203-265 | a parent row and child rows written from a configuration assemble to that configuration |
| SubnetStore.SetListsReads | internal/sqlite3store/store.go:258-264 | the loop over the bindings sets exactly the attributes it visits |
| Store.Store.InsertSubnet | internal/sqlite3store/store.go:323-351 | the tables and the map change as by one insert; a failed one changes nothing |
| Store.Store.UpdateSubnet | internal/sqlite3store/store.go:355-391 | the tables and the map change as by one update; a failed one changes nothing |
| Store.Store.DeleteSubnet | internal/sqlite3store/store.go:395-408 | the tables and the map change as by one delete; a failed one changes nothing |
| Store.Store.WriteChildren | internal/sqlite3store/store.go:423-443 | the loops over ranges, bindings and positions append exactly the children of the configuration |
| Store.Store.ClearChildren | internal/sqlite3store/store.go:410-421 | the loop over the bindings removes exactly the subnet's children from every table |
| Store.Store.GetSubnets | internal/sqlite3store/store.go:194-268 | the loops return the assembled rows in order of network |
| Store.Store.GetSubnet | internal/sqlite3store/store.go:251-265 | the loop over the bindings assembles one row |
| Store.Store.GetChildren | internal/sqlite3store/store.go:297-320 | the values of one subnet in order of position |
| Store.Store.InsertStaticHost | internal/sqlite3store/store.go:475-484 | fails exactly when the normalised MAC is taken; otherwise the hosts gain that one |
| Store.Store.UpdateStaticHost | internal/sqlite3store/store.go:488-504 | fails exactly when the normalised MAC is absent; otherwise exactly that host is replaced |
| Store.Store.DeleteStaticHost | internal/sqlite3store/store.go:507-520 | fails exactly when the normalised MAC is absent; exactly that host goes |
| Migration.MigrateSubnets | cmd/go-dhcpd-migration-tool/main.go:72-114 | a real run is the fold over the store's map, a dry run changes nothing and counts the invalid records; either returns true exactly when none failed |
| Migration.RunReports | cmd/go-dhcpd-migration-tool/main.go:112-113 | succeeded plus failed is the number of records; none failed exactly when all are valid and, in a real run, their keys fresh and distinct |
| Migration.MigrateStaticHosts | cmd/go-dhcpd-migration-tool/main.go:120-161 | the same for static hosts |
| Migration.MigrateSubnet | cmd/go-dhcpd-migration-tool/main.go:91-110 | one round of the loop: validate, then insert unless dry |
| Migration.FoldMerges | cmd/go-dhcpd-migration-tool/main.go:90-113 | a run leaves the old map plus the first valid record of each fresh key, and nothing else |
| Migration.MergeIsUnique | cmd/go-dhcpd-migration-tool/main.go:90-113 | there is only one such map |
| Migration.FoldSucceedsIff | cmd/go-dhcpd-migration-tool/main.go:113 | no record fails if and only if all are valid and their keys fresh and distinct |
| Migration.FoldCounts | cmd/go-dhcpd-migration-tool/main.go:90-112 | succeeded plus failed is the number of records |
| Migration.FoldAgain | cmd/go-dhcpd-migration-tool/main.go:72-114 | a second run over the same records inserts nothing, fails every record and changes nothing |
| Migration.DryRunFailsNoMore | cmd/go-dhcpd-migration-tool/main.go:98-102 | a dry run reports no more failures than the real run, so a real run that succeeds has a dry run that does |
| Migration.HostKeysAreHardwareAddresses | internal/sqlite3store/validate.go:93-110 | two valid hosts collide exactly when they name the same hardware address, however spelled |
| Migration.HostKeyIsCanonical | internal/sqlite3store/validate.go:93-110 | a validated host is stored under the spelling validation gave it |
| Migration.ValidSubnetHasAddresses | internal/sqlite3store/validate.go:34-87 | in a valid subnet every address text is an IPv4 address, and server name and boot file fit |
| Migration.AddressesMakeValidSubnet | internal/sqlite3store/validate.go:34-87 | and there is nothing else to be valid |
| StaticHosts.RunMirrorsIff | internal/api/api.go:314-370 | over whole runs the active rows are exactly the configured (MAC, IP) pairs after every handler if and only if every request fits: spelled canonically, at an address no other host has |
| StaticHosts.DisciplinedRunsMirror | internal/api/api.go:314-370 | from an empty site, with canonical MACs and no address shared by two hosts, the mirror holds after every handler |
| StaticHosts.HandlerMirrorsIff | internal/api/api.go:314-370 | one handler keeps the mirror if and only if its request fits |
| StaticHosts.HandleKeepsSound | internal/api/api.go:314-370 | every handler keeps the table well formed and all of its rows; a refused request changes nothing |
| StaticHosts.ConfigureExactly | cmd/plugins/sqlite3-config/main.go:181-258 | which requests are accepted and what they configure: an add an absent host, an update the host named in the path whatever its body says, a delete a present one |
| StaticHosts.HandlerIsRun | internal/api/api.go:314-370 | a handler does to the daemon's state what a refresh, revocation and seeding do as events of the state machine |
| StaticHosts.SharedAddressBreaksMirror | internal/api/api.go:314-330 | a run of two adds at one address after which the first host is configured but holds no row |
| StaticHosts.OtherSpellingBreaksMirror | internal/sqlite3store/validate.go:100-105 | an add spelled in another way is configured under one name and seeded under another |
| StaticHosts.RevokedRows | internal/allocator/allocator.go:390-402 | revoking a host that has one active row leaves it none and everybody else theirs |
| Api.API.AddStaticHost | internal/api/api.go:314-330 | plugin write, refresh and seed together are the add request; a refusal leaves cache, store and table alone |
| Api.API.UpdateStaticHost | internal/api/api.go:333-354 | plugin write, refresh, revoke and seed together are the update request |
| Api.API.DeleteStaticHost | internal/api/api.go:357-370 | plugin write, refresh and revoke together are the delete request |
| Api.API.PluginWrite | cmd/plugins/sqlite3-config/main.go:181-221 | the plugin's validation and write accept and store exactly what the specification does |
| Api.API.RefreshAllocator | internal/api/api.go:391-395 | the caches become what the plugin returned, or stay as they are when it failed |

## Left out

- Interleaved goroutines: steps are atomic (see Assumptions), so races between AllocateIP and CreateLease are not modelled.
- Sockets, raw frames, where a reply is sent, start-up, shutdown, tickers and signals; the PacketsReceived counter belongs to that code.
- SQL text, drivers, transactions that fail half-way, connection errors and NULLs the program never writes; the only failures are the unique constraints and missing rows.
- Ping, ARP and DNS themselves: their answers are given.
- JSON, HTTP status codes, PAM, TLS, logging and the plugin's subprocess protocol; a read-only or unreachable plugin is not told apart from a refusal.
- A scan that never returns (`Allocation.ReturnsIff` says when): the methods are about handlers that return, and in runs of the state machine such an allocation counts as one that failed.
- Other fixed widths: a hundred years are 36525 days, and the counters do not wrap at 64 bits.
- Slices: what ParsePacket returns are copies, where the program keeps windows on the receive buffer.
- Unicode case folding: NormalizeMAC lowers ASCII letters only.
- What a panic in ParsePacket does to the process: it is a result of its own kind.
- Boot file and server names with a NUL byte inside: `Replies.BootNamesReadBack` is about names without one.
- Packet.Packet.SetAddresses: one method stands for the nine address-list setters, which differ only in the option code.
- Server.Server.HandlePacket: the reply packet is built after the handler has decided, where the program builds it before it counts it; nothing in between reads it.
- Packet.Packet.ToBytes: the addresses are 32-bit values, so a nil or 16-byte address is not modelled.
- Allocator.Allocator.GetStaticIP: a host name whose first address is IPv6, and an IPv6 literal, are returned by the code and have no value in the model (see Assumptions).
- Migration.MigrateSubnets: a database that cannot be opened is not modelled.
- Api.API.RefreshAllocator: what the plugin returns is given, not tied to the store, so a plugin may answer with anything.
- StaticHosts.RunMirrorsIff: DHCP packets between the handlers are not part of these runs; what they do to the table is in `Invariants` and `Guarantees`.
- Listing functions that only copy rows: GetAllLeases, GetDenyAddresses, GetStaticHosts; created_at and updated_at; EnsureSchema and the column migration; nil against empty lists.
- The unused helpers nextIP and broadcast, MessageTypeName, and the metrics text.
