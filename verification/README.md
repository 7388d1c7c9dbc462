# A verified model of the CONNECT-IP server

The server accepts CONNECT-IP clients over QUIC, gives each one the tunnel addresses its
configuration entry names, and moves IP packets between the clients and a TUN device. This project
models the parts of it that decide who owns an address and which packet goes where, and proves what
those parts are relied upon for.

| module | what it models |
|---|---|
| `Common`, `NetAddr` | results, bytes, addresses and prefixes as `net/netip` has them |
| `Packet` | the inner-packet parser, with the loop over IPv6 extension headers |
| `ExtensionChain` | extension-header chains (section 4 of RFC 8200, section 2.2 of RFC 4302), and that the walk accepts exactly them |
| `WireTheorems` | the parser turn by turn and field by field, in bytes and numbers |
| `PacketTheorems`, `DatagramTheorems` | printers for IPv6 and IPv4 packets, round trips both ways, bounds, locality, port matching |
| `Config` | resolution of the client list, and the test for a routable IPv6 prefix |
| `ConfigTheorems` | what resolution and the prefix test accept, in terms of the raw fields and of numbers |
| `ClientIndex` | the index by public key and the search by public key |
| `Registry` | the two address tables as values, and the set of live sessions they stand for |
| `SessionManager` | sessions and the manager as objects updated in place |
| `Handlers`, `DataPath`, `Forwarding` | the server's request handler, shutdown loop, dispatcher and session reader |
| `Machine` | the server as interleaved threads: locks, one-shots and critical sections as separate steps |
| `MachineInvariants`, `MachineRuns`, `MachineProgress` | what every step keeps, what holds over every run, and that every call returns |
| `MachineScenarios` | races the machine does reach |
| `Admission`, `Isolation`, `System` | the whole server, for every accepted configuration and every run |

## What is proved, in short

* For every accepted configuration and every interleaving of connects, takeovers, closes, lookups
  and shutdown sweeps, no client is refused a session; a packet is handed only to a session of the
  client its destination is configured for; and a session puts into the tunnel only packets from
  its own client's addresses, none of them to a client or to the server.
* In every reachable state the two tables stand for one set of sessions with distinct identities and
  disjoint addresses, within the limit. `Replace` inserts with at most one eviction, of the same
  identity; a late `Close` never touches a successor; what a lookup finds never goes back to an
  older session; a session that has left never returns.
* No wait cycle between the registry lock and the one-shots is possible, and a measure bounds the
  steps of every call. From every reachable state all calls can return, and every configured client can
  be connected.
* The extension-header walk accepts exactly the chains within its limits, the parser accepts exactly
  what the printers print, and both give the printed fields back.
* A configuration is accepted exactly when each client is in order and no two clients share an
  address or a key; the reserved-range test is exact.

## Reading the model

**Objects and values.** `SessionManager` has the source's classes, with one method for each function
and loop of `manager.go`. Each method is proved against a function of `Registry`, on which the
properties are proved. `Machine` uses the same functions as the effects of its critical sections, so
what is proved of `Replace` and `RemoveIfCurrent` as code is what a step of the machine does.

**Threads.** A thread of `Machine` is one call in progress. Taking a lock, the critical section
(which ends by releasing the lock), and each stage of a session's `Close` are separate steps;
`sync.Once` makes later callers wait for the first. Dispatching a packet is a lookup step and a later
write step, forwarding one is a test step and a later write step, so a session may be replaced or
closed in between.

**Caller discipline.** As `cmd/jiejie-masque/main.go:211-228` does it, each session is passed to
`Replace` once, and only closed by threads that can have got hold of it: its handler after `Replace`
has decided, or whoever found it in the registry. The code does not enforce this;
`Handlers.RegisterThenClose` says exactly what the order is good for: a session that had been closed before
it is registered stays in the tables, whatever is closed afterwards.

**Behaviours kept as they are.**
* Registering a registered session again is refused at full capacity, because the count of active
  sessions includes it (`Registry.RegisteringAgain`).
* Fragment headers are exempt from the 256-byte limit, so a transport header can lie as far as 344
  (`PacketTheorems.DeepTransportOffset`).
* The comment on `Info` says that the transport offset is zero without a trustworthy TCP or UDP
  header. The IPv4 code reports the header length for every first fragment, whatever its protocol, and
  the total-length test in it assigns the value that is already there
  (`internal/connectip/packet/parse.go:45-51`). The model follows the code; `PacketTheorems.OffsetV4`
  says exactly when the comment holds and `PacketTheorems.PortMatchV4` exactly when a port is then read
  from bytes behind the declared packet; `PacketTheorems.OffsetWithoutTransportExists` and
  `PacketTheorems.PortPastDeclaredTotalExists` give such packets.
* The shutdown loop runs before the HTTP server is shut down, so a client that connects meanwhile can
  stay registered (`MachineScenarios.SweepMissesANewcomer`). The tables are empty afterwards exactly when
  every such session has left again (`MachineRuns.SweepEmptiesExactly`).
* The second check on public keys, for a key at several addresses, only ever fires for a different
  primary address. A key that comes back with the same one is a duplicate address already, which is
  why acceptance implies distinct keys (`Config.NextKeepsDistinct`).
* The compare-and-swap on `removed` never fails when `Close` reaches it (`MachineRuns.SwapNeverFails`).

## Model

| member | source | states |
|---|---|---|
| `System.NoClientIsRefused` | cmd/jiejie-masque/main.go:200-218 | for every accepted configuration and run, no `Replace` is refused, neither for a taken address nor for lack of room |
| `System.NoMoreSessionsThanClients` | cmd/jiejie-masque/main.go:112 | for every accepted configuration and run, the registered sessions are never more than the clients |
| `System.EveryClientCanConnect` | cmd/jiejie-masque/main.go:200-218 | for every accepted configuration, in every world of every run, the calls in progress can return without a new one starting, and from there any configured client be registered with a new session |
| `System.DeliveredToItsOwner` | cmd/jiejie-masque/main.go:270-294 | every packet passed to WritePacket has a destination configured for that session's client and for no other, even if the session was replaced or closed since the lookup, and at some earlier moment the session was the one registered there |
| `MachineRuns.WritesFollowLookups` | cmd/jiejie-masque/main.go:275-279 | in every run, a packet is only written to a session that a lookup of its destination would have found at some earlier moment |
| `System.MappedDestinationsReachNoOne` | cmd/jiejie-masque/main.go:271-278 | in every run, no session is found for an IPv4-mapped IPv6 destination |
| `System.ForwardedFromItsOwner` | cmd/jiejie-masque/main.go:296-334 | every packet a session reader writes to the tunnel comes from its own client's addresses and goes to no client address and not to the server's |
| `System.OwnPacketsEnter` | cmd/jiejie-masque/main.go:318-333 | for every accepted configuration, client and packet from any of the client's addresses to outside the server's networks, there is a run that writes the packet to the tunnel |
| `System.PacketsReachClients` | cmd/jiejie-masque/main.go:270-279 | for every accepted configuration, client and packet to any of the client's addresses, there is a run that passes the packet to a session of the client |
| `Admission.ClientsMakeSessions` | internal/connectip/session/manager.go:53-83 | session construction panics for no accepted client |
| `Admission.ReplaceSucceeds` | internal/connectip/session/manager.go:124-149 | with sessions of an accepted client list and a limit of its length, the checks of Replace pass for any of its clients |
| `Admission.OthersLeaveRoom` | cmd/jiejie-masque/main.go:112 | sessions with distinct identities other than a given client's are fewer than the clients |
| `Admission.DescOwns` | internal/connectip/config/config.go:193-245 | an address of a client's session is configured for that client and no other |
| `Isolation.PassedPacketIsOwn` | cmd/jiejie-masque/main.go:318-337 | a packet that passes the test has a source of the session's client alone and a destination that is no client's and not the server's |
| `Isolation.PassesExactly` | cmd/jiejie-masque/main.go:318-337 | the test passes exactly the packets that parse, come from any of the session's addresses, go to neither server network, while the context is not done |
| `Isolation.ClientsLieInside` | internal/connectip/config/config.go:214-219 | every configured client address lies inside the server's network of its family |
| `MachineInvariants.StepKeepsInv` | internal/connectip/session/manager.go:85-231 | every step of every thread keeps all invariants of the registry, the locks, the one-shots, the close stages and the packets in flight |
| `MachineInvariants.ReplaceStep` | internal/connectip/session/manager.go:122-167 | the critical section of Replace keeps the tables and the limit in order and evicts exactly the live sessions of its identity, at most one |
| `MachineInvariants.LockStep` | internal/connectip/session/manager.go:98-100 | the registry lock is held exactly by the threads inside a critical section, a writer alone |
| `MachineInvariants.OnceStep` | internal/connectip/session/manager.go:85-86 | a running one-shot is exactly the one a thread stands inside |
| `MachineInvariants.ClosesStep` | internal/connectip/session/manager.go:85-96 | what each stage of a Close has achieved stays achieved, and a completed Close has cancelled, disconnected and unregistered its session |
| `MachineRuns.RunInv` | internal/connectip/session/manager.go:85-231 | the invariants hold in every world of every run |
| `MachineRuns.LookupIsTheOwner` | internal/connectip/session/manager.go:177-185 | in every run, a lookup finds a session exactly when it is live and owns the address |
| `MachineRuns.LiveSessionsAreApart` | internal/connectip/session/manager.go:124-141 | in every run, live sessions have distinct identities and disjoint addresses |
| `MachineRuns.LimitIsKept` | internal/connectip/session/manager.go:142-149 | in every run, the distinct sessions in the tables never exceed a positive limit |
| `MachineRuns.StepOnTheSet` | internal/connectip/session/manager.go:118-224 | on the set of live sessions, Replace is insertion with at most one eviction, RemoveIfCurrent is deletion, and nothing else, a refused Replace included, changes the registry |
| `MachineRuns.RemoveSparesOthers` | internal/connectip/session/manager.go:206-224 | a late RemoveIfCurrent changes no address that leads to another session, and nothing at all when its session was replaced |
| `MachineRuns.HowASessionLeaves` | internal/connectip/session/manager.go:118-224 | a live session leaves only by its own Close or by a takeover of its own identity |
| `MachineRuns.NeverReturns` | internal/connectip/session/manager.go:161-166 | a session that has left the registry never returns |
| `MachineRuns.ClosedIsGoneForGood` | internal/connectip/session/manager.go:85-96 | once a session's Close has completed, no address leads to it for the rest of the run |
| `MachineRuns.SwapNeverFails` | internal/connectip/session/manager.go:207-209 | the compare-and-swap on `removed` succeeds whenever Close reaches it |
| `MachineRuns.GenerationsGrow` | internal/connectip/session/manager.go:161-163 | generations are kept, and later registrations have greater ones, below 2^64 registrations |
| `MachineRuns.LookupNeverGoesBack` | internal/connectip/session/manager.go:226-231 | for one address, a later lookup finds the same session or one of a greater generation |
| `MachineRuns.SweepLeavesOnlyNewcomers` | cmd/jiejie-masque/main.go:148-150 | when the shutdown loop ends, the only sessions still registered are ones that registered after its snapshot, whatever other threads do |
| `MachineRuns.SweepEmptiesExactly` | cmd/jiejie-masque/main.go:148-150 | the loop leaves both tables empty exactly when every session that registers during it is removed by its own Close or taken over before it ends |
| `MachineRuns.SweepEmptiesTheTables` | cmd/jiejie-masque/main.go:148-150 | in particular it does when no registration is accepted during the loop |
| `MachineScenarios.SweepMissesANewcomer` | cmd/jiejie-masque/main.go:148-154 | for every client there is a run in which the loop ends with the client registered, because it runs before the HTTP server is shut down |
| `MachineRuns.SweepClosesAll` | internal/connectip/session/manager.go:169-174 | when a closing loop ends, the Close of every session it was given has completed, in whichever thread |
| `MachineRuns.EvictedAreClosed` | internal/connectip/session/manager.go:150-174 | after Replace returns, the evicted session is cancelled, disconnected and unregistered for good |
| `MachineRuns.CloseReturnsClosed` | internal/connectip/session/manager.go:85-96 | when a call of Close returns, or a dispatch whose write failed, the session is cancelled, disconnected and unregistered for good, whichever thread did it |
| `MachineRuns.RefusalIsRecorded` | internal/connectip/session/manager.go:136-149 | a refused Replace ends its call and changes nothing but the record of refusals |
| `MachineRuns.CancelledSendsNoMore` | cmd/jiejie-masque/main.go:318-333 | once a session is cancelled, only packets that had already passed the test still get into the tunnel |
| `MachineScenarios.Connects` | internal/connectip/session/manager.go:118-167 | in every world the machine reaches with the lock free, a new session that passes the checks can be registered |
| `MachineScenarios.DeliveryToAReplacedSession` | cmd/jiejie-masque/main.go:275-279 | for every client and every packet to any of its addresses there is a run that writes the packet to a session already replaced |
| `MachineScenarios.EverySessionCanBeClosed` | internal/connectip/session/manager.go:85-96 | from every world of every run, the calls in progress can return and any session still live then be closed: cancelled, disconnected, and it alone unregistered |
| `MachineScenarios.ForwardingHappens` | cmd/jiejie-masque/main.go:308-315 | for every client and every packet its sessions may send, there is a run that writes the packet to the tunnel |
| `MachineProgress.WaitingGoesDown` | internal/connectip/session/manager.go:85-96 | a thread only waits for threads of a lower level: one-shot, then read lock, then write lock |
| `MachineProgress.NoWaitCycle` | internal/connectip/session/manager.go:85-96 | no chain of waiting threads, however built, comes back to its start, and none has more than four threads |
| `MachineProgress.SomeThreadContinues` | internal/connectip/session/manager.go:122-174 | whatever a thread in a call waits for, some thread can take the next step of its own call |
| `MachineProgress.StuckOnlyWhenDone` | internal/connectip/session/manager.go:122-174 | in every run, a call can be continued exactly when one has not returned, even if readers give way to waiting writers |
| `MachineProgress.StepLowersWork` | internal/connectip/session/manager.go:85-175 | every step of a call lowers the bound on what the call has left |
| `MachineProgress.CallIsBounded` | internal/connectip/session/manager.go:85-258 | a call takes at most its bound in own steps, whatever other threads do |
| `MachineProgress.QuietRunsAreBounded` | internal/connectip/session/manager.go:85-258 | while no new call starts, a run is no longer than the work that was left |
| `MachineProgress.EveryCallCanReturn` | internal/connectip/session/manager.go:85-258 | in every world of every run, all calls can return without a new one starting, and the lock is free then |
| `Registry.AdmittedExactly` | internal/connectip/session/manager.go:124-149 | Replace accepts exactly when no live session of another identity has one of the addresses and those that stay are fewer than a positive limit |
| `Registry.RefusedExactly` | internal/connectip/session/manager.go:131-149 | the refusal names the first of the addresses that a live session of another identity has; the capacity is the reason exactly when there is none and those that stay are as many as a positive limit |
| `Registry.CounterOf64Bits` | internal/connectip/session/manager.go:103-162 | the counter counts up to 2^64 - 1 and starts again at zero |
| `Registry.FirstConflict` | internal/connectip/session/manager.go:131-141 | the reported address is the first of the list that another identity owns |
| `Registry.RegisteringAgain` | internal/connectip/session/manager.go:142-149 | a registered session passes the checks again exactly below the limit |
| `Registry.ReplaceRefinesInsert` | internal/connectip/session/manager.go:118-167 | an accepted Replace is insertion of the session and removal of the one of its identity, and keeps the limit |
| `Registry.LookupAfterReplace` | internal/connectip/session/manager.go:150-166 | after Replace, the session's addresses lead to it, those of evicted sessions nowhere, and all others where they did |
| `Registry.AddressesAreDisjoint` | internal/connectip/session/manager.go:131-141 | two live sessions share no address |
| `Registry.RemoveRefinesDelete` | internal/connectip/session/manager.go:206-224 | RemoveIfCurrent deletes the session from the set and leaves every other session's entries alone |
| `Registry.RepresentsLive` | internal/connectip/session/manager.go:260-272 | the sessions found in the tables are exactly the set the tables stand for |
| `Registry.TablesCountAddresses` | internal/connectip/session/manager.go:195-204 | the two table sizes sum to the number of addresses of the live sessions |
| `SessionManager.NewWithAddresses` | internal/connectip/session/manager.go:53-83 | construction succeeds exactly for one valid, unmapped, unzoned address or one of each family, puts each into the field of its family, and panics for a reason that is true |
| `SessionManager.Session.OwnsAddress` | internal/connectip/session/manager.go:36-43 | true exactly for the session's addresses |
| `SessionManager.Session.Close` | internal/connectip/session/manager.go:85-96 | the first call cancels, disconnects and unregisters the session; later calls change nothing |
| `SessionManager.Manager.Replace` | internal/connectip/session/manager.go:118-175 | the whole outcome: refused without any change, or registered with the next generation and the rivals of its identity closed, touching no other session |
| `SessionManager.Manager.Register` | internal/connectip/session/manager.go:122-167 | the critical section of Replace against the specification of its checks and its insertion |
| `SessionManager.Manager.Decide` | internal/connectip/session/manager.go:123-149 | the checks, with their loops over the snapshot and over the addresses |
| `SessionManager.Manager.CollectOld` | internal/connectip/session/manager.go:123-141 | the loop over the addresses never adds to the sessions of the same identity |
| `SessionManager.Manager.DropAll` | internal/connectip/session/manager.go:150-160 | the entries of all evicted sessions, and no others, are dropped |
| `SessionManager.Manager.DropEntries` | internal/connectip/session/manager.go:212-223 | the loop over a session's addresses drops its current entries and reports whether there was one |
| `SessionManager.Manager.MapAddresses` | internal/connectip/session/manager.go:164-166 | every address of the session is entered in the table of its family |
| `SessionManager.Manager.CloseAll` | internal/connectip/session/manager.go:169-174 | every evicted session is closed, returned once, and none of the closings changes the registry |
| `SessionManager.Manager.RemoveIfCurrent` | internal/connectip/session/manager.go:206-224 | deletes the session once, and reports whether it was registered |
| `SessionManager.Manager.Lookup` | internal/connectip/session/manager.go:226-231 | the one live session that owns the address, or none when none does |
| `SessionManager.Manager.LookupLocked` | internal/connectip/session/manager.go:177-185 | the entry in the table of the address's family |
| `SessionManager.Manager.Len` | internal/connectip/session/manager.go:233-238 | the number of live sessions |
| `SessionManager.Manager.CountLocked` | internal/connectip/session/manager.go:195-204 | the number of distinct sessions in the tables |
| `SessionManager.Manager.Snapshot` | internal/connectip/session/manager.go:240-258 | lists each live session once, as many as there are |
| `SessionManager.Manager.SnapshotLocked` | internal/connectip/session/manager.go:260-272 | lists each session of the tables once |
| `Handlers.RegisterOrClose` | cmd/jiejie-masque/main.go:211-218 | a new session is registered in place of its client's previous one, or refused and closed |
| `Handlers.SetUp` | cmd/jiejie-masque/main.go:164-210 | which requests get as far as a session, the status (501, 401 or 400) of those turned down, and when the connection is closed instead |
| `Handlers.HandleRequest` | cmd/jiejie-masque/main.go:163-218 | from a request to a registered session, with every exit on the way, none of which changes the registry |
| `Handlers.Start` | cmd/jiejie-masque/main.go:72-112 | an accepted configuration, and no other, gives an index and an empty manager with a limit of the client count, which serve its clients; certificates, TUN device and socket of these lines are left out |
| `Handlers.HandleClient` | cmd/jiejie-masque/main.go:163-218 | in a server so started, a request is given a session exactly when its key is configured and the protocol and library calls succeed |
| `Handlers.CloseSessions` | cmd/jiejie-masque/main.go:148-150 | the shutdown loop closes every registered session and empties the registry |
| `Handlers.RegisterThenClose` | internal/connectip/session/manager.go:85-96 | a session closed after its registration stays registered exactly if it had been closed, or removed from a registry, before |
| `DataPath.DispatchTUNPacket` | cmd/jiejie-masque/main.go:270-294 | the packet goes to the live session that owns its destination; that session is cancelled, disconnected and unregistered exactly if an ICMP packet cannot be written, or the write fails otherwise than by closing while the context is not done; nothing else changes |
| `DataPath.SessionReader` | cmd/jiejie-masque/main.go:296-316 | the loop writes the specified packets, and the session is closed and unregistered exactly when the loop breaks |
| `DataPath.WrittenExactly` | cmd/jiejie-masque/main.go:296-316 | those packets are, in order, all that parse, come from an own address and go to neither server network, of the turns before the first that ends the loop; and it breaks exactly on a read error that is not one of closing, or a failed write |
| `DataPath.OutcomeIsUnique` | cmd/jiejie-masque/main.go:296-316 | this determines the turn in which the loop ends, the packets written and whether the session is closed |
| `DataPath.PassedPacketsAreOwn` | cmd/jiejie-masque/main.go:296-337 | whatever a client sends, the packets its reader writes come from the client's own addresses and go to no client and not to the server |
| `ClientIndex.BuildIndex` | cmd/jiejie-masque/main.go:80-83 | the index has exactly the keys of the clients, and for each the last client with it |
| `ClientIndex.SelectMihomoClient` | cmd/jiejie-masque/mihomo_config.go:175-182 | the search finds the first client with the key, or none |
| `ClientIndex.NoneWithoutTheKey` | cmd/jiejie-masque/mihomo_config.go:175-182 | both find nothing exactly when no client has the key |
| `ClientIndex.IndexAndSearchAgree` | cmd/jiejie-masque/main.go:80-83 | on an accepted client list both agree on every key and find each client by its own |
| `Config.ResolvedClients` | internal/connectip/config/config.go:184-246 | the loop, with its two maps, computes the specified list or the first client's first error |
| `Config.AcceptedExactly` | internal/connectip/config/config.go:184-246 | a configuration is accepted exactly when the server's addresses are in order, there is a client, each client is in order, and no two share an address or a key |
| `ConfigTheorems.AcceptedByTheFields` | internal/connectip/config/config.go:184-246 | acceptance in terms of the raw fields: families, ranges of refused addresses, host prefixes, quotients by the network size, distinct keys and addresses; and the result is what the fields hold |
| `ConfigTheorems.ErrorsAreTrue` | internal/connectip/config/config.go:70-97 | the error of a refused configuration is true of the server's fields, or of the fields of a client before which all are in order |
| `ConfigTheorems.ServerExactly` | internal/connectip/config/config.go:70-83 | the server's addresses are accepted exactly when both fields are in order and one is given |
| `ConfigTheorems.TunnelInOrder` | internal/connectip/config/config.go:51-68 | prefixes and addresses of the families present, IPv4 first |
| `Config.NextKeepsDistinct` | internal/connectip/config/config.go:220-243 | the next client is accepted exactly when it is in order and the list stays pairwise distinct in address and key |
| `Config.ResolvedIsPlaced` | internal/connectip/config/config.go:197-219 | an accepted client has a host address of at least one family, inside the server's network of that family and not the server's own |
| `Config.RecordAddresses` | internal/connectip/config/config.go:220-228 | the loop over the client's addresses reports the first duplicate or records both |
| `Config.Addresses` | internal/connectip/config/config.go:62-68 | the addresses of the valid prefixes, IPv4 first |
| `Config.UsableExactly` | internal/connectip/config/config.go:104-123 | the reserved-range test fires exactly when the prefix shares an address with a listed block |
| `ConfigTheorems.UsableByTheNumbers` | internal/connectip/config/config.go:104-123 | the same in numbers: the address is in none of the refused ranges, and the block of the prefix overlaps none of the four reserved ones |
| `NetAddr.BlocksMeetWhenOneHoldsTheOther` | internal/connectip/config/config.go:112-120 | two prefixes share an address exactly when one contains the other's own address |
| `NetAddr.ContainsABlock` | internal/connectip/config/config.go:118-214 | a prefix contains exactly the addresses of its family, without a zone, with the same quotient by 2^(32 - bits) or 2^(128 - bits): that many consecutive ones |
| `NetAddr.PowerTable` | internal/connectip/config/config.go:112-117 | these powers of two as numbers |
| `ExtensionChain.WalkIsExact` | internal/connectip/packet/parse.go:82-124 | the walk succeeds exactly when the buffer carries a chain within the limits, and returns that chain's end, protocol and fragment flags |
| `WireTheorems.WalkTurnInBytes` | internal/connectip/packet/parse.go:82-124 | one turn of the walk in bytes: which next-header values go on, by how many bytes each header is skipped, the limits, and where a later fragment ends it |
| `WireTheorems.WalkGoesOn` | internal/connectip/packet/parse.go:84-121 | the walk goes on from the fixed header exactly for 0, 43, 44, 51 and 60 |
| `ExtensionChain.ReadingIsEncoding` | internal/connectip/packet/parse.go:86-113 | the bytes read as one header are exactly those it is written as |
| `ExtensionChain.ChainReach` | internal/connectip/packet/parse.go:82-124 | a chain within the limits takes a multiple of four bytes and ends no farther than the limits allow |
| `Packet.WalkIPv6Extensions` | internal/connectip/packet/parse.go:82-124 | the loop, turn by turn, is the specified walk |
| `Packet.ParseIPv4` | internal/connectip/packet/parse.go:38-53 | the assignments of the IPv4 parser give the specified result |
| `Packet.ParseIPv6` | internal/connectip/packet/parse.go:55-80 | the assignments of the IPv6 parser give the specified result |
| `Packet.Parse` | internal/connectip/packet/parse.go:24-36 | the dispatch on the version nibble |
| `WireTheorems.OnlyTwoVersions` | internal/connectip/packet/parse.go:24-36 | only version nibbles 4 and 6 are parsed, each as itself |
| `WireTheorems.Parse4InBytes` | internal/connectip/packet/parse.go:38-53 | the IPv4 result byte by byte, addresses included |
| `WireTheorems.Parse6InBytes` | internal/connectip/packet/parse.go:55-80 | when an IPv6 packet parses, and its result from the fixed header and the end of the walk |
| `WireTheorems.Addresses6InBytes` | internal/connectip/packet/parse.go:70-70 | the IPv6 addresses byte by byte |
| `WireTheorems.EndsInBytes` | internal/connectip/packet/ipv4.go:23-24 | source and destination of a packet byte by byte |
| `WireTheorems.PortInBytes` | internal/connectip/packet/ipv4.go:26-33 | a port match in terms of the parsed result and two bytes |
| `PacketTheorems.EncodeThenParse` | internal/connectip/packet/parse.go:55-124 | printing any IPv6 packet within the limits and parsing it gives back its addresses, protocol, fragment flags and transport offset |
| `PacketTheorems.AcceptsWhatIsPrinted` | internal/connectip/packet/parse.go:55-124 | the parser accepts an IPv6 packet exactly when it can be printed |
| `PacketTheorems.WalkReach` | internal/connectip/packet/parse.go:82-124 | a walk ends on a 4-byte boundary inside the buffer, at most at 344, or at 352 behind a later fragment |
| `PacketTheorems.TransportOffsetRange` | internal/connectip/packet/parse.go:71-78 | an IPv6 transport offset is 0 or in 40..344 with four bytes behind it, and then the packet is a first TCP or UDP fragment |
| `PacketTheorems.DeepTransportOffset` | internal/connectip/packet/parse.go:106-116 | packets that reach offset 344 |
| `PacketTheorems.DeepLaterFragment` | internal/connectip/packet/parse.go:106-116 | packets whose walk reaches 352 |
| `PacketTheorems.LocalityOfWalk` | internal/connectip/packet/parse.go:82-124 | a walk depends on no byte behind its end |
| `PacketTheorems.LocalityV6` | internal/connectip/packet/parse.go:55-80 | IPv6 packets of one length that agree up to the walk's end parse alike |
| `PacketTheorems.LocalityV4` | internal/connectip/packet/parse.go:38-53 | IPv4 packets of one length that agree on 20 bytes parse alike |
| `PacketTheorems.PortMatchV6` | internal/connectip/packet/ipv4.go:26-33 | an IPv6 port matches exactly when it stands right behind the whole chain of a first fragment, in a TCP or UDP header |
| `PacketTheorems.PortMatchV4` | internal/connectip/packet/parse.go:45-51 | exactly when an IPv4 port is read from bytes behind the declared packet |
| `PacketTheorems.OffsetV4` | internal/connectip/packet/parse.go:8-18 | the documented promise, no transport offset without a trustworthy TCP or UDP header, holds for IPv4 exactly for later fragments and for packets that declare such a header |
| `PacketTheorems.OffsetWithoutTransportExists` | internal/connectip/packet/parse.go:45-51 | an ICMP packet for which an offset is reported |
| `PacketTheorems.PortPastDeclaredTotalExists` | internal/connectip/packet/parse.go:45-51 | a packet for which that happens |
| `DatagramTheorems.PrintedIsValid` | internal/connectip/packet/ipv4.go:8-21 | the header checks give back the header and total lengths of a printed packet |
| `DatagramTheorems.EncodeThenParseV4` | internal/connectip/packet/parse.go:38-53 | printing any IPv4 packet, with options and trailing bytes, and parsing it gives back its fields |
| `DatagramTheorems.AcceptsWhatIsPrintedV4` | internal/connectip/packet/ipv4.go:8-21 | the parser accepts an IPv4 packet exactly when it can be printed |
| `DatagramTheorems.PortOfADatagram` | internal/connectip/packet/ipv4.go:26-33 | an IPv4 port matches exactly when the bytes behind the header of a first TCP or UDP fragment are in the buffer and say so |

## Left out

- The TUN device, sockets, QUIC, HTTP/3, TLS and the CONNECT-IP library: a connection is an opaque handle, and what its calls and the tunnel's answer is an input.
- Certificates and key validation: an identity is an opaque string, the key of a request is given, and whether a key is valid is a parameter of resolution.
- Parsing of the request's protocol, authority and CONNECT-IP headers, and the routes sent to a client: whether each succeeds is an input of `Handlers.HandleRequest`.
- YAML and the text syntax of prefixes: resolution starts from parsed prefixes, a field being empty, malformed or a prefix.
- The `onClose` callback of a session: the server passes nil.
- Locks in `SessionManager`: a method there is one thread's code; `Machine` has the locks and the interleavings.
- The order in which Go ranges over a map: wherever the result could depend on it, any order is allowed.
- ICMP packets that WritePacket hands back: `DataPath.DispatchTUNPacket` has them, `Machine` does not log them as forwarded packets.
- Contents of buffers between calls: a packet is a value, so reuse of the dispatcher's read buffer is not represented.
- Starvation: threads are shown never to be stuck and calls to have bounded steps, but which waiting thread the scheduler picks is not modelled.
- Validation of the remaining configuration fields, routes, MTU, statistics and command-line handling: one-branch facts.
- MachineRuns.GenerationsGrow: speaks of runs with fewer than 2^64 registrations, because the counter wraps there.
- MachineRuns.LookupNeverGoesBack: speaks of runs with fewer than 2^64 registrations, because the counter wraps there.
