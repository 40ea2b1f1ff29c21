# nanodhcp, modelled in Dafny

nanodhcp is a DHCPv4 server for one LAN: it hands out addresses from a pool, remembers leases by MAC in a text file and
honours fixed `MAC -> IP` bindings. This project models its lease engine as one state machine and proves what every run
of it keeps, together with the pieces that machine stands on: the lease file, the wire codec, subnet arithmetic,
configuration checking and the calendar conversion used in log lines.

`dafny verify dfyconfig.toml` checks everything.

## How it is built

| module | models |
|---|---|
| `Base`, `Text` | machine words, network byte order; the string functions of the standard library that the parsers use |
| `MacText`, `Ip`, `Calendar` | `src/util/mac.rs`, `src/util/ip.rs`, `src/util/time.rs` |
| `Config` | `src/config/model.rs`, `src/config/validate.rs` |
| `Message`, `DhcpOptions`, `Packet`, `Builder` | `src/dhcp/` |
| `LeaseFile`, `LeaseStorage`, `Allocator` | `src/lease/` |
| `Protocol`, `ProtocolLaws` | `decide` in `src/server/daemon.rs`, and the laws of a single decision |
| `WireLaws` | requests and replies byte by byte, by the numbers of RFC 2131 and RFC 2132 |
| `System` | the receive loop as a state machine: memory, file, clock, `next_purge`, and the point reached in the loop |
| `Exclusivity`, `Necessity`, `Recovery` | whole-run theorems: what is safe, exactly when, and what a restart keeps |
| `Daemon` | `run` and `handle` as an imperative class, proved to be runs of the machine |

Code that updates things in place is imperative here too: `LeaseStore`, `OptionsWriter`, the packet buffer, the MAC
parser, `validate`, `assign_ip`, `decide`, `handle` and `run` are methods. Each is proved equal to a function of its inputs
or of the old state (`AnswerTo`, `After`, `Saves`, `Assign`, `ParseItems`, `Reply`, ...), and the theorems are about
those functions.

Every list of events is a run of the machine. An event is a clock reading (any value), a boot, a datagram (any bytes), a
receive timeout, a save (any iteration order of the hash map; it may fail), a send, a timer check or a crash (at any
point). What a theorem needs from its environment it says about the events: `BenignRun` is a clock that never goes back
and saves that succeed; `ForwardClock` is the first half alone; `BackedRun` lets saves fail, but each boot must find on
disk what holds the addresses of the ACKs in force of some clients: the client's own lease or, in a file written by
hand, one of a statically bound client, which nobody can end (its last argument asks for the own lease, with nobody
else there). `Server.Run` shows that the loop takes exactly its inputs, in order, and sends and saves exactly what the
machine does.

The ghost history `acks` records, for each client, the last address-granting ACK sent and not given up since by RELEASE,
DECLINE or a granted REQUEST for another address. The daemon never reads it.

## Where the code and its documents differ

The model follows the code.

- `docs/leases.md:37-44` lists the server's own address, quarantined addresses and addresses under another client's live
  lease among those never handed out. A static binding is returned before any such test
  (`src/lease/allocator.rs:22-24`), and `validate` accepts a static binding on the server's address.
  `ServerAddressExactly`, `QuarantinedExactly` and `TakenExactly` say when this happens, `ServerAddressMayBeBound`,
  `QuarantinedMayBeBound` and `TakenMayBeBound` that it can always be configured, and the "never" theorems are about
  clients without a static binding.
- `docs/leases.md:63` says the file is rewritten when a sweep removes anything. The sweep at startup does not
  (`src/server/daemon.rs:45-49`): `StartupLeavesExpiredOnDisk`. File and memory therefore agree on the leases that are
  live, and that is what `RunKeepsAgreement` states.
- `docs/leases.md:51-53` says a lease is written after the ACK is sent. `handle` saves first and sends even if the save
  failed (`src/server/daemon.rs:125-133`). The order is what makes exclusivity survive crashes. A failed save alone
  does no harm (`ExclusivityWithoutCrashes`); followed by a crash it may (`FailedSaveBreaksExclusivity`).
  `StaysExclusiveOverRuns` is the exact condition, after any run whatever with a forward clock: exclusivity lasts if and
  only if it holds now and the file holds the address of every ACK in force and of the grant about to be sent.
- A DECLINE repeated at once is not always idempotent, unlike a REQUEST: `DeclineIsIdempotentExactly`.
- A client whose lease has expired may notice a sweep: `PurgeInvisibleExactly`.

## Model

| member | source | states |
|---|---|---|
| `Exclusivity.CrashSafeExclusivity` | src/server/daemon.rs:116-134 | from any lease file, over every run with a forward clock and successful saves, with crashes at any point, no two clients hold unexpired ACKs for one address, and every such dynamic ACK has its lease on disk for at least as long |
| `Exclusivity.RunKeepsSafe` | src/server/daemon.rs:53-81 | the invariant behind it, from any safe state: every ACK in force has its lease in memory and on disk, alone on its address, and so has a grant about to be sent |
| `Exclusivity.SafeMeansExclusive` | src/lease/allocator.rs:33-41 | in a safe state any two unexpired ACKs name different addresses, whether their holders are static or dynamic |
| `Exclusivity.ExclusivityWhileBacked` | src/server/daemon.rs:53-81 | saves may fail: from any lease file and for any set of clients, a pair or all, no two of them hold unexpired ACKs for one address over any run with a forward clock whose every boot finds on disk what holds the addresses of their ACKs in force, whatever it lost of other clients |
| `Exclusivity.ExclusivityWithoutCrashes` | src/server/daemon.rs:126-133 | hence, from any lease file, in every run of a process that is never killed, whatever becomes of its saves |
| `Exclusivity.BenignIsBacked` | src/server/daemon.rs:125-130 | and successful saves are enough for any crash |
| `Necessity.StaysExclusiveExactly` | src/server/daemon.rs:125-134 | the exact condition, in any phase and from any state a forward clock can lead to, whatever was lost: every future with a forward clock and successful saves stays exclusive if and only if the state is exclusive and the file holds the address of every ACK in force and of the grant about to be sent, by the client's own lease or by one nobody can end |
| `Necessity.StaysExclusiveOverRuns` | src/server/daemon.rs:125-134 | so from any lease file, after any run with a forward clock, whatever saves failed and whatever leases boots missed, the future is exclusive if and only if the present is and the file holds it |
| `Necessity.LossBreaks` | src/lease/allocator.rs:44-56 | the hard half: if the file of a stopped daemon does not hold the address of one ACK in force, there is a run, every save of it successful, in which a second client is acknowledged the same address |
| `Necessity.SecondClient` | src/config/validate.rs:97-128 | the second client always exists: a usable configuration cannot bind every MAC |
| `Necessity.RunKeepsDynamicOnly` | src/server/daemon.rs:234-244 | no run ever records a lease for a statically bound client, in memory or in the file |
| `Necessity.DynamicOnlyMeansOwn` | src/lease/store.rs:126-136 | so where the first file had none, only the client's own lease can hold the address of its ACK |
| `Exclusivity.RunKeepsMemory` | src/server/daemon.rs:116-134 | the half of the invariant kept by failing saves too, for any set of clients whose ACKs boots find on disk: memory holds the addresses their ACKs in force promised |
| `Exclusivity.RunKeepsSound` | src/server/daemon.rs:116-134 | what every run with a forward clock keeps, whatever is lost: memory is no worse than the file, and a decided grant is in memory, alone on its address, until it is sent |
| `Exclusivity.ReceiveKeepsAck` | src/server/daemon.rs:209-287 | any packet keeps both, client by client |
| `Exclusivity.StepKeepsDisk` | src/server/daemon.rs:116-134 | the other half, kept by every step as long as saves succeed: every ACK in force, and every grant about to be sent, has its lease on disk |
| `Exclusivity.SaveKeepsDisk` | src/lease/store.rs:126-151 | replacing the file in the middle of a grant or after a sweep loses no lease behind an ACK |
| `Exclusivity.BootKeepsAck` | src/server/daemon.rs:45-50 | reloading the file and the startup sweep turn what is on disk for a client into what is in memory |
| `Exclusivity.RenewalOverRuns` | src/server/daemon.rs:209-250 | from any lease file, after any run whose boots find this one client's lease on disk alone on its address, whatever other clients, sweeps, failed saves and crashes did, the client whose ACK is in force and who asks to keep its address gets an ACK for it, read back from the reply bytes, if and only if the address is not quarantined |
| `Exclusivity.ConflictFreeIsAlone` | src/lease/store.rs:126-151 | where no two clients share an address on disk to begin with, finding a client's own lease is finding it alone |
| `Exclusivity.AnswersAvoidAcksOverRuns` | src/server/daemon.rs:195-250 | from any lease file, if every boot finds on disk what holds one client's address, then whatever it lost of others, no OFFER and no ACK decided for another client, and no reply in its bytes, names the address for which that client, static or dynamic, has an ACK in force |
| `Exclusivity.AnswerAvoidsAcks` | src/lease/allocator.rs:33-56 | the same from any sound state whose memory holds that client's address |
| `Exclusivity.RenewalIsStable` | src/lease/allocator.rs:44-49 | the same from any sound state whose memory holds that client's lease alone on its address |
| `Recovery.RunKeepsAgreement` | src/server/daemon.rs:125-130 | with a forward clock and successful saves, file and memory hold the same live leases except between a decision and its save |
| `Recovery.RestartKeepsLiveLeases` | src/server/daemon.rs:45-46 | killing an idle daemon and booting it at any later time keeps exactly the leases live then and drops exactly the quarantines |
| `Recovery.StartupLeavesExpiredOnDisk` | src/server/daemon.rs:45-49 | boot leaves the file as it was; memory equals the file afterwards exactly when nothing in it had expired |
| `Recovery.StalenessBound` | src/server/daemon.rs:66-80 | with a forward clock, whatever becomes of the saves, at the end of every iteration the timer is ahead of the clock and nothing in memory is 300 seconds past its expiry |
| `Recovery.SweptEvery300` | src/server/daemon.rs:50-80 | after a boot or a sweep at `t`, short of a crash, every timer check before `t + 300` leaves memory and timer alone, and the first at `t + 300` or later sweeps |
| `Recovery.DroppedOnlyWhenDue` | src/server/daemon.rs:66-80 | so a timer check drops a lease exactly if it has expired and 300 seconds have passed since the timer was set |
| `Recovery.RunKeepsSwept` | src/server/daemon.rs:50-80 | the invariant behind it, kept by failing saves and crashes too: nothing in memory expired before the last sweep |
| `Recovery.QuarantineWindow` | src/server/daemon.rs:269-287 | for 3600 seconds after a DECLINE, in any later run of the same process with a forward clock, saves failing or not, no reply to a client without a static binding carries the declined address in its bytes |
| `Recovery.RunKeepsHeld` | src/lease/store.rs:85-94 | no packet, re-decline, sweep or failed save ends a quarantine early |
| `Recovery.FailedSaveBreaksExclusivity` | src/server/daemon.rs:126-133 | a witness for the need of the condition in `StaysExclusiveExactly`: any two dynamic clients, served by a daemon that dies after each ACK and fails its first save, end with unexpired ACKs for the same address |
| `Recovery.EmptyStoreAssignsAlike` | src/lease/allocator.rs:51-56 | an empty store gives every dynamic client the same address |
| `System.RunKeepsConflictFree` | src/server/daemon.rs:229-243 | with any clock values, even going back, any save outcomes and crashes, no two MACs share an address in memory or in the file |
| `System.RunKeepsConfined` | src/lease/allocator.rs:29-58 | every lease in memory and file stays on a pool address no static binding uses |
| `System.CapacityOverRuns` | src/lease/allocator.rs:29-58 | starting without a file, leases in memory or on disk plus static addresses in the pool never exceed the pool size |
| `System.ExecConcat` | src/server/daemon.rs:53-81 | a run followed by a run is a run, and is benign exactly when both parts are |
| `Daemon.Server.constructor` | src/server/daemon.rs:45-50 | startup is the machine's boot step: load, sweep, arm the timer |
| `Daemon.Server.Handle` | src/server/daemon.rs:116-134 | reply, new store and save outcome are those decided for the packet; the file is replaced by the new leases exactly when the decision asks and the save succeeds, and is otherwise as before, as everything is after a malformed datagram |
| `Daemon.Server.Persist` | src/lease/store.rs:126-151 | a successful save makes the file denote the leases in memory; a failed one leaves it alone; the loop goes on either way |
| `Daemon.Server.CheckTimer` | src/server/daemon.rs:66-80 | the store is swept and the timer set exactly when due; the file is replaced exactly when the sweep drops a lease and the save succeeds, and is otherwise as before |
| `Daemon.Server.Iterate` | src/server/daemon.rs:53-81 | one turn: memory, saves with their outcomes, reply and events taken in, all as computed from memory and input; without a successful save the file is untouched |
| `Daemon.Server.Run` | src/server/daemon.rs:53-81 | for any inputs, memory, replies and save outcomes are those of the turns in order, the record is an execution of the machine with exactly these events, sends and saves, and with a forward clock and successful saves the daemon ends safe and in agreement if it started so |
| `Daemon.TrailIsRun` | src/server/daemon.rs:53-81 | the step-by-step record the methods keep is an execution of the machine with what it took in, sent and saved |
| `Protocol.Decide` | src/server/daemon.rs:172-311 | reply, destination, save flag and new store are the specified ones for every packet and store |
| `Protocol.DecideRequest` | src/server/daemon.rs:209-258 | the REQUEST branch: silence, grant or refusal as specified |
| `Protocol.DecideDecline` | src/server/daemon.rs:269-287 | the DECLINE branch: which address is quarantined, which lease dropped, when to save |
| `ProtocolLaws.DecideKeepsInjective` | src/server/daemon.rs:229-243 | no packet puts two clients on one address, whatever the clock says |
| `ProtocolLaws.GrantIsUnshared` | src/lease/allocator.rs:36-40 | an address granted is no other client's live lease at that second |
| `ProtocolLaws.DecideKeepsConfined` | src/lease/allocator.rs:33-58 | no packet creates a lease outside the pool or on a static address |
| `ProtocolLaws.DecideKeepsStorable` | src/dhcp/options.rs:102-114 | whatever a client sends, the leases can be written to the file and read back |
| `ProtocolLaws.HostnameIsToken` | src/dhcp/options.rs:102-114 | a sanitised hostname is one non-empty word without whitespace |
| `ProtocolLaws.OthersUntouched` | src/server/daemon.rs:229-287 | a packet never changes or drops another client's unexpired lease and creates none for it |
| `ProtocolLaws.UnsavedMeansUnchanged` | src/server/daemon.rs:144-150 | leases change only when the save flag is set |
| `ProtocolLaws.GivingUpForgets` | src/server/daemon.rs:260-287 | RELEASE and DECLINE drop exactly the sender's lease, silently, and ask for a save exactly when there was one |
| `ProtocolLaws.StaticClientsLeaveLeasesAlone` | src/server/daemon.rs:234-287 | no packet from a statically bound client touches the leases |
| `ProtocolLaws.NotForUsIsInert` | src/server/daemon.rs:177-227 | relayed, untyped, other servers' and unknown clients' requests get no reply and change nothing |
| `ProtocolLaws.OfferIsHonoured` | src/server/daemon.rs:195-250 | an OFFER changes nothing, and its address is granted to the client that takes it up on the same store at the same second |
| `ProtocolLaws.GrantedLease` | src/server/daemon.rs:234-244 | a dynamic grant leaves exactly the lease it announced, expiring `lease_time` from now, and asks for a save |
| `ProtocolLaws.QuarantineFrame` | src/server/daemon.rs:273-281 | no other packet adds or extends a quarantine, or ends one early |
| `ProtocolLaws.QuarantinedIsGivenExactly` | src/lease/allocator.rs:21-56 | a quarantined address is offered or granted exactly to a client statically bound to it that asks as usual |
| `ProtocolLaws.DeclinedStaticIsOffered` | src/lease/allocator.rs:21-24 | which happens: right after declining its static address a client is offered it again |
| `ProtocolLaws.RenewalGranted` | src/lease/allocator.rs:44-49 | a client asking for its own pool address is granted it, its lease expired or not, exactly when the address is neither quarantined nor another client's live lease |
| `ProtocolLaws.RequestIsIdempotent` | src/server/daemon.rs:209-257 | the same REQUEST twice in a second: same answer, same flag, same store as once |
| `ProtocolLaws.DeclineIsIdempotentExactly` | src/server/daemon.rs:269-287 | the same DECLINE twice in a second leaves the store as once, except exactly when a dynamic client with a lease names no address and its non-zero `ciaddr`, not the leased address, is not already quarantined until just then |
| `ProtocolLaws.PurgeIsInvisible` | src/lease/store.rs:101-110 | a sweep at any earlier time changes neither answer nor save flag nor, up to expired entries, the resulting store, for a client whose lease is absent or live then |
| `ProtocolLaws.PurgeInvisibleExactly` | src/server/daemon.rs:222-227 | and for no other dynamic client: the condition is exact |
| `WireLaws.HeaderOnTheWire` | src/dhcp/builder.rs:15-31 | of every reply decided, byte by byte: op 2, Ethernet, the request's own xid, flags, giaddr and chaddr, the decided address, this server's address, the cookie, zeros elsewhere |
| `WireLaws.OptionsOnTheWire` | src/dhcp/builder.rs:42-92 | of every reply decided, whatever bytes follow: options 53, 54, 51 and 1 as the answer demands; options 3 and 6 exactly when configured and either asked for by number in option 55 or no list was sent; nothing in a NAK; no other option |
| `WireLaws.DestinationOnTheWire` | src/server/daemon.rs:316-330 | every reply decided goes to the sender's own non-zero `ciaddr` for an INFORM, or for a grant to a client with an address and the broadcast bit clear, and to everybody in all other cases |
| `ProtocolLaws.RenderedReads` | src/dhcp/builder.rs:76-92 | a reply exists exactly for an answer, is 241 to 522 bytes, and a client reading it finds the decided type, address and lease time |
| `WireLaws.RequestFields` | src/dhcp/packet.rs:58-64 | the fields of an accepted request are the bytes at their offsets, options from 240 on |
| `WireLaws.FieldsByNumber` | src/dhcp/options.rs:80-97 | requested address, server and request list are the first items numbered 50, 54 and 55, when 4 bytes, 4 bytes and not empty |
| `WireLaws.TypeByNumber` | src/dhcp/options.rs:71-78 | each message type is exactly its one-byte value of option 53 |
| `WireLaws.HostnameByBytes` | src/dhcp/options.rs:102-114 | the hostname is option 12: kept as it is when all its bytes may stand in a name, none exactly when no byte may |
| `WireLaws.NetworkOrder` | src/dhcp/packet.rs:58-61 | words travel most significant byte first |
| `WireLaws.ReplyOptions` | src/dhcp/builder.rs:42-70 | the same of any reply the builder can build |
| `Allocator.AssignIp` | src/lease/allocator.rs:20-59 | the search with early return computes the specified assignment |
| `Allocator.AssignMeaning` | src/lease/allocator.rs:43-58 | own previous address if usable, else the least usable pool address, else none exactly when no pool address is usable |
| `Allocator.FirstPassing` | src/lease/allocator.rs:51-58 | the least address in the range that passes, none exactly when none passes |
| `Allocator.AssignAvoids` | src/lease/allocator.rs:33-41 | every address given is a host address; a dynamic client never gets the server's, a static or a quarantined one |
| `Allocator.ServerAddressExactly` | src/lease/allocator.rs:21-24 | the server's own address is given exactly to a client statically bound to it |
| `Allocator.ServerAddressMayBeBound` | src/config/validate.rs:97-128 | any usable configuration stays usable with a static binding on the server's address, and that client gets it |
| `Allocator.QuarantinedExactly` | src/lease/allocator.rs:21-56 | a quarantined address is given exactly to a client statically bound to it |
| `Allocator.QuarantinedMayBeBound` | src/config/validate.rs:97-128 | any usable configuration stays usable with a static binding on any free host address, and that client gets it during a quarantine |
| `Allocator.TakenExactly` | src/lease/allocator.rs:21-56 | an address under another client's live lease is given exactly to a client statically bound to it |
| `Allocator.TakenMayBeBound` | src/config/validate.rs:97-128 | any usable configuration stays usable with a static binding on a free host address, and that client gets it while another client's lease there is live |
| `Allocator.ReservedInPool` | src/lease/allocator.rs:33-35 | in a usable configuration, reserved within the pool means static |
| `Allocator.ExhaustedExactly` | src/lease/allocator.rs:51-58 | no address is found exactly when static, taken and quarantined addresses cover the pool |
| `Allocator.NoFalseExhaustion` | src/lease/allocator.rs:51-58 | fewer blocked addresses than pool addresses means one is found |
| `Allocator.CapacityBound` | src/lease/allocator.rs:29-58 | conflict-free leases confined to the pool number at most pool size less static addresses in it |
| `LeaseFile.LoadSaved` | src/lease/store.rs:126-136 | loading what was saved gives the map back for every storable map and every iteration order, a `-` hostname becoming none |
| `LeaseFile.LoadSavedExactly` | src/lease/store.rs:161-165 | nothing is lost exactly when no hostname is `-` |
| `LeaseFile.LineParses` | src/lease/store.rs:155-173 | a printed line parses to its lease |
| `LeaseFile.LineText` | src/lease/store.rs:129-135 | and is MAC, address, hostname or dash, and expiry, with single spaces between |
| `LeaseFile.ExtraWordsIgnored` | src/lease/store.rs:156-165 | words after the fourth do not change the lease read |
| `LeaseFile.ShortLineIsNoLease` | src/lease/store.rs:156-160 | fewer than four words are no lease |
| `LeaseFile.LastLineCounts` | src/lease/store.rs:44-59 | each line acts on what the lines before gave: blank, comment and malformed lines not at all, any other by setting its client's lease |
| `LeaseFile.LoadedIsStorable` | src/lease/store.rs:40-69 | whatever text is loaded, the result can be saved and loaded without loss |
| `LeaseFile.SortEnumerates` | src/lease/store.rs:113-117 | the sorted list holds every lease once, in ascending address order |
| `LeaseFile.SaveIsCanonicalExactly` | src/lease/store.rs:113-136 | the saved bytes are the same for every hash-map order if and only if no two leases share an address |
| `LeaseStorage.LeaseStore.Load` | src/lease/store.rs:40-69 | the loading loop reads what the text denotes and starts without quarantines |
| `LeaseStorage.LeaseStore.PurgeExpired` | src/lease/store.rs:101-110 | keeps exactly the unexpired entries; each count is zero exactly when that map is unchanged |
| `LeaseStorage.PurgeKeepsExactly` | src/lease/store.rs:101-105 | an entry survives a purge unchanged exactly if it expires later than now |
| `LeaseStorage.LeaseStore.Save` | src/lease/store.rs:126-136 | the bytes list every lease once, sorted, and load back to the same leases |
| `LeaseStorage.LeaseStore.Remove` | src/lease/store.rs:79-81 | drops only that lease and returns it |
| `LeaseStorage.PurgeTwice` | src/lease/store.rs:101-105 | purging early and again later is purging later |
| `DhcpOptions.Parse` | src/dhcp/options.rs:32-62 | the index loop is total and in bounds and returns what the bytes denote |
| `DhcpOptions.ParseEncode` | src/dhcp/options.rs:137-178 | parsing a finished writer yields exactly the pushed list, whatever follows the end mark |
| `DhcpOptions.RoundTripExactly` | src/dhcp/options.rs:37-43 | and does so exactly when no pushed code is 0 or 255 |
| `DhcpOptions.RewriteIsIdentity` | src/dhcp/options.rs:32-62 | re-writing the items of arbitrary bytes and parsing again gives the same items |
| `DhcpOptions.ParseIsPrefixStable` | src/dhcp/options.rs:44-57 | more bytes never change the items already read |
| `DhcpOptions.Find` | src/dhcp/options.rs:64-69 | the first item with the code, none exactly when there is none |
| `DhcpOptions.SanitizeFilters` | src/dhcp/options.rs:104-108 | safe characters are kept in order and all others dropped |
| `DhcpOptions.OptionsWriter.Push` | src/dhcp/options.rs:137-152 | appends one TLV and nothing else |
| `DhcpOptions.OptionsWriter.PushIpv4List` | src/dhcp/options.rs:166-172 | appends one TLV with every address in order; the length assertion cannot fire for 63 addresses |
| `DhcpOptions.OctetsOfAllAt` | src/dhcp/options.rs:166-172 | each address is read back at four times its index |
| `Packet.AcceptedExactly` | src/dhcp/packet.rs:38-66 | a datagram is accepted exactly when length, op, htype, hlen and cookie are right; the `chaddr` error never occurs |
| `Packet.ArrivesExactly` | src/dhcp/packet.rs:58-73 | the packets some datagram parses to are exactly those whose options have a TLV form |
| `Builder.Build` | src/dhcp/builder.rs:33-74 | the in-place builder and the writer produce the specified reply, and the writer's assertion never fires |
| `Builder.BaseReply` | src/dhcp/builder.rs:15-31 | the copies into the zeroed buffer produce the specified header |
| `Builder.HeaderFields` | src/dhcp/builder.rs:15-31 | every field a client reads is at its offset, with the wire's own numbers for op, type, length and cookie |
| `Builder.ReplyParses` | src/dhcp/builder.rs:42-73 | the options of a reply parse back to exactly the list it was built from, even with bytes after it |
| `Builder.ReplyReadsAsPacket` | src/dhcp/packet.rs:38-74 | the server ignores its own replies, and with the first byte changed reads back the echoed fields and options |
| `Builder.ReplyIsSmall` | src/dhcp/builder.rs:33-74 | no reply exceeds 522 bytes |
| `Config.Validate` | src/config/validate.rs:16-135 | no error is reported exactly for a usable configuration, which is exactly one that serves: the announced mask puts the subnet's addresses and no others on the link, server, router, pool and bound addresses are hosts of it, none has two owners |
| `Config.ValidExactlyServes` | src/config/validate.rs:36-128 | the checks as the source makes them and what they buy a client are the same condition |
| `Config.EveryoneIsOnLink` | src/config/validate.rs:36-54 | by the announced mask a client finds server, router and every other client on its own link |
| `Config.CheckStatics` | src/config/validate.rs:97-128 | the loop with its two maps passes exactly when static MACs and addresses are pairwise distinct host addresses |
| `Config.SeenMeansRepeated` | src/config/validate.rs:115-127 | looking up printed MACs finds exactly the repeated bindings |
| `Config.PoolIsHostRange` | src/config/validate.rs:45-95 | in a usable configuration every pool address lies in the subnet, off its edges and off the server |
| `Config.ServableExactly` | src/config/validate.rs:45-95 | some configuration of a subnet passes exactly when its prefix is at most 30 |
| `Config.StaticForIsInjective` | src/config/model.rs:43-45 | the address found for a MAC belongs to no other MAC |
| `Ip.ContainsIsInterval` | src/util/ip.rs:49-51 | membership by mask is membership between network and broadcast address, for every prefix from 0 to 32 |
| `Ip.SubnetSize` | src/util/ip.rs:25-46 | broadcast is network plus the host mask, and the subnet has 2^(32-prefix) addresses |
| `Ip.MaskValue` | src/util/ip.rs:25-31 | the shifted mask is 2^32 - 2^(32-prefix), also for prefix 0 |
| `Ip.DescribesExactly` | src/util/ip.rs:25-51 | a mask puts exactly the subnet's addresses into its network if and only if it is the subnet's own |
| `Ip.ParseIpExactly` | src/lease/store.rs:158 | the address parser accepts exactly the texts that are printed |
| `MacText.FromStr` | src/util/mac.rs:51-69 | the octet loop accepts exactly six valid pieces and returns them in order |
| `MacText.DisplayParses` | src/util/mac.rs:30-39 | printing a MAC and parsing the text gives the MAC back |
| `MacText.DisplayInjective` | src/util/mac.rs:30-39 | two MACs with the same text are the same |
| `MacText.DisplaySpells` | src/util/mac.rs:30-39 | the text is 17 characters: two lower-case hex digits for each byte in order, colons between |
| `MacText.CaseDoesNotMatter` | src/util/mac.rs:50-59 | upper-case digits parse as lower-case ones |
| `Calendar.DayNumberOfCivil` | src/util/time.rs:26-37 | for every day number, before the epoch too, the date is valid and counting days to it gives the number back |
| `Calendar.CivilStepsByDay` | src/util/time.rs:26-37 | the next day number gives the next calendar day |
| `Calendar.CivilIsDaysLater` | src/util/time.rs:26-37 | the closed form is counting day by day from 1970-01-01 |
| `Calendar.CivilOfDayNumber` | src/util/time.rs:26-37 | every existing date comes back from its day number: the conversion is a bijection |
| `Calendar.CommentedRanges` | src/util/time.rs:28-35 | every intermediate value stays in the range its comment gives, so the casts lose nothing |
| `Calendar.UtcDenotesSeconds` | src/util/time.rs:16-22 | the six parts printed denote exactly the timestamp |

## Left out

- Sockets, interface binding, the 1500-byte receive buffer, signals and `send_to`: receiving and sending are events; any datagram may arrive.
- File system: a save is one atomic replacement of the text, or nothing; a missing, unreadable or non-UTF-8 file is the empty text.
- Logging, the command line, the lease table and the `key=value` configuration parser: no effect on the engine's state. Configurations are values, and validation errors carry no wording.
- `allow_unbound`, the store's path and `LeaseKind`, which is `Dynamic` for every stored lease.
- Integer widths: word values are ranges of `int`, and instants are such that `now + lease_time` and `now + 3600` stay below 2^64, as the source's unchecked additions need. The 64-bit overflow of day numbers near the ends of `i64` is not modelled.
- The `u32` operators `&`, `|`, `!` and `<<` are defined bit by bit on numbers rather than taken from bit-vectors.
- The two clock readings at startup are one instant.
- `OptionsWriter` and `LeaseStore` hold immutable sequences and maps in fields that are reassigned; capacity and hash layout are not modelled. The order of a hash map is an arbitrary enumeration.
- The sort of the standard library is a stable insertion sort as a function; only its result matters.
- Printing of the date parts with zero padding.
- Relaying, several servers sharing a pool, reserving an offered address, message size negotiation and option concatenation: the program does not attempt them.
- A change of configuration between restarts: one configuration is fixed for a whole run.
- CrashSafeExclusivity: assumes a clock that does not go back and saves that succeed; `StaysExclusiveExactly` says exactly what failed saves cost, and with neither assumption `RunKeepsConflictFree` still holds.
- StaysExclusiveExactly: is about instants from which `lease_time` can be counted, as everything here is.
