# Serverless 5G core: a verified model

This project models the stateful heart of a serverless 5G core in Dafny and proves what holds of it over every
run: the PDU session lifecycle across SMF, BSF, CHF, NSACF and UPF, registration bookkeeping at the AMF, 5G-AKA
freshness, the NAS integrity MAC, the NAS codec, and the per-UE state machine of the SCTP proxy.

Handlers that update state exist twice. A specification function gives the new state as a value
(`Smf.Create`, `Bsf.Register`, `Proxy.Uplink`, ...). A class method does the same work step by step, with the loops,
rollbacks and field updates of the program (`Core.NetworkCore`, `ProxyServer.UeContext`, `Aka.Authenticator`,
`UeStateMachine.Machine`), and is proved to end in the state that the function gives. Decoders and the MAC are methods
over moving offsets and byte buffers, proved equal to recursive definitions. What the program promises is then proved
of the functions, over all inputs and all runs.

| file | contents |
|---|---|
| `Text.dfy`, `Arith.dfy`, `Octets.dfy`, `Models.dfy` | decimal text and identifiers, remainders, byte strings, stored records |
| `Keys.dfy`, `Store.dfy`, `StoreRuns.dfy` | the printed keys, the flat store behind the tables, handlers and runs as writes to it |
| `IpPool.dfy` | the address pool and its cursor |
| `Bsf.dfy`, `Chf.dfy`, `Nsacf.dfy` | bindings, charging and slice counters, each over its own runs |
| `World.dfy`, `Smf.dfy`, `Amf.dfy` | the shared state and the session and registration handlers on it |
| `SmfInvariant.dfy`, `Runs.dfy` | the invariant that ties the tables together, and whole runs |
| `UpfRuns.dfy`, `CounterRuns.dfy`, `ChargingRuns.dfy`, `BindingRuns.dfy`, `PoolRuns.dfy` | what whole runs leave at the UPF, in the slice counters, in charging records, in the binding indexes, and at the address cursor |
| `Outcomes.dfy` | what callers of the session and registration handlers are answered, and what is stored behind each answer |
| `Core.dfy` | all these handlers as methods of one class |
| `Cmac.dfy` | AES-CMAC, its subkeys in GF(2^128), 128-EIA2 framing |
| `NasBase.dfy`, `NasNssai.dfy`, `NasTransport.dfy`, `NasIdentity.dfy`, `NasAuthentication.dfy` | the NAS codec |
| `Proxy.dfy`, `ProxyMessages.dfy`, `ProxyServer.dfy` | the proxy's state machine: traces, what is sent and when, and the handlers on context objects |
| `Aka.dfy`, `UeStateMachine.dfy` | authentication vectors, RM and CM states |

Conventions. Integer widths are explicit: uint64 counters and volumes wrap at 2^64, the downlink COUNT at 2^32, the
sequence number at 256, SQN at 2^48. Theorems about runs of the session core hold for runs of fewer than 2^64
requests, after which the counters behind session, binding and charging identifiers would start over. Everything
outside a handler is an input of its environment argument: whether each Put succeeds, what PCF, UPF and NSACF answer,
and for every call to another function whether it was served, never arrived, or was served and its answer lost.

Where the code does less than its name suggests, the model follows the code and says when the property holds:

* Deregistering a binding removes the SUPI+DNN entry whatever it points to, so a newer binding of the same key
  stays registered but is no longer found (`Bsf.OlderDeregistrationHidesNewerBinding`); an entry survives an operation
  exactly when the operation does not touch its key (`Bsf.StaysIndexedIffUntouched`).
* A registration that overwrites a context, or whose context cannot be stored, leaves the slice counters too high, and so
  does a lost decrement; a lost increment leaves them too low (`CounterRuns.CountersCanDrift`). The counter is off by
  exactly a balance read off the run, and never under-counts if and only if the balance never goes negative
  (`CounterRuns.UeCounterBalance`, `CounterRuns.NeverUnderCountsIff`). Slices whose SST is not positive are not counted at
  all (`CounterRuns.UncountableSlicesReadZero`).
* A create whose session cannot be stored leaves its SEID behind at the UPF (`UpfRuns.StrandingHappens`). The SEIDs there
  are those of the stored sessions and the stranded ones (`UpfRuns.UpfAccount`); there are none but those of the stored
  sessions if and only if no create of the run met the condition `UpfRuns.Strands`
  (`UpfRuns.UpfHoldsExactlyTheStoredSessions`).
* A Security Mode Command always carries sequence number 0 but the running COUNT, so a failed NGAP build before it
  takes the two out of step (`Proxy.RepeatedSmcOutOfStep`). Sequence number and COUNT stay aligned throughout a trace if and
  only if no event meets `Proxy.Misaligns` (`Proxy.AlwaysAlignedIff`).
* The RM and CM states are integers, and the targets of transitions are not checked. A connected UE asked to an undeclared
  RM state stays connected without being registered, and a deregistration out of an undeclared CM state writes a record
  that starts at CM-CONNECTED (`UeStateMachine.UndeclaredTargetsMatter`). Both happen under exact conditions
  (`UeStateMachine.AlwaysSoundIff`, `UeStateMachine.LogContiguousIff`).

## Model

| member | source | states |
|---|---|---|
| Text.SerialOfIdentifier | functions/smf/pdu-session-release/handler.go:140-148 | parsing the number after the last dash inverts identifier printing for every SUPI, dashes included, and every uint64 |
| Text.IdentifierInjective | functions/smf/pdu-session-create/handler.go:269 | two different pairs of SUPI and number never print to the same identifier |
| Text.IdentifierInPrint | functions/smf/pdu-session-create/handler.go:269 | an identifier as it is read |
| Keys.PrintRoundTrip | pkg/state/store.go:18-26 | a printed store key determines its family and its name, for all eleven families |
| Keys.KeysInPrint | pkg/state/store.go:18-26 | the prefixes of all eleven families |
| Keys.FlatGet | pkg/state/store.go:21-23 | a lookup in a table is the lookup of the printed key in the flat store |
| Keys.FlatPut | pkg/state/store.go:19-20 | a Put into a table is the Put under the printed key, disturbing no other table |
| Keys.FlatDelete | pkg/state/store.go:24-25 | the same for Delete |
| Store.GetReadsTheTable | pkg/state/store.go:21-23 | a Get under a printed key of the shared store finds exactly what the table of that family holds |
| Store.BindingRegisterWrites | functions/bsf/binding-register/handler.go:98-117 | a registration is up to three Puts under its printed keys, in order, ending at the first that fails |
| Store.BindingDeregisterWrites | functions/bsf/binding-deregister/handler.go:72-83 | a deregistration is the Deletes of both index keys and of the record |
| Store.ChargingOpWrites | functions/chf/charging-release/handler.go:64-98 | charging create, update and release as writes; the record is put before the session is deleted |
| Store.UpdateCountersWrites | functions/nsacf/update-counters/handler.go:70-104 | a counter update is one Put under the slice key, or nothing |
| Store.CountUesWrites | functions/amf/registration/handler.go:250-256 | a row of counter calls is a row of such Puts |
| StoreRuns.CreateIsWrites | functions/smf/pdu-session-create/handler.go:129-333 | a create as writes: the address, its Delete on every failure, the session, and those of the calls it makes |
| StoreRuns.TeardownIsWrites | functions/smf/pdu-session-release/handler.go:96-127 | a release as writes, in the order of the handler |
| StoreRuns.RegisterIsWrites | functions/amf/registration/handler.go:234-287 | a registration as writes: counters first, then the context |
| StoreRuns.DeregisterIsWrites | functions/amf/deregistration/handler.go:83-115 | a deregistration as writes: counters first, then the Delete of the context |
| StoreRuns.RunIsWrites | pkg/state/store.go:18-26 | in every run the flat store is what the Puts and Deletes of all requests, under their printed keys and in order, made of it |
| StoreRuns.AllocatedKeysAreTheSessionsAddresses | functions/smf/pdu-session-create/handler.go:144-160 | the keys under ip-pool/allocated/ in the flat store are those of the stored sessions' addresses |
| StoreRuns.AkaIsWrites | functions/udm/generate-auth-data/handler.go:98-108 | vector generation puts the number, then the vector; a success deletes the vector; nothing else is written |
| IpPool.AddressesDistinct | functions/smf/pdu-session-create/handler.go:118-135 | the 65,024 printed addresses are pairwise different and not empty |
| IpPool.PoolInPrint | functions/smf/pdu-session-create/handler.go:133-143 | the order of the pool and the text of each address, subnet in front of host |
| IpPool.FirstFree | functions/smf/pdu-session-create/handler.go:133-153 | the least number of cursor steps to a free address, or a whole round |
| IpPool.ProbesDistinct | functions/smf/pdu-session-create/handler.go:134-143 | one call probes no address twice |
| IpPool.ExhaustedIffFull | functions/smf/pdu-session-create/handler.go:134-154 | exhaustion is reported exactly when every address of the pool is taken |
| IpPool.AddressRecursOnlyAfterARound | functions/smf/pdu-session-create/handler.go:112-155 | over any calls, the pool changing arbitrarily in between, an address is handed out again only after 65,024 probes |
| PoolRuns.CursorOfRun | functions/smf/pdu-session-create/handler.go:129-155 | in every run the cursor stands where all probes of all allocations took it |
| PoolRuns.AddressReturnsOnlyAfterARound | functions/smf/pdu-session-create/handler.go:129-155 | in every run two creates are answered with one address only with 65,024 probes in between |
| Core.NetworkCore.AdvanceCursor | functions/smf/pdu-session-create/handler.go:136-143 | the two-part cursor moves to the next position of the pool, cyclically |
| Core.NetworkCore.AllocateIp | functions/smf/pdu-session-create/handler.go:129-155 | the probing loop takes the first free address at or after the cursor, or none, and leaves the cursor behind it |
| Core.NetworkCore.NextSeid | functions/smf/pdu-session-create/handler.go:173-178 | the SEID counter advances as Models.Next64 |
| Core.NetworkCore.BindingRegister | functions/bsf/binding-register/handler.go:49-125 | step by step, ends as Bsf.Register |
| Core.NetworkCore.BindingDeregister | functions/bsf/binding-deregister/handler.go:58-83 | step by step, ends as Bsf.Deregister |
| Core.NetworkCore.ChargingCreate | functions/chf/charging-create/handler.go:71-105 | step by step, ends as Chf.Create |
| Core.NetworkCore.ChargingUpdate | functions/chf/charging-update/handler.go:70-97 | step by step, ends as Chf.Update |
| Core.NetworkCore.ChargingRelease | functions/chf/charging-release/handler.go:60-98 | step by step, ends as Chf.Release |
| Core.NetworkCore.UpdateCounters | functions/nsacf/update-counters/handler.go:60-104 | step by step, ends as Nsacf.Update |
| Core.NetworkCore.CountUes | functions/amf/registration/handler.go:250-256 | the loop makes one counter call per slice of the list |
| Core.NetworkCore.BindSession | functions/smf/pdu-session-create/handler.go:292-307 | step by step, ends as Smf.Bind |
| Core.NetworkCore.ChargeSession | functions/smf/pdu-session-create/handler.go:310-324 | step by step, ends as Smf.Charge |
| Core.NetworkCore.Install | functions/smf/pdu-session-create/handler.go:242-289 | every failure after the reservation gives the address back |
| Core.NetworkCore.Create | functions/smf/pdu-session-create/handler.go:188-353 | the handler ends in the state and answer of the specification on every path |
| Core.NetworkCore.Update | functions/smf/pdu-session-update/handler.go:58-118 | step by step, ends as Smf.Update |
| Core.NetworkCore.Teardown | functions/smf/pdu-session-release/handler.go:96-127 | SEID, address, charging session, binding, counter and session are taken down in turn |
| Core.NetworkCore.Release | functions/smf/pdu-session-release/handler.go:64-138 | the handler ends in the state and answer of the specification on every path |
| Core.NetworkCore.Register | functions/amf/registration/handler.go:106-287 | authentication chain, admission loop, counter loop and context Put end as specified |
| Core.NetworkCore.Deregister | functions/amf/deregistration/handler.go:69-115 | the counters of the stored slices go down and the context is removed |
| Core.NetworkCore.ServeAll | functions/smf/pdu-session-create/handler.go:188-353 | serving any sequence of requests leaves the state of the run that the theorems speak of |
| Outcomes.CreateAnswers | functions/smf/pdu-session-create/handler.go:188-289 | when a create answers 400, 403, 500 and 201, under conditions on request, environment and free addresses |
| Outcomes.CreateStores | functions/smf/pdu-session-create/handler.go:238-324 | the session behind a 201, field by field: first free address, defaults, QoS choice, binding and charging ids with the exact condition under which they are stored |
| Outcomes.CreateRecords | functions/smf/pdu-session-create/handler.go:292-324 | the binding and the charging session recorded for it, field by field |
| Outcomes.CreatedIsBoundAndCharged | functions/smf/pdu-session-create/handler.go:292-324 | in every run a created session has a binding id exactly when its registration is served and stored, and is then found on the answered address; the same for charging |
| Outcomes.UpdateAnswers | functions/smf/pdu-session-update/handler.go:66-118 | statuses, and each QoS value taken from the request or kept |
| Outcomes.ReleaseAnswers | functions/smf/pdu-session-release/handler.go:71-138 | statuses; the session, its lease and its SEID gone, all others as they were |
| Outcomes.ReleaseUnbinds | functions/smf/pdu-session-release/handler.go:108-113 | in every run a release takes the binding down exactly when the call is made and arrives |
| Outcomes.ReleaseCloses | functions/smf/pdu-session-release/handler.go:101-106 | the charging session is closed into its record exactly when the call is made, arrives and can put it |
| Outcomes.StoredAreTheAnswered | functions/smf/pdu-session-create/handler.go:188-353 | in every run the stored sessions are those answered with 201 whose release was not answered with 200 |
| Outcomes.RegisterAnswers | functions/amf/registration/handler.go:106-287 | 200 if and only if the UE is authenticated, subscribed and not denied, and its context stored; the other statuses; no change without admission |
| Outcomes.DeregisterAnswers | functions/amf/deregistration/handler.go:69-115 | statuses; the context gone and no other |
| Outcomes.ContextsAreTheStanding | functions/amf/registration/handler.go:258-287 | in every run a context is stored if and only if the last admitted registration of the SUPI was not followed by a deregistration, and carries its slices |
| Outcomes.StandingWasAdmitted | functions/amf/registration/handler.go:155-195 | behind every stored context there is an admitted registration of the run |
| Outcomes.SwitchedOffStaysEmpty | functions/smf/pdu-session-create/handler.go:292-333 | in every run, functions that are switched off or cannot be called are never written to |
| Outcomes.CountersNeverNegative | functions/nsacf/update-counters/handler.go:81-100 | in every run no counter is negative, whichever calls are lost |
| Bsf.RegisterEffect | functions/bsf/binding-register/handler.go:82-117 | a registration leaves other records and other addresses alone; one that answers has its record and address entry in place |
| Bsf.RegisterAnswers | functions/bsf/binding-register/handler.go:60-125 | 400, 500 and 201, and a nonempty identifier, the printed one, exactly with 201 |
| Bsf.RegisterRecords | functions/bsf/binding-register/handler.go:82-117 | the record field by field with its defaults; both index entries lead to it once all Puts succeed |
| Bsf.DeregisterAnswers | functions/bsf/binding-deregister/handler.go:58-90 | 400, 404 and 200; with 200 the record is gone and no other |
| Bsf.DeregisterEffect | functions/bsf/binding-deregister/handler.go:62-83 | a deregistration leaves other records and other addresses alone |
| Bsf.RunNeverDangles | functions/bsf/binding-register/handler.go:82-117 | in every run, whichever Puts fail, each index entry points to a live record that prints to its key |
| Bsf.DiscoverAnswersWithTheAddress | functions/bsf/binding-discover/handler.go:66-95 | discovery by address answers with no entry or with a live binding of that address |
| Bsf.DiscoverByAddressAnswers | functions/bsf/binding-discover/handler.go:55-95 | in every run, when discovery is malformed, finds no entry, and finds the live binding behind the address entry |
| Bsf.DiscoverBySupiAnswers | functions/bsf/binding-discover/handler.go:75-95 | in every run discovery by SUPI and DNN answers exactly with the live binding behind the entry, which is of this SUPI and DNN |
| Bsf.LastTouchDecidesEntry | functions/bsf/binding-deregister/handler.go:72-83 | an entry of either index is what the last operation touching its key made of it |
| Bsf.UntouchedSlotIsEmpty | functions/bsf/binding-register/handler.go:105-117 | a key that no operation touched has no entry |
| Bsf.StaysIndexedIffUntouched | functions/bsf/binding-deregister/handler.go:78-80 | an indexed binding stays indexed exactly when the next operation does not touch its key |
| Bsf.OlderDeregistrationHidesNewerBinding | functions/bsf/binding-deregister/handler.go:78-80 | two bindings of one SUPI and DNN: deregistering the older hides the newer from discovery |
| BindingRuns.CoreRunIsBsfRun | functions/smf/pdu-session-create/handler.go:292-307 | in every run of the core the BSF is in the state of a run of its own, so the results above hold of it |
| BindingRuns.EntrySurvivesIff | functions/bsf/binding-deregister/handler.go:72-83 | in every run of the core an index entry survives a request exactly when no call of the request touches its key |
| Chf.RunAccountsForEveryId | functions/chf/charging-update/handler.go:74-97 | in every run each identifier is unknown, live with exactly its accepted reports applied, or closed into one record |
| Chf.CreateAnswers | functions/chf/charging-create/handler.go:60-115 | statuses, a nonempty identifier exactly with 201, and the session behind it field by field |
| Chf.UpdateAnswers | functions/chf/charging-update/handler.go:62-105 | statuses; volumes and grant after an accepted report, overflow included |
| Chf.ReleaseAnswers | functions/chf/charging-release/handler.go:52-105 | statuses; the record field by field, the session gone |
| Chf.RecordCarriesTheSums | functions/chf/charging-release/handler.go:64-94 | a record carries the sums modulo 2^64 of all accepted reports since creation |
| Chf.ClosedStaysClosed | functions/chf/charging-release/handler.go:91-98 | after release the record never changes, and updates and releases get 404 |
| Chf.QuotaBounds | functions/chf/charging-update/handler.go:83-91 | without overflow, grant <= usage + 10^6 and usage - grant <= the summed excess of reports over 10^6 |
| Chf.SmallReportsStayWithinGrant | functions/chf/charging-update/handler.go:83-91 | reports of at most 10^6 never leave usage above the grant |
| ChargingRuns.CoreRunIsChfRun | functions/smf/pdu-session-create/handler.go:310-324 | in every run of the core the CHF is in the state of a run of its own |
| ChargingRuns.RecordsCarryTheReports | functions/chf/charging-release/handler.go:64-94 | in every run of the core a record carries the sums modulo 2^64 of all accepted reports, and its session is gone |
| ChargingRuns.GrantsFollowTheReports | functions/chf/charging-update/handler.go:83-91 | both quota bounds for every live charging session of every run of the core |
| ChargingRuns.ReleasedSessionIsBilled | functions/smf/pdu-session-release/handler.go:101-106 | a served charging release of a stored session leaves a record that names it and carries its reports |
| ChargingRuns.RecordsAreFinal | functions/chf/charging-release/handler.go:91-98 | no later request of any kind changes a record or gets a report on it accepted |
| Nsacf.SliceKeyInjective | functions/nsacf/update-counters/handler.go:114-119 | slices with positive SST never share a key |
| Nsacf.UpdateMovesOneCounter | functions/nsacf/update-counters/handler.go:70-104 | a served update moves exactly one counter of exactly one slice |
| Nsacf.UpdateAnswers | functions/nsacf/update-counters/handler.go:60-110 | statuses; one counter up by one, or down by one and not below zero; a new record names its slice |
| Nsacf.SliceKeysAsPrinted | functions/nsacf/update-counters/handler.go:114-119 | slice keys as they are read |
| Nsacf.UpdateKeepsUncountable | functions/nsacf/update-counters/handler.go:60-68 | no update moves a counter of a slice whose SST is not positive |
| SmfInvariant.AllocateEffect | functions/smf/pdu-session-create/handler.go:129-155 | allocation takes an address of the pool that was free, or nothing |
| SmfInvariant.CreateKeeps | functions/smf/pdu-session-create/handler.go:188-353 | sessions, addresses, SEIDs, bindings and charging sessions stay consistent through every path of a create |
| SmfInvariant.UpdateKeeps | functions/smf/pdu-session-update/handler.go:58-118 | an update keeps them consistent and touches only the session table |
| SmfInvariant.ReleaseKeeps | functions/smf/pdu-session-release/handler.go:64-138 | a release keeps them consistent, whichever of its calls fail |
| SmfInvariant.CreateTouches | functions/smf/pdu-session-create/handler.go:285-333 | a create adds one session under a new id on the requested slice and counts it once, or changes nothing there |
| SmfInvariant.CreateHands | functions/smf/pdu-session-create/handler.go:292-324 | a create that answers 201 makes one registration and one charging call, as far as they are reached; any other none |
| Runs.RunConsistent | functions/smf/pdu-session-create/handler.go:188-353 | the consistency of all tables after every request of every run, with PFCP, SBI calls and Puts failing at will |
| Runs.LeasesAreTheSessionsAddresses | functions/smf/pdu-session-create/handler.go:238-289 | in every run stored sessions have distinct addresses, and the leased addresses are exactly theirs |
| Runs.DiscoveryFindsTheSession | functions/bsf/binding-discover/handler.go:66-95 | in every run, discovery by the address of a session with a binding id answers with that binding, which names the session |
| Runs.ReleaseDeletesOnlyItsOwnSeid | functions/smf/pdu-session-release/handler.go:88-94 | a release takes down a live SEID, its own, and that of no other stored session |
| UpfRuns.CreateAtUpf | functions/smf/pdu-session-create/handler.go:188-353 | a create answers 201, and a session is established at the UPF, exactly under conditions known before the call |
| UpfRuns.FailedCreateRollsBack | functions/smf/pdu-session-create/handler.go:238-289 | a create without 201 leaves every table as it was; a SEID not there before stays at the UPF if and only if the create strands it |
| UpfRuns.UpfAccount | functions/smf/pdu-session-create/handler.go:247-289 | in every run the SEIDs at the UPF are those of the stored sessions and those stranded, none being both |
| UpfRuns.UpfHoldsExactlyTheStoredSessions | functions/smf/pdu-session-create/handler.go:247-289 | the SEIDs at the UPF are exactly those of the stored sessions if and only if no create of the run stranded one |
| UpfRuns.StrandingHappens | functions/smf/pdu-session-create/handler.go:285-289 | one failed Put of a session: nothing stored, SEID 1 at the UPF |
| Runs.UpdateChangesOnlyQos | functions/smf/pdu-session-update/handler.go:82-110 | an update changes nothing but AMBR and QFI of one session |
| Runs.ReleaseWritesTheRecord | functions/smf/pdu-session-release/handler.go:101-106 | a served charging release of a session ends its charging session in a record that names the session |
| CounterRuns.SessionCountersExact | functions/smf/pdu-session-release/handler.go:115-127 | with served counter calls, each slice's session counter is the number of stored sessions on it, in every run |
| CounterRuns.UeCounterBalance | functions/amf/registration/handler.go:234-287 | whichever calls are lost, a UE counter exceeds the occurrences in stored contexts by exactly the balance of the run, until that goes negative |
| CounterRuns.NeverUnderCountsIff | functions/amf/deregistration/handler.go:101-115 | a UE counter never under-counts if and only if the balance never goes negative |
| CounterRuns.UeCountersNeverUnderCount | functions/amf/deregistration/handler.go:101-115 | with served increments it never under-counts, and is exact if and only if nothing was orphaned and no decrement lost |
| CounterRuns.CountersCanDrift | functions/amf/registration/handler.go:250-287 | a second registration of a SUPI leaves the counter one too high, a lost increment one too low |
| CounterRuns.UncountableSlicesReadZero | functions/nsacf/update-counters/handler.go:60-68 | slices whose SST is not positive read zero in every run |
| Amf.RegisterDrift | functions/amf/registration/handler.go:234-287 | a registration moves the excess up by the slices of the context it overwrites or cannot store, and down by the increments lost |
| Amf.DeregisterDrift | functions/amf/deregistration/handler.go:83-115 | a deregistration moves it up by the decrements lost; the clamp at zero is not taken |
| Cmac.ShiftLeft | pkg/crypto/nas_security.go:188-196 | the loop computes the one-bit shift of the whole string |
| Cmac.ShiftIsDoubling | pkg/crypto/nas_security.go:188-196 | on n >= 1 bytes the shift doubles the number modulo 2^(8n) |
| Cmac.GenerateSubkeys | pkg/crypto/nas_security.go:165-186 | the buffers hold K1 and K2 of the definition |
| Cmac.SubkeysArePowersOfX | pkg/crypto/nas_security.go:165-186 | K1 = x L and K2 = x^2 L in GF(2^128), polynomials as sets of exponents |
| Cmac.PrepareLastBlock | pkg/crypto/nas_security.go:121-142 | the last block is complete under K1 or padded under K2 |
| Cmac.AesCmac | pkg/crypto/nas_security.go:105-163 | the loops compute the recursive CBC-MAC of RFC 4493 for every cipher and every message length |
| Cmac.TagBySteps | pkg/crypto/nas_security.go:105-163 | that tag byte by byte: zero start, every block, the last one masked with K1 or padded under K2, n blocks in all |
| Cmac.ComputeNasMac | pkg/crypto/nas_security.go:81-103 | keys of another length are refused; else the first four bytes of the tag of the framed message |
| Cmac.FrameFields | pkg/crypto/nas_security.go:89-95 | the layout: COUNT big-endian, BEARER in the upper five bits of the fifth octet, DIRECTION in the next, zeros, message |
| Cmac.FrameInjective | pkg/crypto/nas_security.go:89-95 | the framed input determines COUNT, BEARER < 32, DIRECTION < 2 and message |
| Cmac.ChainIsCbcOfPadded | pkg/crypto/nas_security.go:121-163 | the tag is the chain over the padded blocks, the completeness flag selecting the last mask |
| Cmac.MacInputDeterminesMessage | pkg/crypto/nas_security.go:89-142 | these blocks and the flag, on which alone the MAC depends, determine COUNT, BEARER < 32, DIRECTION < 2 and message |
| NasNssai.DecodeNssaiList | pkg/nas/messages.go:590-611 | the loop reads the entries up to the first that is empty or does not fit |
| NasNssai.EncodeNssaiList | pkg/nas/messages.go:613-623 | the loop writes the entries in order |
| NasNssai.NssaiListRoundTrip | pkg/nas/messages.go:590-623 | decoding inverts encoding exactly on lists whose entries without SD have a zero SD |
| NasNssai.NssaiDecodeStable | pkg/nas/messages.go:590-623 | on arbitrary bytes, decode, encode and decode again is decode |
| NasNssai.NssaiListOnBytes | pkg/nas/messages.go:590-611 | arbitrary bytes decode to one S-NSSAI per entry of any length, up to the first that is empty or does not fit |
| NasTransport.DecodeDnn | pkg/nas/messages.go:625-641 | the loop joins the labels up to the first that is empty or does not fit |
| NasTransport.DnnDecoded | pkg/nas/messages.go:625-641 | arbitrary bytes decode to their labels with dots between them, up to the first that is empty or does not fit |
| NasTransport.DecodeFields | pkg/nas/messages.go:396-455 | the loop over optional elements reads them in all four formats |
| NasTransport.DecodeUlNasTransport | pkg/nas/messages.go:371-458 | header checks, container and optional elements |
| NasTransport.UlNasTransportDecoded | pkg/nas/messages.go:371-458 | for any container, any well-formed elements and any tail cut short: the container unchanged, and of each field the last occurrence |
| NasTransport.UlNasTransportOnBytes | pkg/nas/messages.go:371-458 | arbitrary bytes: refused exactly when too short or of another kind, else the meaning of the elements they consist of |
| NasTransport.HalfOctetKinds | pkg/nas/messages.go:400-412 | which elements are half octets |
| NasTransport.LastFieldsMean | pkg/nas/messages.go:435-450 | what the last S-NSSAI and the last DNN element mean |
| NasBase.StripUndoesProtection | pkg/nas/messages.go:460-487 | stripping gives the inner message back exactly when the header type is not plain and the message not empty |
| NasBase.StripOnBytes | pkg/nas/messages.go:460-476 | what stripping does to arbitrary bytes |
| NasIdentity.DecodeSuci | pkg/nas/messages.go:491-524 | the loop over BCD digits reads the identity |
| NasIdentity.SuciDecoded | pkg/nas/messages.go:491-524 | decoding inverts the null-scheme layout for 2- and 3-digit MNC and any MSIN, odd or even |
| NasIdentity.MsinByteByByte | pkg/nas/messages.go:514-522 | the MSIN of arbitrary bytes, byte by byte |
| NasIdentity.GutiInPrint | pkg/nas/messages.go:541-549 | the GUTI text, digit by digit |
| NasIdentity.IdentityByKind | pkg/nas/messages.go:107-115 | how the kind of an identity selects its reading |
| NasIdentity.SecurityCapabilityRoundTrip | pkg/nas/messages.go:551-588 | encoding the decoded flags gives the algorithm bits back; the raw bytes are kept |
| NasIdentity.DecodeRegistrationRequest | pkg/nas/messages.go:77-140 | header checks, identity and the loop over optional elements |
| NasIdentity.RegistrationRequestDecoded | pkg/nas/messages.go:77-140 | for any identity and any elements: the identity of its own bytes, the last security capability and the last requested NSSAI |
| NasIdentity.RegistrationRequestOnBytes | pkg/nas/messages.go:77-140 | arbitrary bytes: refused exactly when too short, of another kind or without a fitting identity, else the meaning of their parts |
| NasIdentity.IdentityLongEnough | cmd/sctp-proxy/proxy.go:333 | every identity a request can carry is long enough for the slice behind its first five characters |
| NasAuthentication.DecodeAuthenticationResponse | pkg/nas/messages.go:284-326 | the loop skips EAP messages and returns RES*, or fails |
| NasAuthentication.ResStarDecoded | pkg/nas/messages.go:295-325 | RES* is recovered from behind any EAP messages and in front of anything |
| NasAuthentication.AuthenticationResponseIff | pkg/nas/messages.go:284-326 | a message yields RES* if and only if it is an Authentication Response of that form |
| Proxy.MessagesInOrder | cmd/sctp-proxy/proxy.go:415-596 | in every trace, whatever fails, each context is sent challenge, security mode command and context setup in this order, each at most once, then only PDU accepts |
| Proxy.ContextSetupEndsTheExchange | cmd/sctp-proxy/proxy.go:287-530 | in every trace a context setup answers a Security Mode Complete, after a well-formed Authentication Response answered by the Security Mode Command, after the request that set up the context and was answered by the challenge |
| Proxy.EachSentOnce | cmd/sctp-proxy/proxy.go:365-530 | challenge, Security Mode Command and context setup are each sent by one event at most per context |
| Proxy.ProtectedMessagesNumbered | cmd/sctp-proxy/proxy.go:468-481 | with NGAP builds succeeding, the i-th protected message is recorded with COUNT i mod 2^32, which its MAC is computed with, and carries sequence number i mod 256 |
| Proxy.CountsDoNotRepeat | cmd/sctp-proxy/proxy.go:511-516 | so no COUNT repeats within 2^32 messages of a context |
| Proxy.CountsRiseWhateverFails | cmd/sctp-proxy/proxy.go:582-591 | even with failing NGAP builds, COUNTs strictly rise within 2^32 events |
| Proxy.AlignmentKeptIff | cmd/sctp-proxy/proxy.go:469-481 | an aligned context stays aligned if and only if the message does not build a Security Mode Command that is lost or sent under a COUNT not a multiple of 256 |
| Proxy.AlwaysAlignedIff | cmd/sctp-proxy/proxy.go:416-596 | over every trace all contexts are aligned throughout if and only if no event misaligns one |
| Proxy.AlignedMessagesCarryLowByte | cmd/sctp-proxy/proxy.go:600-631 | and then every protected message carries the low byte of its COUNT |
| Proxy.RepeatedSmcOutOfStep | cmd/sctp-proxy/proxy.go:473-480 | after one failed NGAP build the Security Mode Command carries a MAC computed with COUNT 1 under sequence number 0 |
| ProxyMessages.ProtectedMessagesAuthentic | cmd/sctp-proxy/proxy.go:600-631 | in every trace every protected message has its header type and plain message on the wire, and a MAC of the key derived at set-up, the recorded COUNT, the sequence number and that message |
| ProxyMessages.SentIffCalledFor | cmd/sctp-proxy/proxy.go:371-596 | in every trace an uplink event is answered with each kind of message if and only if it calls for it after what was sent before, and the message can be encoded, protected and built |
| ProxyMessages.UnknownUeNotAnswered | cmd/sctp-proxy/proxy.go:371-385 | an uplink event of an unknown UE changes nothing |
| ProxyMessages.ChallengedIff | cmd/sctp-proxy/proxy.go:287-368 | when an initial message sets up a context, and when the challenge is sent |
| ProxyMessages.NumbersAdvanceWhenBuilt | cmd/sctp-proxy/proxy.go:469-481 | how COUNT and sequence number advance once a message is built |
| ProxyMessages.NothingBuiltNothingChanges | cmd/sctp-proxy/proxy.go:371-413 | without a message built the context stays as it is |
| ProxyServer.BuildSecurityProtectedNas | cmd/sctp-proxy/proxy.go:600-631 | the protected message of the specification, with a zero MAC when there is no key |
| ProxyServer.UeContext.HandleAuthResponse | cmd/sctp-proxy/proxy.go:416-484 | the context and the answer of the specification on every path |
| ProxyServer.UeContext.HandleSecurityModeComplete | cmd/sctp-proxy/proxy.go:487-530 | the same for Security Mode Complete |
| ProxyServer.UeContext.HandleUlNasTransport | cmd/sctp-proxy/proxy.go:533-596 | the same for PDU session establishment |
| ProxyServer.UeContext.HandleUplink | cmd/sctp-proxy/proxy.go:371-413 | stripping and dispatch by message type |
| ProxyServer.SctpProxy.HandleInitialUeMessage | cmd/sctp-proxy/proxy.go:287-368 | a new context under a fresh AMF-UE-NGAP-ID, other contexts untouched |
| ProxyServer.SctpProxy.HandleUplinkNasTransport | cmd/sctp-proxy/proxy.go:371-413 | only the context of the RAN-UE-NGAP-ID changes |
| Aka.AdvanceSqnBytes | functions/udm/generate-auth-data/handler.go:128-141 | the two loops compute the advanced 48-bit number for input of any length |
| Aka.AdvanceSqnValue | functions/udm/generate-auth-data/handler.go:125-141 | the number grows by 32 modulo 2^48 and keeps its five low bits |
| Aka.Authenticator.GenerateAuthData | functions/udm/generate-auth-data/handler.go:51-123 | the number is persisted before the vector, the vector before the answer |
| Aka.Authenticator.Verify | functions/ausf/authenticate/handler.go:49-103 | a matching response consumes the vector |
| Aka.GenerateReturnsIff | functions/udm/generate-auth-data/handler.go:51-123 | when a vector is returned, what it expects, and that other subscribers are untouched |
| Aka.AuthenticateAnswers | functions/ausf/authenticate/handler.go:49-103 | the refusals, and that only a success changes anything |
| Aka.NumberAfterRun | functions/udm/generate-auth-data/handler.go:81-101 | in every run the stored number is that at the start plus 32 per number persisted for the subscriber, modulo 2^48 |
| Aka.VectorNumber | functions/udm/generate-auth-data/handler.go:81-108 | the number of every vector of every run, whatever its length |
| Aka.ReturnedVectorsFresh | functions/udm/generate-auth-data/handler.go:81-108 | later vectors carry a strictly larger SEQ until the subscriber's own steps take its number past 2^48 |
| Aka.PendingIsLatest | functions/ausf/authenticate/handler.go:68-90 | the pending vector is the last one returned; successes never exceed vectors returned |
| Aka.SuccessUsesTheLatestVector | functions/ausf/authenticate/handler.go:75-96 | in every run a success matches the latest vector returned, which no other success used |
| Aka.SucceedsIff | functions/ausf/authenticate/handler.go:68-96 | in every run a response succeeds if and only if it is the expected one of the latest unused vector |
| Aka.NewVectorBetweenSuccesses | functions/ausf/authenticate/handler.go:75-96 | between two successes of one subscriber a vector was returned to it |
| UeStateMachine.Machine.TransitionRM | pkg/statemachine/ue_state.go:106-134 | the RM step with the implied CM step and their records |
| UeStateMachine.Machine.TransitionCM | pkg/statemachine/ue_state.go:142-160 | the CM step, only while registered |
| UeStateMachine.LogReplaysToCurrentState | pkg/statemachine/ue_state.go:106-160 | after any requests, replaying the log gives the names of the current states |
| UeStateMachine.NamesDetermineStates | pkg/statemachine/ue_state.go:19-59 | different states have different names |
| UeStateMachine.NamesInPrint | pkg/statemachine/ue_state.go:19-59 | names as they are read |
| UeStateMachine.RequestsAccepted | pkg/statemachine/ue_state.go:106-160 | when a request is refused, and the states and number of records after it |
| UeStateMachine.StatesFollowTheRequests | pkg/statemachine/ue_state.go:106-160 | in every run the states are those the requests alone lead to |
| UeStateMachine.LogContiguousIff | pkg/statemachine/ue_state.go:106-160 | over any targets, every RM and every CM record starts where the log before it leads, if and only if no request deregisters out of an undeclared CM state |
| UeStateMachine.AlwaysSoundIff | pkg/statemachine/ue_state.go:106-160 | over any targets, connected implies registered throughout, if and only if no request asks a connected UE to an undeclared RM state |
| UeStateMachine.DeclaredRunsAreSound | pkg/statemachine/ue_state.go:100-160 | requests for declared states meet both |
| UeStateMachine.UndeclaredTargetsMatter | pkg/statemachine/ue_state.go:106-131 | three requests after which a UE is connected without being registered, and three that write a false record |

## Left out

- Store errors other than a missing key, and failing Deletes: a Get succeeds or finds nothing. (Address allocation treats any Get error as a free address.)
- Handlers interleaved on the same key, several replicas, and process restarts: handlers run one after the other, and counters and cursor live as long as the run.
- The slice admission check of NSACF and its limits: its denial reaches the callers as a call error, which they ignore, so the limits are not kept by this code; the check's answer is an input here.
- Session requests that the switches of the BSF, CHF and NSACF functions answer with "disabled": one configuration is shared by callers and callees.
- Core.NetworkCore.UpdateCounters: int64 overflow of the counters is not modelled; the session counter is bounded by the pool of 65,024 addresses.
- Core.NetworkCore.Register: AMF-UE-NGAP-IDs, key material and the NAS accept message of a registration, which no counter depends on.
- Aka.Authenticator.GenerateAuthData: Milenage and the key derivations; the expected response of a vector is an input.
- Cmac.AesCmac: AES itself; the block cipher is an arbitrary function on 16-byte blocks.
- ProxyServer.SctpProxy.HandleInitialUeMessage: challenges shorter than 16 bytes, on which the encoder of the Authentication Request would fail; the encoded challenge is an input.
- The calls that the proxy makes to its backends, and the encoded messages it sends: their outcome and bytes are inputs of an event.
- Decoders that the proxy does not call (Security Mode Complete, PDU Session Establishment Request), IMEISV, GPRS timers and the message encoders: easy members or fixed bytes.
- Clock readings in records, JSON and HTTP layers, SCTP and NGAP encoding, NRF, NSSF, NWDAF, PCF, UDR, handover, service request and the evaluation scripts.
