# katran, modelled and proved

katran is a layer 4 load balancer. A C++ control plane keeps VIPs, the real servers behind
them, source-routing rules and QUIC mappings, and writes kernel tables; an XDP program
forwards packets by those tables; a second XDP program decapsulates them on the reals. This
project models both sides and proves what they promise together.

`dafny verify dfyconfig.toml` checks everything.

## How it is laid out

- `Residues`, `Probing`, `Maglev`, `Divergence`: the weighted Maglev ring, its 32-bit probe
  arithmetic, and when the construction ends.
- `Vip`: one VIP's reals, its ring and the delta sent to the kernel.
- `Allocator`, `Prefixes`, `ControlPlane`: number pools, reference counts, source prefixes and
  the public calls as steps of a transition system; `KatranLb` is the class whose methods are
  proved to be those steps.
- `RefSafety`, `RefLeaks`, `TableSafety`, `Runs`, `Subscripts`, `Progress`, `Forwarding`,
  `UserView`, `Settings`: what holds in every state of every run, down to what a caller who
  knows no internal numbers sees; `Recycling`: runs that go wrong.
- `DataPlane`, `Decisions`, `Affinity`, `EndToEnd`, `Routes`: the decision for one packet, runs
  of traffic on one CPU, and both planes together.
- `Bytes`, `Frames`, `Checksum`, `Headers`, `EchoReply`, `Encap`, `Decap`, `Parsing`,
  `Ingress`, `Wire`: the same programs on bytes, in place, from frame to frame.
- `PerfRing`, `Pcap`: the circular event buffer and the capture files.

Code that updates fields, arrays or packets in place is modelled by classes and methods with
loops, each proved equal to a specification function; the theorems are about those functions.

## How to read it

- There are three kinds of runs, all from the empty load balancer. `Runs.Calls` makes any
  calls: numbers stay partitioned and are reused in order. With `Runs.NoRepeats` no deletion
  batch repeats an address: no number in use is recycled and the tables hold what was asked
  for, rings and ring slices included. `Forwarding.Run` also adds no VIP under a second
  spelling: `vip_map` is the table of VIPs.
- A step is a call that returns: one whose ring construction ends and whose lookups are
  defined. `Progress` and `Subscripts` say when they are.
- A skip is safe (`Probing.SafeSkip`) when ring*lowbit(skip) is at most 2^32 and ring and skip
  are not both even. Every skip is when the ring is prime and ring*(ring-1) fits 32 bits; on
  the default ring of 65537 slots every skip but 65536 is.
- `Maglev.Ends` says that no turn of a ring construction searches forever.
- MurmurHash, the address hash, the flow hash, address parsing and longest-prefix match are
  parameters: every result holds for all of them. The clock, LRU eviction and other traffic
  are events of a run.

## What the code does not do

Each of these is a proved statement, with the condition under which the code is right.

- With the default ring of 65537 slots the 32-bit product can wrap, and an endpoint whose skip
  is 65536 never probes one slot. If that slot is the last one free on its turn, construction
  does not end (`Divergence.DefaultRingCanDiverge` for weights of 1). Probing covers a ring if
  and only if the skip is safe (`Probing.CoversIffSafeSkip`), and construction ends for all
  weights if and only if every skip is (`Divergence.EndsForAllWeightsIff`).
- A deletion batch that repeats an address releases it repeatedly, so a number can be recycled
  while other VIPs use it, whose packets then go to the next real that gets it
  (`RefLeaks.RepeatedDeleteRecycles`, `RefLeaks.DelBatchExactIff`,
  `Recycling.RepeatedDeleteMisroutes`).
- An addition batch that repeats a brand-new address, or a source prefix that is set again,
  leaks a reference (`RefLeaks.AddBatchExactIff`, `RefLeaks.AddRulesExactIff`,
  `Recycling.RepeatedAddLosesNumber`, `Recycling.PrefixSetAgainLosesNumber`).
  `Runs.ExactIffLeakFree` is the condition for whole runs.
- Reading numToReals_ with a subscript inserts an empty address for a free number, in `delVip`,
  `delSrcRoutingRule` and the getters; the maps stay inverse if and only if that never happens
  (`Subscripts.InverseIffReadsLive`, `Recycling.DeletedVipLeavesBlank`).
  `clearAllSrcRoutingRules` dereferences a failed lookup instead
  (`Subscripts.ClearDefinedIff`, `Recycling.ClearingUndefined`).
- Source prefixes are told apart by the whole address, but the kernel keeps their leading bits
  (`TableSafety.AddRuleFoundIff`, `Recycling.UnmaskedPrefixForgotten`).
- Two spellings of a VIP address share one kernel entry (`TableSafety.AddVipOwnIff`,
  `Recycling.SecondSpellingForgotten`); an IPv4 address and the IPv6 address with the same
  first word and zeros do too.
- QUIC ids 0 and 65535 can be mapped and never route (`Routes.EdgeIdsAcceptedNeverRouted`).
- An event ring that is exactly full would be taken for empty (`PerfRing.FullLooksEmpty`);
  whether it can become exactly full depends on the kernel's writer, which is not part of this
  model.
- `PcapWriter.h` documents a limit of 0 as unlimited; `runMulti` then writes nothing
  (`Pcap.ZeroLimitWritesNothing`, `Pcap.WrittenIff`). The model follows the code.
- Echo replies adjust the ICMP checksum without end-around carry, which is wrong for eight
  values (IPv4) or one value (IPv6) of the checksum word; a packet that arrives with time to
  live 0 is passed on with 255 and a wrong checksum.
- An IPv6 packet sent to an IPv4 real leaves the tunnel typed IPv4 (`Ingress.TypeRestoredIff`).
- An IPv6 packet sent to an IPv4 real gets an outer length 40 bytes too short
  (`Wire.SentLength`).
- An ICMP error that quotes only the 8 transport bytes RFC 792 asks for is dropped when it is
  about TCP (`Parsing.ErrorHasClientFlow`).
- The decapsulation program strips 40 bytes from IPv6 in IPv4, 20 too many
  (`Decap.StripsOuterHeaderIff`).

## Model

| member | source | states |
|---|---|---|
| `Probing.SlotExact` | katran/lib/CHHelpers.cpp:75-78 | the 32-bit slot equals the exact modular slot whenever the sum does not wrap |
| `Probing.NoWrapIffProductFits` | katran/lib/CHHelpers.cpp:75-78 | no reachable (offset, next, skip) wraps if and only if ring*(ring-1) fits 32 bits |
| `Probing.DefaultRingWraps` | katran/lib/CHHelpers.cpp:75-78 | for 65537 slots exactly the triples (any, 65536, 65536), (65536, 65536, 65535), (65536, 65535, 65536) wrap |
| `Probing.ProbeIsPermutation` | katran/lib/CHHelpers.cpp:35-45 | with a prime ring whose products fit 32 bits, ring_size probes visit every slot exactly once |
| `Probing.SafeSkipCovers` | katran/lib/CHHelpers.cpp:69-89 | 32-bit probing reaches every slot of a ring of any size, prime or not, when ring*lowbit(skip) is at most 2^32 and ring and skip are not both even |
| `Probing.UnsafeSkipMisses` | katran/lib/CHHelpers.cpp:69-89 | otherwise some slot is never probed, however long the search goes on |
| `Probing.CoversIffSafeSkip` | katran/lib/CHHelpers.cpp:69-89 | for every ring size, 32-bit probing covers the ring if and only if the skip is safe in that sense |
| `Probing.FittingRingIsSafe` | katran/lib/CHHelpers.cpp:69-89 | every skip is safe when the ring is prime and ring*(ring-1) fits 32 bits |
| `Probing.DefaultRingSafety` | katran/lib/CHHelpers.cpp:69-89 | for 65537 slots 65536 is the only unsafe skip |
| `Probing.DefaultRingIsPrime` | katran/lib/bpf/balancer_consts.h:47 | 65537 is prime |
| `Maglev.ScheduleShares` | katran/lib/CHHelpers.cpp:69-89 | over t turns endpoint i is served w_i + (t-W)/n times, plus one for the first (t-W) mod n, or what earlier weights left of t |
| `Maglev.SafeEndpointsEnd` | katran/lib/CHHelpers.cpp:69-89 | with safe skips no turn searches forever: the construction ends |
| `Maglev.RingIsFull` | katran/lib/CHHelpers.cpp:47-90 | whenever the construction ends, for every ring size, every slot names an endpoint |
| `Maglev.RingShares` | katran/lib/CHHelpers.cpp:47-90 | each endpoint owns exactly its share of slots: by weight first, the rest in turn |
| `Maglev.NumberShares` | katran/lib/CHHelpers.cpp:47-90 | the same counts hold of the numbers in the ring when numbers are distinct |
| `Maglev.EqualWeightsBalance` | katran/lib/CHHelpers.cpp:47-90 | with unit weights any two endpoints differ by at most one slot |
| `Maglev.OwnersIgnoreNumbers` | katran/lib/CHHelpers.cpp:47-90 | who owns a slot depends on hashes and weights only, not on the internal numbers |
| `Maglev.FirstSlot` | katran/lib/CHHelpers.cpp:30-45 | the first endpoint of positive weight owns the slot of its address hash hashed with 42 and 0, modulo the ring size |
| `Maglev.SecondSlot` | katran/lib/CHHelpers.cpp:30-45 | with weight 2 or more it also owns the slot a skip further, the skip being its address hash hashed with 2718281828 and 2307, modulo the ring size less one, plus one |
| `Maglev.GenMaglevPermutation` | katran/lib/CHHelpers.cpp:30-45 | writes offset and skip of one endpoint at its place and nothing else |
| `Maglev.ClaimSlot` | katran/lib/CHHelpers.cpp:75-83 | the search loop terminates on the first free slot of the endpoint's probe sequence, takes it, and leaves next past it; the probe found is below ring_size where ring is prime and the products fit |
| `Maglev.FreeSoon` | katran/lib/CHHelpers.cpp:75-79 | there, if any probe finds a free slot, one of the first ring_size probes does |
| `Maglev.FillTurn` | katran/lib/CHHelpers.cpp:74-83 | one claimed slot is one turn of the schedule |
| `Maglev.FillEndpoint` | katran/lib/CHHelpers.cpp:70-87 | one endpoint's turns of a round, ending early when the ring is full |
| `Maglev.FillRound` | katran/lib/CHHelpers.cpp:70-88 | one pass over the endpoints follows the schedule |
| `Maglev.FillRing` | katran/lib/CHHelpers.cpp:60-89 | the unbounded loop terminates with the scheduled ring whenever no turn searches forever, measured by free slots |
| `Maglev.GenerateMaglevHash` | katran/lib/CHHelpers.cpp:47-90 | returns the specified ring for every ring size; all -1 for no endpoint, one number throughout for one |
| `Divergence.NotEndingIsStuck` | katran/lib/CHHelpers.cpp:69-89 | a construction that does not end reaches a turn at which a slot is free and every probe of the endpoint, however far, is occupied |
| `Divergence.UnsafeDiverges` | katran/lib/CHHelpers.cpp:69-89 | an endpoint with an unsafe skip, served first and with at least ring_size of weight, does not let the construction end, on every ring size and for every hash function |
| `Divergence.EndsForAllWeightsIff` | katran/lib/CHHelpers.cpp:69-89 | two or more endpoints: the construction ends for all their weights if and only if every skip is safe |
| `Divergence.HeavyEndsIff` | katran/lib/CHHelpers.cpp:69-89 | with one endpoint heavier than the ring and any weights of the others, the construction ends if and only if the turns before it end and leave free only slots that it probes |
| `Divergence.FirstHeavyEndsIff` | katran/lib/CHHelpers.cpp:69-89 | with a first endpoint heavier than the ring and any weights of the others, zero or positive, the construction ends if and only if its skip is safe |
| `Divergence.DefaultRingCanDiverge` | katran/lib/CHHelpers.cpp:69-89 | concrete counterexample: two endpoints on 65537 slots reach a state with one free slot that the endpoint whose turn it is never probes |
| `Vips.BatchKeepsInSync` | katran/lib/Vip.cpp:33-51 | after every batch that returns the stored ring is a ring of the current active reals whose construction ended, or untouched when none is active |
| `Vips.RingNamesActive` | katran/lib/Vip.cpp:33-51 | every position of a synchronized ring names a real of nonzero weight |
| `Vips.RingsAgree` | katran/lib/Vip.cpp:93-125 | two VIPs with the same active addresses, weights and distinct hashes name the same address at every position, whatever their numbers and histories |
| `Vips.LeastHashOwns` | katran/lib/Vip.cpp:112-123 | the active real of least hash owns the slot of its offset hash |
| `Vips.PatchDiff` | katran/lib/Vip.cpp:41-49 | applying the delta of the first k positions changes exactly those positions to the new ring |
| `Vips.DeltaTurnsOldIntoNew` | katran/lib/Vip.cpp:33-51 | the returned delta turns the old ring into the new one |
| `Vips.DiffIsMinimal` | katran/lib/Vip.cpp:41-49 | the delta lists each changed position once and no unchanged one |
| `Vips.SortByHash` | katran/lib/Vip.cpp:122 | the endpoints in order of hash, the same ones with distinct numbers |
| `Vips.Vip.GetReals` | katran/lib/Vip.cpp:71-78 | the numbers of the VIP's reals, each once |
| `Vips.Vip.CollectActive` | katran/lib/Vip.cpp:112-121 | the reals of nonzero weight with their weights and hashes |
| `Vips.Vip.GetEndpoints` | katran/lib/Vip.cpp:93-125 | applies the updates to the reals; if anything changed, the active reals sorted by hash, otherwise nothing |
| `Vips.Vip.BatchRealsUpdate` | katran/lib/Vip.cpp:33-51 | whenever the construction ends, safe skips or not, the new state is a batch step of the old one and the delta is the difference of the rings |
| `Vips.Vip.InstallRing` | katran/lib/Vip.cpp:41-49 | the loop overwrites the ring with the new one and returns the difference |
| `Vips.SafeRealsEnd` | katran/lib/Vip.cpp:33-40 | safe skips of the active reals suffice for the construction to end, in whatever order ties are sorted |
| `Allocator.AcquireCounts` | katran/lib/KatranLb.cpp:1689-1710 | a taken reference counts once on the returned number and on no other; maxReals exactly when there is no number |
| `Allocator.ReleaseCounts` | katran/lib/KatranLb.cpp:1672-1687 | a released reference counts down once; the real disappears exactly with its last reference |
| `Allocator.PoolRunOk` | katran/lib/KatranLb.cpp:1672-1710 | every sequence of references taken, given back and read keeps free and live numbers a duplicate-free partition and every live number leading to its real here and in the kernel, with empty addresses only at numbers that are not live |
| `Allocator.InverseIffNoBlank` | katran/lib/KatranLb.h:737 | then reals_ and numToReals_ are inverse if and only if numToReals_ has no empty address |
| `Allocator.FirstReleasedFirstReused` | katran/lib/KatranLb.cpp:1672-1710 | over every such sequence numbers are given out in the order in which they were released |
| `Allocator.JoinKeeps` | katran/lib/KatranLb.cpp:837-855 | a VIP gaining a real keeps counts at least the users, and exact if and only if they were and it did not have the real |
| `Allocator.LeaveKeeps` | katran/lib/KatranLb.cpp:821-836 | a VIP losing a real keeps counts covered and exact |
| `Allocator.AddRuleKeeps` | katran/lib/KatranLb.cpp:977-993 | one prefix of the loop: counts stay covered, and are exact afterwards if and only if they were and the prefix was unmapped |
| `Allocator.DelRuleKeeps` | katran/lib/KatranLb.cpp:1025-1038 | removing a source rule keeps counts covered and exact |
| `Allocator.AddQuicKeeps` | katran/lib/KatranLb.cpp:1369-1383 | a new QUIC mapping keeps counts covered and exact |
| `Allocator.DelQuicKeeps` | katran/lib/KatranLb.cpp:1360-1368 | removing a QUIC mapping keeps counts covered and exact |
| `RefSafety.AddRealsKeeps` | katran/lib/KatranLb.cpp:837-855 | the loop over any addition batch keeps counts at least the users |
| `RefSafety.DelRealsKeeps` | katran/lib/KatranLb.cpp:821-836 | the loop over a deletion batch without repetition does too |
| `RefSafety.ReleaseAllKeeps` | katran/lib/KatranLb.cpp:700-705 | releasing a deleted VIP's reals in any order keeps the counts |
| `RefSafety.StepKeepsReferences` | katran/lib/KatranLb.cpp:652-1400 | every public call keeps counts at least the users, unless a deletion batch repeats an address; no other condition on the call |
| `RefLeaks.DelCounts` | katran/lib/KatranLb.cpp:821-836 | closed form of all counts after any deletion batch, repetitions included |
| `RefLeaks.DelHeld` | katran/lib/KatranLb.cpp:821-836 | the reals a VIP keeps after any deletion batch |
| `RefLeaks.DelBatchExactIff` | katran/lib/KatranLb.cpp:821-836 | a deletion batch leaves exact counts if and only if every repeated address the VIP holds had one reference |
| `RefLeaks.RepeatedDeleteRecycles` | katran/lib/KatranLb.cpp:821-836 | a number another VIP still holds is free again if and only if the batch names it at least as often as it has references |
| `RefLeaks.AddBatch` | katran/lib/KatranLb.cpp:837-855 | closed form of an addition batch: numbers given, cur_reals and reals held |
| `RefLeaks.AddBatchExactIff` | katran/lib/KatranLb.cpp:837-855 | an addition batch leaves exact counts if and only if no address that is new and gets a number occurs twice |
| `RefLeaks.AddRulesExactIff` | katran/lib/KatranLb.cpp:977-993 | the whole list of source prefixes, early exits included: from exact counts it leaves exact counts if and only if the prefixes it installs are new and distinct |
| `RefLeaks.StepExactIff` | katran/lib/KatranLb.cpp:652-1400 | from exact counts every public call leaves exact counts if and only if a condition on the state before the call holds |
| `RefLeaks.DistinctKeepsExact` | katran/lib/KatranLb.cpp:806-860 | that condition holds of every batch that repeats no address |
| `Recycling.RepeatedDeleteMisroutes` | katran/lib/KatranLb.cpp:821-836 | a reachable run: two VIPs share a real, one call deletes it twice from the first, another real is added to the first; the number went back while the second VIP held it, and every hash of the second VIP now leads to the other real |
| `Recycling.RepeatedAddLosesNumber` | katran/lib/KatranLb.cpp:837-855 | a reachable run: a new real given twice and then deleted keeps a reference that no VIP has, and the next real is refused |
| `Recycling.DeletedVipLeavesBlank` | katran/lib/KatranLb.cpp:700-705 | a reachable run: two VIPs share a real, one call deletes it twice from the first, the next deletes the second VIP; numToReals_ then maps the free number to an empty address and reals_ is empty |
| `Recycling.PrefixSetAgainLosesNumber` | katran/lib/KatranLb.cpp:977-993 | a reachable run: a prefix set twice and deleted once leaves a reference that no rule has, on the only number |
| `Recycling.ClearingUndefined` | katran/lib/KatranLb.cpp:1051-1057 | a reachable run after which clearAllSrcRoutingRules dereferences the end of numToReals_, whatever order it takes |
| `Recycling.UnmaskedPrefixForgotten` | katran/lib/KatranLb.cpp:1016-1040 | a reachable run: of two prefixes with the same leading bits one is deleted, and the kernel has no entry for the other |
| `Recycling.SecondSpellingForgotten` | katran/lib/KatranLb.cpp:685-712 | a reachable run: a VIP added under two spellings and deleted under one has no kernel entry left |
| `TableSafety.AddVipNumbers` | katran/lib/KatranLb.cpp:665-675 | adding a VIP keeps VIP numbers a duplicate-free partition of 0..maxVips-1 |
| `TableSafety.DelVipNumbers` | katran/lib/KatranLb.cpp:706-710 | deleting a VIP keeps the partition |
| `TableSafety.SlicesDisjoint` | katran/lib/KatranLb.cpp:862-877 | cells of different VIPs or positions are different cells |
| `TableSafety.CellIsKey` | katran/lib/KatranLb.cpp:868-872 | every ring cell is a 32-bit key |
| `TableSafety.PushDiff` | katran/lib/KatranLb.cpp:862-877 | pushing a delta changes exactly the changed cells of the VIP's slice |
| `TableSafety.ModifyRealsSlices` | katran/lib/KatranLb.cpp:862-877 | after a batch every populated VIP's kernel slice equals its ring |
| `TableSafety.ModifyRealsRings` | katran/lib/KatranLb.cpp:806-862 | after a batch every VIP's ring is built from its reals with the hashes of their addresses |
| `TableSafety.AddVipOwnIff` | katran/lib/KatranLb.cpp:652-683 | after adding a VIP every VIP finds its own kernel entry if and only if no other VIP has the same words, port and protocol |
| `TableSafety.DelVipLosesTwin` | katran/lib/KatranLb.cpp:685-712 | deleting one of two spellings removes the kernel entry of the other |
| `TableSafety.AddRuleFoundIff` | katran/lib/KatranLb.cpp:1185-1213 | after a source rule is added every rule finds its number in the kernel if and only if the other rules with the same leading bits have that number |
| `TableSafety.DelRuleLosesTwin` | katran/lib/KatranLb.cpp:1032-1038 | deleting one of two such rules removes the kernel entry of the other |
| `Prefixes.MaskedKeysDiffer` | katran/lib/KatranLb.cpp:1185-1213 | the kernel tells masked prefixes apart |
| `Prefixes.TwentyFourBits` | katran/lib/KatranLb.cpp:1185-1213 | a prefix of 24 bits contains exactly the addresses that differ in the last byte at most |
| `Prefixes.OneBitLess` | katran/lib/KatranLb.cpp:1185-1213 | a prefix one bit shorter drops exactly the last of the leading bits; a full-length one keeps them all |
| `Prefixes.LongestMatchUnique` | katran/lib/bpf/balancer_kern.c:80-108 | a source has only one longest matching key |
| `Runs.CallsKeepNumbers` | katran/lib/KatranLb.cpp:652-1400 | after any calls whatsoever free and live numbers are duplicate-free partitions, every live number leads to its address here and in the kernel, only free numbers have an empty address, stored numbers are below the maximum, and every kernel rule is that of a source rule with those leading bits |
| `Runs.CallsKeepMasked` | katran/lib/KatranLb.cpp:962-1060 | after any calls whose source prefixes are masked every rule finds its number in the kernel |
| `Runs.VipNumbersInOrder` | katran/lib/KatranLb.cpp:665-712 | over any calls VIP numbers are given out in the order in which they came back |
| `Runs.StepIsPoolRun` | katran/lib/KatranLb.cpp:652-1400 | every public call changes the pool of real numbers by a sequence of references taken and given back and numbers read |
| `Runs.RealNumbersInOrder` | katran/lib/KatranLb.cpp:1672-1710 | over any calls real numbers are given out in the order in which they came back, after 0, 1, 2, ... |
| `Runs.CallsKeepCovered` | katran/lib/KatranLb.cpp:652-1400 | over any calls without a repeated deletion every count is at least the number of users |
| `Runs.NeverRecycledInUse` | katran/lib/KatranLb.cpp:1672-1687 | so in every state of such runs a free number has no VIP, rule or QUIC mapping |
| `Runs.ExactIffLeakFree` | katran/lib/KatranLb.cpp:652-1400 | over any calls: in every state so far refCount is the number of VIPs with the real plus its QUIC mapping plus its source rules, if and only if every call so far met the condition of StepExactIff |
| `Subscripts.DelRulesCounts` | katran/lib/KatranLb.cpp:1025-1038 | closed form of all counts and empty addresses after deleting any list of prefixes, repetitions included |
| `Subscripts.ReleaseAllCounts` | katran/lib/KatranLb.cpp:700-705 | closed form of all counts and empty addresses after a VIP's reals are released |
| `Subscripts.ClearDefinedIff` | katran/lib/KatranLb.cpp:1051-1057 | clearAllSrcRoutingRules finds every number it dereferences, in whatever order, if and only if no number has more rules than references, or it has an empty address |
| `Subscripts.StepBlankIff` | katran/lib/KatranLb.cpp:685-1100 | from inverse maps every public call leaves inverse maps if and only if it reads no number that is free by then, told from the state before it |
| `Subscripts.InverseIffReadsLive` | katran/lib/KatranLb.h:737 | over any calls: reals_ and numToReals_ are inverse in every state so far if and only if no call so far read a free number |
| `Subscripts.NoRepeatsInverse` | katran/lib/KatranLb.cpp:652-1400 | without repeated deletions the maps are inverse and clearing is defined in every state |
| `Progress.SafeCallsReturn` | katran/lib/KatranLb.cpp:787-879 | as long as every real added with nonzero weight has a safe skip, every such batch returns after any such calls |
| `Forwarding.StepKeepsTables` | katran/lib/KatranLb.cpp:652-1400 | every public call that deletes without repetition keeps references covered, numbers partitioned, rings built from the reals with the hashes of their addresses, slices equal to rings, and every vip_map entry that of a configured VIP with those words |
| `Forwarding.CallsKeepTables` | katran/lib/KatranLb.cpp:652-1400 | all of that holds after any calls without a repeated deletion, second spellings and unsafe skips included |
| `Forwarding.StepKeepsInv` | katran/lib/KatranLb.cpp:652-1400 | every such call that moreover adds no second spelling keeps vip_map equal to the VIPs, key by key |
| `Forwarding.RunKeepsInv` | katran/lib/KatranLb.cpp:652-1400 | all of that holds in every state of every run of such calls |
| `Forwarding.RingPathIsConfigured` | katran/lib/KatranLb.cpp:862-877 | in every state the kernel ring of a VIP with an active real leads to the address of a configured real of nonzero weight |
| `Forwarding.InstancesAgree` | README.md:113-116 | two instances with the same configured reals, by whatever calls, send every hash to the same address |
| `LoadBalancer.KatranLb.constructor` | katran/lib/KatranLb.cpp:59-65 | starts with all numbers free |
| `LoadBalancer.KatranLb.IncreaseRefCountForReal` | katran/lib/KatranLb.cpp:1689-1710 | the fields change as the pool specification says |
| `LoadBalancer.KatranLb.DecreaseRefCountForReal` | katran/lib/KatranLb.cpp:1672-1687 | the fields change as the pool specification says |
| `LoadBalancer.KatranLb.AddVip` | katran/lib/KatranLb.cpp:652-683 | is the AddVip step, second spellings included; false exactly when address, numbers or key refuse it |
| `LoadBalancer.KatranLb.DelVip` | katran/lib/KatranLb.cpp:685-712 | is a DelVip step, for some order of the VIP's reals, whatever calls came before |
| `LoadBalancer.KatranLb.ModifyVip` | katran/lib/KatranLb.cpp:743-765 | is the ModifyVip step, kernel entry included |
| `LoadBalancer.KatranLb.CollectUpdates` | katran/lib/KatranLb.cpp:806-860 | the loop over a batch collects the specified updates, counts and cur_reals |
| `LoadBalancer.KatranLb.ModifyRealsForVip` | katran/lib/KatranLb.cpp:787-879 | is a ModifyReals step whenever the ring construction ends, repeated addresses and unsafe skips included: counts, ring and kernel cells |
| `LoadBalancer.KatranLb.AddSrcRoutingRule` | katran/lib/KatranLb.cpp:962-995 | is the AddSrcRules step, with the early exits |
| `LoadBalancer.KatranLb.DelSrcRoutingRule` | katran/lib/KatranLb.cpp:1016-1040 | is the DelSrcRules step |
| `LoadBalancer.KatranLb.ClearAllSrcRoutingRules` | katran/lib/KatranLb.cpp:1042-1060 | whenever it is defined, is a ClearSrcRules step and leaves no rule |
| `LoadBalancer.KatranLb.ReadNumToReals` | katran/lib/KatranLb.cpp:703 | the subscript gives the entry, or inserts an empty address and gives that |
| `LoadBalancer.KatranLb.GetRealsForVip` | katran/lib/KatranLb.cpp:881-901 | each real of the VIP once, with its weight and the address of its number; inserts and gives an empty address for free numbers |
| `LoadBalancer.KatranLb.GetSrcRoutingRule` | katran/lib/KatranLb.cpp:1066-1083 | each rule with the address of its number; inserts and gives an empty address for free numbers |
| `LoadBalancer.KatranLb.ModifyQuicRealsMapping` | katran/lib/KatranLb.cpp:1339-1400 | is the ModifyQuic step |
| `LoadBalancer.StepDone` | katran/lib/KatranLb.cpp:652-1400 | what every method needs of the object holds again after every call, and the table invariants do if they held and the call is one of StepKeepsTables, or of StepKeepsInv |
| `UserView.AddBatchWeights` | katran/lib/KatranLb.cpp:837-860 | closed form by address: an addition batch sets the weight of each address given, in order, unless it is new and the numbers ran out |
| `UserView.DelBatchWeights` | katran/lib/KatranLb.cpp:821-836 | a deletion batch removes exactly the addresses given, repetitions included |
| `UserView.StepFollowsView` | katran/lib/KatranLb.cpp:652-1060 | every public call without a repeated deletion changes the weights of VIPs by address exactly as asked and leaves every other VIP's alone |
| `UserView.RunFollowsView` | katran/lib/KatranLb.cpp:652-1060 | so in every state of every run of such calls weights and source rules are what the calls asked for |
| `UserView.ConfiguredIsView` | katran/lib/KatranLb.cpp:881-901 | the reals that forwarding calls configured are the addresses whose weight the caller last set to nonzero |
| `UserView.AddRulesLead` | katran/lib/KatranLb.cpp:977-993 | source prefixes lead to the destination given, in order, until the table is full; none without a number |
| `UserView.DelRulesLead` | katran/lib/KatranLb.cpp:1025-1038 | exactly the given prefixes stop leading anywhere |
| `UserView.StepFollowsRules` | katran/lib/KatranLb.cpp:962-1060 | every such call changes where source rules lead exactly as asked, whatever numbers are recycled |
| `Settings.FlagsAsAsked` | katran/lib/KatranLb.cpp:652-765 | after any calls every flag bit of a configured VIP is the one given to addVip, changed by each later modifyVip that names the bit |
| `Settings.KernelFlagsAsAsked` | katran/lib/KatranLb.cpp:652-765 | in every state of every run without a second spelling the same holds of its entry in vip_map |
| `Settings.MappingsAdded` | katran/lib/KatranLb.cpp:1369-1383 | after adding QUIC mappings mapped addresses keep their ids, and new ones have the first id up to 65535 given for them, unless the numbers ran out |
| `Settings.MappingsDeleted` | katran/lib/KatranLb.cpp:1360-1368 | exactly the addresses named with an id up to 65535 are unmapped |
| `Settings.MappingsStay` | katran/lib/KatranLb.cpp:652-1060 | no other call changes a mapping |
| `DataPlane.Balancer.IsUnderFlood` | katran/lib/bpf/balancer_kern.c:36-60 | counts a connection in the current quantum or opens a new one; true exactly over the limit |
| `DataPlane.Balancer.GetPacketDst` | katran/lib/bpf/balancer_kern.c:62-141 | source rule, else ring; stores the choice unless bypassed or under flood, as StoredIff says; leaves the hashed key in the packet |
| `DataPlane.Balancer.ConnectionTableLookup` | katran/lib/bpf/balancer_kern.c:143-166 | the stored real of a fresh entry; refreshes UDP entries |
| `DataPlane.Balancer.ProcessPacket` | katran/lib/bpf/balancer_kern.c:427-556 | VIP lookup with and without port, size limit, QUIC route, table, then choice: verdict, table and key as specified, for any two clock readings |
| `Decisions.NotServed` | katran/lib/bpf/balancer_kern.c:427-470 | a packet passes if and only if there is neither an entry for its address, port and protocol nor one for port 0; nothing above 1514 bytes is sent |
| `Decisions.QuicDecides` | katran/lib/bpf/balancer_kern.c:478-504 | on a VIP with flag 4 an id from 1 to 65534 decides, past table and limiter |
| `Decisions.HitDecides` | katran/lib/bpf/balancer_kern.c:143-166 | an entry that may be used decides, nothing is counted, and a UDP entry gets the time of the lookup |
| `Decisions.MissDecides` | katran/lib/bpf/balancer_kern.c:62-141 | without one the packet is counted in the running second or opens a new one, and goes to the number of the source rule that applies, else to that of the ring cell at the hash of its flow |
| `Decisions.StoredIff` | katran/lib/bpf/balancer_kern.c:133-139 | a packet without a usable entry, TCP or UDP, is stored if and only if the VIP has no bypass flag, a new second begins or fewer connections than the limit were counted in this one, and it is sent; the table then maps its key to the number it was sent to, and no other flow changes |
| `Decisions.StaleIgnored` | katran/lib/bpf/balancer_kern.c:155-160 | a UDP entry past the timeout is as good as none |
| `Decisions.SentSource` | katran/lib/bpf/balancer_kern.c:109-118 | the flow left for the outer header is the table key, or what the ring hashed |
| `Affinity.KeyDeterminesVip` | katran/lib/bpf/balancer_kern.c:427-448 | a sticky VIP's flow key determines the VIP |
| `Affinity.OthersLeaveEntry` | katran/lib/bpf/balancer_kern.c:133-166 | packets of other keys do not change a flow's entry |
| `Affinity.FlowAffinity` | katran/lib/bpf/balancer_kern.c:133-166 | a stored flow keeps its real number over every run of traffic, table changes and evictions that spares the entry, until a SYN of that key or a UDP gap above the timeout |
| `Affinity.ConnectionAffinity` | katran/lib/bpf/balancer_kern.c:506-556 | a packet, TCP or UDP, that is served by a sticky VIP, has no usable entry, is admitted by the limiter and sent: all later packets of its flow go where it went |
| `Affinity.SourcePortIgnored` | katran/lib/bpf/balancer_kern.c:507-511 | with F_HASH_NO_SRC_PORT the source port changes neither verdict nor state |
| `Affinity.DestinationPortIgnored` | katran/lib/bpf/balancer_kern.c:436-448 | on a VIP without port the destination port changes neither verdict nor state |
| `Affinity.SourceIgnoredByRing` | katran/lib/bpf/balancer_kern.c:112-118 | with F_HASH_DPORT_ONLY the ring sends all sources of a destination port to one real |
| `Affinity.QuantaApart` | katran/lib/bpf/balancer_kern.c:36-60 | limiter quanta start more than a second apart |
| `Affinity.InsertRate` | katran/lib/bpf/balancer_kern.c:133-139 | any one-second window holds at most twice MAX_CONN_RATE table inserts |
| `EndToEnd.PacketReachesConfiguredReal` | katran/lib/bpf/balancer_kern.c:109-132 | after any calls without a repeated deletion, second spellings and unsafe skips included, a packet that the ring decides goes to the number at the hash of its flow in its VIP's ring, a real configured with nonzero weight; the VIP has the packet's address and protocol, and its port or none |
| `EndToEnd.SourceRuleReachesItsReal` | katran/lib/bpf/balancer_kern.c:80-108 | after any calls without a repeated deletion a packet that a source rule decides goes to the address the caller gave for a rule with the longest matching leading bits; if the prefixes were masked, for the one rule of longest prefix that contains its source |
| `Routes.NumberKeepsAddress` | katran/lib/KatranLb.cpp:1672-1710 | over any calls without a repeated deletion a number keeps its kernel address for as long as it has a user |
| `Routes.FlowKeepsAddress` | katran/lib/bpf/balancer_kern.c:133-166 | both planes: two packets of a stored flow go to the same address, whatever calls come between them, as long as the real keeps a user |
| `Routes.MappedIdLeads` | katran/lib/KatranLb.cpp:1339-1400 | from the call that maps a QUIC id on, until a call deletes the mapping or gives the id away, the id leads to the mapped address |
| `Routes.QuicPacketReachesItsReal` | katran/lib/bpf/balancer_kern.c:478-504 | a packet of a QUIC VIP that carries such an id, 1 to 65534, goes to the mapped address |
| `Routes.EdgeIdsAcceptedNeverRouted` | katran/lib/KatranLb.cpp:1353-1356 | ids 0 and 65535 are accepted for mapping and route no packet |
| `PerfRing.SamplesOfEncoded` | katran/lib/BpfAdapter.cpp:831-833 | parsing what was written linearly gives back the sample payloads in order |
| `PerfRing.CutIsWindow` | katran/lib/BpfAdapter.cpp:814-829 | a record cut at the end of the buffer and joined is the record of the linear window |
| `PerfRing.PerfEventPage.ReadRecords` | katran/lib/BpfAdapter.cpp:810-845 | the loop terminates and handles exactly the samples of the linear parse, split records included |
| `PerfRing.PerfEventPage.HandlePerfEvent` | katran/lib/BpfAdapter.cpp:784-848 | handles exactly the samples between tail and head and leaves tail at head |
| `PerfRing.FullLooksEmpty` | katran/lib/BpfAdapter.cpp:801-810 | cursors a whole buffer apart look equal, so the loop would read nothing |
| `Pcap.MicrosExact` | katran/lib/PcapWriter.cpp:56-66 | 32-bit wrap-around cancels out in the microseconds field |
| `Pcap.ConsumeOk` | katran/lib/PcapWriter.cpp:159-193 | over every message stream no buffer is exceeded and no record is longer than the snapshot length |
| `Pcap.ConsumeKeepsBudget` | katran/lib/PcapWriter.cpp:160-193 | while packetAmount_ is the number of records held and at most the limit, messages other than a stop keep it so |
| `Pcap.BudgetAfterRestart` | katran/lib/PcapWriter.cpp:136-193 | every stream: from any restart to the next stop packetAmount_ is the number of records held and at most the limit, whatever came before |
| `Pcap.KeepsOnlyOffered` | katran/lib/PcapWriter.cpp:160-193 | a writer holds packets of its own event only, in order, none from before the last restart |
| `Pcap.KeepsAllWithRoom` | katran/lib/PcapWriter.cpp:160-193 | while limit and buffer allow, every packet of the event is kept |
| `Pcap.ControlMessages` | katran/lib/PcapWriter.cpp:164-176 | a restart empties every file, clears the count and sets the limit, a stop clears both, and nothing else changes |
| `Pcap.WrittenIff` | katran/lib/PcapWriter.cpp:171-191 | a captured packet is written, to its event's file only, and counted, if and only if the amount is below the limit and 16 bytes and the captured ones fit, together with 24 for the file header if that is missing; otherwise it is counted as not fitting if the header is there or fits |
| `Pcap.ZeroLimitWritesNothing` | katran/lib/PcapWriter.cpp:177-179 | with a limit of zero, also after a stop, nothing is written until a restart |
| `Pcap.IOBufWriter.Available` | katran/lib/IOBufWriter.cpp:30-32 | true exactly when the bytes fit |
| `Pcap.PcapWriter.WritePcapHeader` | katran/lib/PcapWriter.cpp:79-100 | writes the header once if it fits; the buffer stays the bytes of the log's file |
| `Pcap.PcapWriter.WritePacket` | katran/lib/PcapWriter.cpp:56-77 | appends one record; the buffer stays the bytes of the log's file |
| `Pcap.PcapWriter.RestartWriters` | katran/lib/PcapWriter.cpp:136-149 | empties all writers and sets the limit |
| `Pcap.PcapWriter.HandleMessage` | katran/lib/PcapWriter.cpp:164-191 | one message changes buffers and counters as the log says |
| `Pcap.PcapWriter.RunMulti` | katran/lib/PcapWriter.cpp:159-193 | the queue up to a shutdown leaves every buffer equal to the bytes of the log |
| `Pcap.PcapParser.GetPacketFromPcap` | katran/lib/testing/PcapParser.cpp:80-131 | one call is one step of the specified reader, short reads and oversized records included |
| `Pcap.FileReadsBack` | katran/lib/testing/PcapParser.cpp:80-131 | reading a written file returns exactly its records' bytes in order, then nothing |
| `Pcap.FileLayout` | katran/lib/PcapWriter.cpp:56-100 | a written file holds the magic number a1b2c3d4, version 2.4, the snapshot length and link type 1, and each record its seconds, microseconds, captured length, wire length and bytes at the positions of the format |
| `Pcap.CaptureReadsBack` | katran/lib/testing/PcapParser.cpp:80-131 | after every message stream each writer's bytes read back as the packets accepted for its event |
| `Checksum.CsumFoldHelper` | katran/lib/bpf/csum_helpers.h:27-37 | for every 64-bit sum four folds give the complement of the 16-bit number congruent modulo 65535 that is zero only for zero |
| `Checksum.VerifiesIffFolded` | katran/lib/bpf/csum_helpers.h:27-37 | data verify if and only if their folded sum is all ones |
| `Checksum.Ipv4CsumInline` | katran/lib/bpf/csum_helpers.h:50-57 | the folded complement of the ten words of the header |
| `Checksum.CheckMakesValid` | katran/lib/bpf/csum_helpers.h:50-57 | filling in the computed checksum makes the data verify |
| `Checksum.ByteOrderIndependent` | katran/lib/bpf/csum_helpers.h:50-57 | the little-endian sum verifies if and only if the network-order sum of section 1 of RFC 1071 does |
| `Headers.V4HeaderVerifies` | katran/lib/bpf/encap_helpers.h:31-55 | every IPv4 header made verifies, whatever the unwritten identification bytes hold |
| `Headers.V4Fields` | katran/lib/bpf/encap_helpers.h:31-55 | the fields of section 3.1 of RFC 791 hold the given values |
| `Headers.CreateV4Hdr` | katran/lib/bpf/encap_helpers.h:31-55 | writes that header in place and nothing else; the identification bytes stay |
| `Headers.V6Fields` | katran/lib/bpf/encap_helpers.h:57-77 | the fields hold the given values and the traffic class reads back |
| `Headers.CreateV6Hdr` | katran/lib/bpf/encap_helpers.h:57-77 | writes that header in place and nothing else |
| `Headers.DecrementKeepsValid` | katran/lib/bpf/balancer_helpers.h:95-107 | a valid header passed on stays valid if and only if its time to live was at least 2 |
| `Headers.DecrementTtl` | katran/lib/bpf/balancer_helpers.h:82-109 | short packets and expiring ones are dropped; only hop count and checksum change |
| `EchoReply.ReplyVerifiesIff` | katran/lib/bpf/handle_icmp.h:74-78 | the adjusted ICMP checksum is right if and only if the little-endian word was below 0xfff8 |
| `EchoReply.Reply6VerifiesIff` | katran/lib/bpf/handle_icmp.h:103-107 | the adjusted ICMPv6 checksum is right, exchanged addresses included, if and only if the word was not zero |
| `EchoReply.ReplyHeaderVerifies` | katran/lib/bpf/handle_icmp.h:79-85 | the reply's IP header verifies |
| `EchoReply.ReplyHeaderFields` | katran/lib/bpf/handle_icmp.h:79-85 | the reply goes back to the sender with a fresh time to live; other fields stay |
| `EchoReply.SwapMacAndSend` | katran/lib/bpf/handle_icmp.h:37-47 | exchanges the hardware addresses only |
| `EchoReply.SendIcmpReply` | katran/lib/bpf/handle_icmp.h:59-88 | turns the request in place into the reply of Wire.EchoReply4, or drops short frames |
| `EchoReply.SendIcmp6Reply` | katran/lib/bpf/handle_icmp.h:90-113 | turns the request in place into the reply of Wire.EchoReply6, or drops short frames |
| `Wire.EchoReply4` | katran/lib/bpf/handle_icmp.h:59-88 | the frame sent for an echo request: hardware and IP addresses exchanged, time to live 64, a header that verifies, type 0, all from byte 38 on untouched; its ICMP sum verifies, if the request's did, if and only if the checksum word was below 0xfff8 |
| `Wire.EchoReply6` | katran/lib/bpf/handle_icmp.h:90-113 | the same for IPv6: type 129, and the sum with pseudo-header verifies if and only if the checksum word was not zero |
| `Encap.EncapV4` | katran/lib/bpf/pckt_encap.h:93-133 | fails exactly without headroom; otherwise new Ethernet header, outer IPv4 header, and the inner packet untouched by the overlapping writes |
| `Encap.EncapV6` | katran/lib/bpf/pckt_encap.h:41-91 | the same with an IPv6 outer header, for either inner version; its fields are those of Wire.ForwardedTo6 |
| `Wire.ForwardedTo4` | katran/lib/bpf/pckt_encap.h:93-133 | byte by byte, a frame sent to an IPv4 real: hardware addresses, type, version and length of the header, type of service, total length, no fragment, time to live 64, protocol 4, a header that verifies, the client's packet |
| `Wire.TunnelAddresses4` | katran/lib/bpf/pckt_encap.h:93-133 | its source is 172.16 with the client's low address bytes and port mixed in, its destination the real |
| `Wire.ForwardedTo6` | katran/lib/bpf/pckt_encap.h:41-91 | the same for an IPv6 real, with protocol 41 or 4 for the inner version |
| `Wire.TunnelAddresses6` | katran/lib/bpf/pckt_encap.h:72-91 | its source is 0100:: with the client's last word and port mixed in, its destination the real |
| `Wire.SentLength` | katran/lib/bpf/pckt_encap.h:66-80 | if the client's length field counts its packet, the outer one counts exactly what follows it in every frame sent, except that an IPv6 packet sent to an IPv4 real is taken 40 bytes too short |
| `Encap.DecapV4` | katran/lib/bpf/pckt_encap.h:158-173 | removes 20 bytes and moves the Ethernet addresses |
| `Encap.DecapV6` | katran/lib/bpf/pckt_encap.h:137-156 | removes 40 bytes, with the type told |
| `Decap.DecapUndoesEncap4` | katran/decap/bpf/decap_kern.c:31-154 | the program passes every frame of encap_v4 and delivers exactly the client's IP packet, as IPv4 |
| `Decap.DecapUndoesEncap6` | katran/decap/bpf/decap_kern.c:31-154 | the program passes every frame of encap_v6 and delivers exactly the client's IP packet with its own type |
| `Decap.StripsOuterHeaderIff` | katran/decap/bpf/decap_kern.c:78-113 | what is stripped is exactly the outer header if and only if this is not IPv6 in IPv4 |
| `Decap.DecapProgram.ProcessL3Headers` | katran/decap/bpf/decap_kern.c:31-76 | options, fragments and short packets are dropped |
| `Decap.DecapProgram.ProcessPacket` | katran/decap/bpf/decap_kern.c:115-154 | frame, verdict and the three counters as specified |
| `Decap.DecapProgram.XdpDecap` | katran/decap/bpf/decap_kern.c:156-180 | frame and verdict as specified, other types passed |
| `Wire.Decapsulated4` | katran/decap/bpf/decap_kern.c:31-154 | byte by byte: options, fragments and short frames dropped, 20 or 40 bytes stripped for protocols 4 and 41, every other packet passed unchanged |
| `Wire.Decapsulated6` | katran/decap/bpf/decap_kern.c:31-154 | the same for IPv6 outer headers |
| `Wire.DecapsulatedOther` | katran/decap/bpf/decap_kern.c:156-180 | frames of other types pass unchanged, frames without a type are dropped |
| `Parsing.ErrorHasClientFlow` | katran/lib/bpf/handle_icmp.h:223-280 | an error quoting a server's packet yields the flow key of the client's packets, if and only if the whole transport header is quoted |
| `Parsing.ErrorFollowsConnection` | katran/lib/bpf/balancer_kern.c:427-556 | from the same state the error gets the verdict and table changes of the client's packet |
| `Parsing.ParseIcmp` | katran/lib/bpf/handle_icmp.h:252-280 | quoted addresses exchanged; echo answered; other types passed; short ones and options dropped |
| `Parsing.ParseIcmpv6` | katran/lib/bpf/handle_icmp.h:222-250 | the same for ICMPv6 errors of type 1 and 2 |
| `Parsing.ParseTcp` | katran/lib/bpf/pckt_parsing.h:106-134 | ports, exchanged when quoted, and SYN; false exactly when the header is cut |
| `Parsing.ParseUdp` | katran/lib/bpf/pckt_parsing.h:80-104 | ports, exchanged when quoted; false exactly when the header is cut |
| `Parsing.ProcessL3Headers` | katran/lib/bpf/balancer_kern.c:168-237 | action and description as specified for IPv4 and IPv6 |
| `Parsing.ParsePacket` | katran/lib/bpf/balancer_kern.c:385-425 | everything before the table lookups |
| `Wire.Actions4` | katran/lib/bpf/balancer_kern.c:168-425 | which IPv4 frames are dropped, passed, answered or looked up, by their bytes: header words, fragment bits, protocol, ICMP type and lengths |
| `Wire.Actions6` | katran/lib/bpf/balancer_kern.c:168-425 | the same for IPv6 |
| `Wire.Fields4` | katran/lib/bpf/pckt_parsing.h:64-134 | a client's flow: addresses at 26 and 30, ports at 34 and 36, protocol at 23, SYN bit at 47, type of service at 15, length at 16 |
| `Wire.Fields6` | katran/lib/bpf/pckt_parsing.h:64-134 | the same for IPv6: 22 and 38, 54 and 56, 20, 67, traffic class at 14 and 15, length at 18 |
| `Wire.QuotedFields4` | katran/lib/bpf/handle_icmp.h:252-280 | the flow of an ICMP error: addresses at 58 and 54, ports at 64 and 62, protocol at 51, SYN bit at 75, all of the quoted packet and exchanged |
| `Wire.QuotedFields6` | katran/lib/bpf/handle_icmp.h:222-250 | the same for ICMPv6: 86 and 70, 104 and 102, 68, 115 |
| `Ingress.ProcessPacket` | katran/lib/bpf/balancer_kern.c:368-590 | parse, decide, encapsulate: action, frame and CPU state as specified |
| `Ingress.BalancerIngress` | katran/lib/bpf/balancer_kern.c:592-615 | the whole program on a frame |
| `Ingress.ForwardedArrives` | katran/lib/bpf/pckt_encap.h:41-173 | the frame sent is addressed to the real and decapsulates to the client's packet |
| `Ingress.TypeRestoredIff` | katran/lib/bpf/pckt_encap.h:41-173 | the client's packet comes out of the tunnel with its own Ethernet type if and only if it is not an IPv6 packet sent to an IPv4 real |
| `Ingress.FrameReachesConfiguredReal` | katran/lib/bpf/balancer_kern.c:368-590 | after any calls without a repeated deletion a frame the ring decides leaves addressed to a configured real of its own VIP and decapsulates to the client's IP packet unchanged |

## Left out

- Loading and attaching programs, netlink, perf event setup and other system calls.
- gRPC and Thrift services, clients and tools: plumbing.
- Internals of MurmurHash3, jhash, folly address parsing and hashing, and the kernel's LRU and
  longest-prefix tables: parameters, or events that may remove any entry.
- Failing kernel map updates and the error counters around them: updates succeed.
- The testing, disableForwarding and feature switches; healthchecking; the other getters; statistics
  counters of the balancer program: single-branch facts.
- Calls are atomic steps; threads inside the control plane are not modelled.
- 32-bit overflow of reference counts, of the packet counters and of runs, and real numbers of
  2^31 and more in the signed ring entries: counts are unbounded.
- std::sort leaves ties open and hash maps leave their iteration order open: steps allow every order.
- bpf_xdp_adjust_head is modelled as failing without headroom or when less than an Ethernet
  header would be left.
- QUIC header parsing: the id it returns is a parameter. Deleted QUIC mappings stay in the
  kernel array, as in the code.
- Affinity for VIPs that hash the destination port only, because the stored key differs from
  the one looked up; for LRU-bypass and QUIC VIPs there is none to prove.
- The per-core choice of the connection table and the fallback table: one CPU is modelled.
- GUE encapsulation, inline decapsulation and recirculation, and ICMP "too big" generation:
  compiled in optionally. A packet above the size limit is dropped.
- The single-writer loop and the file writer of the capture code: easier variants of the
  multi-writer loop and the buffer writer.
- Header fields are written in address order rather than in the source's order; they do not overlap.
- What happens after a ring construction that does not end or a lookup that is not defined:
  such a call is no step.
- Maglev.RingIsFull: assumes that the construction ends, because otherwise there is no ring.
- Forwarding.StepKeepsInv: assumes the calls `OpOk` admits, because otherwise numbers in use can
  be recycled or kernel entries overwritten.
- LoadBalancer.KatranLb.ClearAllSrcRoutingRules: assumes `ClearDefined`, because otherwise its
  behaviour is undefined.
- EndToEnd.SourceRuleReachesItsReal: assumes that the kernel's lookup finds a longest match.
- Affinity.FlowAffinity: leaves out destination-port-only VIPs, whose stored key is not the one looked up.
