# AIEngine: a verified model of its stateful core

AIEngine inspects packets. This project models seven of its stateful parts in Dafny, each in the
form it has in the source, and proves what each promises over all inputs and all runs:

- **Domain trie.** Expressions are split on dots and inserted right to left into a heap trie. A lookup
  never splits the name: it scans it backwards with two indices. The scan is proved to compute "split,
  then walk to the deepest node", and the answers are characterised for every list of expressions.
- **Learner.** Byte histograms per offset, the expression printed from them, the character scan that
  compacts it, and the hex text of the kept bytes. The scan is proved equal to a rewriting of the token
  list, and the languages before and after are compared.
- **Pools, flow table, expiry.** A slot stack hands out objects; flows live in a table with an index by
  id and one by time; an expiry loop with an early end gives flows and what is attached to them back.
  Every flow is proved to be in exactly one place on every run.
- **Evidence log.** Records copied into a bounded buffer, file after file, in the pcap format
  (sections 4 and 5 of draft-ietf-opsawg-pcap), read back by an independent reader.
- **Layered dispatch.** The recursive walk of a packet over the multiplexers of the LAN stack, wired by
  the constructor and re-wired for link layer tags, and the books the layers keep.
- **First-match dispatch.** Flow forwarders, IP sets and regular expressions asked in list order.
- **Bracket matchers.** Two loops of `utils/cpplint.py`, against the grammar of nested brackets.

The default build is modelled: no Python, Ruby or Java macros.

## How the files fit together

Each component is one or two files. Methods that loop or change state are written as the source writes
them and proved against functions (`DomainRegistry.Lookup`, `LearnerRegex.CompactText`, `PoolModel.After…`,
`PcapFormat.File`, `Layers.Tally.After`, `Cascades.Stop`, `Brackets.Scan`); the lemmas are about those functions.
Ghost fields hold histories: the registrations in order, the payloads seen, the packets logged, the
walks of all packets. `hide` keeps a proof from looking into definitions it does not need.

## Where the code does not do what one would expect

Each of these is kept as it is in the code, with the exact condition under which the expectation holds.

1. **A deeper trie node hides a registered domain.** The candidate is overwritten at every node reached,
   also when nothing is registered there: with `com` and `a.b.com` registered, `b.com` has no answer
   (`DeepestNodeHidesAnswer`). Every name gets the most specific registered domain exactly when the
   expressions are gap free (`MostSpecificIffGapFree`).
2. **Offsets that no payload reached have the best quality.** `getQualityByte` asks whether there are payloads, not
   whether a byte was seen (`src/learner/LearnerEngine.cc:74`): with one payload, an offset behind its end has quality
   200 (`GetQualityByte`, `UnseenQuality`). `compute` is not affected, it only visits offsets that were seen.
3. **Compaction changes the language.** `.?.?` matches the empty string and `.{2}` does not. The compacted
   expression matches a subset, and the same language exactly when no two wildcards stand together
   (`CompactNarrows`, `CompactKeepsLanguageIff`).
4. **`getAsciiExpression` is wrong from 0xA0 on.** The high hex digit is never adjusted for letters
   (`DecodeIsIdentityIff`).
5. **`create` while objects are outstanding exposes a stale slot** (`CreateIsCleanIff`, `FlowSystem.CreateFlows`), **and
   releases out of order drop objects** that only the pool kept alive (`StableIffLifo`, `ReleaseDrops`). `destroy` with
   a negative number removes everything, because the number is compared as unsigned (`DestroyCount`).
6. **Expiry takes away transport objects that active flows still use.** Flows refer to them weakly
   (`src/Flow.h:135`, `src/protocols/tcp/TCPProtocol.cc:127-129`), and what an ended flow gives back goes into the first slot that
   is not available, which may be all that keeps the object of an active flow alive. While objects sit in the order of
   the flows, as new connections leave them (`Connect`), a pass over the t oldest of n flows gives back t
   objects, at most half of n, and drops those of as many of the newest flows, idle or not (`DropsTheNewest`,
   `NewestLosesItsObject`, `ExpireOldest`); closing one connection drops the newest one's (`Disconnect`). For any contents of
   the slots, `LinkAfterPassIff` says which links are alive after a pass. A pass loses no object, of idle or active
   flows, exactly if each idle flow's object sits outside the slots taken before its turn and no slot taken is the only
   one to hold another flow's object (`PassSparesAllIff`, `ExpireHolders`), as when flows end in reverse order
   (`LastInFirstOutLosesNothing`). The first half alone tells when the idle flows' objects all come back (`AllComeBackIff`).
7. **Expiry can miss idle flows.** Most packets of a stored flow change its time without telling the time
   index (`src/protocols/udp/UDPProtocol.cc:231-235`, `src/protocols/tcp/TCPProtocol.cc:263-267`; the TCP test,
   a bitwise "and" with 64 compared to 1, is never true: `TcpNeverRefreshes`). The index stays sorted exactly when the
   neighbours allow the new time (`SetTimeInPlace`). A pass is complete exactly when no idle flow stands behind
   an active one (`UpdateTimers`, `PassIsCompleteIff`); one flow refreshed in place shields all behind it, and at the
   front it stops the pass entirely (`ExpireAfterRefresh`).
8. **`releaseFlow` gives back one application object only.** Where the pools have room, all live ones are back in
   their pools exactly when at most one was attached (`AllReturnedIff`).
9. **Switching the NIDS engine off when it was not on doubles the forwarders** (`EnableNidsEngine`,
   `NidsOffRestoresIff`).
10. **The depth counter of cpplint finds ends of groups that are not nested properly.** It is right on all text over
    some kinds of brackets exactly when the kind it counts is the only one (`CounterIsRightIff`).

## Model

| member | source | states |
|---|---|---|
| Labels.JoinAfterSplit | src/names/DomainNameManager.cc:35-45 | splitting on dots loses nothing: joining the labels gives the text back |
| Labels.SplitAfterJoin | src/names/DomainNameManager.cc:35-45 | dot-free labels joined with dots split into themselves |
| Labels.NonEmptyParts | src/names/DomainNameManager.cc:44-45 | insertion keeps each token or drops it, in order |
| Labels.NonEmptyOne | src/names/DomainNameManager.cc:44-45 | it drops exactly the empty ones |
| DomainNames.DomainNode.AddKey | src/names/DomainNode.h:68-71 | a key already present keeps its node; otherwise the new node is the child, and no other child changes |
| DomainNames.DomainNameManager.constructor | src/names/DomainNameManager.cc:35-59 | the empty manager is a valid trie: one root, no registration |
| DomainNames.DomainNameManager.AddDomainName | src/names/DomainNameManager.cc:35-59 | the trie afterwards has exactly the nodes of all registered paths, each storing the latest registration at its path; nodes are only added; the registration is appended, whatever the expression |
| DomainNames.DomainNameManager.Descend | src/names/DomainNameManager.cc:40-55 | the insertion loop reaches the node of the expression's non-empty labels, right to left, creating exactly the missing nodes |
| DomainNames.DomainNameManager.EnsureChild | src/names/DomainNameManager.cc:44-53 | one round follows the child of the token or creates it, and the trie stays exact |
| DomainNames.DomainNameManager.Scan | src/names/DomainNameManager.cc:70-97 | the backward scan with two indices follows exactly the labels of the name, right to left, until the first miss or the leftmost label; every substr is in bounds |
| DomainNames.DomainNameManager.Miss | src/names/DomainNameManager.cc:82-88 | at a label without a node the candidate of the last node reached is the answer, and counted |
| DomainNames.DomainNameManager.LastHop | src/names/DomainNameManager.cc:98-112 | the leftmost label is looked up unless it is empty; an empty one leaves the candidate and the counter alone |
| DomainNames.DomainNameManager.GetDomainName | src/names/DomainNameManager.cc:68-113 | the answer is the registration at the deepest node that split-then-walk reaches, null for the root; exactly the answered domain's counter is bumped by one, for every name that does not begin with a dot, and for the others unless only a leading empty label was left; no other counter changes |
| DomainNames.DomainNameManager.MostSpecificIff | src/names/DomainNameManager.cc:68-113 | for the manager's own registrations: lookups return the most specific registered domain for every name exactly when the expressions are gap free |
| DomainRegistry.WalkIsDeepest | src/names/DomainNameManager.cc:70-97 | the walk ends at the deepest existing node on the path of the name: no longer prefix has a node |
| DomainRegistry.CutLabel | src/names/DomainNameManager.cc:74-77 | the characters between two dots, cut out in place, are the next label of the split name |
| DomainRegistry.LatestIsLast | src/names/DomainNode.h:73-74 | a node answers with the last domain set on it |
| DomainAnswers.AnswerCovers | src/names/DomainNameManager.cc:68-113 | any answer's labels are a suffix of the name's labels, as long as the walk is deep, and no later registration has the same labels |
| DomainAnswers.MostSpecificUnlessOvershot | src/names/DomainNameManager.cc:68-113 | for one name: the answer is the most specific covering registration exactly if it is not lost to a deeper empty node |
| DomainAnswers.MostSpecificIffGapFree | src/names/DomainNameManager.cc:68-113 | all names are answered with the most specific covering registration if and only if, between an expression and a longer one ending in it, every intermediate suffix is registered |
| DomainAnswers.IncomparableAnswersLatest | src/names/DomainNameManager.cc:68-113 | if no expression is a proper label suffix of another, the answer is the latest registration that covers the name, and null exactly when none does |
| DomainAnswers.DeepestNodeHidesAnswer | src/names/DomainNameManager.cc:81-91 | a concrete lost answer: com is registered and covers b.com, but a.b.com is registered too |
| DomainAnswers.LeadingDot | src/names/DomainNameManager.cc:98-112 | a name with a leading dot has the answer of the name without it; it is counted only if the walk had missed before |
| DomainAnswers.CountedIff | src/names/DomainNameManager.cc:84-112 | an answered name is counted, except exactly when it begins with a dot and the labels behind the dot are the last labels of a registered expression |
| DomainAnswers.TrailingDot | src/names/DomainNameManager.cc:68-113 | a name ending in a dot has no answer |
| LearnerStatistics.HistogramCounts | src/learner/LearnerEngine.cc:52-62 | a histogram holds exactly how often each byte was seen; its counts sum to the bytes seen |
| LearnerStatistics.ColumnCounts | src/learner/LearnerEngine.cc:52-62 | a byte is counted at an offset once for each payload that has it there |
| LearnerStatistics.HistogramFacts | src/learner/LearnerEngine.cc:48-65 | counts at an offset sum to the payloads longer than it; distinct values do not exceed the payloads; the modal count times the distinct values is at least the payloads reaching the offset |
| LearnerStatistics.QualityThreshold | src/learner/LearnerEngine.cc:67-79 | quality lies between 1 and 100, exceeds 80 exactly when 5*(distinct-1) is less than the payloads, and is 100 minus the share of the other values rounded down |
| LearnerStatistics.UnseenQuality | src/learner/LearnerEngine.cc:72-76 | with no byte seen at the offset, the division cut towards zero gives 100 plus 100 divided by the payloads |
| Learner.LearnerEngine.Reset | src/learner/LearnerEngine.cc:28-35 | everything learned is forgotten |
| Learner.LearnerEngine.AgregatePacketFlow | src/learner/LearnerEngine.cc:48-65 | the histograms become those of the payloads seen so far and this one; length is the longest payload |
| Learner.BytesAsTheyCame | src/learner/LearnerEngine.cc:53-53 | every byte is counted as it came in, whether it was stored as an unsigned or a signed char |
| Learner.LearnerEngine.AgregateFlows | src/learner/LearnerEngine.cc:181-196 | all given records are aggregated in order |
| Learner.LearnerEngine.LearnFrom | src/learner/LearnerEngine.cc:48-161 | from payloads as they came in to the expression: what is learned is learned of these payloads, and it matches each of them that is long enough if they agree |
| Learner.LearnerEngine.GetQualityByte | src/learner/LearnerEngine.cc:67-79 | on every offset a payload reached: 1 to 100 with no division by zero, above 80 exactly when the bytes vary little, and the value by its bounds; 100 plus 100 divided by the number of payloads on the other offsets of the array, because the guard asks for payloads; 0 outside the array and before the first payload |
| Learner.LearnerEngine.ChooseByte | src/learner/LearnerEngine.cc:106-115 | the loop finds a byte of maximal count in any iteration order of the map |
| Learner.LearnerEngine.Compute | src/learner/LearnerEngine.cc:81-161 | an offset is kept exactly when 5*(distinct-1) is less than the payloads, with a most frequent byte; the stored expression is the print of the compacted tokens, the raw one the hex text of the kept bytes |
| Learner.UnanimousPayloadsMatch | src/learner/LearnerEngine.cc:81-161 | from payloads that agree wherever they overlap, every offset is kept and every long enough payload is matched |
| LearnerRegex.CompactScan | src/learner/LearnerEngine.cc:133-157 | the index-juggling scan terminates and computes the rewriting of maximal `.?` runs |
| LearnerRegex.CountTokens | src/learner/LearnerEngine.cc:136-144 | the inner loop counts the maximal run of `.?` pairs; comparing at the terminator never helps |
| LearnerRegex.CompactTextOfPrint | src/learner/LearnerEngine.cc:116-157 | the scan never confuses `.?` with part of a hex token: its result is the print of the token list with each maximal run of two or more wildcards replaced by one repetition |
| LearnerRegex.ExpandAfterCompact | src/learner/LearnerEngine.cc:133-157 | writing out every repetition gives the token list back |
| LearnerLanguage.ParseAfterPrint | src/learner/LearnerEngine.cc:116-152 | the printed expression is unambiguous: a reader gets its items back |
| LearnerLanguage.ExpandTextAfterCompactText | src/learner/LearnerEngine.cc:133-157 | expanding each `.{n}` in the compacted text gives the original text |
| LearnerLanguage.CompactNarrows | src/learner/LearnerEngine.cc:133-157 | everything the compacted expression matches, the uncompacted one matches (dot matches any byte, src/regex/Regex.h:74) |
| LearnerLanguage.AgreeingPayloadMatches | src/learner/LearnerEngine.cc:96-157 | every payload at least as long as the token list that agrees at the kept offsets is matched by the compacted expression |
| LearnerLanguage.CompactKeepsLanguageIff | src/learner/LearnerEngine.cc:133-157 | compaction keeps the language exactly when no two wildcards stand together |
| LearnerLanguage.GetAsciiExpression | src/learner/LearnerEngine.cc:198-212 | the loop decodes pair by pair, for every text of even length |
| LearnerLanguage.DecodeAfterHex | src/learner/LearnerEngine.cc:117-212 | decoding the hex text of any bytes leaves each byte below 0xA0 alone and makes each other one 0x90 smaller |
| LearnerLanguage.DecodeIsIdentityIff | src/learner/LearnerEngine.cc:198-212 | hex printing and decoding is the identity exactly on byte strings below 0xA0 |
| Caches.Cache.Acquire | src/Cache.h:69-82 | the top available slot is handed out and counted, or a failure is counted; the slots keep their contents |
| Caches.Cache.Release | src/Cache.h:60-67 | the first slot that is not available takes the object; with all slots available nothing happens |
| Caches.Cache.Create | src/Cache.h:84-90 | new objects go behind all slots and total grows by their number |
| Caches.Cache.Destroy | src/Cache.h:92-106 | the topmost available objects go, all of them if the number is negative or too large; outstanding slots stay |
| PoolModel.AccountsBalance | src/Cache.h:60-106 | on every run, whatever the caller does, size minus total is acquires minus releases, and total never exceeds the size |
| PoolModel.CallsAreCounted | src/Cache.h:69-82 | on every run each call of acquire is counted once, as an acquire or as a failure |
| PoolModel.FailsIffEmpty | src/Cache.h:73-80 | it is a failure exactly when nothing is available, and then nothing else changes |
| PoolModel.DestroyLeaves | src/Cache.h:92-106 | destroying n objects leaves n fewer available, the topmost ones gone, and none if n is negative or more than there are; outstanding slots stay |
| PoolModel.StepConserves | src/Cache.h:60-106 | a step under the discipline neither invents nor duplicates an object; only destroy loses some |
| PoolModel.OwnershipIsExclusive | src/Cache.h:60-106 | on every disciplined run no object is twice in the pool, twice outstanding, or both available and outstanding |
| PoolModel.CreateIsCleanIff | src/Cache.h:84-90 | create makes exactly the new objects available if and only if nothing is outstanding |
| PoolModel.StableIffLifo | src/Cache.h:60-82 | among runs of acquires and releases of outstanding objects, exactly those releasing in reverse order never change the slots |
| PoolModel.LifoKeepsSlots | src/Cache.h:60-82 | after such a run the slots are as before, and those above total hold exactly the outstanding objects |
| PoolModel.ReleaseDrops | src/Cache.h:60-67 | afterwards the pool holds the released object and all it held before, except the object in the slot it overwrote |
| PoolModel.ReleasesOverwrite | src/Cache.h:60-67 | releases one after the other overwrite the slots from total on, as far as there are any, and the rest is ignored |
| Caches.CacheManager.ReleaseFlow | src/CacheManager.cc:32-85 | the branch cascade changes the pools as the list of kinds it names says |
| Caches.PoolByPool | src/CacheManager.cc:34-84 | kind by kind: a TCP flow (protocol 6) gives back its live TCP object and the first live one of HTTP, SSL, SMTP, POP and IMAP; any other flow its live GPRS object and the first live one of DNS, SIP and SSDP; each to its own pool, which changes by that release only |
| Caches.OtherPoolsUntouched | src/CacheManager.cc:34-84 | a TCP flow never touches the pools of GPRS, DNS, SIP and SSDP, and any other flow never touches the other six |
| Caches.EachPoolOnce | src/CacheManager.cc:32-85 | each pool gets back the live object of its kind that the cascade names, once; every other pool is unchanged |
| Caches.AllReturnedIff | src/CacheManager.cc:32-85 | after releaseFlow every live attached object whose pool has a free slot is on top of its pool, with one release counted, exactly when none was shadowed by a live one earlier in the cascade; where the pools have room, exactly when at most one application object was attached |
| InfoLifetimes.LinkSurvivesIff | src/CacheManager.cc:32-85 | the return of one flow's objects kills another flow's live link exactly if the linked object is not held elsewhere, sits in the slot that is overwritten, and is not the returned one |
| InfoLifetimes.PassByKind | src/CacheManager.cc:32-85 | several flows give each pool exactly the objects that their cascades name in turn, as plain releases in that order |
| InfoLifetimes.LinkAfterPassIff | src/flow/FlowManager.cc:126-169 | after any pass over any table, whatever the slots held before, any link of any flow is alive exactly if its object is held elsewhere, comes back, or sits in a slot that is not taken; what comes back is worked out on the slots before the pass |
| InfoLifetimes.LifoStacks | src/Cache.h:60-82 | from a full pool, last-in-first-out use leaves the outstanding objects stacked in the order of acquisition |
| InfoLifetimes.OneMoreHolder | src/protocols/tcp/TCPProtocol.cc:126-130 | one more connection keeps the objects of all connections stacked in the order of acquisition |
| InfoLifetimes.OtherLinksAfterCloseIff | src/protocols/tcp/TCPProtocol.cc:218-230 | one of the flows ends: of the others, all links but that of the newest flow stay alive |
| InfoLifetimes.StackedAfterCloseIff | src/protocols/tcp/TCPProtocol.cc:218-230 | the objects of the flows left stay stacked in the order of acquisition exactly if the newest one ended |
| InfoLifetimes.DropsTheNewest | src/flow/FlowManager.cc:126-169 | of n flows that hold objects acquired in their order, a pass over the t oldest gives back the first m, m being t but at most half of n, rounded up, and drops exactly those of the m newest that it did not give back, whether these flows are idle or not |
| InfoLifetimes.ActiveLinkSurvivesIff | src/flow/FlowManager.cc:126-169 | a flow that is not taken by the pass has a live link before it, and after it exactly if at least as many newer flows exist as were taken |
| InfoLifetimes.NewestLosesItsObject | src/flow/FlowManager.cc:126-169 | three TCP connections, the oldest one idle: the newest one's live link is dead after the pass |
| InfoLifetimes.AllComeBackIff | src/flow/FlowManager.cc:126-169 | for flows with different objects that nothing else keeps: all expired flows' objects are given back if and only if, before the pass, each sits outside the slots that the flows before it will take |
| InfoLifetimes.AllComeBackFromDistinctSlotsIff | src/flow/FlowManager.cc:126-169 | with every object in one slot: all expired flows' objects are given back if and only if none sits in a slot that an earlier flow takes |
| InfoLifetimes.SparesAllIff | src/flow/FlowManager.cc:126-169 | no object at all is lost in a pass, of the flows it takes or of others, if and only if each expired flow's object sits outside the slots taken before its turn, and no slot taken is the only one to hold the object of another flow |
| InfoLifetimes.OnlyHoldersCount | src/flow/FlowManager.cc:126-169 | flows whose link is dead before a pass change nothing in it, and a pass puts nothing into the pool that it did not hold |
| InfoLifetimes.PassSparesAllIff | src/flow/FlowManager.cc:126-169 | both conditions for any pass over any table, told by the flows whose objects the pool still holds |
| InfoLifetimes.LastInFirstOutLosesNothing | src/flow/FlowManager.cc:126-169 | flows that end in the reverse of the order in which they began lose nothing, and the slots are as before |
| Flows.Flow.Reset | src/Flow.cc:47-83 | every modelled link and key is cleared, except the link to the packet frequencies |
| Flows.ToIntFits | src/flow/FlowManager.cc:134-134 | the int that a time becomes is the time itself when it fits, and differs from it by a multiple of 2^32 always |
| Flows.FlowManager.constructor | src/flow/FlowManager.h:67-69 | an empty table in which both indices agree, with a timeout of 180 |
| Flows.FlowManager.AddFlow | src/flow/FlowManager.cc:41-48 | a new id is stored in both indices, in the time index behind all that are not later if it is sorted; a taken id changes neither index; counted either way; order is kept |
| Flows.FlowManager.RemoveFlow | src/flow/FlowManager.cc:50-58 | the flow under the id leaves both indices, and nothing else changes |
| Flows.FlowManager.FindFlow | src/flow/FlowManager.cc:60-77 | the flow under the first hash, else under the second; null exactly when no stored flow has either id |
| Flows.FlowManager.UpdateFlowTime | src/flow/FlowManager.cc:94-103 | the stored flow gets the time; it stays in its place if its neighbours allow it and else goes behind all that are not later; all others keep their order among themselves; both indices agree; a sorted index stays sorted |
| Flows.FlowManager.SetTimeInPlace | src/protocols/udp/UDPProtocol.cc:234-234 | a time set without the index changes one time at its place and leaves membership and ids alone; a sorted index stays sorted exactly when the two neighbours allow the new time |
| Flows.FlowManager.UpdateTimers | src/flow/FlowManager.cc:105-169 | exactly the idle front of the time index goes, as many as the times of the index say, with its attachments to their pools and the flows to the flow pool in order; the timeout counter grows by their number; the idle flows left are the others that were idle; none is left if and only if none stood behind an active one, in particular when the index was sorted |
| Flows.FlowManager.ExpireAfterRefresh | src/protocols/udp/UDPProtocol.cc:226-236 | after the time of the n-th flow of the index was set in place, a pass takes nothing from the n-th flow on, however many are idle there, and in front of it what it would have taken; with the first flow nothing at all |
| Flows.FlowManager.ExpireOldest | src/flow/FlowManager.cc:126-169 | a pass that takes the oldest of the flows holding objects, and any number of them: the pool counts at most half of all objects as released, and those of as many of the newest holders are gone |
| Flows.FlowManager.ExpireHolders | src/flow/FlowManager.cc:126-169 | a pass counts one release for each idle flow that still has its object exactly if none sits in a slot taken before its turn; the pool keeps every object it held, of idle and active flows, exactly if moreover no slot taken is the only one to hold another flow's object |
| Flows.FlowManager.AllIdleGoneIff | src/flow/FlowManager.cc:126-169 | what the early end of the loop leaves behind: no idle flow exactly when no idle flow stood behind an active one; a sorted index guarantees it |
| FlowOwnership.PartitionFacts | src/flow/FlowManager.cc:41-58 | available, stored and handed-out flows are pairwise disjoint, together all created ones, and add up |
| FlowOwnership.FlowSystem.constructor | src/StackLan.cc:155-162 | an empty pool and table partition the empty set of flows |
| FlowOwnership.FlowSystem.CreateFlows | src/flow/FlowCache.h:51-51 | the new flows go behind all slots; every created flow is in exactly one place afterwards if and only if nothing was outstanding |
| FlowOwnership.FlowSystem.AcquireFlow | src/flow/FlowCache.h:49-49 | the flow handed out was available, is reset, and is now its caller's; reset touched no stored flow, so no index key changed; null exactly when nothing was available |
| FlowOwnership.FlowSystem.ReleaseFlow | src/flow/FlowCache.h:48-48 | for any flow: an outstanding one always finds a free slot and is on top of the pool; the partition holds afterwards if and only if the flow was in the caller's hands, or nothing was outstanding and nothing happened |
| FlowOwnership.FlowSystem.AddFlow | src/flow/FlowManager.cc:41-48 | the flow moves from its owner to the table, or stays with its owner when its id is taken |
| FlowOwnership.FlowSystem.RemoveFlow | src/flow/FlowManager.cc:50-58 | the flow moves from the table to its owner |
| FlowOwnership.FlowSystem.GetFlow | src/protocols/tcp/TCPProtocol.cc:96-139 | the flow stored under the first hash, else the one under the second, and then nothing changes; only when neither is stored one is taken from the pool, filled in, stored under the first hash and, for TCP, linked to the next object of its pool; null only when the pool is empty; nothing is left in the caller's hands, and the stored flows are as before |
| FlowOwnership.FlowSystem.AttachTcpInfo | src/protocols/tcp/TCPProtocol.cc:126-130 | the flow gets the object that was on top of the pool, if there was one, and the pool counts an acquire or a failure |
| FlowOwnership.FlowSystem.Connect | src/protocols/tcp/TCPProtocol.cc:96-139 | a packet of a known TCP connection, in either direction, finds its flow and changes nothing; one of a new connection keeps the objects of all connections stacked in the order in which they began, with the new connection's last |
| FlowOwnership.TcpNeverRefreshes | src/protocols/tcp/TCPProtocol.cc:263-263 | the TCP test for telling the time index is false for every number of packets |
| FlowOwnership.RefreshDueIff | src/protocols/udp/UDPProtocol.cc:231-231 | the time index is told of the packets 1, 65, 129 and so on of a flow that is not TCP, and of no others |
| FlowOwnership.FlowSystem.KeepAlive | src/protocols/tcp/TCPProtocol.cc:263-267 | the flow's time is that of the packet, the table holds the same flows; the index is told of the packets 1, 65, 129 and so on of a flow that is not TCP and of no others; the order is kept when it is told, and the index is not moved otherwise |
| FlowOwnership.FlowSystem.CloseFlow | src/protocols/tcp/TCPProtocol.cc:218-230 | what the flow holds goes to its pools, and the flow goes from the table to the pool |
| FlowOwnership.FlowSystem.Disconnect | src/protocols/tcp/TCPProtocol.cc:218-230 | a TCP connection ends while others are open: of these exactly the newest loses its object, unless it is the newest that ends; exactly then the objects left stay stacked |
| FlowOwnership.FlowSystem.UpdateTimers | src/flow/FlowManager.cc:105-169 | an expiry pass moves exactly the front of the table to the top of the pool, oldest first, and counts it as releases and timeouts; the partition holds; complete exactly when no idle flow stood behind an active one |
| FlowOwnership.FlowSystem.Tick | src/protocols/tcp/TCPProtocol.cc:258-268 | when the last pass is more than a timeout ago, an expiry pass that leaves the flow's time alone and may take the flow; otherwise the flow's time, no pass, and for TCP the same order; the partition holds either way |
| FlowTimes.SetInPlaceKeepsOrderIff | src/protocols/tcp/TCPProtocol.cc:263-267 | the times of the index: one set in place keeps them ascending exactly when the two neighbours allow it (used by `SetTimeInPlace`) |
| FlowTimes.PassIsCompleteIff | src/flow/FlowManager.cc:126-169 | the times of the index: the idle front is all that is idle exactly when no idle time stands behind an active one (used by `AllIdleGoneIff`) |
| FlowTimes.PassLeaves | src/flow/FlowManager.cc:126-169 | behind the idle front stand exactly the other idle times |
| FlowTimes.RefreshedTimeShields | src/protocols/udp/UDPProtocol.cc:226-236 | a time refreshed in place ends the idle front at its place, and the idle ones behind it stay idle |
| PcapFormat.RecordsRoundTrip | src/EvidenceManager.cc:100-110 | reading the records of any packets gives the packets, in either byte order |
| PcapFormat.HeaderIsRecognized | src/EvidenceManager.cc:63-75 | a reader tells the byte order from the magic number, and the two orders are never confused |
| PcapFormat.HeaderBytes | src/EvidenceManager.cc:63-71 | the file header byte for byte in both byte orders: magic number, version 2.4, zone and accuracy 0, packets of up to 1500 bytes, link type 1 |
| PcapFormat.StampsRoundTrip | src/EvidenceManager.cc:100-108 | a reader of the record headers finds one for each packet, with both times zero and both lengths that of the packet |
| PcapFormat.FileRoundTrip | src/EvidenceManager.cc:63-110 | reading a written file gives exactly its packets |
| Evidence.EvidenceManager.Enable | src/EvidenceManager.cc:35-78 | a closed log opens a file that holds exactly a file header; an open one is left alone; nothing logged changes |
| Evidence.EvidenceManager.Disable | src/EvidenceManager.cc:81-90 | the open file is closed and cut to exactly what was written; nothing logged changes |
| Evidence.EvidenceManager.RollOver | src/EvidenceManager.cc:95-98 | the open file is closed whole and an empty one begun; nothing logged changes |
| Evidence.EvidenceManager.Write | src/EvidenceManager.cc:92-112 | one record is appended, never split: to the open file if it fits, else the file is closed whole and a new one begun; no copy leaves the buffer; counters match records and files |
| Evidence.EvidenceManager.ReaderFindsLog | src/EvidenceManager.cc:35-112 | at any moment of any run a pcap reader over the files in order returns exactly the written packets in order |
| Evidence.EvidenceManager.FieldsFound | src/EvidenceManager.cc:35-112 | at any moment of any run every file has the header fields above, and one record header as above for each of its packets |
| Layers.Multiplexer.AddUpMultiplexer | src/Multiplexer.h:69-72 | one key leads to the given layer, all others are as before |
| Layers.Multiplexer.ForwardPacket | src/Multiplexer.cc:59-95 | terminates on every graph with a rank; the packet walks from layer to layer, each chosen by the next protocol and accepting what is behind the header; each layer on the way counts one received and one forwarded, the last one a failure or a refusal, other layers nothing; each layer that was offered the packet is set as its packet function says, no other is; the packet is marked exactly when it was or some hop marked it |
| Layers.Multiplexer.OfferUp | src/Multiplexer.cc:66-91 | no layer for the next protocol, refusal by it, or one step up to a strictly higher layer |
| Layers.Net.StepInNumbers | src/Multiplexer.cc:70-79 | one step up, in numbers: the next layer's checker and packet function said yes to the window that begins header bytes later and is header bytes shorter; it works on that window moved by what the function advanced, with the mark, header size and next protocol the function set |
| Layers.Net.WindowMoves | src/Multiplexer.cc:70-79 | on every walk offset and length move by header and advance from hop to hop |
| Layers.Net.WalkEnds | src/Multiplexer.cc:66-94 | why a walk ended, in numbers: no layer for the next protocol, or its checker or packet function said no to the window behind the header |
| Layers.HeaderIsCutOff | src/Multiplexer.cc:72-74 | for a header inside the window, what is offered upwards is the packet's bytes from the header on |
| Layers.Net.WindowIsKept | src/Multiplexer.cc:70-76 | at every hop the buffer is the original one, and offset plus remaining length is the original sum |
| Layers.Net.WalkIsShort | src/Multiplexer.cc:59-95 | no layer is visited twice and a walk has at most as many hops as there are ranks above its start |
| LanStacks.LanStack.constructor | src/StackLan.cc:88-153 | the wiring of the source, key by key, upwards and downwards, and each layer with the checker, packet function and header size of its own protocol; it has a rank and all counters are zero |
| LanStacks.LanStack.EnableLinkLayerTagging | src/NetworkStack.cc:440-463 | exactly the edges of the tag type are added and the name is set; an unknown type adds none and clears the name; the graph keeps its rank and the books stay balanced |
| LanStacks.LanStack.Receive | src/PacketDispatcher.cc:164-185 | every packet is rejected at the door or walks up from the ethernet layer, told the ethernet type; the walk is recorded, the counters of all layers are those of all walks, and the layers are set as the walk says; the result tells whether the packet is to be logged |
| LanStacks.LanStack.Climb | src/PacketDispatcher.cc:178-179 | the entry layer gets the ethernet type, and the packet's walk is what all counters change by |
| LanStacks.LanStack.GraphIsRanked | src/StackLan.cc:146-153 | at every moment of a run, a rank strictly increases along every up edge, after any sequence of tagging calls |
| Traffic.TrafficBalances | src/Multiplexer.cc:66-94 | for any set of walks: visits of a layer are entries plus moves into it, and ends plus moves out of it |
| LanStacks.LanStack.LayerBalances | src/Multiplexer.cc:66-94 | at every layer on every run: received is forwarded plus failed plus refused; received is what came from the wire and along the incoming edges |
| LanStacks.LanStack.ReceivedFrom | src/StackLan.cc:146-153 | each layer's received count, edge by edge of the wired graph |
| LanStacks.LanStack.NothingGetsLost | src/Multiplexer.cc:66-94 | what one level forwards the next receives: ip forwards the sum of udp, tcp and icmp received; every packet is rejected or ends at exactly one layer |
| FlowForwarders.FlowForwarder.ForwardFlow | src/FlowForwarder.cc:39-73 | an attached flow stays where it is; another one goes to the first child in list order that accepts its packet, or fails and stays unattached; the flow function of the forwarder that has the flow is called once, no other; the books stay balanced |
| FlowForwarders.FlowForwarder.Give | src/FlowForwarder.cc:57-66 | the flow is attached to the child, whose flow function is called with it, and one flow more is counted there and one forward here |
| FlowForwarders.FlowForwarder.AddUpFlowForwarder | src/FlowForwarder.h:63-63 | the child is asked last; the books stay balanced |
| FlowForwarders.FlowForwarder.RemoveUpFlowForwarder | src/FlowForwarder.h:65-74 | the first occurrence of the child goes; a stranger changes nothing |
| FlowForwarders.FlowForwarder.ForwardsAreReceived | src/FlowForwarder.cc:46-72 | on every run: received is attached hits plus forwards plus fails, and forwards are the sum of what the children received |
| FlowForwarders.DisableFlowForwarders | src/NetworkStack.cc:415-420 | the loop takes out the first occurrence of each given forwarder in turn |
| FlowForwarders.EnableFlowForwarders | src/NetworkStack.cc:408-413 | the loop adds the given forwarders in order, and the books stay balanced |
| FlowForwarders.EnableNidsEngine | src/StackLan.cc:240-259 | on: the own forwarders are out; off: the generic one is out and all are added behind what is left |
| FlowForwarders.NidsRoundTrip | src/StackLan.cc:240-259 | what `EnableNidsEngine` does on and off again restores the list of forwarders |
| FlowForwarders.NidsOffRestoresIff | src/StackLan.cc:251-257 | what it does off restores the list exactly when the list held nothing but the generic forwarder |
| IPSets.IPSet.LookupIPAddress | src/ipset/IPSet.cc:35-44 | found exactly when the address was added; a hit or a miss is counted |
| IPSets.IPSetManager.AddIPSet | src/ipset/IPSetManager.cc:29-32 | the set is asked last; the chain of counters holds with it, with nothing to make up for if it joins unused before the first lookup |
| IPSets.IPSetManager.LookupIPAddress | src/ipset/IPSetManager.cc:34-46 | the first set in list order that holds the address is remembered, null if none does; exactly the sets before it count a miss, it counts a hit, the others count nothing |
| IPSets.IPSetManager.LookupsPassOn | src/ipset/IPSetManager.cc:34-46 | for a manager filled before use, on every run: the lookups of a set are the misses of the one before it, and every lookup is a hit of one set or a miss of the last |
| Regexes.Regex.Evaluate | src/regex/Regex.cc:29-41 | every evaluation is counted, and every match |
| Regexes.RegexManager.Evaluate | src/regex/RegexManager.cc:42-56 | the first matching expression is remembered, null if none matches; the result is only ever set; exactly the expressions up to it are evaluated |
| Regexes.RegexManager.EvaluationsPassOn | src/regex/RegexManager.cc:42-56 | for a manager filled before use, on every run: an expression is evaluated as often as its predecessor was evaluated without a match; the manager's matches are the sum of its members' |
| Cascades.EveryQueryEndsOnce | src/regex/RegexManager.cc:42-56 | every query to a first-match list is a hit of one member or a miss of the last |
| Brackets.GetTextInside | utils/cpplint.py:3115-3140 | returns the inside of the properly nested group of the three kinds of brackets at the start position; None exactly when the pattern was not found or no prefix of the rest is such a group |
| Brackets.ThreeKinds | utils/cpplint.py:3111-3112 | the brackets are the three kinds, each closed by its own |
| Brackets.ScanFindsGroup | utils/cpplint.py:3125-3140 | the stack machine stops after n characters exactly when they are a well formed body and its closing bracket |
| Brackets.GroupIsUnique | utils/cpplint.py:3125-3140 | at most one prefix of a text is such a group, so the shortest is the only one |
| Brackets.FindEndOfExpressionInLine | utils/cpplint.py:1031-1051 | the position behind the first closing character that takes the depth to zero, -1 when there is none |
| Brackets.CounterFindsGroup | utils/cpplint.py:1031-1051 | wherever there is a properly nested group, the counter of one kind finds its end |
| Brackets.CounterIsEnoughForOneKind | utils/cpplint.py:1031-1051 | on text with one kind of brackets the counter finds an end exactly when there is a group |
| Brackets.CounterIsMisled | utils/cpplint.py:1031-1051 | any other kind of brackets misleads it: a foreign opening bracket and the own closing one are an end for the counter, and no group |
| Brackets.CounterIsRightIff | utils/cpplint.py:1031-1051 | the counter finds an end exactly when there is a group, on every text over some kinds of brackets, if and only if the kind it counts is the only one |

## Left out

- Captures, sockets, asio, `RejectManager`, statistics printers, `serialize`, the language bindings and database adaptors: input, output and glue.
- Application protocols and what they count; PCRE compilation and matching, bloom filters: a checker, a packet function, a regular expression is an arbitrary function of what it is given.
- StackLanIPv6, StackVirtual, StackMobile and StackOpenFlow: other wirings of the same multiplexers.
- `enableFrequencyEngine`: it pops whatever forwarder is last; there is no law to state.
- Counters are unbounded; the source's are 32 or 64 bits wide and wrap. Hash values and ids are natural numbers.
- Expiry times: `UpdateTimers` asks that time plus timeout fits an int for every stored flow, as the C++ sum does.
- DomainNames.DomainNameManager.AddDomainName: an expression is the C string that getExpression returns, so it ends at the first NUL.
- Learner.LearnerEngine.AgregatePacketFlow: a frequencies record has at most 4096 entries, the size of the array that holds them.
- LearnerLanguage.GetAsciiExpression: for text of even length, which is all that `compute` and `reset` ever store.
- Caches.Cache.Acquire: the reset of the object is done by the caller (`FlowOwnership.FlowSystem.AcquireFlow`), because the pool is generic.
- Caches.CacheManager.ReleaseFlow: the transport object of a TCP flow and the GPRS object of another one are given back by the same rule; a link whose pool is missing gives nothing back, as in the source.
- Flows.Flow.Reset: a flow has the fields that keys, expiry and release look at; tuples, tags, byte counts, and the links to forwarder, expressions and address sets are not modelled here (the forwarder link is `FlowForwarders.DispatchedFlow`). Its link to packet frequencies is the one that survives, as in the source.
- Flows.FlowManager.AddFlow: where boost multi_index puts an element when the time index is not sorted is not specified; any place is allowed then that the same insertion would find in a sorted index.
- FlowOwnership.FlowSystem.Connect: the pool's next object is taken not to be kept by anything else.
- FlowOwnership.FlowSystem.GetFlow: tags, addresses and ports, direction, arrival time and the regex manager of a new flow are not modelled; the two hashes are parameters.
- Evidence.EvidenceManager.Write: packets with 40 plus length at most the file size, on an enabled log, as the buffer demands; the sum of offset and length is taken to fit an int, as the C++ sum does, which matters only for file sizes above 2^30. File names are taken as distinct, memory mapping as an array, truncation as the prefix written. The time fields are zero, as in the source.
- Layers.Multiplexer.ForwardPacket: the destination layers are assumed to exist (no weak pointer has expired); a packet is a window, a length and a mark; a layer's own packet object and protocol pointer are not modelled.
- LanStacks.LanStack.Receive: the ethernet type is what the ethernet checker read from the header; which packets are then written is the evidence log's matter.
- FlowForwarders.FlowForwarder.ForwardFlow: the flow function is a call that is recorded; what the protocol does to the flow in it is not modelled, it does not touch the link. A receiver that was destroyed is not modelled.
- IPSets.IPSetManager.AddIPSet: a set is added once and asked through one manager only; likewise for regular expressions and for the children of a forwarder.
- Brackets.GetTextInside: the search for the start pattern is a parameter, and where it is found it ends in an opening bracket, as the source asserts.
- `CloseExpression` and the rest of `cpplint.py`: heuristics over several lines.
