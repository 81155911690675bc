# Verified models of Piksi buildroot components

This project models the parts of the Piksi Multi firmware tree that carry the most state, and
proves what they promise, over every input and every run. Source paths below are relative to the
root of that tree.

- **RTCM3 framer and endpoint adapter.** The CRC-24Q of section 4 of RTCM 10403 is tied to
  polynomial division (`Remainders`, `Crc24q`). The resumable framer refines a whole-stream
  scanner (`Framing`, `Rtcm3`, `Rtcm3Framer`), which finds the leftmost intact frames (`Leftmost`). The adapter drains it chunk by chunk through a
  stateful filter, independently of the chunking, also as a loop over the chunks
  (`EndpointAdapter`, `EndpointHandle`). Clean
  streams come through exactly and in time (`CleanStreams`, `Rtcm3Streams`). That every frame of
  the scanner reaches the filter by the end of its chunk is false of the code; `Stranding` gives
  the exact condition, and `Rtcm3Streams` a chunk that meets it.
- **Endpoint router.** The perfect-hash rule cache routes as direct first-match evaluation does
  (`Router`, `PrefixLists`, `RuleCache`), and `RouterMeaning` says by positions what that is. For messages with an unknown prefix this is false of some
  rule lists; the exact condition compares the list of default ports with the ports of the first
  empty filters. For distinct destinations it is `Router.WellShaped`, rule by rule.
- **Router configuration loader.** A table-driven interpreter of YAML events and the resolution of
  destinations (`RouterLoad`, `RouterLoader`), with the round trip over all ways to write a
  configuration (`RouterDocs`, `RouterSteps`, `RouterRoundTrip`, `RouterConfigs`, `RouterWriter`),
  exactly which event sequences are accepted (`RouterGrammar`), and what holds of every accepted
  configuration (`RouterAccepted`).
- **minIni.** Quoting (`IniQuotes`), lookups (`IniLookup`), the one-pass rewrite with its bounded
  cache and mark (`IniRewrite`) against edits of a list of lines (`IniEdit`), the laws of a map
  (`IniLaws`) and whole histories of puts (`IniHistory`), and of puts and erasures where no key and
  no section is repeated (`IniUnique`). Edits are on lists of lines; `IniFiles` says what is read
  back from the file. A value with a line break is written as it is, and is then more than one
  line; `IniFiles` gives the exact condition and a value that sets another key. `IniHandwritten`
  says how lines from other hands are read: a comment behind a value is cut off, but not behind a
  quoted value that ends in a backslash. `IniKeeps` says which lines an edit leaves alone.
- **Package dependencies.** The depth-first topological sort and the targets printed from it
  (`Topological`).
- **Endpoint server.** Clients that come and go, wake-ups collapsed into one eventfd, deferred
  removal (`EndpointServer`). The event loop as a system of steps, over all schedules
  (`EndpointDrain`): it comes to rest, and no queued message is stranded on a live connection.
  Messages of a peer that has closed can be lost, because the disconnect is looked at first;
  `EndpointDrain.LossFreeIff` gives the exact condition.
- **Rate filter and interface list.** Counting over whole runs (`RateFilter`) and a sorted doubly
  linked list on the heap (`InterfaceList`).

`Basics` and `CaseFold` hold what the components share.

`dafny verify dfyconfig.toml` checks everything.

## How the model relates to the code

- The framer works on an array of 1029 bytes. Its specification describes the buffer as a window
  over the stream fed so far, so that calls on different chunks speak about one stream.
- Where several loops share a step in the source (copying a line of an INI file, handling one
  removed client), the step is one method.
- In minIni `fgets`, `ftell` and `fseek` act on a string, so lines split by a small buffer are not
  ruled out by the model but by a proof from the size of the lines. Characters compare as unsigned.
- `cache_flush` looks at the character before an empty buffer. What it finds is the parameter
  `gap`; it decides about a blank line only.
- The documentation of `ini_puts` says that a missing key erases all keys in the section. For the
  section without a name the code also drops the first line, whatever it is
  (`IniLaws.EraseTopOthers`).
- In the endpoint server a receive error or a callback that asks to stop is a limit on the number
  of messages taken from a client. Sockets between callbacks are the methods `Arrive` and
  `PeerClose`; an empty message looks like the end of a connection, as it does to the code.
- The loop polls for readable and disconnect together (`loop.c`, line 497) and passes both on, so
  the wake-up of a client whose peer has closed is a disconnect, also with messages queued.
- `prefix_len` of a port without prefixes is -1 converted to `size_t`, so every message is shorter.
- `qsort` and `cmph` are modelled by what is asked of them: a sorted permutation, and different
  slots for different keys with every search inside the table.

## Model

| member | source | states |
|---|---|---|
| Crc24q.Compute | package/rtcm3_in_protocol/src/framer_rtcm3_in.c:63-68 | the loop over the buffer gives `Crc` of the bytes read |
| Crc24q.TableCorrect | package/rtcm3_in_protocol/src/framer_rtcm3_in.c:32-61 | every one of the 256 table entries is its index times x^24 modulo the generator 0x1864CFB |
| Crc24q.TableStepIsByteStep | package/rtcm3_in_protocol/src/framer_rtcm3_in.c:63-68 | one table lookup equals eight steps of long division, from every register and for every byte |
| Crc24q.CrcIsRemainder | package/rtcm3_in_protocol/src/framer_rtcm3_in.c:32-68 | for every byte string, the table-driven CRC is the remainder of the message times x^24 by bit-by-bit division over GF(2) |
| Crc24q.CrcFromAnyRegister | package/rtcm3_in_protocol/src/framer_rtcm3_in.c:63-68 | the same from any initial register, whose own multiple is added |
| Crc24q.TrailerOkIsDivisible | package/rtcm3_in_protocol/src/framer_rtcm3_in.c:169-177 | a frame passes the comparison if and only if it is, as a polynomial, a multiple of the generator |
| Crc24q.BurstDetected | package/rtcm3_in_protocol/src/framer_rtcm3_in.c:169-177 | changing a valid frame only within a window of at most 24 consecutive bits (so also within three consecutive bytes), wherever it lies, always breaks the check |
| Remainders.BytewiseIsRemainder | package/rtcm3_in_protocol/src/framer_rtcm3_in.c:63-68 | in any arithmetic with the laws of GF(2) polynomials, byte-at-a-time reduction leaves the remainder of the message times the power of x |
| Remainders.BytewiseSeparates | package/rtcm3_in_protocol/src/framer_rtcm3_in.c:63-68 | the register's share of the result is that register times x^(8n), the rest depends on the bytes only |
| Remainders.TrailerMatches | package/rtcm3_in_protocol/src/framer_rtcm3_in.c:169-177 | message and trailer have remainder zero exactly when the trailer is the remainder of the message times the power of x |
| Framing.ScanResumes | package/rtcm3_in_protocol/src/framer_rtcm3_in.c:90-185 | the whole-stream scanner, stopped at the end of any prefix, goes on from its rest with the same frames |
| Leftmost.ScanIsLeftmost | package/rtcm3_in_protocol/src/framer_rtcm3_in.c:90-185 | from any position the scanner's frames are, by positions and bytes, each the leftmost intact frame behind the one before, up to the first preamble whose frame the stream does not hold yet |
| Leftmost.LeftmostExist | package/rtcm3_in_protocol/src/framer_rtcm3_in.c:90-185 | every stream has such frames, so that determines the scanner |
| Framing.Process | package/rtcm3_in_protocol/src/framer_rtcm3_in.c:90-185 | every call keeps refill and removal from being pending together, the buffer within 1029 bytes, and uses up the input when it finds no frame; a frame means progress |
| Framing.ProcessWaits | package/rtcm3_in_protocol/src/framer_rtcm3_in.c:98-184 | a call ends without a frame exactly when a refill is pending, and that refill is exactly what the buffer waits for |
| Framing.ProcessEmits | package/rtcm3_in_protocol/src/framer_rtcm3_in.c:179-183 | a frame handed out is intact, is the front of the buffer, and is what is marked for removal |
| Framing.FrameIgnoresLater | package/rtcm3_in_protocol/src/framer_rtcm3_in.c:90-185 | a frame found, and the state it leaves, do not depend on what follows in the stream |
| Framing.NoFrameResumes | package/rtcm3_in_protocol/src/framer_rtcm3_in.c:90-185 | a call that ends without a frame is resumed by the next one as if there had been one call |
| Framing.ProcessScans | package/rtcm3_in_protocol/src/framer_rtcm3_in.c:90-185 | one call is one step of the scanner: the next frame of the scan, or none |
| Framing.NoFrameLeavesNone | package/rtcm3_in_protocol/src/framer_rtcm3_in.c:90-185 | when no frame comes, the scanner finds none in what is left |
| Framing.ProcessTight | package/rtcm3_in_protocol/src/framer_rtcm3_in.c:90-185 | if no candidate has to be given up, a frame is handed out with nothing behind it in the buffer |
| Rtcm3Framer.Framer.constructor | package/rtcm3_in_protocol/src/framer_rtcm3_in.c:70-82 | a new framer has an empty buffer and nothing pending |
| Rtcm3Framer.Framer.NextPreamble | package/rtcm3_in_protocol/src/framer_rtcm3_in.c:104-111 | the loop finds the first preamble behind the removed bytes, or the end of the buffer |
| Rtcm3Framer.Framer.ShiftDown | package/rtcm3_in_protocol/src/framer_rtcm3_in.c:113-119 | the move leaves exactly the bytes from the given position on at the front of the buffer |
| Rtcm3Framer.Framer.RemoveFront | package/rtcm3_in_protocol/src/framer_rtcm3_in.c:101-123 | a pending removal resynchronises on the next preamble, keeping all bytes from it on |
| Rtcm3Framer.Framer.Refill | package/rtcm3_in_protocol/src/framer_rtcm3_in.c:125-145 | a refill takes as much of the input as is wanted and there, in order, within the buffer |
| Rtcm3Framer.Framer.CheckCrc | package/rtcm3_in_protocol/src/framer_rtcm3_in.c:169-173 | the comparison is `Intact` of the front of the buffer |
| Rtcm3Framer.Framer.Examine | package/rtcm3_in_protocol/src/framer_rtcm3_in.c:147-183 | the decision taken on the buffer is the one that the specification takes on the stream |
| Rtcm3Framer.Framer.Process | package/rtcm3_in_protocol/src/framer_rtcm3_in.c:90-185 | `framer_process` in place equals `Framing.Process` in window, frame and bytes consumed, keeps `Valid`, and terminates |
| Rtcm3Framer.Framer.Passes | package/rtcm3_in_protocol/src/framer_rtcm3_in.c:98-184 | the `while(1)` loop terminates: every pass consumes input, drops bytes or ends |
| EndpointAdapter.DrainSplits | package/endpoint_adapter/src/endpoint_adapter.c:773-826 | draining up to any point and going on from there is draining at once |
| EndpointAdapter.ChunkIndependence | package/endpoint_adapter/src/endpoint_adapter.c:773-826 | however a stream is cut into chunks (the last one not empty), the same candidates reach the filter, the same frames are written, and framer and filter end in the same state as for one chunk |
| EndpointAdapter.DrainFilters | package/endpoint_adapter/src/endpoint_adapter.c:783-799 | what is written is what the stateful filter lets through of the candidates, in order |
| EndpointAdapter.DrainScans | package/endpoint_adapter/src/endpoint_adapter.c:773-826 | the candidates are the scanner's frames, in order, without loss or repetition; those not yet shown are still to be scanned |
| EndpointAdapter.DrainComplete | package/endpoint_adapter/src/endpoint_adapter.c:806-826 | if no candidate has to be given up, the filter has seen all the scanner's frames |
| EndpointAdapter.DrainByOnes | package/endpoint_adapter/src/endpoint_adapter.c:806-826 | draining a chunk is writing one frame after the other until the chunk is used up |
| EndpointHandle.Handle.Write | package/endpoint_adapter/src/endpoint_adapter.c:667-758 | a write fails and sends nothing, sends a positive number of the bytes, or, with the output queue full, drops them all and reports them as written; `Kept` holds: the wire has what was reported, in order, but for the counted dropped bytes |
| EndpointHandle.Handle.WriteAll | package/endpoint_adapter/src/endpoint_adapter.c:760-771 | all bytes are reported as sent, or a proper prefix of them is; the loop terminates |
| EndpointHandle.Handle.WriteOneViaFramer | package/endpoint_adapter/src/endpoint_adapter.c:773-804 | up to the next frame that passes the filter: state, bytes consumed, frame count and bytes sent; on failure a proper prefix |
| EndpointHandle.Handle.WriteAllViaFramer | package/endpoint_adapter/src/endpoint_adapter.c:806-826 | a chunk through the nested loops equals `Drain` in framer state, filter state, bytes sent and frame count; on failure a proper prefix was sent; the loops terminate; the wire has what was sent but for bytes counted as dropped |
| EndpointHandle.Handle.WriteChunks | package/endpoint_adapter/src/endpoint_adapter.c:685-714 | any list of non-empty chunks, as they are read: framer, filter and bytes sent end as for the whole stream in one chunk, or a write failed and a proper prefix of that was sent |
| CleanStreams.CleanScans | package/rtcm3_in_protocol/src/framer_rtcm3_in.c:90-185 | of frames with preamble-free garbage between them the scanner finds exactly the frames and gives up none |
| CleanStreams.CompleteFramesScanned | package/rtcm3_in_protocol/src/framer_rtcm3_in.c:90-185 | of any beginning of such a stream it finds every frame that is complete, and only frames of the stream |
| CleanStreams.DeliveredInTime | package/endpoint_adapter/src/endpoint_adapter.c:806-826 | every frame of such a stream reaches the filter no later than with the chunk that holds its last byte |
| CleanStreams.DeliveredExactly | package/endpoint_adapter/src/endpoint_adapter.c:806-826 | in any chunking the candidates are exactly the frames, in order |
| Stranding.StaysBehindIff | package/endpoint_adapter/src/endpoint_adapter.c:806-826 | complete frames stay in the framer after a chunk if and only if the bytes meet `Strands`: the chunk ends in a candidate that is given up, and the first frame inside it that passes the filter is not the last |
| Stranding.AllSeenIff | package/endpoint_adapter/src/endpoint_adapter.c:806-826 | so all the scanner's frames reach the filter by the end of the chunk if and only if that condition fails |
| Stranding.DecoyStrands | package/endpoint_adapter/src/endpoint_adapter.c:806-826 | two frames inside a candidate that is none: the second stays behind |
| Rtcm3Streams.EncodeIsFrame | package/rtcm3_in_protocol/src/framer_rtcm3_in.c:160-183 | a payload of up to 1023 bytes with length and CRC is a frame that the framer accepts, and decodes to the payload |
| Rtcm3Streams.EncodedStreamIsClean | package/rtcm3_in_protocol/src/framer_rtcm3_in.c:90-185 | encoded payloads with garbage free of 0xD3 between them are such a stream |
| Rtcm3Streams.RoundTrip | package/endpoint_adapter/src/endpoint_adapter.c:806-826 | encoded payloads, with garbage and in any chunking, come out of a fresh framer exactly, in order |
| Rtcm3Streams.RoundTripInTime | package/endpoint_adapter/src/endpoint_adapter.c:806-826 | each no later than with the chunk that holds its last byte |
| Rtcm3Streams.DamagedFrameDropped | package/rtcm3_in_protocol/src/framer_rtcm3_in.c:169-177 | a frame damaged behind its header within 24 consecutive bits is not emitted |
| Rtcm3Streams.ChunkStrands | package/endpoint_adapter/src/endpoint_adapter.c:806-826 | a concrete chunk of 18 bytes that leaves its second frame behind |
| Router.PrefixRoutes | package/endpoint_router/endpoint_router/src/endpoint_router.c:247-275 | if all non-empty prefixes have length n, direct evaluation looks at the first n bytes only |
| Router.UnmatchedRoutes | package/endpoint_router/endpoint_router/src/endpoint_router.c:247-275 | a message that starts with none of the prefixes goes where the first empty filter of each rule sends it |
| Router.WellShapedSuffices | package/endpoint_router/endpoint_router/src/endpoint_router.c:467-471 | if for every rule the last filter accepts exactly when the first empty one does, the default-accept list is that of direct evaluation |
| Router.WellShapedNeeded | package/endpoint_router/endpoint_router/src/endpoint_router.c:467-471 | with distinct destinations it is so only then |
| Router.RepeatedExample | package/endpoint_router/endpoint_router/src/endpoint_router.c:467-471 | with a repeated destination it can be so for other rules |
| Router.CacheableIff | package/endpoint_router/endpoint_router/src/endpoint_router.c:434-463 | the prefixes collected are cacheable exactly if any two non-empty filters of the port have the same length, of at most eight bytes |
| Router.ConventionalAgrees | package/endpoint_router/endpoint_router/src/endpoint_router.c:467-471 | empty filters only in last position, and an accepting last filter empty, give that condition |
| Router.IllShapedExample | package/endpoint_router/endpoint_router/src/endpoint_router.c:467-471 | a rule for which the default-accept list differs from direct evaluation |
| RouterMeaning.AcceptsIff | package/endpoint_router/endpoint_router/src/endpoint_router.c:247-275 | direct evaluation accepts for a rule exactly if some filter accepts, has its bytes, one by one, at the front of the message, and no filter before it has |
| RouterMeaning.RouteIff | package/endpoint_router/endpoint_router/src/endpoint_router.c:412-421 | a list is what direct evaluation gives exactly if it has the destinations of the rules that accept in that sense, once per rule, in rule order |
| RouterMeaning.AcceptPortsSend | package/endpoint_router/endpoint_router/src/endpoint_router.c:467-471 | the default-accept list has the destinations of the rules that end in an accepting filter, in rule order |
| RouterMeaning.StartsKnownIff | package/endpoint_router/endpoint_router/src/endpoint_router.c:482-489 | a message starts with a collected prefix exactly if it has the bytes of some non-empty filter at its front |
| PrefixLists.Dedup | package/endpoint_router/endpoint_router/src/endpoint_router.c:508-520 | the loop keeps each entry of a sorted list exactly once, in strict order |
| RuleCache.CheckRules | package/endpoint_router/endpoint_router/src/endpoint_router.c:434-472 | the first loop fails exactly when two prefixes differ in length or one exceeds eight bytes; otherwise it gives their length and the default-accept list |
| RuleCache.CollectPrefixes | package/endpoint_router/endpoint_router/src/endpoint_router.c:482-489 | the second loop collects all non-empty prefixes in order |
| RuleCache.ExtractRulePrefixes | package/endpoint_router/endpoint_router/src/endpoint_router.c:429-534 | fails exactly then; otherwise each distinct non-empty prefix once, sorted, with the length of all (-1 as size_t if there is none) |
| RuleCache.SlotRoutes | package/endpoint_router/endpoint_router/src/endpoint_router.c:211-245 | the non-NULL endpoints that a slot collects are those that direct evaluation picks for its prefix, in rule order |
| RuleCache.EntryIs | package/endpoint_router/endpoint_router/src/endpoint_router.c:247-275 | the entry of a rule in the slot of a prefix is made by the first filter whose bytes are at its front: the destination or NULL; without such a filter there is none |
| RuleCache.SlotNotEmpty | package/endpoint_router/endpoint_router/src/endpoint_router.c:639-655 | no slot stays without an entry |
| RuleCache.Owner | package/endpoint_router/endpoint_router/src/endpoint_router.c:604-619 | with as many slots as keys, every slot belongs to a key |
| RuleCache.Cache.constructor | package/endpoint_router/endpoint_router/src/endpoint_router.c:624-637 | the allocations: one empty slot per prefix |
| RuleCache.Cache.CacheMatch | package/endpoint_router/endpoint_router/src/endpoint_router.c:211-245 | one verdict is added to the slot of the prefix, which gets the prefix; all other slots stay |
| RuleCache.Cache.ProcessForwardingRule | package/endpoint_router/endpoint_router/src/endpoint_router.c:247-275 | the slot gets `Entry` of the rule, which `EntryIs` says is made by the first filter that matches; the other slots stay |
| RuleCache.Cache.ProcessForwardingRules | package/endpoint_router/endpoint_router/src/endpoint_router.c:412-421 | the slot of one prefix gets the verdicts of all rules, in order |
| RuleCache.Cache.Fill | package/endpoint_router/endpoint_router/src/endpoint_router.c:639-655 | every slot ends with its own prefix and the verdicts of all rules on it |
| RuleCache.Cache.SlotMatches | package/endpoint_router/endpoint_router/src/endpoint_router.c:289-296 | the slot that is searched matches a message exactly if it starts with one of the port's prefixes |
| RuleCache.Cache.ProcessBuffer | package/endpoint_router/endpoint_router/src/endpoint_router.c:277-303 | for every message of any length: a message with the bytes of some non-empty filter at its front, or any message under well-shaped rules, goes exactly to the rules whose first matching filter accepts, once per rule in rule order; any other message goes to the rules that end in an accepting filter, and that is right if and only if these have the same destinations, in order, as those whose first empty filter accepts |
| RuleCache.CreateCache | package/endpoint_router/endpoint_router/src/endpoint_router.c:572-655 | succeeds exactly if the prefixes are cacheable, and then the cache is valid for the rules |
| RouterLoad.TablesGuarded | package/endpoint_router/endpoint_router/src/endpoint_router_load.c:54-116 | every table ends in the sentinel only, and the entry before it cannot be skipped |
| RouterLoad.Scan | package/endpoint_router/endpoint_router/src/endpoint_router_load.c:165-197 | the entry that takes an event is the first match after entries that may be skipped, and never the sentinel or beyond |
| RouterLoad.FirstPort | package/endpoint_router/endpoint_router/src/endpoint_router_load.c:593-603 | the first port whose name equals, up to case |
| RouterLoad.ActionIff | package/endpoint_router/endpoint_router/src/endpoint_router_load.c:511-539 | a word is an action exactly if it is accept or reject, in any case |
| RouterLoad.MetricIff | package/endpoint_router/endpoint_router/src/endpoint_router_load.c:367-379 | a metric is refused exactly if all its characters are white space |
| CaseFold.FoldIff | package/endpoint_router/endpoint_router/src/endpoint_router_load.c:138-149 | two characters are the same up to case exactly if they are equal or the two cases of one letter |
| CaseFold.EqualFoldIff | package/endpoint_router/endpoint_router/src/endpoint_router_load.c:138-149 | so for strings, one character by one |
| RouterLoader.Loader.FindEntry | package/endpoint_router/endpoint_router/src/endpoint_router_load.c:165-197 | the inner loop computes `Scan` and terminates without running past the table |
| RouterLoader.Loader.HandleExpectedEvents | package/endpoint_router/endpoint_router/src/endpoint_router_load.c:151-207 | the event loop, with the recursion through the process functions, builds in place what the interpreter `Handle` gives, and terminates |
| RouterLoader.Loader.RunProcess | package/endpoint_router/endpoint_router/src/endpoint_router_load.c:287-580 | each process function does in place what `Run` says, error cases included |
| RouterLoader.Loader.TakeString | package/endpoint_router/endpoint_router/src/endpoint_router_load.c:118-134 | one scalar is taken and assigned, or the load fails |
| RouterLoader.Loader.DstPortsSet | package/endpoint_router/endpoint_router/src/endpoint_router_load.c:582-613 | succeeds exactly if every destination names a port, and then binds every rule to the first such port |
| RouterLoader.Load | package/endpoint_router/endpoint_router/src/endpoint_router_load.c:615-671 | gives `LoadedFrom` of the events |
| RouterRoundTrip.DocumentLoads | package/endpoint_router/endpoint_router/src/endpoint_router_load.c:151-580 | every document in the grammar, keys in any order and any case, repeated or left out, is accepted and gives what its entries say, whatever follows it |
| RouterGrammar.LoadedIsDocument | package/endpoint_router/endpoint_router/src/endpoint_router_load.c:151-580 | conversely, events that load start with a document in the grammar, and the configuration is what its entries say |
| RouterGrammar.AcceptsIff | package/endpoint_router/endpoint_router/src/endpoint_router_load.c:615-671 | so a load succeeds if and only if the events start with a document in the grammar whose destinations all name a port |
| RouterConfigs.FilterWritten | package/endpoint_router/endpoint_router/src/endpoint_router_load.c:478-580 | any document that writes a filter reads as that filter |
| RouterConfigs.RuleWritten | package/endpoint_router/endpoint_router/src/endpoint_router_load.c:416-476 | likewise for a rule with its filters |
| RouterConfigs.PortWritten | package/endpoint_router/endpoint_router/src/endpoint_router_load.c:319-414 | likewise for a port with a metric that is not blank, and its rules |
| RouterConfigs.WrittenLoads | package/endpoint_router/endpoint_router/src/endpoint_router_load.c:151-580 | a configuration whose metrics are not blank is loaded back from any document that writes it, defaults left out or not |
| RouterConfigs.RoundTrip | package/endpoint_router/endpoint_router/src/endpoint_router_load.c:615-656 | with destinations that exist, the load gives the configuration with each rule bound to the first matching port |
| RouterConfigs.UnresolvedFails | package/endpoint_router/endpoint_router/src/endpoint_router_load.c:605-608 | with a destination that does not exist, the load fails |
| RouterWriter.LoadWrite | package/endpoint_router/endpoint_router/src/endpoint_router_load.c:615-656 | loading undoes a writer, for every such configuration |
| RouterAccepted.HandleKeeps | package/endpoint_router/endpoint_router/src/endpoint_router_load.c:209-259 | while a port's mapping is read only the last port changes; ports are only added, with metrics that are not blank |
| RouterAccepted.AcceptedIsSound | package/endpoint_router/endpoint_router/src/endpoint_router_load.c:352-354 | whatever the events were, an accepted configuration has no blank metric, and every rule is bound to the first port of its destination's name |
| IniText.FindLeading | package/libpiksi/libpiksi/src/min_ini.c:122-128 | the position of the first character that is not blank |
| IniText.FindTrailing | package/libpiksi/libpiksi/src/min_ini.c:130-145 | the end without trailing blanks |
| IniQuotes.SaveStrncpy | package/libpiksi/libpiksi/src/min_ini.c:147-190 | the buffer holds the copied, enquoted or dequoted string, cut off to fit, with its terminator; nothing outside of `maxlen` characters is written |
| IniQuotes.SaveEnquoted | package/libpiksi/libpiksi/src/min_ini.c:163-176 | quotes escaped as far as both characters fit, then the closing quote |
| IniQuotes.SaveDequoted | package/libpiksi/libpiksi/src/min_ini.c:177-184 | a quote or backslash before a quote is dropped |
| IniQuotes.EscapeWithinIs | package/libpiksi/libpiksi/src/min_ini.c:163-176 | without room for all, the longest beginning is written whose escaped form fits |
| IniQuotes.StoredQuotes | package/libpiksi/libpiksi/src/min_ini.c:153-176 | from three characters of room on a quoted value has both its quotes, around the longest beginning that fits; with less it is copied without |
| IniQuotes.DequoteCut | package/libpiksi/libpiksi/src/min_ini.c:177-184 | with less room a prefix is read |
| IniQuotes.FindComment | package/libpiksi/libpiksi/src/min_ini.c:200-212 | the loop finds where the comment starts, outside of quotes; `IniHandwritten.CommentHarmlessIff` says what that means for values |
| IniQuotes.CleanString | package/libpiksi/libpiksi/src/min_ini.c:192-223 | comment, trailing blanks and surrounding quotes are taken off |
| IniQuotes.CheckEnquote | package/libpiksi/libpiksi/src/min_ini.c:524-535 | a value is quoted exactly if it has a quote or a comment mark, or ends in a space |
| IniQuotes.EncodeIff | package/libpiksi/libpiksi/src/min_ini.c:524-565 | a value is written as it is exactly if it has no quote, semicolon or hash sign and does not end in a space; otherwise between quotes |
| IniQuotes.EscapeSplits | package/libpiksi/libpiksi/src/min_ini.c:163-176 | with a backslash before every quote and nothing else changed |
| IniQuotes.NoCommentWithin | package/libpiksi/libpiksi/src/min_ini.c:200-212 | no character of an escaped value ends the search for a comment, not even before a closing quote that looks escaped |
| IniQuotes.CleanWrapped | package/libpiksi/libpiksi/src/min_ini.c:192-223 | cleaning a quoted value takes off just the quotes |
| IniQuotes.EscapeDequotes | package/libpiksi/libpiksi/src/min_ini.c:163-184 | dequoting undoes escaping, for every string |
| IniQuotes.LineDecodes | package/libpiksi/libpiksi/src/min_ini.c:552-565 | a value without a line break reads back from its line as it was written if and only if it is written with quotes or has no blanks at its ends |
| IniQuotes.NoBreakDecoded | package/libpiksi/libpiksi/src/min_ini.c:192-223 | no line reads as a value with a line break |
| IniQuotes.DecodeEncode | package/libpiksi/libpiksi/src/min_ini.c:552-565 | every C string reads back from the line that fgets gets if and only if it has no line break, and is written with quotes or has no blanks at its ends |
| IniQuotes.PrintableDecodes | package/libpiksi/libpiksi/src/min_ini.c:552-565 | of printable values exactly those that start with a space and are not quoted are lost |
| IniLookup.Reader.Read | package/libpiksi/libpiksi/include/libpiksi/min_ini_glue.h:22 | fgets: up to the end of the line, of the buffer or of the file |
| IniLookup.Reader.ReadLine | package/libpiksi/libpiksi/include/libpiksi/min_ini_glue.h:22 | a line that fits the buffer is read whole |
| IniLookup.SeekSection | package/libpiksi/libpiksi/src/min_ini.c:238-257 | reads up to the first head of the section, up to case |
| IniLookup.SeekKey | package/libpiksi/libpiksi/src/min_ini.c:262-283 | reads up to the first line with the key, up to case, or to the end of the section |
| IniLookup.GetKeyString | package/libpiksi/libpiksi/src/min_ini.c:225-292 | gives the lookup of the pair in the list of lines; what lookups are is said below by `IniHandwritten` for files from other hands and by `IniLaws` for edits |
| IniEdit.KeyLineSays | package/libpiksi/libpiksi/src/min_ini.c:552-565 | a written key line names its key, up to case, and neither opens a section nor is a comment |
| IniEdit.KeyLineValue | package/libpiksi/libpiksi/src/min_ini.c:552-565 | and holds the value as written |
| IniEdit.HeadLineSays | package/libpiksi/libpiksi/src/min_ini.c:537-550 | a written head line heads its section, up to case, and no other |
| IniEdit.LookupRuns | package/libpiksi/libpiksi/src/min_ini.c:225-292 | a lookup is a run of an automaton over the lines |
| IniHandwritten.CommentDecodes | package/libpiksi/libpiksi/src/min_ini.c:192-223 | for every value, quoted or not, and every buffer size: blanks around it and a comment behind it change nothing in what is read, unless it is quoted and ends in a backslash |
| IniHandwritten.CommentHarmlessIff | package/libpiksi/libpiksi/src/min_ini.c:200-212 | a value that reads back still does with a comment behind it if and only if it is not quoted or does not end in a backslash |
| IniHandwritten.BackslashLoses | package/libpiksi/libpiksi/src/min_ini.c:207-209 | otherwise its closing quote counts as escaped, and more than the value is read |
| IniHandwritten.BackslashExample | package/libpiksi/libpiksi/src/min_ini.c:207-209 | so it is for a semicolon and a backslash |
| IniHandwritten.ReadsAsWritten | package/libpiksi/libpiksi/src/min_ini.c:225-292 | in every file and for every query, a key line with blanks anywhere, with a colon on a line without an equal sign, and with a comment, can stand for the line that ini_puts writes |
| IniHandwritten.HandwrittenFound | package/libpiksi/libpiksi/src/min_ini.c:262-292 | the value of such a line is found under its section and key |
| IniHandwritten.Ignored | package/libpiksi/libpiksi/src/min_ini.c:262-274 | blank lines, lines that start with a comment mark, and lines without a sign that are no heads change no lookup |
| IniHandwritten.HeadReadsAsWritten | package/libpiksi/libpiksi/src/min_ini.c:243-249 | a head with blanks before it and anything behind its bracket can stand for the one that ini_puts writes |
| IniHandwritten.SectionEnds | package/libpiksi/libpiksi/src/min_ini.c:267-268 | a line that starts with a bracket ends the section: what follows changes none of its lookups |
| IniKeeps.PutKeeps | package/libpiksi/libpiksi/src/min_ini.c:667-772 | a put leaves every line alone, comments included, but for the first that has the key, which is replaced; without one the new line is the last of its section, or ends a new section at the end of the file; nothing is written if the value is there |
| IniKeeps.EraseKeeps | package/libpiksi/libpiksi/src/min_ini.c:741-761 | erasing a key takes out at most one line, which has the key |
| IniKeeps.EraseSectionKeeps | package/libpiksi/libpiksi/src/min_ini.c:697-740 | erasing a section takes out its first head and the lines up to the next one that starts with a bracket |
| IniText.TextInjective | package/libpiksi/libpiksi/include/libpiksi/min_ini_glue.h:22 | a text is that of one list of lines only |
| IniFiles.PutThenGet | package/libpiksi/libpiksi/src/min_ini.c:616-772 | after a put that fits, of any C string, the lookup in the lines that fgets reads back gives the value, if and only if it has no line break, and has no blanks at its ends, is quoted, or was there before |
| IniFiles.PutKeepsOthers | package/libpiksi/libpiksi/src/min_ini.c:616-772 | after a put of a value without a line break every lookup of a pair that differs, up to case, is unchanged in the lines that fgets reads back |
| IniFiles.NoBreakFound | package/libpiksi/libpiksi/src/min_ini.c:225-292 | no lookup in lines that fit gives a value with a line break |
| IniFiles.SpillsOver | package/libpiksi/libpiksi/src/min_ini.c:552-565 | a value made of one value, a line break, another key, an equals sign and a second value: the first key gets the first value only, and the other key, which was not there, gets the second |
| IniFiles.BreakLoses | package/libpiksi/libpiksi/src/min_ini.c:552-565 | so it is for the value a, line break, o=1 |
| IniLaws.PutIsFound | package/libpiksi/libpiksi/src/min_ini.c:616-772 | the law of put and get on lists of lines |
| IniLaws.PutPasses | package/libpiksi/libpiksi/src/min_ini.c:616-772 | and that of other lookups |
| IniLaws.EraseThenGet | package/libpiksi/libpiksi/src/min_ini.c:741-761 | erasing a key erases its first line only: then the next one, if any, is looked up |
| IniLaws.EraseKeepsOthers | package/libpiksi/libpiksi/src/min_ini.c:741-761 | and every other lookup is unchanged |
| IniLaws.EraseSectionThenGet | package/libpiksi/libpiksi/src/min_ini.c:697-740 | erasing a section erases the first of its name only |
| IniLaws.EraseSectionKeepsOthers | package/libpiksi/libpiksi/src/min_ini.c:697-740 | and lookups in other sections are unchanged |
| IniLaws.EraseTopThenGet | package/libpiksi/libpiksi/src/min_ini.c:697-740 | erasing the keys above all sections leaves none |
| IniLaws.EraseTopOthers | package/libpiksi/libpiksi/src/min_ini.c:702-705 | but drops the first line even if it heads a section: a lookup in that section then gives what the file from its next section on has for it; lookups in all other sections are unchanged |
| IniLaws.EraseTopLoses | package/libpiksi/libpiksi/src/min_ini.c:702-705 | a file of one section loses it |
| IniRewrite.ComposeKey | package/libpiksi/libpiksi/src/min_ini.c:552-565 | the key line is composed in the buffer within its bounds |
| IniRewrite.ComposeSection | package/libpiksi/libpiksi/src/min_ini.c:537-550 | likewise the head line |
| IniRewrite.Rewriter.CacheAccum | package/libpiksi/libpiksi/src/min_ini.c:567-574 | a line is counted if the total stays below the buffer size |
| IniRewrite.Rewriter.CacheFlush | package/libpiksi/libpiksi/src/min_ini.c:576-596 | exactly the counted lines are read again from the mark and written; mark and position end behind them |
| IniRewrite.Rewriter.Copy | package/libpiksi/libpiksi/src/min_ini.c:687-693 | a line is cached, after a flush if there is no room |
| IniRewrite.Rewriter.CopyToSection | package/libpiksi/libpiksi/src/min_ini.c:667-695 | all lines up to the head of the section are copied, the head unless it is to be erased |
| IniRewrite.Rewriter.CopyToTarget | package/libpiksi/libpiksi/src/min_ini.c:711-740 | lines are copied up to the key, or to the end of the section |
| IniRewrite.Rewriter.SkipSection | package/libpiksi/libpiksi/src/min_ini.c:730-732 | the lines of an erased section are skipped |
| IniRewrite.Rewriter.FinishAt | package/libpiksi/libpiksi/src/min_ini.c:746-771 | the new line goes in place of the key's line or before the next section, then the rest is copied |
| IniRewrite.Rewriter.FinishAtEnd | package/libpiksi/libpiksi/src/min_ini.c:713-722 | at the end of the file the new lines are appended |
| IniRewrite.Rewriter.Puts | package/libpiksi/libpiksi/src/min_ini.c:653-772 | the one pass writes the text of the edited list of lines, for every file and every buffer size larger than the longest line |
| IniRewrite.IniPuts | package/libpiksi/libpiksi/src/min_ini.c:616-772 | with the early exit for a value that is there already |
| IniRewrite.IniCreate | package/libpiksi/libpiksi/src/min_ini.c:626-636 | without a file, as for an empty one |
| IniHistory.EditFits | package/libpiksi/libpiksi/src/min_ini.c:616-772 | the file stays one of lines that fit the buffer |
| IniHistory.LookupFolds | package/libpiksi/libpiksi/src/min_ini.c:225-292 | lookups do not depend on case |
| IniHistory.LatestWins | package/libpiksi/libpiksi/src/min_ini.c:616-772 | after any history of puts every lookup gives what was put last for the pair, or what was there before |
| IniHistory.PutsAll | package/libpiksi/libpiksi/src/min_ini.c:616-772 | the history runs on the file and leaves the text of the edited lines |
| IniUnique.EditUnique | package/libpiksi/libpiksi/src/min_ini.c:616-772 | a file in which no section and no key of a section occurs twice, up to case, stays so under every put and every erasure |
| IniUnique.ErasedIsGone | package/libpiksi/libpiksi/src/min_ini.c:741-761 | in such a file an erased key is not found any more |
| IniUnique.ErasedSectionIsGone | package/libpiksi/libpiksi/src/min_ini.c:697-740 | nor is any key of an erased section |
| IniUnique.LatestChangeWins | package/libpiksi/libpiksi/src/min_ini.c:616-772 | after any history of puts, key erasures and section erasures of such a file every lookup gives what the last change that concerns the pair left: its value, or none |
| IniUnique.ChangesAll | package/libpiksi/libpiksi/src/min_ini.c:616-772 | that history runs on the file and leaves the text of the edited lines |
| Topological.Sorter.constructor | scripts/changed_project_targets.py:77 | all keys are to be entered, nothing is visited |
| Topological.Sorter.Dfs | scripts/changed_project_targets.py:78-87 | fails only on a cycle; otherwise the node is in the order, which stays right, and nothing is lost; terminates |
| Topological.Sorter.Visit | scripts/changed_project_targets.py:80-85 | a gray dependency is a cycle, a black one is done, any other is entered |
| Topological.CycleFound | scripts/changed_project_targets.py:81-82 | a dependency that is still gray closes a directed cycle |
| Topological.OrderExcludesCycles | scripts/changed_project_targets.py:73-89 | an order of all packages with all edges forward leaves no cycle |
| Topological.PathsRunForward | scripts/changed_project_targets.py:73-89 | dependency paths run forward through the order |
| Topological.Sort | scripts/changed_project_targets.py:73-89 | raises exactly when the graph has a directed cycle; otherwise lists every key and every dependency exactly once, before its dependencies |
| Topological.PrintTargets | scripts/changed_project_targets.py:117-125 | the loop prints `Targets` |
| Topological.TargetsAreSelected | scripts/changed_project_targets.py:117-125 | targets are printed exactly for the changed packages that are not ignored |
| Topological.TargetsOnce | scripts/changed_project_targets.py:117-125 | none twice |
| Topological.RebuildFollowsClean | scripts/changed_project_targets.py:122-125 | every clean target is directly followed by the build target of its package, and no build target comes without |
| Topological.CleanedFirst | scripts/changed_project_targets.py:122-125 | so a package is cleaned before it is rebuilt |
| Topological.DependenciesFirst | scripts/changed_project_targets.py:117-125 | a changed package is cleaned and rebuilt only after every changed package that it depends on, directly or not |
| EndpointServer.Endpoint.constructor | package/libpiksi/libpiksi/src/endpoint.c:1046-1062 | an endpoint starts without clients |
| EndpointServer.Endpoint.AcceptWake | package/libpiksi/libpiksi/src/endpoint.c:923-971 | a client is added to list and count and polled; `Valid` is kept |
| EndpointServer.Endpoint.ClientWake | package/libpiksi/libpiksi/src/endpoint.c:854-894 | a disconnected client is recorded once and purged once; any other event sets the eventfd to one unless it is set already |
| EndpointServer.Endpoint.RecordDisconnect | package/libpiksi/libpiksi/src/endpoint.c:834-852 | count and removed list |
| EndpointServer.Endpoint.Disconnect | package/libpiksi/libpiksi/src/endpoint.c:647-660 | recorded once and torn down, still listed |
| EndpointServer.Endpoint.TeardownClient | package/libpiksi/libpiksi/src/endpoint.c:604-623 | no longer polled, closed |
| EndpointServer.Endpoint.PurgeClientNode | package/libpiksi/libpiksi/src/endpoint.c:813-818 | unlinked, torn down and freed |
| EndpointServer.Endpoint.ProcessRemovedClients | package/libpiksi/libpiksi/src/endpoint.c:820-832 | exactly the recorded clients are purged, each once, the others keep their order; `Valid` is restored |
| EndpointServer.Endpoint.Recv | package/libpiksi/libpiksi/src/endpoint.c:625-683 | the next message, all its bytes or the first 8192 of them; none; or the end of the connection |
| EndpointServer.ServedIs | package/libpiksi/libpiksi/src/endpoint.c:685-701 | one service hands over the messages up to an empty one, the 32nd, or the limit, and no fewer |
| EndpointServer.DropsIff | package/libpiksi/libpiksi/src/endpoint.c:685-701 | a client is recorded exactly if one of those receives finds an empty message or the end of a closed queue |
| EndpointServer.Endpoint.ServiceReads | package/libpiksi/libpiksi/src/endpoint.c:685-701 | at most 32 messages, in order, off the queue and to the callback; the client is recorded exactly if its connection ends within them |
| EndpointServer.Endpoint.Receive | package/libpiksi/libpiksi/src/endpoint.c:983-1015 | the asserts hold; every client is served, those whose connection ended are gone, the others keep order, queue and history; otherwise -1 and nothing changes |
| EndpointServer.Endpoint.Send | package/libpiksi/libpiksi/src/endpoint.c:407-417 | exactly the clients to which sending failed are gone, messages are untouched, and the result tells whether there were any |
| EndpointServer.Endpoint.Arrive | package/libpiksi/libpiksi/src/endpoint.c:647 | a message arrives on a socket: histories and queues stay in step |
| EndpointDrain.ServingPays | package/libpiksi/libpiksi/src/endpoint.c:685-701 | what one service hands over and what is still owed add up to what was owed |
| EndpointDrain.ServingProgresses | package/libpiksi/libpiksi/src/endpoint.c:685-701 | serving a readable client makes progress |
| EndpointDrain.RunIsBounded | package/libpiksi/libpiksi/src/endpoint.c:854-1015 | without further arrivals no schedule of wake-ups and receives runs forever: the changes in a run are at most its measure |
| EndpointDrain.RunAccounts | package/libpiksi/libpiksi/src/endpoint.c:854-1015 | in every run, every client that stays has had, with what it is still owed, exactly what it was owed; one that is gone had its connection ended, and got a prefix of what it was owed, all of it unless its peer had closed |
| EndpointDrain.RestDelivers | package/libpiksi/libpiksi/src/endpoint.c:854-1015 | when the loop rests, clients whose peer is there have had all queued messages up to an empty one, in order and once, and are there unless that ended the connection; those whose peer had closed are gone |
| EndpointDrain.HandedOverFront | package/libpiksi/libpiksi/src/endpoint.c:688-697 | what was delivered are the messages at the front of the queue, each with all its bytes or the first 8192 of them |
| EndpointDrain.WholeMessages | package/libpiksi/libpiksi/src/endpoint.c:688-697 | so if no queued message is longer than 8192 bytes, a client whose peer is there has had its queue up to the first empty message, byte by byte |
| EndpointDrain.LossFreeIff | package/libpiksi/libpiksi/src/loop.c:431-442 | no message is lost under any schedule if and only if no client whose peer has closed is owed one: a poll that reports the disconnect has the client purged with its queue unread |
| EndpointDrain.LosingInput | package/libpiksi/libpiksi/src/endpoint.c:864-873 | one client, one message, its peer closed: the wake-up leaves the loop at rest and the message undelivered |
| EndpointDrain.Wake | package/libpiksi/libpiksi/src/endpoint.c:854-894 | a ready client's wake-up, reported as a disconnect exactly if its peer has closed, is a step of that system |
| EndpointDrain.Read | package/libpiksi/libpiksi/src/endpoint.c:983-1015 | so is a receive once the eventfd is set |
| EndpointDrain.RunToRest | package/libpiksi/libpiksi/src/endpoint.c:854-1015 | the loop, whatever it picks next, takes a run of such steps and comes to rest |
| EndpointDrain.ServeUntilQuiet | package/libpiksi/libpiksi/src/endpoint.c:854-1015 | so at rest every client has been handed over as `RestDelivers` says |
| RateFilter.LoadConfig | package/sbp_protocol/src/filter_sbp.c:62-122 | gives `Loaded` of the lines |
| RateFilter.LoadedIs | package/sbp_protocol/src/filter_sbp.c:84-121 | one rule per line, in order: its type cut to sixteen bits, its divisor to eight, counter zero; no rule at all if a line does not parse |
| RateFilter.Filter.constructor | package/sbp_protocol/src/filter_sbp.c:124-140 | a filter starts with those rules |
| RateFilter.Filter.Process | package/sbp_protocol/src/filter_sbp.c:158-198 | verdict and counters are those of `Step` |
| RateFilter.StepOfType | package/sbp_protocol/src/filter_sbp.c:186-194 | a message with the low and then the high byte of a type behind its preamble is decided and counted by the first rule for that type, and rejected without one |
| RateFilter.Filter.CountInPlace | package/sbp_protocol/src/filter_sbp.c:45-60 | one rule is counted in place |
| RateFilter.RunCounters | package/sbp_protocol/src/filter_sbp.c:45-60 | after any run the counter of the first rule of a type is the number of its messages modulo the divisor, all others are zero |
| RateFilter.CounterNeverWraps | package/sbp_protocol/src/filter_sbp.c:53 | the eight-bit counter stays below the divisor |
| RateFilter.EveryDth | package/sbp_protocol/src/filter_sbp.c:176-197 | a message of a type, in that sense, passes exactly if it is the d-th, 2d-th, ... of its type, however others interleave |
| RateFilter.FileDecides | package/sbp_protocol/src/filter_sbp.c:62-198 | from the file on: the first line for a type lets exactly each d-th of its messages through |
| RateFilter.ShortRejected | package/sbp_protocol/src/filter_sbp.c:181-184 | with rules, a message of fewer than six bytes never passes |
| RateFilter.AllPassWithout | package/sbp_protocol/src/filter_sbp.c:176-179 | without rules every message passes |
| RateFilter.PassedShare | package/sbp_protocol/src/filter_sbp.c:176-197 | of n messages of a type exactly n / d pass, none for d = 0 or an unlisted type |
| RateFilter.LoadedIsFresh | package/sbp_protocol/src/filter_sbp.c:108-112 | loaded rules meet what the run laws ask for |
| InterfaceList.List.Find | package/libpiksi/libpiksi/src/interface.c:109-118 | the walk from the tail stops behind the last name that is not greater |
| InterfaceList.List.Link | package/libpiksi/libpiksi/src/interface.c:128-146 | the four cases of relinking keep next, prev, head and tail in step with the list |
| InterfaceList.List.Add | package/libpiksi/libpiksi/src/interface.c:102-148 | the list stays strictly sorted and doubly linked; its names are the old ones and the new one; re-adding changes nothing and returns the existing node |
| InterfaceList.AddAll | package/libpiksi/libpiksi/src/interface.c:102-148 | any sequence of additions gives exactly the set of names, sorted, without duplicates |
| InterfaceList.SortedUnique | package/libpiksi/libpiksi/src/interface.c:102-148 | a strictly sorted list is determined by its names |
| InterfaceList.LessIff | package/libpiksi/libpiksi/src/interface.c:110 | the order is that of the first position where two names differ |

## Left out

- cmph, libyaml, libuv, libsbp, uthash and the C library beyond what is named above.
- Sockets, polling, timers, files and descriptors as such; retry and sleep timing of `send_impl` and `fd_write_with_timeout`: a send succeeds or disconnects, a write takes a positive number of bytes or fails.
- What becomes of bytes that a terminal has taken: `tcflush` may discard them later.
- Failure of memory allocation, logging and metrics.
- `discard_read_data` of PUB_SERVER endpoints: it records a disconnect without purging the node.
- Calls of `pk_endpoint_send` from inside a receive callback, and accept errors.
- The LED register cache and `network_download_write`.
- The reload of the rate filter's file on inotify events, and `sscanf`: a line is a pair of numbers, or does not parse.
- Enumeration of sections and keys in minIni (`ini_getsection`, `ini_getkey`, `ini_browse`), and the conversions of numbers.
- Opening, renaming and removing the INI file: a file is its text.
- The use of the line buffer as scratch space in minIni: lines that are read are strings; lines that are written are composed in an array.
- The pointers between nodes of the router's configuration: lists are sequences, and a destination is the index of a port. Freeing is not modelled.
- The value of hexadecimal numerals (`strtoul`): the loader takes a function from strings to bytes.
- Scraping the dependencies from make and their cache, and the list of changed files.
- IniHistory.LatestWins: histories of puts only, because with repeated keys an erasure uncovers the next one; `IniUnique.LatestChangeWins` has erasures too, for files without repetitions.
- IniFiles.PutKeepsOthers: asks for a value without a line break; with one it is false (`IniFiles.SpillsOver`).
- InterfaceList.List.Add: asks for names shorter than `IF_NAMESIZE`, because `strncpy` leaves longer ones without a terminator for `strcmp`.
- InterfaceList.AddAll: likewise.
- RuleCache.CreateCache: asks for no more rules than ports, because the endpoint arrays are sized by the number of ports.
- IniLookup.GetKeyString: as for `IniRewrite.IniPuts`.
- IniLookup.SeekSection: as for `IniRewrite.IniPuts`.
- IniLookup.SeekKey: as for `IniRewrite.IniPuts`.
- IniRewrite.Rewriter.Puts: as for `IniRewrite.IniPuts`.
- IniRewrite.IniPuts: asks for a file in which every line, the last one too, ends in a terminator and fits the buffer.
- EndpointServer.Endpoint.AcceptWake: the accept succeeds.
- EndpointServer.Endpoint.Recv: errors other than an empty queue are not among its results; they limit what `ServiceReads` takes.
- EndpointDrain.ServeUntilQuiet: asks that every receive takes at least one message from a client that has one.
