# Models of the c64-https host tools

The repository is a TLS 1.3 client for the Commodore 64. Around it stand host
tools in Python that decide whether the client is right: a reference for its
crash-safe trust store, a model of the M3 command interface it drives, wire
captures and their verdicts, a hostile TLS server, a linker-map audit, a timer
probe. This project models the state machines, codecs and algorithms of those
tools in Dafny and proves what they are relied on for.

`dafny verify dfyconfig.toml` checks everything.

| module | file | subject |
|---|---|---|
| `Bytes`, `Records` | `Bytes.dfy`, `Records.dfy` | byte strings, integer codecs, the 64-byte trust record |
| `TrustStore` | `TrustStore.dfy` | the A/B store: codec, selection, saves, crash safety, refinement of a map |
| `TrustBundle` | `TrustBundle.dfy` | the signed bundle and its canonical form |
| `M3Model` | `M3Model.dfy` | the M3 device as a transition system |
| `M3Object` | `M3Device.dfy` | the device object, method by method, against `M3Model` |
| `M3Registers`, `M3Claims`, `M3Conservation`, `M3Losses` | same names | register invariant and guard stability; unclaimed sessions; byte conservation; the two ways to lose a byte |
| `M3Commands` | `M3Commands.dfy` | reply times, recorded violations, claims and fixed answers of the commands |
| `M3Driver`, `M3Replies` | same names | the run theorems, carried over to the device object; reading whole replies and READ data off it |
| `Margins` | `Margins.dfy` | link-map margins |
| `TcpStreams`, `LeakSearch` | same names | TCP reassembly and the search for a secret in a capture |
| `RecordLayer`, `ClientHello` | same names | record protection, framing and reading; the probe's ClientHello and its two parsers |
| `Montgomery`, `Ladder` | same names | the ladder's field formulas over any modulus; X25519 with deferred swap |
| `CiaTimer`, `CiaHandshake`, `CiaProbe` | same names | the probe's tear-free read and 32-bit sum; its publish handshake; what a sample says about the time |
| `KeyFeeder` | `KeyFeeder.dfy` | typing into the KERNAL key buffer |
| `EarlyStop` | `EarlyStop.dfy` | when the fetch rig may stop polling |

Cryptographic functions are parameters: SHA-256 is any function to 32 bytes, an
AEAD is any pair where opening a sealed text gives the plaintext back, the
signer is any function of the message, and the final field inversion of X25519
is any function. Clocks, sockets and schedules are arguments or sequences of
steps over which the theorems quantify.

## Where the code does not do what is said of it

- **Register invariant of the M3 device.** A command too short for the device's
  own indexing (a two-byte READ, for one) leaves `write` by an exception with
  BUSY set and no reply pending. `M3Registers.StepKeeps` and `RunKeeps` prove
  that the invariant holds after a step or run if and only if no exception
  escaped, with the exact set of such commands; `TruncatedReadBreaks` is a
  concrete run.
- **Byte conservation of the M3 device.** Queued bytes can also vanish into a
  READ that is scripted never to complete, and with a session that ends ahead of
  queued data. `M3Conservation.LostExactly` proves that a run loses bytes in
  these ways if and only if it executes such a READ; `M3Losses.NeverLoses` and
  `M3Losses.EndLoses` are runs from power-on, one for each way.
- **Tearing of the timer read.** A pass of up to and including 65,280 ticks is
  safe, 65,281 is not (`CiaTimer.TearFreeExactly`, `TearsBeyond`).
- **Early stop.** The comment at `tools/http_body_checks.py:451-453` says that a
  failing body past parse state 2 always has definite framing. It does not when
  the sink refused the body: `EarlyStop.StopsWithoutFraming` gives the exact
  condition. The text at lines 714-715 says that `settled` only ever turns a
  failure into an inconclusive; `EarlyStop.PassNeedsAll` shows that it turns a
  pass into an inconclusive as well, and nothing into a pass.
  The docstring at lines 486-487 says that a handshake stop changes no verdict;
  `EarlyStop.HandshakeStopAgrees` shows that a deadline inside the grace period
  is inconclusive where the stop fails, and exactly when the two agree.
- **ClientHello framing.** A host name so long that the handshake message
  exceeds 16,640 bytes still builds, but frames as no record at all
  (`ClientHello.FramesAsOne`).
- **Decoding an encoded store.** `encode` accepts up to 255 records, `decode`
  only 32; `TrustStore.DecodeEncode` is exact about which files come back.

## Model

| member | source | states |
|---|---|---|
| `Records.UnpackPack` | tools/trust_store.py:151-161 | unpacking a packed record gives it back with the display cut or padded to 12 bytes |
| `Records.PackedLayout` | tools/trust_store.py:151-156 | where each field of a record lies in its 64 bytes, counts low byte first, the display cut or zero-padded |
| `Records.PackUnpack` | tools/trust_store.py:151-161 | every 64-byte string is the packing of what it unpacks to |
| `Records.UnpackPackAll` | tools/trust_store.py:168-170 | the same for any list of records laid end to end |
| `Records.PackUnpackAll` | tools/trust_store.py:204-205 | every record area re-packs to itself |
| `TrustStore.DecodeReasons` | tools/trust_store.py:181-206 | each outcome of decoding exactly, in terms of the bytes: VERSION, CHECKSUM, FORMAT and success |
| `TrustStore.EncodedShape` | tools/trust_store.py:164-172 | where magic, version, wrapped generation, count, records and checksum lie in an encoded file |
| `TrustStore.DecodeEncode` | tools/trust_store.py:164-206 | decoding undoes encoding if and only if there are at most 32 records; otherwise FORMAT |
| `TrustStore.ReencodeDecoded` | tools/trust_store.py:181-206 | every accepted byte string is exactly the encoding of its contents |
| `TrustStore.TornIsFormat` | tools/trust_store.py:181-206 | every strict prefix of an encoded file is FORMAT, whatever the checksum function |
| `TrustStore.SerialIsRfc1982` | tools/trust_store.py:229-235 | the comparison is the ordering of section 3.2 of RFC 1982 on 16 bits, both directions |
| `TrustStore.Pick` | tools/trust_store.py:248-269 | a VALID selection shows the contents of the slot it names; anything else shows none |
| `TrustStore.PickExactly` | tools/trust_store.py:209-269 | the whole table of selection with every reason written out: a tie exactly for equal or opposite generations; with one readable slot VALID exactly beside an absent, FORMAT or CHECKSUM slot, and otherwise FAIL for that slot's reason |
| `TrustStore.UnknownVersionFails` | tools/trust_store.py:194-262 | a file of an unknown version makes the store FAIL whatever the other slot holds, with reason VERSION beside a readable one, and every save is refused |
| `TrustStore.UnopenableFails` | tools/trust_store.py:209-262 | so does a slot that could not be opened, for its own reason |
| `TrustStore.PickIsNewest` | tools/trust_store.py:223-269 | VALID only if the live slot is serially newer or its neighbour's damage is tolerable; EMPTY exactly if nothing was ever written; a FAIL between two readable slots means neither is newer; swapping the slots changes nothing |
| `TrustStore.PickAfterSave` | tools/trust_store.py:248-302 | a file one generation on takes over the selection and its slot becomes the live one; a torn one leaves selection and slot alone, or fails closed on a first save |
| `TrustStore.Lookup` | tools/trust_store.py:272-279 | the first record with the host's key in a VALID selection, else none |
| `TrustStore.FindIs` | tools/trust_store.py:276-279 | nothing is found exactly when no record has the key |
| `TrustStore.FindIsFirst` | tools/trust_store.py:276-279 | the first record of a key is the one found |
| `TrustStore.FoldsExactly` | tools/trust_store.py:121-122 | folding spells letters in lower case and makes two hosts equal exactly when they differ in ASCII case only |
| `TrustStore.CaseIsIgnored` | tools/trust_store.py:125-302 | hosts that differ in ASCII case only have one key, and saving under either is the same |
| `TrustStore.UpsertAt` | tools/trust_store.py:293-301 | the update replaces the first record with the key in place, or appends |
| `TrustStore.Place` | tools/trust_store.py:293-301 | the scan and update loop of `save`, with FULL for a 33rd record |
| `TrustStore.SaveFrom` | tools/trust_store.py:289-302 | a save never targets the live slot |
| `TrustStore.SaveResult` | tools/trust_store.py:282-302 | the same for the selection of two given slots |
| `TrustStore.Save` | tools/trust_store.py:282-302 | refused exactly when the selection failed, there is no room or the record does not pack; otherwise the target is the slot that is not live (the first one for a new store), and with the file in place the store selects as VALID from it, one generation on, with the host's record updated and the others as they were |
| `TrustStore.SaveRefused` | tools/trust_store.py:288-302 | exactly when a save is refused |
| `TrustStore.SaveMeans` | tools/trust_store.py:248-302 | what a completed save makes the store select, for every pair of slots |
| `TrustStore.EmptyIsNew` | tools/trust_store.py:248-269 | only two absent slots select as EMPTY |
| `TrustStore.WrittenFile` | tools/trust_store.py:282-302 | the bytes that reach the slot decode to the intended contents if all of them do, and as FORMAT if any are missing |
| `TrustStore.SaveWrites` | tools/trust_store.py:282-302 | a save succeeds exactly if its record packs and there is room; a refused one changes nothing |
| `TrustStore.StepView` | tools/trust_store.py:248-302 | what the store selects after one attempt, landed or torn, VALID or first |
| `TrustStore.StepIsSafe` | tools/trust_store.py:248-302 | one attempt keeps a VALID store VALID, advances it exactly when the write lands, and leaves the live slot's bytes alone |
| `TrustStore.CrashSafety` | tools/trust_store.py:248-302 | over any run of saves, each complete or cut at any byte and through any number of generation wraps, the store stays VALID with the generation and records of the last save that landed |
| `TrustStore.TornFirstSaveIsStuck` | tools/trust_store.py:248-302 | a first save torn after file creation selects as FAIL/FORMAT, never EMPTY, and every later save is refused for ever |
| `TrustStore.ToMapFinds` | tools/trust_store.py:272-279 | looking a key up in the list is looking it up in the map the list stands for |
| `TrustStore.ToMapSize` | tools/trust_store.py:293-301 | with distinct keys the list is as long as the map |
| `TrustStore.UpsertIsUpdate` | tools/trust_store.py:293-301 | the list update is a map update and keeps keys distinct |
| `TrustStore.UpsertKeys` | tools/trust_store.py:293-301 | other keys are unchanged by an update |
| `TrustStore.RepresentsRun` | tools/trust_store.py:248-302 | any run of completed saves takes slots that represent a map to slots that represent the updated map |
| `TrustStore.StoreRefinesMap` | tools/trust_store.py:248-302 | from EMPTY the store is a map of at most 32 distinct keys: lookups read it, and FULL is raised exactly for a 33rd key |
| `TrustBundle.LessTotal` | tools/trust_bundle.py:220 | the key order is irreflexive, total and asymmetric |
| `TrustBundle.LessExactly` | tools/trust_bundle.py:220 | at the first differing byte the smaller one is less, and a proper prefix is less |
| `TrustBundle.LessTransitive` | tools/trust_bundle.py:220 | the key order is transitive |
| `TrustBundle.SortAscends` | tools/trust_bundle.py:220 | sorting gives an ascending permutation |
| `TrustBundle.AscendingUnique` | tools/trust_bundle.py:219-223 | a strictly ascending list is the only ascending arrangement of its records |
| `TrustBundle.UnsignedExactly` | tools/trust_bundle.py:191-226 | succeeds, whatever the order of the records, exactly for a u16 generation and at most 32 packable warn-only leaf pins with distinct keys; the body is the header and each record once, in strictly ascending key order |
| `TrustBundle.SignedLayout` | tools/trust_bundle.py:281-286 | a signed file is the body, then r, then s, each as 32 big-endian bytes |
| `TrustBundle.StepwiseIsStrict` | tools/trust_bundle.py:308-311 | comparing neighbours is enough for the whole list to be strictly ascending |
| `TrustBundle.ParseSigned` | tools/trust_bundle.py:281-316 | a signed bundle parses, to its generation, sorted normalised records and signature, if and only if r and s are in range |
| `TrustBundle.RebuildParsed` | tools/trust_bundle.py:289-316 | every accepted file is rebuilt byte for byte from the parsed value |
| `TrustBundle.SignOrderFree` | tools/trust_bundle.py:219-286 | with a deterministic signer the file, or the refusal, is the same for every order of the records |
| `TrustBundle.VerifiesExactly` | tools/trust_bundle.py:319-331 | verification accepts a file as a bundle if and only if the file is that bundle's canonical encoding with a valid in-range signature at or above the floor |
| `M3Object.M3Device.constructor` | tools/check_m3_client.py:121-164 | power-on state, which satisfies the register invariant |
| `M3Object.M3Device.Read` | tools/check_m3_client.py:200-230 | the value and new state of a register read; keeps the register invariant |
| `M3Object.M3Device.Write` | tools/check_m3_client.py:233-275 | the new state of a register write, and whether an exception escaped; keeps the register invariant exactly if none did |
| `M3Object.M3Device.Claim` | tools/check_m3_client.py:289-293 | marks every session claimed and changes nothing else |
| `M3Object.M3Device.DropUnclaimed` | tools/check_m3_client.py:342-346 | deletes exactly the unclaimed sessions and counts them |
| `M3Object.M3Device.ExecuteClose` | tools/check_m3_client.py:309-315 | CLOSE leaves the handle closed and every other session alone, and answers OK if the handle was open and the unowned line if not; too short a command changes nothing |
| `M3Object.M3Device.ExecuteInfo` | tools/check_m3_client.py:320-332 | INFO answers with a record exactly for a well-formed query on TLS firmware; the readiness byte is 3 before the device is ready and otherwise as scripted, like all the others |
| `M3Object.M3Device.ExecuteRelease` | tools/check_m3_client.py:333-346 | a well-formed RELEASE leaves no session unclaimed, keeps every claimed one, reports how many sessions went and uses up one scripted delay; any other changes nothing of this |
| `M3Object.M3Device.ExecuteOpen` | tools/check_m3_client.py:347-380 | OPEN_TLS adds exactly the session it makes to the unclaimed ones, with an empty queue, and touches no other; an accepted open answers with the eight bytes for an open handle that is not gone, a refusal with its line |
| `M3Object.M3Device.ExecuteRead` | tools/check_m3_client.py:381-414 | the reply is one block whose length header, low byte first, counts the bytes that follow, the head of the queue up to the length asked for; 0xFFFF exactly when there is nothing, zero with the scripted line at the end; the queue keeps the rest, a scripted reply is used once, and no other session changes |
| `M3Object.M3Device.ExecuteWrite` | tools/check_m3_client.py:415-426 | the first accepted WRITE appends the scripted response to the queue and no later one does; the reply gives the length written, low byte first, a scripted result is passed on, a closed handle gets the send error; no other session changes |
| `M3Driver.Drive` | tools/check_m3_client.py:167-287 | the object follows the transition system over any sequence of reads, writes and scripted changes up to the first exception, and satisfies the register invariant afterwards exactly if there was none |
| `M3Driver.ReleaseAfter` | tools/check_m3_client.py:200-346 | from power-on and after any run that ends idle, a driver that sends RELEASE and reads the reply register when it is due gets 1 and the outstanding session is closed, or 0 and nothing is |
| `M3Driver.ReadSession` | tools/check_m3_client.py:167-414 | the bytes a driver gets from the object's data register while it reads one session are in queue order, a prefix if nothing was dropped, and with the dropped, staged and queued bytes they are the whole queue |
| `M3Replies.DrainBlock` | tools/check_m3_client.py:200-222 | reading while DATA_AV is set gets exactly the current block |
| `M3Replies.DrainLine` | tools/check_m3_client.py:200-228 | reading while STAT_AV is set gets exactly the rest of the status line |
| `M3Replies.ReadReply` | tools/check_m3_client.py:194-264 | a driver that drains and accepts block after block gets the whole reply in order, leaves the device idle, and nothing is held against it |
| `M3Replies.HeaderTells` | tools/check_m3_client.py:398-414 | what a READ's length header tells about the bytes behind it |
| `M3Replies.FetchData` | tools/check_m3_client.py:167-414 | a driver that sends READ and takes what the header announces gets exactly the payload and the status line, and the queue keeps exactly the rest |
| `M3Registers.RaisesExactly` | tools/check_m3_client.py:301-427 | which commands leave the dispatcher by an exception, both directions |
| `M3Registers.StepKeeps` | tools/check_m3_client.py:167-287 | BUSY, the command bit, a pending reply and a deadline coincide, and blocks remain exactly in Data More, after a step if and only if no exception escaped it; and exactly which steps raise |
| `M3Registers.RunKeeps` | tools/check_m3_client.py:167-287 | the same over whole runs |
| `M3Registers.TruncatedReadBreaks` | tools/check_m3_client.py:278-287 | a two-byte READ from power-on leaves BUSY with nothing pending |
| `M3Registers.QuietRun` | tools/check_m3_client.py:200-244 | from a quiet device, any delay, reads and queued bytes change nothing but the command buffer |
| `M3Registers.SendPushes` | tools/check_m3_client.py:233-287 | queueing a command byte by byte on a quiet device and pushing it executes exactly that command |
| `M3Registers.PushIsAccepted` | tools/check_m3_client.py:200-287 | after reading idle with no busy or abort bit, a plain PUSH is accepted after any delay, and the command executed is exactly the bytes queued |
| `M3Registers.AcceptIsClean` | tools/check_m3_client.py:200-264 | after reading a reply state with DATA_AV clear, a data-accept never records the unread-bytes violation |
| `M3Registers.StatusBitsAre` | tools/check_m3_client.py:205-217 | what each bit of the status byte says |
| `M3Registers.PushIsRefused` | tools/check_m3_client.py:269-275 | a PUSH while busy or replying executes nothing, drops the queued command and shows in ERROR until CLR |
| `M3Registers.AcceptMoves` | tools/check_m3_client.py:250-263 | an accept records exactly how many bytes were unread and moves to the next block, or to idle after the last |
| `M3Registers.ControlRecords` | tools/check_m3_client.py:246-268 | what the other control bits do and when ABORT with PUSH is held against the driver |
| `M3Registers.CommandRecords` | tools/check_m3_client.py:238-244 | a write during an ABORT is held against the driver and still queues its byte |
| `M3Registers.OtherReads` | tools/check_m3_client.py:202-230 | what every read outside a reply gives, with and without a device |
| `M3Registers.AbortWaits` | tools/check_m3_client.py:178-192 | an ABORT waits for the command in progress |
| `M3Registers.AbortIsServed` | tools/check_m3_client.py:178-192 | otherwise it is served one unit after it is first seen, and reply, unread data and queued command are gone |
| `M3Registers.StuckRun` | tools/check_m3_client.py:284-287 | a command scripted never to complete keeps the device busy over every run of reads and writes, ABORTs included |
| `M3Commands.RepliesAfter` | tools/check_m3_client.py:305-347 | when each command's reply is due under the scripts for slow, never, READ, OPEN_TLS and RELEASE |
| `M3Commands.Records` | tools/check_m3_client.py:295-339 | which violation each command records, and that there is no other |
| `M3Commands.ClaimsAre` | tools/check_m3_client.py:289-293 | RELEASE and the readiness query leave claims alone; any other network command claims every session |
| `M3Commands.FixedAnswers` | tools/check_m3_client.py:301-427 | the answers that depend on nothing the device holds |
| `M3Claims.OutstandingMeans` | tools/check_m3_client.py:289-293 | the outstanding open is the latest session-creating open with no claiming command and no release after it, both directions |
| `M3Claims.OpenMakes` | tools/check_m3_client.py:347-380 | an open adds its session to the unclaimed ones and touches no other |
| `M3Claims.DroppingUnclaimed` | tools/check_m3_client.py:342-346 | deleting the unclaimed sessions leaves exactly the claimed ones |
| `M3Claims.ClaimsLeaves` | tools/check_m3_client.py:289-380 | after a claiming command only the session it created can be unclaimed |
| `M3Claims.ExecuteTracks` | tools/check_m3_client.py:289-380 | each executed command moves the unclaimed set as the command history says |
| `M3Claims.RunTracks` | tools/check_m3_client.py:289-380 | over any run the unclaimed sessions are exactly the outstanding open, hence at most one |
| `M3Claims.ReleaseCloses` | tools/check_m3_client.py:333-346 | RELEASE on TLS firmware reports 1 and closes exactly the outstanding session if there is one, else reports 0 and closes nothing |
| `M3Conservation.ReadMoves` | tools/check_m3_client.py:381-414 | a READ moves bytes from the head of the queue to its reply and nowhere else |
| `M3Conservation.ReadAnswers` | tools/check_m3_client.py:381-414 | what a READ answers, as its reader decodes it |
| `M3Conservation.ReadLeaves` | tools/check_m3_client.py:394-413 | which events a READ leaves in the queue |
| `M3Conservation.ForcedIsUsed` | tools/check_m3_client.py:391-394 | a reply scripted for the next READ is given once, whatever is queued |
| `M3Conservation.ReadMarksGone` | tools/check_m3_client.py:387-413 | a READ marks a handle gone exactly when it finds it closed or ends it, which only the lines 01 and 05 do |
| `M3Conservation.WriteReleases` | tools/check_m3_client.py:415-426 | the first WRITE releases the scripted response into the queue, once |
| `M3Conservation.StepConserves` | tools/check_m3_client.py:167-287 | one step moves each byte to exactly one place, in queue order |
| `M3Conservation.RunConserves` | tools/check_m3_client.py:167-287 | the same over whole runs, with data queued on the way |
| `M3Conservation.DeliveredInOrder` | tools/check_m3_client.py:218-222 | what the reader got is a subsequence of the ledger, and all of it if nothing was dropped |
| `M3Conservation.OnlyReadsDeliver` | tools/check_m3_client.py:218-222 | nothing but a register read hands a byte to the driver |
| `M3Conservation.ByteConservation` | tools/check_m3_client.py:167-414 | bytes read, dropped, in flight and queued are together the queue, in order; what was delivered keeps queue order, and is a prefix if nothing was dropped |
| `M3Conservation.TakesExactly` | tools/check_m3_client.py:381-414 | which READs take data, and which end a session ahead of queued data |
| `M3Conservation.LostExactly` | tools/check_m3_client.py:278-287 | a run loses bytes other than by ABORT or accept if and only if it executes a READ that swallows data or ends a session early |
| `M3Losses.NeverLoses` | tools/check_m3_client.py:284-287 | a run from power-on (open, queue a byte, READ scripted never to complete) after which the byte is neither queued nor in flight nor delivered |
| `M3Losses.EndLoses` | tools/check_m3_client.py:409-414 | the same for a byte queued behind the end of its session |
| `Margins.MeasureArea` | tools/measure_margins.py:270-299 | used is the number of covered addresses, the hole is the longest free run below the last used one (the highest among equals), and the gaps returned are the free space below the last used address: free runs, ascending, disjoint and complete; used plus their total plus tail is the size of the area |
| `Margins.Report` | tools/measure_margins.py:285-299 | the same from the merged spans |
| `Margins.Clip` | tools/measure_margins.py:274-277 | the clipped spans cover exactly the area's covered addresses |
| `Margins.SortOrders` | tools/measure_margins.py:274-277 | sorting gives an ordered permutation |
| `Margins.Merge` | tools/measure_margins.py:285-290 | the merged spans are separated and cover the same addresses |
| `Margins.GapList` | tools/measure_margins.py:291-293 | the gap before the first span and between neighbours |
| `Margins.LargestGap` | tools/measure_margins.py:294 | the maximal pair by length, then address |
| `Margins.Overflow` | tools/measure_margins.py:271-273 | how far the furthest segment that starts in the area runs past its end |
| `Margins.UsedCounts` | tools/measure_margins.py:298 | the sum of merged lengths counts each covered address once |
| `Margins.GapsFill` | tools/measure_margins.py:291-298 | spans and gaps tile the area up to the last used address |
| `Margins.RunInsideGap` | tools/measure_margins.py:291-294 | every free run below the last used address lies in one listed gap |
| `Margins.GapIsFree` | tools/measure_margins.py:291-294 | no covered address lies in a listed gap |
| `Margins.GapsAreInterior` | tools/measure_margins.py:291-293 | the listed gaps are free, ascending, disjoint, and hold every free address below the last used one |
| `Margins.GapsCount` | tools/measure_margins.py:291-293 | the lengths of disjoint gaps count each of their addresses once |
| `Margins.GapsBalance` | tools/measure_margins.py:291-298 | the conservation law for any list that describes the interior gaps: used plus gaps plus tail is the size of the area |
| `Margins.HoleUnique` | tools/measure_margins.py:294-297 | the description of the hole leaves no choice |
| `Margins.MeasuresUnique` | tools/measure_margins.py:278-298 | the description of a row leaves no choice |
| `Margins.RowOrderFree` | tools/measure_margins.py:270-299 | a row does not depend on the order or repetition of segments |
| `Margins.AlignUp` | tools/measure_margins.py:253-255 | the least multiple of the alignment not below the cursor |
| `Margins.LastNamedIsLast` | tools/measure_margins.py:244 | the last segment of a name counts |
| `Margins.FindAreaIsFirst` | tools/measure_margins.py:249-250 | the first area of a name or alias is loaded into |
| `Margins.FindAreaNone` | tools/measure_margins.py:249-252 | no area is found exactly when none has the name or alias |
| `Margins.PlacedLowest` | tools/measure_margins.py:247-258 | a split segment is placed exactly if it and its area exist and it is not empty, at the lowest aligned address at or above what was placed before |
| `Margins.PlacedPacks` | tools/measure_margins.py:247-258 | load bytes placed in one area never overlap and ascend in cfg order |
| `Margins.PlaceSplit` | tools/measure_margins.py:244-259 | the cursor loop over split segments |
| `Margins.RunsInHas` | tools/measure_margins.py:268-269 | a run area is measured against exactly the listed segments that run there |
| `Margins.ReportedHas` | tools/measure_margins.py:260-267 | exactly which areas are reported |
| `Margins.MeasureOne` | tools/measure_margins.py:265-299 | the row of one reported area, against its own segments, with its balance |
| `Margins.Measure` | tools/measure_margins.py:231-300 | one exact row for every reported area, in order, each balancing with its interior gaps |
| `Margins.DistinctNamesAgree` | tools/measure_margins.py:244 | distinct segment names make lookups by name independent of order |
| `Margins.ReportOrderFree` | tools/measure_margins.py:231-300 | the whole report is independent of the order of the segment list |
| `TcpStreams.Assemble` | tools/ip65_hw_checks.py:382-391 | overlays the pieces of one connection in ascending order |
| `TcpStreams.Collect` | tools/ip65_hw_checks.py:343-392 | one assembled stream per connection, in order of first appearance |
| `TcpStreams.FrameCounts` | tools/ip65_hw_checks.py:364-380 | which frames count for a connection, and exactly what one more frame does to its pieces |
| `TcpStreams.FillShows` | tools/ip65_hw_checks.py:386-390 | each offset shows the highest-numbered piece that covers it |
| `TcpStreams.FillRest` | tools/ip65_hw_checks.py:387-390 | an offset no piece covers is zero, and there is none past the last piece |
| `TcpStreams.PiecesAgree` | tools/ip65_hw_checks.py:378-380 | if every frame agrees with a stream, so does every piece kept |
| `TcpStreams.PiecesLongest` | tools/ip65_hw_checks.py:378-380 | the piece kept at a number is at least as long as any frame there |
| `TcpStreams.SlicesFill` | tools/ip65_hw_checks.py:382-391 | slices of a stream that cover it assemble to it |
| `TcpStreams.Reassembles` | tools/ip65_hw_checks.py:362-392 | whatever the capture order, retransmissions and overlaps, frames that agree with a stream and cover it give back exactly that stream |
| `TcpStreams.Isolated` | tools/ip65_hw_checks.py:364-380 | frames of other connections have no effect |
| `TcpStreams.OrderHas` | tools/ip65_hw_checks.py:373-377 | a connection is listed, once, exactly if a selected frame belongs to it |
| `TcpStreams.OrderIsByFirst` | tools/ip65_hw_checks.py:361-377 | connections are listed in the order of their first frames |
| `TcpStreams.StreamsReassemble` | tools/ip65_hw_checks.py:343-392 | the list returned for a capture holds that stream under its connection |
| `LeakSearch.RunMonotone` | tools/ip65_hw_checks.py:1096-1098 | shortening a run that occurs leaves one that occurs |
| `LeakSearch.OccursExactly` | tools/ip65_hw_checks.py:1109 | to occur is to stand between something and something |
| `LeakSearch.ExtendFrom` | tools/ip65_hw_checks.py:1105-1112 | the binary search finds the longest match at an offset that beats the best so far |
| `LeakSearch.LongestRun` | tools/ip65_hw_checks.py:1093-1115 | the true maximum length of a common substring, at its first offset; (0, -1) if none |
| `LeakSearch.FormsSpell` | tools/ip65_hw_checks.py:1048-1076 | in the fold a letter of either case is 0x41 plus its place in the alphabet, in the shifted form 0xC1 plus that; every other byte is unchanged |
| `LeakSearch.FormsLoseCase` | tools/ip65_hw_checks.py:1048-1076 | secrets that differ in letter case only share both encoded forms |
| `LeakSearch.SecretForms` | tools/ip65_hw_checks.py:1048-1090 | the three encodings, each once |
| `LeakSearch.ShowsLeaks` | tools/ip65_hw_checks.py:1134-1141 | a corpus that shows the secret as it is or spelled in either letter block leaks it |
| `LeakSearch.CollectCorpora` | tools/ip65_hw_checks.py:1164-1172 | exactly the raw frames and each station's non-empty streams |
| `LeakSearch.RunVerdict` | tools/ip65_hw_checks.py:1185-1186 | comparing the longest run with the floor decides whether any run reaches it |
| `LeakSearch.SearchCorpus` | tools/ip65_hw_checks.py:1180-1188 | a corpus is hit exactly if it holds a form in full or `partial_min` contiguous bytes of one |
| `LeakSearch.CheckBodyNotOnWire` | tools/ip65_hw_checks.py:1118-1221 | exactly when the verdict is a pass and exactly when it is inconclusive; a fail whenever some corpus shows the secret in any of its spellings |
| `LeakSearch.SplitSecretIsFound` | tools/ip65_hw_checks.py:1130-1132 | a secret cut across segments of one connection is still found |
| `RecordLayer.XorBitsCancels` | tools/https_e2e/evil_listener.py:191-193 | exclusive or with a fixed mask is injective on numbers of any width |
| `RecordLayer.XorBitsBit` | tools/https_e2e/evil_listener.py:191-193 | each bit of an exclusive or is the exclusive or of the bits |
| `RecordLayer.NonceBit` | tools/https_e2e/evil_listener.py:191-193 | the counter is laid over the IV bit for bit, its lowest byte on the IV's last |
| `RecordLayer.NoncesDiffer` | tools/https_e2e/evil_listener.py:191-193 | no nonce repeats while the counter is below 2^96 |
| `RecordLayer.UnpadPadded` | tools/https_e2e/evil_listener.py:208-214 | any amount of zero padding comes off and leaves content and type |
| `RecordLayer.UnpadFails` | tools/https_e2e/evil_listener.py:208-213 | nothing comes out exactly when all bytes are zero |
| `RecordLayer.UnwrapFails` | tools/https_e2e/evil_listener.py:202-214 | why a record does not open: each error, exactly |
| `RecordLayer.WrapIsRecord` | tools/https_e2e/evil_listener.py:195-200 | what encryption puts out is one whole record of type 23 and version 3.3 by its own length field, sealed under the nonce with its own header as associated data |
| `RecordLayer.UnwrapWrap` | tools/https_e2e/evil_listener.py:195-214 | decrypting at the same counter gives back type and content |
| `RecordLayer.TrafficKeys.constructor` | tools/https_e2e/evil_listener.py:184-189 | the counter starts at zero |
| `RecordLayer.TrafficKeys.Encrypt` | tools/https_e2e/evil_listener.py:195-200 | the record, and one step of the counter exactly on success |
| `RecordLayer.TrafficKeys.Decrypt` | tools/https_e2e/evil_listener.py:202-214 | type and content, or the error; the counter moves also when all is padding |
| `RecordLayer.CutJoins` | tools/https_e2e/evil_listener.py:246-270 | pieces cut by any cyclic pattern join to the stream |
| `RecordLayer.CutSizes` | tools/https_e2e/evil_listener.py:246-270 | every piece but the last has the size the pattern gives for it |
| `RecordLayer.FragmentSizes` | tools/https_e2e/evil_listener.py:246-270 | the sizes of the pieces in each mode, and the one empty piece of an empty stream |
| `RecordLayer.PayloadsJoin` | tools/https_e2e/evil_listener.py:508-552 | in every mode the record payloads join to the messages; re-cut ones hold at most 512 bytes, and otherwise they are the messages |
| `RecordLayer.FrameHandshakeStream` | tools/https_e2e/evil_listener.py:246-270 | the cutting loop, one empty fragment for an empty stream, and the refused mode |
| `RecordLayer.WrapsExactly` | tools/https_e2e/evil_listener.py:195-200 | a flight goes out whole exactly if every payload fits a record and the counter lasts |
| `RecordLayer.EmitRecords` | tools/https_e2e/evil_listener.py:548-552 | encrypts the payloads with consecutive counters |
| `RecordLayer.EmitFlight` | tools/https_e2e/evil_listener.py:508-552 | a flight in either framing |
| `RecordLayer.RecordReader.constructor` | tools/https_e2e/evil_listener.py:276-278 | the stream is what will be received |
| `RecordLayer.RecordReader.ReadRecord` | tools/https_e2e/evil_listener.py:280-297 | returns the stream's first record and leaves the rest, whatever the chunks; end of stream or a timeout loses nothing |
| `RecordLayer.RecordsOfFlight` | tools/https_e2e/evil_listener.py:280-297 | records sent back to back are read back one by one |
| `RecordLayer.UnwrapsFlight` | tools/https_e2e/evil_listener.py:195-214 | with counters in step each record opens to its payload with content type 22 |
| `RecordLayer.ReceiveAll` | tools/https_e2e/evil_listener.py:202-297 | reading and decrypting to the end depends only on the byte stream, and the counter moves once per record |
| `RecordLayer.FlightRoundTrip` | tools/https_e2e/evil_listener.py:184-297 | in every mode the records on the wire, opened with the counter in step, are handshake records whose contents are the messages sent |
| `RecordLayer.DeliverFlight` | tools/https_e2e/evil_listener.py:184-297 | end to end: server keys frame and encrypt, any split of the wire into chunks goes through the record reader, peer keys decrypt; the peer gets exactly the messages with content type 22 on each record, and the two counters are in step again |
| `ClientHello.ParseTlsRecords` | tools/ip65_hw_checks.py:417-440 | the framing loop, stopping at an implausible header or a truncated tail |
| `ClientHello.HeaderDecides` | tools/ip65_hw_checks.py:426-439 | reading goes on exactly past a header of a known type, major version 3 and at most 16,640 bytes; a body cut short is recorded as far as it goes, and is the last |
| `ClientHello.RecordsRoundTrip` | tools/ip65_hw_checks.py:417-440 | any run of well-formed records frames back into exactly those records at their offsets |
| `ClientHello.ClientHelloSni` | tools/ip65_hw_checks.py:443-483 | the walk to the extensions and the first usable server name |
| `ClientHello.ScanSniFinds` | tools/ip65_hw_checks.py:470-483 | scanning the bytes of any extension list finds the first server name in the list |
| `ClientHello.ReadSuites` | tools/https_e2e/evil_listener.py:317-319 | the list of cipher suites, or a malformed message |
| `ClientHello.ReadShare` | tools/https_e2e/evil_listener.py:334-341 | the x25519 entry of a key_share extension |
| `ClientHello.ShareInFinds` | tools/https_e2e/evil_listener.py:334-341 | of any list of key shares the first x25519 one is taken |
| `ClientHello.ParseClientHello` | tools/https_e2e/evil_listener.py:300-355 | random, session id and share, or which of four errors |
| `ClientHello.ScanShareFinds` | tools/https_e2e/evil_listener.py:327-341 | scanning the bytes of any extension list gives the last key share in the list |
| `ClientHello.ServerReads` | tools/https_e2e/evil_listener.py:300-355 | what the server makes of any well-formed hello: its fields, or the first thing that is wrong with it |
| `ClientHello.CaptureReads` | tools/ip65_hw_checks.py:443-483 | what a capture shows of any well-formed hello: the first server name in it |
| `ClientHello.OnlyHellos` | tools/ip65_hw_checks.py:451-452 | nothing is read out of another message |
| `ClientHello.ExtListBytes` | tools/probe_server_tls.py:63-72 | the literal bytes of the builder are a well-formed extension list |
| `ClientHello.FramesAsOne` | tools/probe_server_tls.py:51-76 | the hello frames as exactly one handshake record if and only if it is at most 16,640 bytes, and otherwise as none |
| `ClientHello.SniRoundTrip` | tools/probe_server_tls.py:51-76 | the name read back is the host, for every ASCII host; none for another |
| `ClientHello.HelloRoundTrip` | tools/probe_server_tls.py:51-76 | the server reads the random, an empty session id and the 32-byte share, with or without max_fragment_length |
| `Montgomery.DiffAddSymmetric` | tools/_pq_testlib.py:166-171 | the differential add does not care which point comes first |
| `Montgomery.DoubleIsMontgomery` | tools/_pq_testlib.py:161-173 | the doubling is congruent to (x^2 - z^2)^2 and 4xz(x^2 + 486662xz + z^2), for any modulus |
| `Montgomery.DiffAddIsMontgomery` | tools/_pq_testlib.py:161-171 | the addition is congruent to Montgomery's formulas, for any modulus |
| `Ladder.Clamp` | tools/_pq_testlib.py:148-151 | the in-place edit keeps bits 3 to 253 of the scalar, sets bit 254 and clears the rest |
| `Ladder.ClampedIs` | tools/_pq_testlib.py:148-152 | the clamped scalar is 2^254 plus eight times the kept bits |
| `Ladder.ClampedRange` | tools/_pq_testlib.py:148-152 | the clamped scalar is a multiple of 8 in [2^254, 2^255) |
| `Ladder.LadderStep` | tools/_pq_testlib.py:161-173 | one iteration doubles the first point and adds the two |
| `Ladder.X25519` | tools/_pq_testlib.py:147-176 | the deferred-swap loop returns, for the clamped scalar, what the ladder that branches on each bit returns, as a number below p; if the power inverts z, that number times z is x mod p |
| `Ladder.ShrBound` | tools/_pq_testlib.py:156 | shifting right never exceeds the scalar |
| `Ladder.LadderHolds` | tools/_pq_testlib.py:155-173 | at every bit the pair holds the leading bits' multiple and the next one |
| `Ladder.LadderMultiplies` | tools/_pq_testlib.py:147-176 | under any lawful double and differential add the result is k times the point |
| `Montgomery.AffineIsQuotient` | tools/_pq_testlib.py:176 | given an inverse of z, the value put out is the residue whose product with z is x |
| `CiaTimer.TearFree` | tools/probe_cia_timer_rate.py:246-257 | a stable pass of at most 65,280 ticks reads the counter as it stood at the low-byte read |
| `CiaTimer.TearsBeyond` | tools/probe_cia_timer_rate.py:246-250 | a stable pass of 65,281 ticks can tear |
| `CiaTimer.TearFreeExactly` | tools/probe_cia_timer_rate.py:246-250 | a bound on the length of a pass excludes tearing if and only if it is at most 65,280 ticks |
| `CiaTimer.ReadTb` | tools/probe_cia_timer_rate.py:243-257 | ends exactly if some pass is stable, and then the first stable pass, inverted, is the time at its low-byte read |
| `CiaTimer.Adc` | tools/probe_cia_timer_rate.py:193-205 | byte and carry out together are the sum |
| `CiaTimer.Sbc` | tools/probe_cia_timer_rate.py:186-192 | byte and borrow out together are the difference |
| `CiaTimer.SubtractIs` | tools/probe_cia_timer_rate.py:186-192 | two byte subtractions give the 16-bit difference mod 65536 |
| `CiaTimer.Probe.constructor` | tools/probe_cia_timer_rate.py:166-173 | cleared memory and the first reading |
| `CiaTimer.Probe.CountLoop` | tools/probe_cia_timer_rate.py:177-181 | the three-byte loop count goes up by one mod 2^24 |
| `CiaTimer.Probe.Accumulate` | tools/probe_cia_timer_rate.py:193-205 | the carry chain adds mod 2^32 |
| `CiaTimer.Probe.Iterate` | tools/probe_cia_timer_rate.py:176-209 | one pass of the main loop |
| `CiaTimer.AccCounts` | tools/probe_cia_timer_rate.py:176-209 | the accumulator is the elapsed time mod 2^32 less the whole timer periods that passed between samples |
| `CiaTimer.AccIsElapsed` | tools/probe_cia_timer_rate.py:176-209 | with every gap under 65,536 ticks it is the elapsed time mod 2^32 |
| `CiaTimer.SampleLoop` | tools/probe_cia_timer_rate.py:171-211 | the loop on `readtb` readings computes the accumulator and the loop count for the instants of those readings; with prompt readings the accumulator is the elapsed time mod 2^32 |
| `CiaHandshake.StoreKeeps` | tools/probe_cia_timer_rate.py:210-241 | every store of a publication keeps the protocol invariant |
| `CiaHandshake.PollKeeps` | tools/probe_cia_timer_rate.py:297-301 | so does every byte the host reads, the exit test included |
| `CiaHandshake.StepKeeps` | tools/probe_cia_timer_rate.py:210-303 | so does every step of either side |
| `CiaHandshake.RunKeeps` | tools/probe_cia_timer_rate.py:210-303 | so does every interleaving |
| `CiaHandshake.RunCounts` | tools/probe_cia_timer_rate.py:239-240 | SERVED counts the finished publications over every interleaving |
| `CiaHandshake.SamplesAreSnapshots` | tools/probe_cia_timer_rate.py:291-303 | the i-th sample that passes its exit test is the i-th published snapshot, never a mixture or a stale one, and shows its own number, a cleared request and the magic byte |
| `CiaHandshake.SampleComes` | tools/probe_cia_timer_rate.py:210-301 | a request is always answerable: some schedule returns a sample of the snapshot then taken |
| `CiaProbe.Publish` | tools/probe_cia_timer_rate.py:212-229 | the published bytes spell the accumulator, the loop count and the raw timer |
| `CiaProbe.SampleAndPublish` | tools/probe_cia_timer_rate.py:171-241 | main loop then publication: the snapshot shows the last pass |
| `CiaProbe.RunDates` | tools/probe_cia_timer_rate.py:176-241 | over any interleaving, the published snapshots show ever later passes of the main loop |
| `CiaProbe.SamplesTellTime` | tools/probe_cia_timer_rate.py:176-311 | under every interleaving the accumulator bytes of each sample are the ticks elapsed, mod 2^32, at the pass it shows, and later samples show later passes |
| `KeyFeeder.TargetKeys` | tools/_petscii_keys.py:20-36 | the key codes of a text, or a refusal exactly if some character has no key |
| `KeyFeeder.KeyIs` | tools/_petscii_keys.py:20-36 | which key types which character, by alphabet place for letters, and which characters have none |
| `KeyFeeder.KeysInjective` | tools/_petscii_keys.py:20-36 | two accepted texts with the same codes are the same text |
| `KeyFeeder.StepKeeps` | tools/_petscii_keys.py:39-58 | delivered, buffered and unpublished keys are the input, in order, after every step of either side |
| `KeyFeeder.RunKeeps` | tools/_petscii_keys.py:39-58 | the same over every interleaving |
| `KeyFeeder.KeysAreFed` | tools/_petscii_keys.py:39-58 | no key is lost, repeated or reordered, keys already waiting go first, and never more than ten wait |
| `KeyFeeder.Round` | tools/_petscii_keys.py:48-58 | once the buffer runs empty the next ten keys, or all that are left, are published at once |
| `KeyFeeder.AllDelivered` | tools/_petscii_keys.py:46-58 | whenever the host is at the top of its loop, some schedule delivers every key |
| `EarlyStop.LastMovedIs` | tools/http_body_checks.py:513-518 | the mark is the time of the first observation in the latest unbroken stretch |
| `EarlyStop.StallTracker.constructor` | tools/http_body_checks.py:508-511 | nothing observed, the mark at the start |
| `EarlyStop.StallTracker.Observe` | tools/http_body_checks.py:513-515 | the two fields summarise everything observed |
| `EarlyStop.StallConfigError` | tools/http_body_checks.py:616-638 | the knobs are accepted exactly if both are finite, the abort is at least 60 s and the grace is below it |
| `EarlyStop.BodyVerdict` | tools/http_body_checks.py:270-337 | the three verdicts on a body, each exactly: complete by its own framing, unframed, or refused, unreached, short, over-read or unterminated |
| `EarlyStop.DecidesExactly` | tools/http_body_checks.py:413-552 | exactly when a poll stops as stalled, stops for a failed handshake, or raises |
| `EarlyStop.EarlyStopStep` | tools/http_body_checks.py:521-552 | records the observation and stops exactly when the time since the counter last moved, the socket, the shadow and the body say so |
| `EarlyStop.PassNeedsAll` | tools/http_body_checks.py:685-758 | exactly when the exit is a pass, and what a growing fetch does to every other outcome |
| `EarlyStop.FailsExactly` | tools/http_body_checks.py:717-751 | exactly when a run fails |
| `EarlyStop.ExitExactly` | tools/http_body_checks.py:253-758 | a run passes exactly on a settled, complete body with the wanted status and all other verdicts passing; an unframed body alone makes it inconclusive, a broken one fails it |
| `EarlyStop.BodyFailureFails` | tools/http_body_checks.py:748-751 | a settled fetch with a failing body fails whatever else was found |
| `EarlyStop.MarkStays` | tools/http_body_checks.py:513-518 | seeing the same total again never moves the mark |
| `EarlyStop.StopChangesNothing` | tools/http_body_checks.py:413-758 | with accepted knobs, a stop on the stall path and any later deadline with the same parser state give the same exit code |
| `EarlyStop.HandshakeStopAgrees` | tools/http_body_checks.py:473-546 | a handshake stop fails, and a deadline agrees with it exactly once the counter has been still for the grace period |
| `EarlyStop.StopsWithoutFraming` | tools/http_body_checks.py:451-455 | an unframed response stops on the stall path exactly if the sink refused the body |

## Left out

- The 6502 client, ip65, ML-KEM and P-256: the host tools are modelled, not the machine they examine.
- Cryptographic strength, HKDF and the TLS key schedule: keys and primitives are parameters.
- Network, VICE, Ultimate 64, subprocess and pty plumbing, pcap decoding, the mutation runners, packaging and printing: input and output.
- Text parsing of cfg and map files, host canonicalisation, key files and the command line tools: regular expressions and I/O.
- Reason strings and evidence fields of verdicts: only pass, fail and inconclusive are modelled.
- `split_records`, `split_at`, `chunks` and small one-branch verdicts: they would only add easy members.
- TrustStore.Encode: takes records, not the raw byte strings that `encode` also lets through for building malformed fixtures.
- TrustBundle.VerifiesExactly: the signature check is a parameter, so it says which bytes are checked and not that a forgery is infeasible.
- M3Object.M3Device.Write: the observation lists `ctrl_writes`, `abort_times`, `last_abort_cleared`, `last_open` and `writes` are not fields, because nothing reads them back.
- M3Object.M3Device.ExecuteOpen: the five odd open kinds are one kind with an arbitrary reply, because they differ only in the reply; the register file is one record-valued field.
- M3Conservation.ByteConservation: for runs whose executed commands are READs of one handle of at least five bytes with no forced blocks; a shorter READ is an exception, which `RaisesExactly` covers.
- Margins.Measure: takes segments whose start, end and size agree, which `parse_map_segments` enforces, and alignments of at least one, since zero is a division by zero.
- TcpStreams.Reassembles: sequence numbers are taken not to wrap within one connection; the tool does not handle a wrap.
- RecordLayer.RecordReader.ReadRecord: the deadline is an event in the incoming sequence rather than a clock.
- RecordLayer.DeliverFlight: the peer is put together from the two classes, on a stream without timeouts and with a flight that fits its records (`WrapsExactly` says when), to state the round trip end to end.
- ClientHello.SniRoundTrip: hosts are byte strings; the UTF-8 encoding of a Python string is not modelled.
- Ladder.LadderMultiplies: the curve's group law is an abstract relation with the double and differential-add laws; that Montgomery's formulas satisfy them on the curve is not proved.
- Ladder.X25519: a scalar shorter than 32 bytes is an index error and excluded; the modular power is a parameter.
- M3Driver.ReleaseAfter: the RELEASE must not be scripted never to complete, since then there is no reply to read.
- CiaProbe.SamplesTellTime: the snapshots offered by the 6502 in a run are taken to be those of its main loop, one pass per poll of REQ, as `SampleAndPublish` computes them.
- CiaTimer.ReadTb: a schedule gives the ticks at which the three bytes are read; instruction timing is not modelled.
- CiaHandshake.SamplesAreSnapshots: the host reads the block in ascending byte order; other orders, the time-of-day latch and BCD decoding are not modelled.
- KeyFeeder.KeysAreFed: the KERNAL's removal of one key is a single step, and it is the only consumer and the host the only producer.
