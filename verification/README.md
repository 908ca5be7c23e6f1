# Sagittarius: a verified model of the codec, the cache and the refresh cycle

Sagittarius is a blocking DNS resolver. It reads and writes DNS messages as raw bytes, keeps upstream
answers as bytes and edits their id and TTLs in place on a hit, synthesizes its own replies, answers
local names and forward zones by suffix, and rebuilds its block map from a set of fetched lists. This
project models those parts in Dafny and proves how they fit together.

The layers, bottom up:

- `Wire`, `Cursor`, `Headers`: bytes, the bounds-checked reader and the appending writer, the header.
- `NameSkip`, `Names`, `NameLaws`, `NameText`: the two wire-name walkers, the writer, the text form,
  and why they agree.
- `Records`, `TtlScan`, `Patch`, `Rescan`: a message as a tiling by records, the TTL scan, the
  in-place patch, and when a patched message can be scanned again.
- `Messages`, `Edns`, `Synth`, `SynthLaws`, `ReplyLaws`: accepting a query, the EDNS scan, the replies,
  that what is written is what the readers recover, and what each reply says byte for byte.
- `Cache`, `CacheLayer`: the cache object and the pipeline layer around it, over whole runs.
- `Reverse`, `ReverseExact`: reverse names and the PTR datagram.
- `Suffix`, `Local`, `Zones`: longest-suffix lookup, local records with their reverse index, forward zones.
- `Blocklist`, `BlocklistLaws`: the refresh state machine, its runs and restart.

Loops of the source are methods with loops, proved against recursive or relational specifications;
the laws are stated about those specifications, and the functions they rest on are tied, by laws
that do not use them, to the bytes, the clock and the inputs. Bytes are integers from 0 to 255 and text is its
UTF-8 bytes. The two top bits of a label byte are tested by division by 64; header flags are 16-bit
vectors. Clocks, fetch results, storage failures and the list parser are parameters.

Where the code and its comments differ, the model follows the code:

- `src/codec/name.rs:418-421` says backward pointers rule out loops. They do not: labels followed by a
  pointer back to the first are walked again and again, until the hop cap ends the walk or, from 16
  label bytes on, the label cap does (`NameSkip.LoopErrorExact`).
- The 255-byte cap in the skipping walker counts label content only and so admits 511 bytes (`NameSkip.SkipBoundsWireLength`, `NameSkip.SkipAcceptsOverlongName`).
- The TTL scan's documentation counts at least 10 bytes per record; the owner name adds one, and 11 is what `TtlScan.OffsetsSpaced` proves.
- A patched message need not scan again: an owner pointer may land in the id or in a TTL field.
  `Rescan` gives the exact condition, a family of messages for which it fails, and one of them. What holds without any condition
  is that a scan that succeeds finds the same offsets.

A restart rebuilds the live map only under a condition: a body that could not be saved leaves the
stored one in place, and `BlocklistLaws.RestartExact` says exactly when the
two maps still agree, after one cycle; `BlocklistLaws.RunRestartExact` says it for every run.

## Model

| member | source | states |
|---|---|---|
| `NameSkip.SkipRr` | src/codec/name.rs:363-495 | The loop with its two cursors returns, on every buffer and from every position, exactly the verdict and error of the recursive walk `Skip`, leaves the caller's cursor at the in-stream end on success and at the head of the label it could not pass (or after the first pointer) on failure, and runs at most 16 + 255 + 1 iterations |
| `NameSkip.SkipExact` | src/codec/name.rs:363-495 | A walk is accepted if and only if it is a name by the relational definition `IsWalk` (labels, backward pointers, root) with at most 16 hops and at most 255 label content bytes |
| `NameSkip.WalkShape` | src/codec/name.rs:374-460 | A walk in terms of the bytes: a zero byte, a length of 1 to 63 with its label, or the 16-bit word 0xC000 plus an earlier offset |
| `NameSkip.SkipFailsExact` | src/codec/name.rs:363-495 | The walk fails with an error if and only if labels and pointers within the budgets lead to the position with that fault: which fault, in which order, and with which numbers |
| `NameSkip.SkipBounded` | src/codec/name.rs:363-495 | Every accepted walk has at most 272 steps, counted by hops and label bytes and not by position |
| `NameSkip.EndIsInStream` | src/codec/name.rs:409-460 | The accepted end is the one of a scan that follows no pointer: just past the first pointer word or the root byte, whatever the followed chain holds |
| `NameSkip.SkipUnchanged` | src/codec/name.rs:363-495 | Changing bytes the walk does not read changes nothing about its result |
| `NameSkip.SkipEndStable` | src/codec/name.rs:409-460 | Two buffers that agree on the in-stream bytes and both accept stop at the same byte, even when their followed chains differ |
| `NameSkip.LoopIsRefused` | src/codec/name.rs:416-474 | One or more labels followed by a pointer back to the first pass the target checks on every visit; every such loop is refused, by the hop cap if and only if its label bytes over all laps still allowed keep within the label cap, and by the label cap otherwise |
| `NameSkip.LoopErrorExact` | src/codec/name.rs:416-474 | From a fresh start the error is the hop limit exactly for loops of at most 15 label bytes, and the name-too-long error exactly for the others |
| `NameSkip.LoopHasNoWalk` | src/codec/name.rs:418-421 | No finite walk starts anywhere in such a loop: backward pointers alone do not end it |
| `NameSkip.OneLabelLoop` | src/codec/name.rs:416-443 | A label of any length followed by a pointer back to it is such a loop |
| `NameSkip.SkipBoundsWireLength` | src/codec/name.rs:468-474 | The cap counts label content only, so an accepted name has a decompressed wire form of at most 511 bytes; it keeps to 255 if and only if its label bytes and its labels are at most 254 together; without pointers the wire form is what lies in the stream |
| `NameSkip.SkipAcceptsOverlongName` | src/codec/name.rs:468-474 | The bound of 511 bytes is attained: 255 one-byte labels are accepted |
| `Names.ReadQuestionName` | src/codec/name.rs:147-202 | The reading loop equals the recursive reader: the same labels in lower case, the same cursor, the same error |
| `Names.WriteName` | src/codec/name.rs:209-223 | Writing appends the length-prefixed labels of the name and the root byte |
| `Names.CanonicalIsName` | src/codec/name.rs:515-527 | The dotted text of good labels is a valid name whose labels are those labels |
| `NameLaws.ValidateExact` | src/codec/name.rs:591-610 | A label passes validation with an admissible length if and only if its lower-case form is a good label |
| `NameLaws.ByteTables` | src/codec/name.rs:591-610 | The bytes a label may contain are the ASCII letters, digits, hyphen and underscore; lower-casing changes A to Z only |
| `NameLaws.ValidationExact` | src/codec/name.rs:591-610 | Validation accepts exactly such bytes with no hyphen at either end, and reports the hyphen first and else the first bad byte |
| `NameLaws.GoodLabelExact` | src/codec/name.rs:147-202 | A good label is 1 to 63 digits, small letters, hyphens and underscores with no hyphen at either end |
| `NameLaws.GoodLabelsExact` | src/codec/name.rs:147-223 | A name is good labels whose encoding, root byte included, has at most 255 bytes |
| `NameLaws.ReadIsGood` | src/codec/name.rs:147-202 | Whatever the reader accepts has only good labels, a wire form of at most 255 bytes, and an end equal to the start plus the wire length |
| `NameLaws.WriteThenRead` | src/codec/name.rs:147-223 | Reading a written name at any place in any buffer gives that name back and consumes exactly the written bytes, at most 255 of them |
| `NameLaws.ReadExact` | src/codec/name.rs:147-202 | The reader accepts with a given result if and only if the bytes there spell, in any letter case, the encoding of that good label list |
| `NameLaws.ReadThenWrite` | src/codec/name.rs:147-223 | Writing what was read gives the ASCII lower case of the bytes consumed |
| `NameLaws.ReadLocal` | src/codec/name.rs:147-202 | The result depends only on the consumed bytes |
| `NameLaws.WalkersAgree` | src/codec/name.rs:147-495 | Where the question reader accepts, the skipping walker accepts too, after any admissible number of hops, and stops at the same byte |
| `NameLaws.ReadExactBySkip` | src/codec/name.rs:147-495 | The question reader accepts exactly the names that are skipped without a pointer, whose labels are valid, and whose wire form has at most 255 bytes |
| `NameText.ParseName` | src/codec/name.rs:547-587 | The splitting loop equals `FromStr`, with the same first error |
| `NameText.CheckExact` | src/codec/name.rs:559-586 | The label loop accepts if and only if every part is a good label after lower-casing and the wire length stays within 255 |
| `NameText.CheckFailsExact` | src/codec/name.rs:559-586 | The label loop fails with the fault of the first faulty part |
| `NameText.FromStrExact` | src/codec/name.rs:547-587 | Any text, in any letter case, with or without a final dot: it parses if and only if its parts in lower case are good labels that fit the wire, and gives the name of those labels |
| `NameText.FromStrOfRoot` | src/codec/name.rs:547-553 | The empty text and a lone dot are the root |
| `NameText.FromStrIsName` | src/codec/name.rs:547-587 | Every parsed text is a valid name |
| `NameText.FromStrOfLabels` | src/codec/name.rs:547-587 | Good labels joined with dots parse to their canonical name, with or without the trailing dot |
| `NameText.DisplayRoundTrip` | src/codec/name.rs:515-587 | Parsing a displayed name gives the same name |
| `Cursor.Reader.ReadU8` | src/codec/reader.rs:112-116 | Reads one byte and advances, or fails with what was needed and left, and stays |
| `Cursor.Reader.ReadU16` | src/codec/reader.rs:123-131 | Reads two bytes big-endian and advances, or fails and stays |
| `Cursor.Reader.ReadU32` | src/codec/reader.rs:138-146 | Reads four bytes big-endian and advances, or fails and stays |
| `Cursor.Reader.ReadSlice` | src/codec/reader.rs:156-168 | Reads exactly n bytes and advances, or fails and stays |
| `Cursor.Writer.WriteU8` | src/codec/writer.rs:73-75 | Appends the byte |
| `Cursor.Writer.WriteU16` | src/codec/writer.rs:78-80 | Appends the value big-endian |
| `Cursor.Writer.WriteU32` | src/codec/writer.rs:83-85 | Appends the value big-endian |
| `Cursor.Writer.WriteSlice` | src/codec/writer.rs:88-90 | Appends the slice |
| `Headers.ReadHeader` | src/codec/header.rs:452-472 | Reads the six fields and advances twelve bytes, or fails and stays |
| `Headers.Header.Write` | src/codec/header.rs:475-482 | Appends the twelve-byte header |
| `Headers.HeaderRoundTrip` | src/codec/header.rs:452-482 | A written header reads back as itself, at any place in any buffer |
| `Headers.FlagBits` | src/codec/header.rs:240-288 | QR, opcode, RD and the response code as bits of the second word of the message |
| `Records.ReadRr` | src/codec/ttl.rs:122-151 | One step of the record loop reads exactly the record the declarative reader finds and ends at its last byte; otherwise it gives the same error and the cursor stands after the last field that was read |
| `Records.RrExact` | src/codec/ttl.rs:122-151 | The record reader accepts if and only if the record satisfies the layout relation at that position |
| `Records.RrsExact` | src/codec/ttl.rs:101-157 | A record list is read if and only if it tiles the buffer from that position |
| `Records.RrsConcat` | src/codec/ttl.rs:101-157 | Reading m + n records is reading m and then n from where those end |
| `Records.TilesOrdered` | src/codec/ttl.rs:101-157 | An earlier record ends before a later one starts |
| `Records.SkipQuestions` | src/codec/ttl.rs:109-113 | The question loop ends where the recursive question skip ends, with the same error |
| `Records.QuestionExact` | src/codec/ttl.rs:109-113 | A question is a name within the skip budgets and four bytes more |
| `Records.MessageIff` | src/codec/ttl.rs:101-157 | A message parses to a given one if and only if its four counts, its questions and its tiling by records are those, counts taken from the bytes |
| `Records.MessageExact` | src/codec/ttl.rs:101-157 | A parsed message consists of its header, a question section of the declared count and a tiling by the declared number of records |
| `TtlScan.ScanRecords` | src/codec/ttl.rs:115-157 | The record loop yields the offsets and the minimum TTL of the declaratively parsed record list |
| `TtlScan.ScanTtls` | src/codec/ttl.rs:101-157 | The whole scan loop equals the declarative `Scan` on every byte string, errors included |
| `TtlScan.OffsetsExact` | src/codec/ttl.rs:140-150 | An offset is recorded if and only if it is the TTL field of a non-OPT record |
| `TtlScan.OffsetsSpaced` | src/codec/ttl.rs:101-157 | Recorded offsets are in order, at least 11 apart, at least 5 past the start of the walk, and six bytes inside the last record |
| `TtlScan.MinTtlExact` | src/codec/ttl.rs:140-150 | The minimum is attained by a non-OPT record, is below all of them, and is absent exactly when there is none |
| `TtlScan.ScanExact` | src/codec/ttl.rs:101-157 | For every accepted message: offsets exactly those of the non-OPT records, the first at least 17, gaps at least 11, and each offset + 6 within the message |
| `Patch.PutU32` | src/resolver/cache.rs:110-125 | The four-byte store in place replaces that window and nothing else |
| `Patch.PatchedFor` | src/resolver/cache.rs:97-128 | The in-place loop over the copied buffer computes `Patched`, for any offsets, also ones its guard skips |
| `Patch.PatchTtlsEffect` | src/resolver/cache.rs:110-125 | On spaced offsets each window holds the old TTL less the elapsed seconds, saturating at 0, and every other byte is the old one |
| `Patch.PatchedEffect` | src/resolver/cache.rs:97-128 | The patch writes the client id, ages each recorded TTL and changes no other byte |
| `Patch.PatchComposes` | src/resolver/cache.rs:97-128 | Patching by e1 and then by e2 is patching by e1 + e2 whenever the sum fits 32 bits |
| `Patch.PatchSkipsOutside` | src/resolver/cache.rs:110-125 | For any offsets: those out of range change nothing and keep no other from being patched, and the length stays |
| `Patch.PatchIdEffect` | src/resolver/pipeline/forward.rs:198-205 | The reply to a miss has the client's id and otherwise the upstream's bytes |
| `Rescan.PatchSparesStructure` | src/resolver/cache.rs:97-128 | A patch of a scanned message leaves the header after the id, the questions and every non-TTL byte of every record as they were |
| `Rescan.ReparseExact` | src/codec/ttl.rs:101-157 | A message that differs only in its id and TTL fields parses if and only if each of its names can still be skipped; the records found then have the same places and types |
| `Rescan.RescanExact` | src/resolver/cache.rs:97-128 | A patched message scans again if and only if each of its names can still be skipped; whenever it does, the offsets are identical and the minimum TTL is the old one less the elapsed time |
| `Rescan.PatchCommutesWithScan` | src/resolver/cache.rs:97-128 | If no name walk reads the id or a recorded TTL field, the patched message always scans, with identical offsets and the aged minimum |
| `Rescan.RescanUnderEveryId` | src/resolver/cache.rs:97-128 | For every elapsed time, if no name walk reads a TTL field (and at elapsed time 0 without that), a served message scans under every client id if and only if no name walk reads bytes 0 or 1 |
| `Rescan.PointerIntoTtlBreaksRescan` | src/resolver/cache.rs:110-125 | For every message: if the first patched byte a name walk reads is length byte k of a recorded TTL of at least 64 units of that byte, then after the stated time no client id makes the served message scan |
| `Rescan.AnswerStopsScanning` | src/resolver/cache.rs:97-128 | An answer that echoes its question and whose second owner points at the last byte of a TTL of 256 seconds is accepted, and after 192 seconds cannot be scanned under any id |
| `Rescan.PointsIntoTtlExists` | src/codec/ttl.rs:101-157 | A concrete 51-byte answer of that shape |
| `Messages.Question.Write` | src/codec/message.rs:242-246 | Appends name, type and class |
| `Messages.ReadQuestion` | src/codec/message.rs:227-236 | Reads name, type and class and ends after the class, or gives the first error |
| `Messages.QuestionRoundTrip` | src/codec/message.rs:227-246 | A written question reads back as itself and ends where it was written to |
| `Messages.QuestionReadThenWrite` | src/codec/message.rs:227-246 | Writing a question that was read gives the consumed bytes with the name in lower case; every question that is read satisfies what the round trip asks for |
| `Messages.ParseQuery` | src/codec/message.rs:396-450 | The parser equals `Parse`: same checks in the same order, same error kind and id |
| `Messages.AcceptExact` | src/codec/message.rs:396-450 | A datagram is a query if and only if it has 12 to 65535 bytes, QR clear, opcode 0, one question, and a question that can be read; the record counts do not matter |
| `Messages.AskedExact` | src/codec/message.rs:227-236 | When a question is read, and its name, type and class in terms of the bytes: type 1, 28 and 12, class 1 |
| `Messages.ActionExact` | src/codec/message.rs:295-306 | What a refused datagram gets: nothing if it is short, long or a response; NOTIMP under its id if the opcode is not 0; else FORMERR under its id |
| `Messages.RejectionId` | src/codec/message.rs:396-450 | A rejected datagram has an id exactly when its length is between 12 and 65535, and it is its first word |
| `Messages.AcceptedShape` | src/codec/message.rs:396-450 | An accepted query has one question, a valid name, and a question end of at least 17 inside the datagram |
| `Messages.ScansStartAtQuestionEnd` | src/codec/message.rs:435-449 | On every accepted query the question skip used by the TTL and EDNS walks ends exactly at `question_end` |
| `Edns.ExtractCookie` | src/codec/synth.rs:191-218 | The option loop returns the data of the first COOKIE option in the declarative option list if its length is admissible, and nothing otherwise |
| `Edns.OptionsExact` | src/codec/synth.rs:191-213 | The option list re-encodes to a prefix of the data, and what remains holds no further complete option |
| `Edns.OptionsRoundTrip` | src/codec/synth.rs:191-213 | Encoded options parse back to the same list |
| `Edns.SkipRecords` | src/codec/synth.rs:150-160 | The skipping loop succeeds and ends exactly where the declarative record list does |
| `Edns.FindOptRecord` | src/codec/synth.rs:161-183 | The additional-section loop finds the first OPT before any malformed record |
| `Edns.ScanEdns` | src/codec/synth.rs:136-183 | The EDNS scan equals the declarative one on every accepted query |
| `Edns.EdnsScanValid` | src/codec/synth.rs:191-218 | A cookie it reports is 8 or 16 to 40 bytes long |
| `Edns.FirstCookieExact` | src/codec/synth.rs:191-218 | A cookie is reported if and only if it is the data of the first option with code 10 and has 8 or 16 to 40 bytes |
| `Edns.EdnsScanExact` | src/codec/synth.rs:136-183 | On every message, whatever follows: something is found if and only if the questions and the records up to a first OPT of the additional section can be read, and it is the payload size and first cookie of that OPT |
| `Edns.EdnsScanMatchesRecords` | src/codec/synth.rs:136-183 | On a message the TTL scan can parse, the EDNS scan reports the first OPT among exactly the additional records of that parse |
| `Synth.WriteAnswerRr` | src/codec/synth.rs:546-558 | Appends the 0xC00C owner, the fixed fields, the truncated RDATA length and the RDATA |
| `Synth.WriteOpt` | src/codec/synth.rs:574-598 | Appends the OPT record with its cookie option; its length conversions stay within 16 bits |
| `Synth.WriteAnswers` | src/codec/synth.rs:489-530 | The answer loop appends the answers in order |
| `Synth.WriteLayout` | src/codec/synth.rs:489-530 | The body of a reply is header, question bytes, answers and OPT |
| `Synth.WriteReply` | src/codec/synth.rs:293-530 | Block, local, NODATA, PTR, error and truncated replies are the bytes of `Respond` |
| `Synth.WriteBareReply` | src/codec/synth.rs:416-439 | FORMERR and NOTIMP are a twelve-byte header |
| `SynthLaws.BuildFlags` | src/codec/synth.rs:489-530 | QR, RA, the copied RD, the requested AA, no TC, opcode 0, the response code and the four counts, bit by bit |
| `SynthLaws.TcFlags` | src/codec/synth.rs:459-484 | The same for a truncated reply, with TC set and no answers |
| `SynthLaws.ReplyHeaderShape` | src/codec/synth.rs:293-530 | For every kind of reply: id, counts, response code; AA exactly on local answers; TC exactly on truncated ones |
| `ReplyLaws.ReplyFlagsWord` | src/codec/synth.rs:293-530 | The second word of every reply as a number, with the client's RD |
| `ReplyLaws.QuestionEchoed` | src/codec/synth.rs:489-530 | Every reply repeats the question byte for byte |
| `ReplyLaws.BlockReply` | src/codec/synth.rs:296-321 | In address mode a query for type 1 gets one record of type 1 with the IPv4 address, one for type 28 a record of type 28 with the IPv6 address, under the given TTL; every other blocked query gets no answer |
| `ReplyLaws.LocalReply` | src/codec/synth.rs:343-358 | A local reply carries every record given, in order, with its type and RDATA, under the one TTL |
| `ReplyLaws.PtrReply` | src/codec/synth.rs:381-394 | A PTR reply has one record of type 12 whose RDATA reads back as the target name |
| `ReplyLaws.EmptyReply` | src/codec/synth.rs:367-484 | NODATA, error and truncated replies carry no record but the OPT |
| `ReplyLaws.BareReplyBytes` | src/codec/synth.rs:416-439 | FORMERR and NOTIMP byte by byte: id, QR, response code, no counts |
| `ReplyLaws.OptBytes` | src/codec/synth.rs:574-598 | The OPT of a reply byte by byte: root owner, type 41, size 1232, TTL 0, and option 10 with the cookie if there is one |
| `ReplyLaws.AnswerServed` | src/codec/synth.rs:546-558 | Record k of a reply is owned by a pointer to the question and has the type, TTL and RDATA of answer k |
| `SynthLaws.ResponseParses` | src/codec/synth.rs:293-598 | Every reply parses to exactly the records it was built from, and the parse ends at its last byte |
| `SynthLaws.ResponseScanExact` | src/codec/synth.rs:293-598 | Whatever the types of its answers, the TTL scan of a reply yields the offsets of the TTLs written for the answers not of the OPT type, in order, and the least of those TTLs |
| `SynthLaws.ResponseScansBack` | src/codec/synth.rs:293-598 | When no answer is of the OPT type, the scan yields one offset per answer, at the TTL written there, with the OPT left out, and ends at the last byte |
| `SynthLaws.ResponseCarriesRdata` | src/codec/synth.rs:546-558 | The RDATA given for each answer follows its TTL and length |
| `SynthLaws.RdataFitsExact` | src/codec/synth.rs:546-558 | An answer is read back up to its last byte if and only if its RDATA is shorter than 65536 bytes; otherwise its length field is the remainder by 65536 |
| `SynthLaws.LocalCountExact` | src/codec/synth.rs:343-358 | A local reply scans back to all of its records if and only if there are fewer than 65536 and none is of the OPT type |
| `SynthLaws.CookieRoundTrip` | src/codec/synth.rs:574-598 | The cookie extracted from emitted OPT RDATA is the one put in |
| `SynthLaws.ResponseEchoesEdns` | src/codec/synth.rs:489-598 | A reply carries EDNS if and only if it was asked to, with the server payload size and the same cookie |
| `SynthLaws.CookieReflected` | src/codec/synth.rs:136-218 | For every accepted query with an OPT, every reply to it reports the client's own cookie |
| `SynthLaws.NoReplyToReply` | src/codec/message.rs:295-306 | Every reply carries the request's id, and fed back to the parser it is dropped |
| `SynthLaws.NoReplyToErrorReply` | src/codec/synth.rs:416-439 | The same for the FORMERR and NOTIMP replies to every rejected datagram that is answered |
| `Cache.BoundsRoundTrip` | src/resolver/cache.rs:294-302 | Two 32-bit bounds survive packing into one 64-bit word |
| `Cache.DnsCache.constructor` | src/resolver/cache.rs:180-194 | An empty cache with the given bounds |
| `Cache.DnsCache.SetTtlBounds` | src/resolver/cache.rs:202-206 | Replaces both bounds at once and touches no entry |
| `Cache.DnsCache.ClampTtl` | src/resolver/cache.rs:286-289 | The result lies between the bounds |
| `Cache.DnsCache.Insert` | src/resolver/cache.rs:215-230 | Stores the response under its key with the clamped expiry and changes no other entry |
| `Cache.DnsCache.Get` | src/resolver/cache.rs:240-251 | A held entry is served aged by the seconds since its insertion, anything else is a miss |
| `Cache.ElapsedExact` | src/resolver/cache.rs:243-250 | The elapsed time is the whole seconds since the store, held at the largest 32-bit value |
| `Cache.ServedAges` | src/resolver/cache.rs:240-251 | A hit by the clock: the client's id, each TTL less the whole seconds since the store and never below 0, every other byte as stored |
| `Cache.ClampExact` | src/resolver/cache.rs:286-289 | A value within the bounds stays, one below becomes the floor, one above the ceiling |
| `Cache.ServesExactly` | src/resolver/cache.rs:97-128 | Every served TTL is the original less the elapsed time, and at least 1, if and only if the elapsed time is below the minimum TTL |
| `Cache.FloorExact` | src/resolver/cache.rs:286-289 | That holds for the whole clamped lifetime if and only if the floor is not above the minimum TTL |
| `Cache.LiveEntryServesExactTtls` | src/resolver/cache.rs:215-251 | A live entry stored with its minimum TTL under such a floor is served with exact TTLs |
| `CacheLayer.Call` | src/resolver/pipeline/cache_layer.rs:150-182 | A hit serves the stored entry and stores nothing; a miss stores what the policy allows and answers under the client's id; a failed upstream answers SERVFAIL and stores nothing |
| `CacheLayer.PolicyExact` | src/resolver/pipeline/forward.rs:120-156 | A response is kept if and only if it scans and has a TTL: its negative TTL up to the cap if it is negative, else its minimum TTL |
| `CacheLayer.EntryProvenance` | src/resolver/pipeline/cache_layer.rs:161-181 | Over every run of stores, clears and edits of the bounds, each entry was stored by a step for the same question, under the bounds then in force |
| `CacheLayer.EntryExact` | src/resolver/pipeline/cache_layer.rs:161-181 | Over every run the cache holds for a question exactly the last response kept for it, unless cleared since |
| `CacheLayer.BoundsExact` | src/resolver/cache.rs:202-206 | The bounds in force are those of the last edit, or the initial ones |
| `CacheLayer.HitIsFaithful` | src/resolver/pipeline/cache_layer.rs:161-181 | Over every run, a hit is an aged copy of a scanned upstream response to the same question: own id, each TTL less the whole seconds since the store by the clock, every other byte equal |
| `CacheLayer.PositiveHitServesExactTtls` | src/resolver/pipeline/forward.rs:120-156 | Over every run, a live positive entry whose minimum TTL was at least the floor when stored is served with exact TTLs, even if the bounds were edited since |
| `Reverse.ParseInAddrArpa` | src/codec/name.rs:294-306 | The loop accepts exactly four octet labels and returns them reversed |
| `Reverse.ReadNibbles` | src/codec/name.rs:311-326 | The loop succeeds if and only if there are 32 one-digit hexadecimal labels, and stores them reversed |
| `Reverse.ParseIp6Arpa` | src/codec/name.rs:311-334 | Packs the 32 nibbles into 16 octets, or fails exactly when the labels are not that |
| `Reverse.ReverseAddress` | src/codec/name.rs:243-257 | The address a reverse name denotes, by its zone |
| `Reverse.NibbleText` | src/codec/name.rs:277-287 | The loop spells the octets as nibble labels, last octet first |
| `Reverse.ReverseQuery` | src/codec/name.rs:269-289 | The name built is the parse of the reverse labels and zone joined with dots; building it cannot fail |
| `Reverse.ReverseIsName` | src/codec/name.rs:269-289 | The reverse name of every address is valid and is its own canonical text |
| `Reverse.ReverseRoundTrip` | src/codec/name.rs:243-334 | The address is recovered from its reverse name, for every IPv4 and IPv6 address |
| `Reverse.PtrQueryDatagram` | src/resolver/reverse.rs:162-169 | The datagram is a header with RD and one question |
| `ReverseExact.PtrDatagramBytes` | src/resolver/reverse.rs:162-169 | The header of the datagram byte by byte: id 0, RD alone, one question |
| `Reverse.PtrDatagramParses` | src/resolver/reverse.rs:162-169 | The datagram of every name is accepted, asks PTR IN for that name, and ends with its question |
| `Reverse.PtrEndToEnd` | src/codec/name.rs:243-334 | From address to name to datagram to question and back to the address |
| `ReverseExact.ReverseAddr6Exact` | src/codec/name.rs:311-334 | A valid name denotes an IPv6 address if and only if it is the name built for it |
| `ReverseExact.ReverseAddr4Exact` | src/codec/name.rs:294-306 | A valid name that denotes an IPv4 address is the one built for it if and only if no octet label has a leading zero |
| `ReverseExact.NumeralExact` | src/codec/name.rs:294-306 | An octet label is any digit string of value at most 255, leading zeros and a plus sign allowed |
| `ReverseExact.ReverseAddr4Names` | src/codec/name.rs:243-257 | Any four octet labels, last octet first, in the zone in-addr.arpa denote that address |
| `ReverseExact.HexDigits` | src/codec/name.rs:311-334 | The nibble digits, written in small letters and read in either case |
| `ReverseExact.ZoneTexts` | src/codec/name.rs:243-257 | The two reverse zones in characters |
| `Suffix.LongestExact` | src/resolver/local.rs:227-249 | Stripping one label at a time finds the longest label suffix among the keys, and nothing exactly when there is none |
| `Local.Snapshot.Lookup` | src/resolver/local.rs:207-250 | The slicing loop equals exact-then-longest-wildcard, followed by the per-type resolution |
| `Local.LookupExact` | src/resolver/local.rs:207-250 | The exact entry wins; otherwise the wildcard with the longest proper label suffix; a miss if and only if neither exists, for every type |
| `Local.ResolveExact` | src/resolver/local.rs:113-135 | An entry answers its record of the type asked for, and otherwise that the name exists without data, for every other type too |
| `Local.Snapshot.ReverseLookup` | src/resolver/local.rs:253-263 | An address is found if and only if some exact entry holds it, and the name and TTL found are of the entry whose name is least by length, then bytes |
| `Local.CanonicalTotal` | src/resolver/local.rs:389-392 | The order on names by length, then bytes, is total and antisymmetric |
| `Local.CanonicalTransitive` | src/resolver/local.rs:389-392 | It is transitive |
| `Local.MoreCanonicalExact` | src/resolver/local.rs:389-392 | The shorter name is first, and of equally long ones the one with the smaller byte where they first differ |
| `Local.ReverseUnique` | src/resolver/local.rs:352-384 | There is only one index that maps each address to its least name, so the result does not depend on iteration order |
| `Local.InsertKeepsReverse` | src/resolver/local.rs:367-384 | Inserting a further name, in any order, keeps the index exact for the names seen so far |
| `Local.BuildReverse` | src/resolver/local.rs:352-363 | The loop over the map in arbitrary order gives the exact index of all exact names |
| `Local.ReverseThenForward` | src/resolver/local.rs:207-263 | Looking up the returned name answers that same address and TTL |
| `Local.LocalRecordsBuilder.Add` | src/resolver/local.rs:304-333 | Fills the exact or the wildcard entry of the parsed name, or reports the error and changes nothing |
| `Local.LocalRecordsBuilder.Build` | src/resolver/local.rs:339-346 | A valid snapshot of the two maps with its reverse index |
| `Local.TargetIsName` | src/resolver/local.rs:304-333 | Every accepted row denotes a valid name, and a wildcard never the root |
| `Local.TargetExact` | src/resolver/local.rs:304-333 | A name that starts with a star and a dot goes to the wildcards under the rest, any other to the exact names; the three bare forms are refused |
| `Local.TrimExact` | src/resolver/state.rs:430-431 | Trimming takes away the dots at the end and nothing else |
| `Local.RowExact` | src/resolver/state.rs:404-440 | A row is acceptable if and only if its value parses as its type says and its trimmed name has a place |
| `Local.BuildLocalRecords` | src/resolver/state.rs:404-440 | The loop over stored rows succeeds if and only if every row is acceptable, else it stops at the first that is not; the snapshot is the tables of the rows |
| `Local.LastRowDecides` | src/resolver/local.rs:304-400 | For each key and address family, a record is present if and only if some row sets it, and it is that of the last such row |
| `Local.LookupAfterRows` | src/resolver/state.rs:404-440 | A query for an exact name is answered with the address and TTL of the last row that set that name and family; with rows of the other family only, the name exists without data |
| `Local.WildcardAfterRows` | src/resolver/state.rs:404-440 | The same for the wildcard with the longest suffix that covers the query name |
| `Zones.ForwardZoneSet.MatchTarget` | src/resolver/forward_zone.rs:145-165 | The slicing loop equals the longest-suffix target |
| `Zones.ForwardZoneSet.Build` | src/resolver/forward_zone.rs:87-136 | The two loops give the last-row map and a forwarder for exactly the targets in it, for any parser of target texts |
| `Zones.LastRowWins` | src/resolver/forward_zone.rs:87-104 | A zone is present if and only if a row with a usable target and suffix names it, and its target is that of the last such row |
| `Zones.MatchExact` | src/resolver/forward_zone.rs:145-165 | The target is that of the longest label suffix among non-root zones, apex included; none if and only if no such zone; a returned target has a forwarder |
| `Zones.RootMatchesRootZoneOnly` | src/resolver/forward_zone.rs:145-165 | The root query matches the root zone only |
| `Blocklist.Aggregator.AddSource` | src/blocklist/aggregate.rs:113-122 | The loop adds the names not yet owned, whatever their order, and records the contribution |
| `Blocklist.BlocklistScheduler.AddCachedSource` | src/blocklist/scheduler.rs:315-344 | Contributes the stored body if it can be loaded and is present |
| `Blocklist.BlocklistScheduler.HandleModified` | src/blocklist/scheduler.rs:212-276 | A usable body is saved and contributed; an empty one falls back to the stored body; the live map is untouched |
| `Blocklist.BlocklistScheduler.RefreshSource` | src/blocklist/scheduler.rs:186-313 | The step taken for each of the three fetch outcomes: new store, contribution and counters |
| `Blocklist.BlocklistScheduler.RefreshOnce` | src/blocklist/scheduler.rs:413-451 | The loop over the sources equals `Cycle`, and the live map is replaced by the merged snapshot exactly when every source contributed |
| `Blocklist.BlocklistScheduler.LoadFromCache` | src/blocklist/scheduler.rs:356-395 | The live map becomes the merge of the stored bodies that could be loaded |
| `BlocklistLaws.ContributionExact` | src/blocklist/scheduler.rs:186-344 | What every source contributes, judged by the store at the start: its fresh list, else the stored body if it can be loaded, else nothing; a 304, an empty 200 and a failed fetch fall back alike |
| `BlocklistLaws.InstallExact` | src/blocklist/scheduler.rs:413-451 | The live map is replaced, by the merge of the contributions, if and only if every source can contribute |
| `BlocklistLaws.LoadExact` | src/blocklist/scheduler.rs:356-395 | An offline start has exactly the names of the stored bodies that could be loaded |
| `BlocklistLaws.SummaryExact` | src/blocklist/scheduler.rs:186-344 | Each counter is the number of sources of its kind: fresh lists, 304 answers, and failures |
| `BlocklistLaws.CycleStoresValidators` | src/blocklist/scheduler.rs:220-275 | A cycle stores the validators of fresh answers whose update succeeds, and no others |
| `BlocklistLaws.MergedExact` | src/blocklist/aggregate.rs:113-122 | A name is in the merged map if and only if some source contributes it, and its owner is the first such source |
| `BlocklistLaws.SnapshotExact` | src/storage/blocklists.rs:308-328 | With sources listed by ascending id, the owner is the lowest contributing id |
| `BlocklistLaws.NoFailureMeansComplete` | src/blocklist/scheduler.rs:413-451 | A cycle that reports no failure installed its snapshot |
| `BlocklistLaws.CountersConserved` | src/blocklist/scheduler.rs:186-344 | The three counters add up to the number of sources, plus the 304 answers whose stored body was missing, which are counted twice |
| `BlocklistLaws.LiveIsLastSnapshot` | src/blocklist/scheduler.rs:413-451 | Over every run the live map is the complete snapshot of the last complete cycle, or the initial map if there was none |
| `BlocklistLaws.CycleKeepsCacheUsable` | src/blocklist/scheduler.rs:212-276 | A cycle keeps every stored body parsing to at least one name |
| `BlocklistLaws.RunKeepsCacheUsable` | src/blocklist/scheduler.rs:212-276 | So does every run of cycles |
| `BlocklistLaws.ContributedIsStored` | src/blocklist/scheduler.rs:212-344 | A contributed body is the one stored at the end of the cycle if and only if, when it came from the network, it was saved or was stored already |
| `BlocklistLaws.ReloadExact` | src/blocklist/scheduler.rs:356-451 | After a complete cycle a restart reads the very bodies of that cycle if and only if that holds of every source |
| `BlocklistLaws.RestartEquivalence` | src/blocklist/scheduler.rs:356-451 | After a complete cycle whose accepted bodies were all saved, or stored already, the live map equals what loading from the cache would build, for every mix of outcomes |
| `BlocklistLaws.MergedAgree` | src/blocklist/aggregate.rs:113-122 | Two lists of bodies merge to the same map if and only if, at every source, they disagree only on names an earlier source contributes |
| `BlocklistLaws.RestartExact` | src/blocklist/scheduler.rs:212-451 | After a complete cycle the restart rebuilds the live map if and only if each name on which an unsaved body differs from the stored one is contributed by an earlier source, judged by the store before the cycle |
| `BlocklistLaws.RunRestartExact` | src/blocklist/scheduler.rs:356-451 | At the end of any run, however many incomplete cycles came last, a restart over the sources of the last complete cycle rebuilds the live map if and only if each name on which a contribution to that cycle differs from the body stored by now has an earlier contributor, in terms of the responses and of which were saved |
| `BlocklistLaws.RunRestartEquivalence` | src/blocklist/scheduler.rs:356-451 | So it does if that cycle kept all its bodies and no later cycle saved a different one for its sources |
| `BlocklistLaws.RunStores` | src/blocklist/scheduler.rs:212-276 | After any run the stored body of a source is the last usable one that was saved, or else the initial one |
| `BlocklistLaws.UnsavedSourceIsLost` | src/blocklist/scheduler.rs:212-276 | A name of an unsaved body that no stored body has is live and lost by the restart, whether the source had a stored body before or not |
| `BlocklistLaws.StaleBodyReturns` | src/blocklist/scheduler.rs:356-395 | With one source whose new body was not saved, the restart brings back the names of the old body |
| `BlocklistLaws.RestartCanDiffer` | src/blocklist/scheduler.rs:356-395 | A concrete store and response for which the live map and the reloaded map credit different names |
| `BlocklistLaws.CycleKeepsPaired` | src/blocklist/scheduler.rs:220-275 | If body save and metadata update succeed or fail together, a cycle keeps stored body and validators from one response |
| `BlocklistLaws.RunKeepsPaired` | src/blocklist/scheduler.rs:220-275 | So does every run of cycles |
| `BlocklistLaws.NotModifiedContributesNamedBody` | src/blocklist/scheduler.rs:278-344 | In one cycle a 304 then contributes the body that came with the validators it was asked with |
| `BlocklistLaws.RunContributesNamedBody` | src/blocklist/scheduler.rs:278-344 | So does every 304 in every cycle of every run of such cycles |
| `BlocklistLaws.PairingExact` | src/blocklist/scheduler.rs:220-275 | For every usable response the pair is kept if and only if the two writes succeed or fail together, or the source had a row and the mixture of old and new is itself a response received |
| `BlocklistLaws.FreshPairingExact` | src/blocklist/scheduler.rs:220-275 | For a response whose body and validators are new to its source, first fetches included, the pair is kept if and only if the two writes succeed or fail together |

## Left out

- Fetching lists over HTTP: a step takes one of the three outcomes modified, not modified or error.
- The list text parsers: an arbitrary function from format and bytes to a set of names.
- SQL storage and migrations: the body cache and the validators are maps, the enabled sources a list by ascending id.
- The scheduler's select loop, triggers, sleeps and cancellation: a run is a sequence of cycles.
- Eviction, expiry timing and single flight in the cache library: whether an entry is still held is an input, and liveness is a hypothesis.
- The atomic snapshot holders: an assignment to a field.
- Upstream forwarding and `extract_ptr`: they rest on a resolver library; the negative flag and the negative TTL of an upstream answer are inputs.
- Records.SkipQuestions: does not say where the cursor stands after a failed question; every caller gives up on the message then.
- SynthLaws.ResponseScanExact: assumes fewer than 65536 local records and RDATA below 65536 bytes, the ranges of the casts in the writer; `SynthLaws.LocalCountExact` and `SynthLaws.RdataFitsExact` say what happens beyond these bounds.
- SynthLaws.ResponseScansBack: also assumes that no answer is of the OPT type; `SynthLaws.ResponseScanExact` does not.
- Parsing addresses: the target texts of forward zones and the value texts of local records go through an arbitrary partial function.
- The messages of configuration errors: `Local.BuildLocalRecords` reports the index of the first bad row, and not its text.
- Integer overflow of the buffer position: positions are unbounded, the source's checked additions cannot fail on messages of admissible size.
- `Writer::patch_u16`, the reader's peeking methods, the reserved header bits and the enum conversions of opcodes and response codes on the reading side: no modelled code path uses them.
- The pause deadline, settings, TCP framing, telemetry, the command line and the web interface.
