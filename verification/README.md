# Gravastar, verified in Dafny

Gravastar is a DNS forwarder. A query is answered from the block list, from locally configured
records, from a byte-bounded cache, or by an upstream server, in that order; with rebind
protection on, private IPv4 addresses in upstream answers are overwritten with zeros before
anything is cached or sent. This project models that program and proves what it is for.

| file | what it holds |
|---|---|
| `Bytes.dfy`, `Text.dfy` | octet strings, searching, cutting, joining; trimming, case, lines |
| `Names.dfy`, `NameCodec.dfy` | compressed names: their meaning, the reader, the writer, round trips |
| `Message.dfy` | headers, questions, resource records, the read-only walk, the PTR target |
| `Rewrite.dfy`, `Rebind.dfy` | the in-place rewrite of private addresses and what it guarantees |
| `Responses.dfy`, `ResponseLaws.dfy` | the answers the server builds and how they read back |
| `Cache.dfy`, `CacheLaws.dfy` | the cache class against its specification; laws over whole runs |
| `Keys.dfy`, `LocalRecords.dfy`, `ClientName.dfy` | lookup keys, local records, reverse lookups |
| `Blocklist.dfy`, `UpstreamBlocklist.dfy`, `Config.dfy`, `Updater.dfy` | matching, parsing, printing, loading and updating block lists |
| `Resolver.dfy` | `ResolveQuery` and `HandleQuery` on the objects above |
| `WorkerPool.dfy`, `Interleaving.dfy` | the job queue as a monitor; all interleavings of workers |
| `Provenance.dfy` | where answers come from, over every interleaving |
| `Serving.dfy` | queue and workers together: every job gets its answer |

Where the program changes things step by step, so does the model: `RewritePrivateARecordsToZero`
and `PatchResponseId` overwrite an `array<byte>`, packets grow in a `ByteVector`, the cache, the
block list, the local records, the server and the monitor are classes, and loops are loops. Each such
method is proved equal to a function of its inputs or its old state, and the laws are about those
functions. The recency list of the cache is a sequence of cell objects, so that an iterator is the
identity of a cell and the entry for a key really points at its own cell.

The main results:

* **Names.** `ReadName` means exactly: the chain of labels and pointers from the offset reaches a
  zero byte in bounds within 16 jumps, and the name is the labels along it (`ReadIffShortChain`); no read
  that reaches a cycle is accepted; a name is shorter than 17 times its packet. Labels behind a pointer
  are read with those in front of it (`CompressedRoundTrip`). What `WriteQName` writes is read back, by either reader, exactly when every
  piece has 1 to 63 octets.
* **Messages.** A query is accepted exactly if it is a header, encoded labels, two words and anything
  else (`QueryAccepted`, `AcceptedShape`); a walk finds exactly what stands in the octets
  (`WalkIffLaidOut`, `PtrTargetIff`).
* **Rebind protection.** On a message with records in any of its three sections just the private
  addresses are zeroed (`RewriteReachesAll`), and whenever the rewrite succeeds nothing else has changed
  (`RewriteZeroes`). The walk that rewrites while it reads refines "walk, then zero exactly the
  private RDATA" (`RewriteRefinesTwoPhases`), and it is idempotent on every packet, although names
  may point into bytes it has zeroed (`RewriteIdempotent`). The key is that the octet in front of a
  rewritten address is always the 4 of its RDATA length (`ZeroKeepsName`). Over every interleaving,
  nothing that leaves the server from the cache or from upstream shows a private address to a walk
  of its records, however far the walk gets, even after patching the identifier, which names may also
  point at (`NothingPrivateLeaves`).
* **Cache.** The representation stays sound under every operation, `Put` keeps exactly the longest
  suffix that fits, a lookup hits exactly if the latest `Put` has neither expired nor been crowded out
  (`HitIff`, `HitIffRecent`), and a smaller cache holds a suffix of a larger one (`LruInclusion`). Through the server and under every interleaving, an answer
  from the cache is the latest one stored for the same canonical name and type, less than a TTL ago
  (`CachedAnswersAreFresh`).
* **Worker pool.** No lost wakeup, jobs in order, each exactly once, everything handled when
  `StopWorkers` returns, and it does return (`ReachableInv`, `StopHandlesAll`, `StopIsBounded`,
  `StopNeverStuck`). With the queries on top (`Serving.dfy`): every query ever handed to `Enqueue` gets exactly one
  reply, and what is sent for it is what block list, local records, cache or upstream had to say about
  that very query while it was being handled, in that order of precedence; an empty result sends
  nothing (`AnswersAreGenuine`, `RepliesBelong`, `StopAnswersAll`).
* **Block lists.** A name is blocked exactly when it or a domain above it is listed; parsing is a
  homomorphism, the three line formats agree, and printing and loading gives back the parsed set.
  What the updater writes, custom names included, comes back exactly under `UpdateRoundTrip`.

Seven statements one might expect are false of the code; each has the exact condition and an input
that fails:

* *The rewrite succeeds only if a read-only walk would have*: `RewriteAcceptsMore` gives packets where
  that walk fails; of the packets rewritten, it succeeds exactly on those in which it can read every
  record name it gets to (`WalksIffNamesReadable`).
* *The question section of an empty response repeats the query's*: exactly when no label of the
  question contains a dot byte (`EmptyResponseRepeatsQuestion`, `DotLabelNotRepeated`).
* *A bare domain on a line of a downloaded list is listed*: exactly when it is not only digits and dots
  (`BareLineLists`, `DigitsNotListed`).
* *A smaller cache stays included in a larger one*: a `Get` keeps inclusion exactly under
  `GetIncludedIff`; `UnfairGetBreaksInclusion` is a run without it.
* *Loading the file an update writes gives back the set in use*: exactly when no name in it ends in a dot
  and none but the greatest holds a closing bracket (`UpdateRoundTrip`). Names from downloaded lists do
  neither (`ListRoundTrip`); names from a custom list may do both (`BracketLosesName`, `DotChangesName`).
* *The set in use after an update is the one a restart loads*: start-up reads the custom list alone, so
  exactly when that names everything downloaded (`UpdateThenRestart`, `RestartForgets`).
* *An empty response out of the cache is the one the server would write for the query*: the cache key has
  only the canonical name and the type, so exactly when encoded name, type, class and RD are the same
  (`CachedEmptyIff`, `ClassIgnored`).

`dafny verify dfyconfig.toml` checks everything.

## Model

| member | source | states |
|---|---|---|
| `Names.ReadName` | src/dns_packet.cpp:107-164 | the loop with its jump limit computes the recursive meaning of a compressed name: same success, same dotted name, same end; past the limit it fails |
| `Names.DecodeIffChain` | src/dns_packet.cpp:119-163 | a name is read if and only if the chain of labels and pointers from the offset reaches a zero byte in bounds with no more than the allowed jumps; then its labels are the octets behind the length bytes along that chain, in order, and it ends behind the first pointer, or behind the zero byte without one |
| `Names.ReadIffShortChain` | src/dns_packet.cpp:107-164 | from any offset the reader gives these labels and this end if and only if there is such a chain with at most 16 pointers |
| `Names.CycleRejected` | src/dns_packet.cpp:133-149 | a read that comes back to a position it has been at, on a cycle from the start or after running into one, fails, whatever the jump limit |
| `Names.MoreJumps` | src/dns_packet.cpp:144-147 | once a read succeeds, a larger jump limit changes neither labels nor end |
| `Names.DecodedLabelSizes` | src/dns_packet.cpp:150-161 | every label read has 1 to 63 octets |
| `Names.NameLengthBound` | src/dns_packet.cpp:157-161 | a name that was read is shorter than 17 times the packet |
| `NameCodec.ParseQName` | src/dns_packet.cpp:27-57 | the loop accepts exactly the pointer-free labels up to a zero byte or the end of the packet, and gives the dotted name and the end |
| `NameCodec.WritePiece` | src/dns_packet.cpp:66-75 | one turn of the loop appends the low byte of the length and the piece up to the next dot, and goes on after that dot |
| `NameCodec.WriteQName` | src/dns_packet.cpp:59-78 | appends the encoding of the dot-separated pieces and leaves what was in the buffer |
| `NameCodec.QNameIsEncode` | src/dns_packet.cpp:59-78 | what is written is the length-prefixed encoding of the pieces, ended by a zero byte |
| `NameCodec.PiecesJoin` | src/dns_packet.cpp:65-76 | the pieces written lose nothing of the name but one trailing dot |
| `NameCodec.JoinPieces` | src/dns_packet.cpp:65-76 | dot-free, nonempty labels are the pieces of their dotted text |
| `NameCodec.DecodeEncode` | src/dns_packet.cpp:27-57 | encoded labels of 1 to 63 octets, dots allowed, are read back by both readers wherever they stand, with their exact end |
| `NameCodec.PointerExtends` | src/dns_packet.cpp:133-149 | labels followed by a pointer to any offset below 16384 are read as those labels and then the name at that offset, itself compressed or not, and the name ends behind the pointer |
| `NameCodec.CompressedRoundTrip` | src/dns_packet.cpp:133-161 | encoded labels followed by the two octets of a pointer to where other encoded labels stand are read as both label lists together |
| `NameCodec.PlainIff` | src/dns_packet.cpp:27-57 | ParseQName gives these labels and this end if and only if their encoding, labels of 1 to 63 octets, stands there; only where the packet ends may the zero byte be missing |
| `NameCodec.NameRoundTrip` | src/dns_packet.cpp:59-78 | a name with pieces of 1 to 63 octets that was written between any bytes is read back by ReadName and ParseQName, with its exact end, less a trailing dot |
| `NameCodec.RoundTripIffWellFormed` | src/dns_packet.cpp:59-78 | either reader gets back the pieces and the end of a written name if and only if every piece has 1 to 63 octets |
| `NameCodec.PlainIsEncoded` | src/dns_packet.cpp:27-57 | a zero-terminated name ParseQName accepts is the encoding of its labels, and ReadName agrees on labels and end |
| `NameCodec.PieceSizes` | src/dns_packet.cpp:70-74 | every dot-separated piece of a name made of labels of at most 63 octets is itself at most 63 octets, even if labels contain dots |
| `NameCodec.ReencodeIffDotFree` | src/dns_packet.cpp:59-78 | writing a name that was read gives its own octets back if and only if no label contains a dot byte |
| `Message.ParseDnsQuery` | src/dns_packet.cpp:184-217 | accepts a packet if and only if it has a header, announces a question and has a complete one, and stores header words, name, type, class and raw extent |
| `Message.QueryAccepted` | src/dns_packet.cpp:184-217 | every packet of twelve octets with a nonzero question count, encoded labels of 1 to 63 octets, four octets and anything behind them is accepted: the header words are its octets, the question has that name, those two words as type and class, and that raw extent |
| `Message.AcceptedShape` | src/dns_packet.cpp:184-217 | every accepted packet is such a packet |
| `Message.ParsedQuestionName` | src/dns_packet.cpp:202-216 | the name of an accepted question is zero-terminated, ReadName agrees on it, its octets are the encoding of its labels, and re-encoding it never truncates a length byte |
| `Message.WalkQuestions` | src/dns_packet.cpp:356-365 | the question loop succeeds exactly when every question can be read, and ends after the last |
| `Message.ReadRecord` | src/dns_packet.cpp:371-383 | reads name, type, RDATA length and bounds of one record exactly as the walk defines them |
| `Message.WalkIffLaidOut` | src/dns_packet.cpp:350-395 | a read-only walk finds a layout if and only if the message has it, octet by octet: behind the header as many questions as octets 4 and 5 say, behind them as many records as octets 6 to 11 say in three words, each starting where the one before it ends |
| `Message.ExtractFirstPtrTarget` | src/dns_packet.cpp:411-459 | finds the target that the walk over questions and answers defines, or fails with it |
| `Message.FirstPtrMeaning` | src/dns_packet.cpp:430-458 | the target found is t if and only if some record is the first PTR record, all before it can be walked, and its RDATA holds the name t |
| `Message.PtrTargetIff` | src/dns_packet.cpp:411-459 | the target extracted is t if and only if behind the questions stand records, no more than octets 6 and 7 say, of which the last and no other has type 12, with the name t as its RDATA |
| `Rewrite.PrivateBlocks` | src/dns_packet.cpp:166-180 | the octet tests cover exactly 10.0.0.0/8, 172.16.0.0/12 and 192.168.0.0/16 of section 3 of RFC 1918 |
| `Rewrite.ScrubRecord` | src/dns_packet.cpp:384-393 | zeroes the four octets of a private A record in place, touches nothing else, and reports whether it did |
| `Rewrite.AddressZeroable` | src/dns_packet.cpp:378-386 | the octet in front of the address of an A record with four octets of RDATA is 4 |
| `Rewrite.ZeroKeepsName` | src/dns_packet.cpp:119-163 | zeroing four octets behind a 4 keeps every readable name readable, from every offset and through every pointer, and moves the end only of a name that runs into them |
| `Rewrite.RewriteKeepsEarlier` | src/dns_packet.cpp:370-395 | the record loop changes nothing in front of where it starts |
| `Rewrite.RewriteKeepsName` | src/dns_packet.cpp:370-395 | names that end in front of the record loop stay readable with the same end, wherever their pointers lead |
| `Rewrite.RewriteKeepsQuestions` | src/dns_packet.cpp:356-395 | after the record loop the questions are found where they were |
| `Rebind.RecordsRefine` | src/dns_packet.cpp:370-395 | if all records can be read in the original bytes, the interleaved record loop succeeds with the same records and zeroes exactly the private RDATA |
| `Rebind.RewriteRefinesTwoPhases` | src/dns_packet.cpp:350-400 | whenever a read-only walk succeeds, the rewrite succeeds with its records, zeroes exactly the four RDATA octets of each private A record in all sections, changes no other byte, and reports whether there was one |
| `Rebind.RewriteReachesAll` | src/dns_packet.cpp:350-400 | on every message that is laid out as in `Message.WalkIffLaidOut` the rewrite succeeds, zeroes the address octets of every record of type 1 and length 4 with an address in the private blocks, the last of the additional section included, changes no other octet, and reports whether there was one |
| `Rebind.RewriteZeroes` | src/dns_packet.cpp:343-401 | whenever the rewrite succeeds, the bytes it leaves behind are laid out and differ from the packet in just the private addresses of that layout |
| `Rebind.RewritePrivateARecordsToZero` | src/dns_packet.cpp:343-401 | the in-place loop leaves the bytes and gives the results of the interleaved walk, on success and on failure; on a laid-out message that is what `Rebind.RewriteReachesAll` says, and on every success what `Rebind.RewriteZeroes` says |
| `Rebind.RewriteKeepsHeader` | src/dns_packet.cpp:350-400 | the rewrite never changes the header |
| `Rebind.RewrittenWalks` | src/dns_packet.cpp:343-401 | after a successful rewrite a read-only walk finds the same questions and records, none of them private |
| `Rebind.RewriteIdempotent` | src/dns_packet.cpp:343-401 | on every packet, after a successful rewrite a second one succeeds, rewrites nothing, and goes through the same records |
| `Rebind.RewriteOkIffOutputWalks` | src/dns_packet.cpp:343-401 | the rewrite succeeds if and only if the bytes it leaves behind can be walked |
| `Rebind.WalksIffNamesReadable` | src/dns_packet.cpp:370-395 | when the rewrite succeeds, a read-only walk of the packet does too if and only if every record name that such a walk gets to can be read in the packet |
| `Rebind.RewriteAcceptsMore` | src/dns_packet.cpp:343-401 | on every 39-octet packet without questions whose two records are an A record at the root for 172.16.x.x and a record without RDATA whose name points at that address, the rewrite succeeds where a read-only walk fails |
| `Rebind.AddressPointerExists` | src/dns_packet.cpp:343-401 | there is such a packet |
| `Rebind.PatchResponseId` | src/dns_packet.cpp:403-409 | replaces octets 0 and 1 in place by the identifier, and does nothing to a shorter packet |
| `Rebind.PatchedHeader` | src/dns_packet.cpp:403-409 | patching sets the identifier and leaves every other header word and every later octet |
| `Rebind.NameEndsAlike` | src/dns_packet.cpp:119-163 | changing the identifier, which names may point at, never moves the end of a name that starts after it |
| `Rebind.WalksAlike` | src/dns_packet.cpp:403-409 | if the packet can be walked before and after the identifier changes, both walks find the same layout and agree on what is private |
| `Rebind.RewriteShields` | src/dns_server.cpp:338-346 | after a successful rewrite, whatever the identifier becomes, a walk of the records finds no private A record however far it gets |
| `Rebind.PatchedHarmless` | src/dns_server.cpp:231-234 | patching the identifier keeps a shielded response shielded |
| `Responses.BuildResponseHeader` | src/dns_packet.cpp:87-99 | identifier, response flags and counts as six words |
| `Responses.AppendQuestion` | src/dns_packet.cpp:101-105 | appends the encoded name, the type and the class |
| `Responses.BuildEmptyResponse` | src/dns_packet.cpp:219-224 | header and question, no answer |
| `Responses.BuildAResponse` | src/dns_packet.cpp:226-242 | one A answer for the question's name with the given address, or 0.0.0.0 when there is none |
| `Responses.BuildAAAAResponse` | src/dns_packet.cpp:244-260 | one AAAA answer for the question's name with the given address, or :: when there is none |
| `Responses.BuildCNAMEResponse` | src/dns_packet.cpp:262-276 | one CNAME answer holding the encoded target |
| `Responses.BuildPTRResponse` | src/dns_packet.cpp:278-292 | one PTR answer holding the encoded target |
| `Responses.ChunkText` | src/dns_packet.cpp:304-319 | the chunk loop appends the text as length-prefixed strings of at most 255 octets, one empty string for no text |
| `Responses.BuildTXTResponse` | src/dns_packet.cpp:294-323 | one TXT answer holding the chunked text |
| `Responses.BuildMXResponse` | src/dns_packet.cpp:325-341 | one MX answer holding the preference and the encoded exchange |
| `ResponseLaws.FlagsMeaning` | src/dns_packet.cpp:80-85 | a response says QR and RA, repeats the query's RD and clears every other field of section 4.1.1 of RFC 1035 |
| `ResponseLaws.HeaderReadsBack` | src/dns_packet.cpp:87-99 | the header of a response is read back with the query's identifier, the response flags and the counts |
| `ResponseLaws.AnswerWalks` | src/dns_packet.cpp:226-341 | every built answer with a well-formed name and at most 65535 octets of RDATA walks exactly to its end as one question and one answer, with the header of the query's response, the right names, the question's type and class, and an answer of the given type, class 1, a TTL of 60, and the RDATA with its length |
| `ResponseLaws.EmptyWalks` | src/dns_packet.cpp:219-224 | an empty response walks exactly to its end as the question alone, with the header of the query's response and the question's name, type and class |
| `ResponseLaws.TargetReadsBack` | src/dns_packet.cpp:262-292 | the RDATA of a CNAME or PTR answer is the target as a name ending the packet |
| `ResponseLaws.ExchangeReadsBack` | src/dns_packet.cpp:325-341 | the RDATA of an MX answer is the preference and then the exchange as a name ending the packet |
| `ResponseLaws.PtrRoundTrip` | src/dns_packet.cpp:278-292 | the target extracted from a PTR response is the one it was built with, less a trailing dot |
| `ResponseLaws.EmptyResponseRepeatsQuestion` | src/dns_packet.cpp:219-224 | an empty response to an accepted query repeats its question section byte for byte if and only if no label of the question contains a dot byte |
| `ResponseLaws.DotLabelNotRepeated` | src/dns_packet.cpp:219-224 | an accepted query for the one label `.` whose question section is not repeated |
| `ResponseLaws.TxtRoundTrip` | src/dns_packet.cpp:303-319 | decoding the length-prefixed strings gives the text back, for every text, and their size is the text and one octet for every 255 begun |
| `ResponseLaws.TxtLengthFits` | src/dns_packet.cpp:320 | the 16-bit RDATA length of a TXT answer equals the RDATA size if and only if the text has at most 65279 octets |
| `Cache.DnsCache.constructor` | src/cache.cpp:5-6 | an empty, sound cache with the given limits |
| `Cache.DnsCache.SetLimits` | src/cache.cpp:8-12 | new limits; least recently used entries go until the rest fits; representation sound and within the limit |
| `Cache.DnsCache.Get` | src/cache.cpp:14-27 | expired entries go; a hit returns the entry's bytes and makes it most recent; a miss changes nothing else; representation sound and within the limit |
| `Cache.DnsCache.Put` | src/cache.cpp:29-46 | expired entries and the one for the key go, the new entry becomes most recent with its expiry, and least recent ones go until the rest fits; representation sound and within the limit |
| `Cache.DnsCache.EvictExpired` | src/cache.cpp:48-65 | exactly the expired entries go, in list, map and byte counter alike; no cell is ever without its entry |
| `Cache.DnsCache.EvictIfNeeded` | src/cache.cpp:67-77 | entries go from the front exactly until the rest fits; the byte counter never underflows |
| `Cache.EraseLinked` | src/cache.cpp:57-60 | erasing a cell and its entry keeps list and map in agreement, removes just that item, and frees exactly its size |
| `Cache.AppendLinked` | src/cache.cpp:41-44 | appending a cell for a new key keeps list and map in agreement and adds just that item and its size |
| `CacheLaws.PutKeepsLongestSuffix` | src/cache.cpp:29-46 | after Put the recency order is the longest suffix, by bytes within the limit, of the unexpired other entries and the new one; a response over the limit leaves the cache empty, any other is there |
| `CacheLaws.KeepMembers` | src/cache.cpp:48-65 | what survives expiry and replacement is exactly the entries that have not expired and are not for the key |
| `CacheLaws.KeepOrder` | src/cache.cpp:48-65 | and they stay in order |
| `CacheLaws.GetSurvivors` | src/cache.cpp:14-27 | Get drops exactly the expired entries |
| `CacheLaws.MissOrder` | src/cache.cpp:14-27 | a miss leaves the unexpired entries in order |
| `CacheLaws.HitOrder` | src/cache.cpp:14-27 | a hit leaves the other unexpired entries in order and puts its own behind all of them |
| `CacheLaws.RunSane` | src/cache.cpp:8-77 | over every run from an empty cache keys stay distinct and the total stays within the limit |
| `CacheLaws.ItemsAreLatest` | src/cache.cpp:29-46 | over every run, each entry is what was last put under its key |
| `CacheLaws.HitIsLatestPut` | src/cache.cpp:14-27 | over every run, a hit returns exactly the bytes last put under the key, before they expire |
| `CacheLaws.HitIff` | src/cache.cpp:14-77 | over every run with a clock that does not run backwards, a lookup hits if and only if the key was put, the latest put has not expired, and no Put or SetLimits since has found its entry and everything more recent over the limit |
| `CacheLaws.HitIffRecent` | src/cache.cpp:14-77 | the same from the operations and their outcomes alone: a lookup hits if and only if the key was put, the latest put has not expired, and at no Put or SetLimits since did its entry and the entries of all unexpired keys used after it, by a Put or a hit, take more than the limit |
| `CacheLaws.PutThenHit` | src/cache.cpp:29-46 | what was just put is hit, if it is within the limit and unexpired |
| `CacheLaws.GetIncludedIff` | src/cache.cpp:14-27 | with one cache holding a suffix of another, a common Get keeps that if and only if it hits in the smaller, misses in the larger, or finds nothing unexpired in the smaller |
| `CacheLaws.LruInclusion` | src/cache.cpp:14-77 | for caches with the same lifetime and limits M1 <= M2, after every common run whose Gets are as GetIncludedIff wants, the smaller holds a suffix of the larger's recency order, with equal responses and expiries |
| `CacheLaws.UnfairGetBreaksInclusion` | src/cache.cpp:14-77 | a run with another Get after which the smaller cache hits and the larger misses |
| `Keys.MakeKey` | src/dns_server.cpp:26-36 | the canonical name, a separator and the type in decimal |
| `Keys.DecimalDenotes` | src/dns_server.cpp:32-34 | the decimal digits denote the number and contain no separator |
| `Keys.KeyInjective` | src/dns_server.cpp:26-36 | two keys are equal if and only if the types are and the names differ at most in the case of letters and in one trailing dot each, though names may contain separators and digits |
| `LocalRecords.LocalRecords.Load` | src/local_records.cpp:48-58 | afterwards the table holds, for every name and type, the last configured record of a known type that answers it |
| `LocalRecords.LocalRecords.Resolve` | src/local_records.cpp:60-72 | finds the value of the last configured record for the canonical name and the type, if there is one |
| `LocalRecords.LastAnsweringIff` | src/local_records.cpp:48-72 | that record answers and none configured after it does; there is none if and only if none answers |
| `LocalRecords.AnswersIff` | src/local_records.cpp:10-72 | a record answers for its name up to case and one trailing dot, and for type 1, 28, 5, 12, 15 or 16 if its type says a, aaaa, cname, ptr, mx or txt in any case |
| `ClientName.BuildReverseQuery` | src/dns_server.cpp:362-402 | the PTR query for the reversed parts of an address, none unless there are four |
| `ClientName.ReverseQueryParses` | src/dns_server.cpp:362-408 | the server's own reverse query for an address a.b.c.d is accepted as one question of type 12, class 1, for d.c.b.a.in-addr.arpa |
| `Blocklist.Blocklist.SetDomains` | src/blocklist.cpp:15-19 | replaces the whole set |
| `Blocklist.Blocklist.IsBlocked` | src/blocklist.cpp:21-53 | true if and only if the canonical name is listed or ends with a dot and a listed domain |
| `Blocklist.BlockedBySuffixes` | src/blocklist.cpp:35-50 | ending with a dot and a listed domain is the same as having a listed label suffix |
| `Blocklist.JoinFrom` | src/blocklist.cpp:41-45 | the inner loop joins the labels from i on |
| `Blocklist.CaseInsensitive` | src/blocklist.cpp:27 | names that differ only in the case of letters and in one trailing dot each are blocked alike |
| `Blocklist.SubdomainsBlocked` | src/blocklist.cpp:40-50 | everything under a nonempty blocked name is blocked |
| `Blocklist.SubdomainRedundant` | src/blocklist.cpp:40-50 | listing a domain under a listed one changes no verdict |
| `Text.Trim` | src/util.cpp:20-30 | removes leading and trailing space |
| `Text.TrimExact` | src/util.cpp:20-30 | trimming removes exactly the space around a text that neither starts nor ends with space |
| `Text.ToLower` | src/util.cpp:32-38 | folds every octet, in place, and nothing else: octets 65 to 90 become 97 to 122 |
| `Text.SplitAt` | src/util.cpp:40-53 | the loop cuts at every delimiter |
| `Bytes.SplitJoin` | src/util.cpp:40-53 | the pieces of a split contain no delimiter and joined by it give the text |
| `Bytes.JoinSplit` | src/util.cpp:40-53 | delimiter-free pieces are recovered by splitting their joined text |
| `Text.StartsWith` | src/util.cpp:55-65 | true if and only if the text starts with the prefix |
| `Text.CanonicalName` | src/config.cpp:127-133 | lower case without one trailing dot |
| `Text.CanonIff` | src/config.cpp:127-133 | two names have the same canonical form if and only if they differ at most in the case of letters and in one trailing dot each |
| `UpstreamBlocklist.SplitWhitespace` | src/upstream_blocklist.cpp:150-168 | the loop yields the tokens of the line |
| `UpstreamBlocklist.TokensSplit` | src/upstream_blocklist.cpp:150-168 | any space separates the tokens before it from those after it |
| `UpstreamBlocklist.LooksLikeIp` | src/upstream_blocklist.cpp:170-184 | true if and only if there is a colon, or a dot and nothing but digits and dots |
| `UpstreamBlocklist.IsValidLabel` | src/upstream_blocklist.cpp:186-203 | true if and only if the label is nonempty, of lower-case letters, digits and inner hyphens |
| `UpstreamBlocklist.NormalizeDomain` | src/upstream_blocklist.cpp:205-230 | succeeds if and only if the canonical form has two or more labels, all valid, and gives that form |
| `UpstreamBlocklist.DomainFixpoint` | src/upstream_blocklist.cpp:205-230 | a domain is its own normal form |
| `UpstreamBlocklist.DomainIff` | src/upstream_blocklist.cpp:186-230 | a domain is two or more nonempty labels of lower-case letters, digits and hyphens that are neither first nor last, with dots between them |
| `UpstreamBlocklist.SkippedIff` | src/upstream_blocklist.cpp:232-246 | a line is skipped if and only if it is empty, starts with `!`, `[` or `#`, or has `##`, `#@#`, `#?#` or `#$#` in it |
| `UpstreamBlocklist.LineIff` | src/upstream_blocklist.cpp:365-396 | a trimmed line that is not skipped lists d if and only if it is a rule whose text up to the first caret normalizes to d, or else a token before any comment does, the first excepted if it looks like an address |
| `UpstreamBlocklist.SpaceAround` | src/upstream_blocklist.cpp:361-364 | space around a line, a carriage return included, does not matter |
| `UpstreamBlocklist.ParsedIff` | src/upstream_blocklist.cpp:353-399 | a text lists d if and only if one of its lines does |
| `UpstreamBlocklist.ParseLine` | src/upstream_blocklist.cpp:361-396 | the body of the line loop adds exactly the domains of the line |
| `UpstreamBlocklist.ParseUpstreamBlocklistContent` | src/upstream_blocklist.cpp:353-399 | adds exactly the domains of all lines to the set |
| `UpstreamBlocklist.ParsedAreFixpoints` | src/upstream_blocklist.cpp:353-399 | every member of a parsed list is a domain and a fixpoint of normalization |
| `UpstreamBlocklist.ParsedConcat` | src/upstream_blocklist.cpp:353-399 | parsing two texts with a newline between them gives the union of the two parses |
| `UpstreamBlocklist.RuleLists` | src/upstream_blocklist.cpp:368-379 | the line `d` between two pipes and a caret lists exactly d |
| `UpstreamBlocklist.HostsLineLists` | src/upstream_blocklist.cpp:384-396 | the line `0.0.0.0 d` lists exactly d |
| `UpstreamBlocklist.BareLineLists` | src/upstream_blocklist.cpp:380-396 | the line `d` lists exactly d, unless d is only digits and dots, when it lists nothing |
| `UpstreamBlocklist.DigitsNotListed` | src/upstream_blocklist.cpp:380-396 | `1.2` is a domain, and the line `1.2` lists nothing |
| `UpstreamBlocklist.ListedIsBlocked` | src/blocklist.cpp:31-50 | a listed domain and all its subdomains are blocked |
| `Config.StripComment` | src/config.cpp:119-125 | the line up to its first hash sign |
| `Config.ExtractQuotedStrings` | src/config.cpp:79-102 | the loop yields the quoted strings of the text |
| `Config.QuotedPair` | src/config.cpp:79-102 | a pair of quotes yields what stands between them, then what the rest yields |
| `Config.LoadOne` | src/config.cpp:262-294 | one line adds its names and switches the list state as specified |
| `Config.LoadBlocklist` | src/config.cpp:259-296 | adds exactly the names of the lists in the text |
| `Config.OneLineList` | src/config.cpp:264-281 | a list of quoted names on the line of its key, with any space around the parts, adds the canonical forms of those names to what the rest of the file holds |
| `Config.InnerLineLoads` | src/config.cpp:283-291 | inside a list a line adds the canonical forms of all names quoted on it, and the list goes on unless there is a closing bracket on it |
| `Config.OtherKeyIgnored` | src/config.cpp:264-271 | outside a list a line with another key adds nothing |
| `Config.KeylessIgnored` | src/config.cpp:264-267 | nor does a line without an equals sign |
| `Config.CommentIgnored` | src/config.cpp:119-125 | what follows a hash sign does not matter, inside a list or outside |
| `Config.WriteBlocklistToml` | src/upstream_blocklist.cpp:444-453 | the text written for a set names every member once, in the order of the set, each on its own line between the first line and the closing bracket |
| `Config.PrintedText` | src/upstream_blocklist.cpp:447-453 | the first line, the entries and the last line as they read |
| `Config.PrintedLoadsUpToBracket` | src/config.cpp:259-296 | loading printed names without quotes, hash signs and newlines, in any order, gives the canonical forms of the names up to the first with a closing bracket |
| `Config.PrintedLoadsIff` | src/config.cpp:259-296 | printing such names, all different, in any order, and loading that gives the same set if and only if all are canonical and none but the last holds a closing bracket |
| `Config.PrintedSetLoadsIff` | src/upstream_blocklist.cpp:444-453 | writing a set of such names and loading that gives the same set if and only if all are canonical and none but the greatest holds a closing bracket |
| `Config.LoadedNames` | src/config.cpp:259-296 | whatever a block list file says, the names loaded from it hold no quote, hash sign or newline and are in lower case |
| `Updater.BuildBlocklistFromSources` | src/upstream_blocklist.cpp:401-442 | succeeds if and only if there are sources, a cache directory, and a text for each source, and gives the union of what they list |
| `Updater.ListedIff` | src/upstream_blocklist.cpp:401-442 | a name is in that union if and only if the text of some source lists it |
| `Updater.UpdateOnce` | src/upstream_blocklist.cpp:500-532 | succeeds if and only if cache directory, sources, custom list and file do; then the set in use is what the sources list and the custom list names, and the file is that set printed; else nothing changes |
| `Updater.UpdateRoundTrip` | src/upstream_blocklist.cpp:505-527 | for all sources and custom lists, loading the text written for their union gives that set if and only if no name in it ends in a dot and none but the greatest holds a closing bracket |
| `Updater.BracketLosesName` | src/upstream_blocklist.cpp:512-520 | a custom list with names `a]b` and `c`; the text written for the set loads without `c` |
| `Updater.DotChangesName` | src/upstream_blocklist.cpp:512-520 | a custom list with the entry `a..`, loaded as `a.`; the text written for that loads as `a` |
| `Updater.ListRoundTrip` | src/upstream_blocklist.cpp:444-453 | without a custom list, for all downloaded lists, loading the text printed from the parsed set, in any order, gives exactly that set |
| `Updater.LoadAtStart` | src/main.cpp:105-119 | at start-up the set in use becomes what the custom list names, or there is no start without one |
| `Updater.UpdateThenRestart` | src/main.cpp:105-172 | after an update and a start with the same custom list, the set in use is that after the update if and only if the custom list names everything downloaded |
| `Updater.RestartForgets` | src/main.cpp:158-172 | for every domain d: with a downloaded list of the one rule for d and an empty custom list, d is in use after the update, the file written loads back as {d}, and a restart loads nothing |
| `Resolver.Server.ResolveQuery` | src/dns_server.cpp:265-353 | the result and the cache afterwards are those of block list first, then local records, then cache, then upstream with rebind protection; the first two leave the cache alone, an empty answer is not cached |
| `Resolver.Server.AskUpstream` | src/dns_server.cpp:329-346 | the answer over TLS if there is one, whatever UDP would say, else the one over UDP, is passed on byte for byte without rebind protection; with it, a laid-out answer keeps all octets but those of its private addresses, any other is passed on laid out and changed just so, or replaced by an empty response; without an answer there is an empty response |
| `Resolver.UpstreamPassedOn` | src/dns_server.cpp:329-346 | the same of the function that the resolution and the interleavings use |
| `Resolver.UpstreamLast` | src/dns_server.cpp:276-346 | upstream is asked if and only if the name is not blocked, no local record answers and the cache misses, and its answer is passed on as above |
| `Resolver.DotFirst` | src/dns_server.cpp:329-337 | when there is an answer over TLS, what UDP would say changes neither result nor cache; without rebind protection the answer over TLS, else the one over UDP, is the response byte for byte |
| `Resolver.Server.HandleQuery` | src/dns_server.cpp:211-263 | fails, sends and changes nothing for what is no query; else it succeeds, the resolved response is sent unless empty, with the query's identifier if it came from the cache, and with a query log the line has source, address, name, type, the server asked if one was, and the client's name, looked up in the cache as the answer left it |
| `Resolver.Server.ResolveClientName` | src/dns_server.cpp:355-421 | the PTR target found by resolving the reverse query, or a hyphen |
| `Resolver.NoNameWithoutParts` | src/dns_server.cpp:355-366 | without an address of four parts the name is a hyphen and nothing is looked up |
| `Resolver.ClientNameIs` | src/dns_server.cpp:404-421 | the name is the target of the first PTR record in what the query for d.c.b.a.in-addr.arpa resolves to, or a hyphen when there is none or it is the root |
| `Resolver.ClientNamedByRecord` | src/dns_server.cpp:355-421 | end to end: a client whose address has a local PTR record, the last of its kind and not blocked, goes by the name in it, less a trailing dot |
| `Resolver.UpstreamShielded` | src/dns_server.cpp:329-346 | with rebind protection no walk, however far it gets, finds a private A record in what an upstream answer becomes, whatever the identifier |
| `Resolver.AnswersCarryQueryId` | src/dns_server.cpp:231-237 | whatever is sent from block list, local records or cache carries the identifier of the query |
| `Resolver.OutgoingBytes` | src/dns_server.cpp:231-237 | nothing is sent exactly for an empty result; otherwise its bytes are, of a cached one all but the first two |
| `Resolver.SecondFromCache` | src/dns_server.cpp:314-351 | once an upstream answer is cached, within its lifetime the next query for the same canonical name and type gets its bytes, whatever else differs |
| `Resolver.EmptyNotCached` | src/dns_server.cpp:347-351 | after an empty upstream answer the next query for the same canonical name and type is put to upstream again |
| `Resolver.CachedEmptyIff` | src/dns_server.cpp:336-350 | an empty response cached for one query, given to another with its identifier, is the one the server would write for that one if and only if encoded name, type, class and RD are the same |
| `Resolver.ClassIgnored` | src/dns_server.cpp:26-36 | a query for class 3 that gets, out of the cache, the empty response to one for class 1 |
| `Resolver.BlockedFirst` | src/dns_server.cpp:276-287 | a blocked well-formed name gets exactly one answer 0.0.0.0 for type 1, one answer ::1 for type 28, and none for other types, whatever the records, cache and upstream say, and the cache is not touched |
| `Resolver.LocalSecond` | src/dns_server.cpp:289-312 | a name that is not blocked and has a local record of its type gets exactly one answer of that type with what the value of the last such record stands for: the address or all zeros, the encoded name, preference and exchange, or the chunked text; the cache is not touched |
| `Resolver.CacheThird` | src/dns_server.cpp:314-327 | a name that is neither blocked nor has a local record gets what the cache has for it, whatever upstream would say |
| `WorkerPool.Monitor.StartWorkers` | src/dns_server.cpp:423-431 | an empty queue, running, all started workers on their way to the queue |
| `WorkerPool.Monitor.Enqueue` | src/dns_server.cpp:444-449 | the queue becomes the old queue and the job behind it, whatever was queued, and a blocked worker wakes if there is one |
| `WorkerPool.Monitor.Dequeue` | src/dns_server.cpp:451-464 | blocks on an empty queue while running, leaves on an empty queue after the stop, else takes the front job |
| `WorkerPool.Monitor.Handled` | src/dns_server.cpp:472-480 | a handled job is recorded and its worker goes back to the queue |
| `WorkerPool.Monitor.StopWorkers` | src/dns_server.cpp:433-437 | clears the running flag and wakes every blocked worker |
| `WorkerPool.NextInv` | src/dns_server.cpp:433-480 | every step, spurious wakeups included, keeps: no lost wakeup, queue in enqueue order, every ticket in exactly one place, nobody asleep or gone at the wrong time |
| `WorkerPool.ReachableInv` | src/dns_server.cpp:433-480 | this holds in every reachable state of a pool of any size |
| `WorkerPool.EnqueuedAreJobs` | src/dns_server.cpp:444-449 | over every run, the jobs on record are those of the Enqueue events, all of them and in order |
| `WorkerPool.QueueHoldsRest` | src/dns_server.cpp:444-464 | in every reachable state the queue holds the jobs of the Enqueue events but for those taken, in order |
| `WorkerPool.StopHandlesAll` | src/dns_server.cpp:433-442 | when StopWorkers has returned and there was a worker, the queue is empty and every job of an Enqueue event of the run was handled exactly once |
| `WorkerPool.SomeWorkerCanMove` | src/dns_server.cpp:451-464 | while there are jobs, or workers left to stop, some worker can move |
| `WorkerPool.NobodyHeldUp` | src/dns_server.cpp:433-480 | while serving, any job can be enqueued, and a blocked worker is woken if there is one; no worker that has not left is ever held up, and a blocked one may wake for no reason |
| `WorkerPool.StopIsBounded` | src/dns_server.cpp:433-442 | after the broadcast only so many steps are possible, however threads are scheduled |
| `WorkerPool.StopNeverStuck` | src/dns_server.cpp:433-442 | until StopWorkers has returned some step is possible |
| `Interleaving.AloneIsResolution` | src/dns_server.cpp:265-353 | the steps of one undisturbed worker compute what the sequential ResolveQuery computes, result and cache |
| `Interleaving.NothingPrivateLeaves` | src/dns_server.cpp:314-352 | with rebind protection, in every reachable state of every interleaving, everything cached is shielded, and no walk of the records of what was sent from cache or upstream, however far it gets, finds a private A record |
| `Interleaving.HitIsLatestStored` | src/dns_server.cpp:314-327 | a cache hit is the latest response stored for the same canonical name and type, unexpired |
| `Interleaving.CachedAnswersAreFresh` | src/dns_server.cpp:314-352 | in every reachable state of every interleaving, for each answer sent from the cache the history has a lookup for its question, and the answer is, but for its identifier, the latest response stored before that for the same canonical name and type, less than TTL seconds earlier |
| `Provenance.AnswersAreGenuine` | src/dns_server.cpp:265-353 | in every reachable state of every interleaving, each answer sent is right for its own query, given what happened between its receipt and its answer: the fixed answer if a set in use meanwhile blocked the name; else, with a set in use meanwhile that did not, the local record for name and type; without one, what a lookup made meanwhile found in the cache, which is what upstream was once asked and said about the same canonical name and type; and if that lookup missed, what upstream was asked and said meanwhile about this very query |
| `Provenance.HistoryOfRun` | src/dns_server.cpp:276-336 | the history they are judged by is that of the run: the sets in use are the first and those put in use, in order, the last is the one in use, and what upstream said is what it was made to say |
| `Provenance.BeganWhenReceived` | src/dns_server.cpp:472-480 | in every reachable state a query in hand began at the last place where its worker received one |
| `Serving.PoolRuns` | src/dns_server.cpp:423-480 | the pool of the whole server goes through a run of the pool |
| `Serving.SystemRuns` | src/dns_server.cpp:211-353 | the queries of the whole server go through an interleaving |
| `Serving.EnqueuedAreJobs` | src/dns_server.cpp:444-449 | over every run of the whole server, the jobs on record are those handed to Enqueue, all of them and in order |
| `Serving.IdleAtQueue` | src/dns_server.cpp:472-480 | in every reachable state of the whole server a worker on its way to the queue has no query in hand |
| `Serving.RepliesBelong` | src/dns_server.cpp:211-263 | in every reachable state of the whole server, what was sent are replies to jobs handed to Enqueue in the run, each to the query in its own job, with the bytes of a result that is right for that query as in `Provenance.AnswersAreGenuine`, and no job is replied to twice |
| `Serving.StopAnswersAll` | src/dns_server.cpp:433-480 | when StopWorkers has returned and there was a worker, every query handed to Enqueue in the run was replied to exactly once and nothing else was; a reply is one message, or none for an empty result |
| `Serving.WholeIsSafe` | src/dns_server.cpp:211-353 | cached answers are fresh and nothing private leaves, in every reachable state of the whole server |
| `Serving.SomeWorkerCanMove` | src/dns_server.cpp:451-480 | while there are jobs, or workers left to stop, some worker of the whole server can move |
| `Serving.WorldIsFree` | src/dns_server.cpp:180-353 | whatever the state, any packet may be enqueued while serving, the block list replaced by any other, the cache used at any later time, and upstream say anything |
| `Serving.StopNeverStuck` | src/dns_server.cpp:433-442 | after the broadcast of StopWorkers and until it returns, in every reachable state some worker can move or all can be joined |
| `Serving.StopReturns` | src/dns_server.cpp:433-442 | after the broadcast only so many moves are possible besides replacements of the block list, however threads are scheduled |

## Left out

- Sockets, `select`, signals and the body of `Run`: input and output. What is sent is the result of `HandleQuery`; receiving is the step that enqueues.
- `UpstreamResolver` (UDP, TLS, address lookup) and fetching lists over HTTP: foreign calls. Upstream answers are arbitrary bytes or failures, list contents are arbitrary byte strings.
- `inet_pton`, `inet_ntop` and `ParseMxValue`: parameters (`Library`, and the address text of a client), arbitrary functions of the configured text.
- The clock: an input of every cache operation, one reading per call of `time`; the interleavings take readings that never decrease.
- Null output pointers, and a server without block list or cache: every caller in the core passes them.
- Integer widths: sizes, byte totals and expiry times are unbounded. The casts of a label length to 8 bits and of an RDATA length to 16 bits, and the 14-bit pointer target, are modelled.
- Output parameters after a failure: the model returns placeholders there; no caller reads them.
- `std::list` links: the recency list is a sequence of cell objects; its orphan branches, which the source has and never reaches, are proved dead with `assert false`.
- WorkerPool.Monitor.Dequeue: one turn of the waiting loop, as the code holds the mutex between waits; the loop around it is the runs of the pool in `WorkerPool`.
- Locking: reading or replacing the block list, and each cache operation, is one atomic step. In `Serving` a worker may look up any name for the query log, once, after its answer.
- Resolver.Server.HandleQuery: does not model how the log line is spelled and stored.
- Loading the main configuration, upstream servers and local records, file access and renaming, both loggers, the updater's timer: shallow, or effects on files. Whether a file can be read or written is an input of `UpdateOnce`; to the workers the updater is the `SetDomains` step.
- Repeated code: the reverse lookup and the response builders repeat what `WriteQName` and each other do; the model writes the shared part once.
