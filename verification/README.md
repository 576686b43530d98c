# djbdns in Dafny

This project models the core of djbdns 1.05, the C program that this repository carries under `djbdns/`, and proves what
its parts promise: the constant database, the resolver's cache, the message writer and reader with name compression,
the two-level resolver, and the smaller tools around them. Code that updates memory step by step is modelled as Dafny
methods over arrays and object fields, each proved against a specification; the lemmas then say what the
specifications mean across files and over whole runs. `dafny verify dfyconfig.toml` checks everything.

| file | models | main result |
|---|---|---|
| `Bytes.dfy` | words, `uint32_pack`, `tai_pack`, exclusive or | packing and unpacking are inverse |
| `Buffer.dfy`, `InBuffer.dfy`, `Getln.dfy`, `StrAlloc.dfy` | `buffer_put.c`, `buffer_get.c`, `getln2.c`, `getln.c` | buffering is transparent for any splitting of reads and writes |
| `CdbFormat.dfy`, `CdbProbe.dfy`, `CdbMake.dfy`, `Cdb.dfy`, `CdbRoundTrip.dfy`, `CdbLayout.dfy` | `cdb_hash.c`, `cdb_make.c`, `cdb.c` | `StoreAndFetch`: what was added is found, in order; `RecordOnDisk`: by the rules of the format alone |
| `CacheRing.dfy`, `CacheChains.dfy`, `CacheMemory.dfy`, `Cache.dfy` | `cache.c` | the byte array refines a list of recent sets; eviction is first in, first out, and only as needed; `EarlierIsAnswered`: when a set is still answered |
| `Domain.dfy`, `Packet.dfy`, `Compression.dfy`, `Response.dfy` | `dns_domain.c`, `case_diffb.c`, `dns_packet.c`, `response.c` | compressed names read back and are as short as the table allows, and responses walk exactly |
| `RecordRoundTrip.dfy` | the writing of answers with `response.c` and their reading in `query.c` | `AnswerRoundTrip`: what a server writes is what a resolver reads |
| `Heapsort.dfy`, `PickdnsData.dfy`, `PacketRecords.dfy` | the two heapsorts and group-by loops of `pickdns-data.c` and `query.c` | sorted permutations; each group is complete and in packet order |
| `DnsTrace.dfy` | the lists of `dnstrace.c` | the work list is a three-way join of what the calls bring, whatever their order |
| `TinyDns.dfy` | `rr_*` of `tinydns-data.c`, `find` of `tdlookup.c` | compiling and looking up give exactly the records wanted |
| `RandomIp.dfy` | `random-ip.c` | when addresses repeat, and when not |
| `DotText.dfy` | `dns_dfd.c`, `dns_dtda.c` | names survive the way through text, which is printable |
| `Transmit.dfy` | `dns_transmit.c`, `dns_resolve.c` | attempts follow one plan; only a reply to the question asked is kept; sockets and memory are never lost |
| `QueryData.dfy`, `PacketCache.dfy`, `Resolver.dfy`, `ResolverMeaning.dfy` | `query.c`, `dd.c` | every query ends, with an answer that has a basis or for a reason, and leaves nothing behind; what a packet leads to is decided by its bytes; only what lies in the zone under control is learnt from it, and answered as it came |

What lies outside is an argument or an arbitrary value: the time, random draws, the results of `read`, `write`,
`connect`, `bind` and `socket`, whether memory is available, the bytes of received packets, and (in `Resolver.dfy`) the
contents of the cache. A property is proved for every such value.

## Where the code does less than it seems to promise

- `response.c:12` declares every recorded position to be below 16384, and `response_addname` does not check it; nor does
  it check the length of a name. A name reads back if and only if it has at most 255 bytes and no pointer of 16384 or
  more is written for it (`Compression.RoundTripExactly`, with `Compression.SecondCopyBeyondLimit` as a concrete case).
  The section counts are right regardless; the records are found by a reader as long as every owner pointer keeps to the
  limit (the field `clean` of `Response.Builder`, and `Response.BuilderReads`). This goes one way only: behind an owner
  pointer between 16384 and 16639 the reader still lands on the end of the record if the ttl and the data length happen
  to agree, for example with a ttl of 1 and 256 bytes of data. `Response.FarRecord` has the exact equation for these
  pointers, shows that from 32768 on a reader never finds the records, and `Response.FarOwner` is a concrete response.
  `RecordRoundTrip.AnswerRoundTrip` has the same guard, and goes one way for the same reason.
- `response.c:117-121` cuts a response after the question and leaves the section counts, so that they are right if and
  only if there was no record (`Response.Builder.Tc`).
- `dns_transmit.c:168-171`: when `connect` succeeds at once, `pos` keeps the value it had, so that writing begins in
  the middle of the query, or beyond it. The whole query is written if and only if that value was 0
  (`Transmit.WholeQuerySent`; the ghost field `begun` is the value), which a caller can see before the call.
  `Transmit.StaleRun` and `Transmit.StaleBeyond` are runs in which it was not. A connection that is made later sets
  `pos` to 0.
- `random-ip.c:40-43` limits the number of addresses only when a byte is fixed. Addresses repeat if and only if no
  byte is fixed and more than 2^32 are asked for (`RandomIp.Addresses`).
- `tdlookup.c:60` gives up at the first record of a name that is over 32767 bytes long, which `tinydns-data.c` does not
  refuse to store. A lookup ends without failure if and only if no record under the name is that long
  (`TinyDns.CompileAndFind` with the condition `Fits`); otherwise it gives the answers in front of that record.
  `TinyDns.LongRecordFails` is a concrete record.
- `dns_domain_todot_cat` writes names of any length, and `dns_domain_fromdot` reads back those of at most 255 bytes
  only (`DotText.DotRoundTrip`).

## Model

| member | source | states |
|---|---|---|
| CdbRoundTrip.StoreAndFetch | djbdns/cdb_make.c:64-152 | what is added is what is found: after any sequence of adds and a successful finish, findstart and repeated findnext under any key yield exactly the data added under that key, in insertion order, then stop |
| CdbRoundTrip.FetchAll | djbdns/cdb.c:87-136 | on the bytes of a finished file, findnext until it stops returns the data under the key in order, and never reports a malformed file |
| CdbRoundTrip.NextFinds | djbdns/cdb.c:87-130 | one call of findnext, from any cursor reached so far, delivers the next datum still to come, or stops exactly when none is left |
| CdbRoundTrip.BeginFinds | djbdns/cdb.c:93-104 | the first call reads the right header entry and starts at the key's home slot; an empty bucket means no such key |
| CdbRoundTrip.SearchFinds | djbdns/cdb.c:106-129 | the probe loop, from any slot, stops at the next record with the key and skips hash collisions and other keys |
| CdbRoundTrip.ProbeDecides | djbdns/cdb.c:113-126 | comparing stored hash, key length and key bytes accepts an entry if and only if its record has the key |
| CdbRoundTrip.MatchDecides | djbdns/cdb.c:70-85 | the 32-byte-at-a-time comparison succeeds exactly if the bytes at the position are the key |
| CdbRoundTrip.RecordInImage | djbdns/cdb_make.c:51-70 | the lengths, key and data of the record with a stored position lie at that position of the file |
| CdbRoundTrip.ReadHeader | djbdns/cdb_make.c:122-127 | header entry b holds the position and slot count of table b |
| CdbRoundTrip.ReadSlot | djbdns/cdb_make.c:141-146 | slot j of table b lies eight bytes per slot after the table's position |
| CdbRoundTrip.PickIsDataUnder | djbdns/cdb_make.c:29-49 | the entries with a key's hash, in insertion order and filtered by key, give the data added under the key |
| CdbProbe.LookupFindsAll | djbdns/cdb_make.c:129-139 | walking a finished table from a hash's home until a free slot meets exactly the entries with that hash, in insertion order |
| CdbProbe.WalkBuild | djbdns/cdb_make.c:132-139 | the same for a table of twice as many slots as entries, whatever the entries |
| CdbProbe.WalkInsert | djbdns/cdb_make.c:133-138 | inserting an entry by linear probing appends it to the walk of its own hash and leaves every other walk as it was |
| CdbProbe.InsertKeepsReachable | djbdns/cdb_make.c:134-138 | no insertion leaves a free slot between an entry's home and its place |
| CdbProbe.BuildLeavesFree | djbdns/cdb_make.c:125-139 | a table of 2 * count slots always has a free slot, so that each probe loop ends |
| CdbMake.CountBuckets | djbdns/cdb_make.c:84-91 | the counts are the numbers of entries per bucket |
| CdbMake.MemSize | djbdns/cdb_make.c:93-100 | the memory asked for holds the sorted entries and the largest table, and the computation does not overflow |
| CdbMake.Ends | djbdns/cdb_make.c:110-114 | start[b] is the number of entries in buckets 0 to b |
| CdbMake.Distribute | djbdns/cdb_make.c:116-120 | afterwards each bucket's part of split holds exactly that bucket's entries in insertion order: a stable partition |
| CdbMake.BelowAll | djbdns/cdb_make.c:110-114 | the buckets together hold every entry once |
| CdbMake.InsertEntry | djbdns/cdb_make.c:134-138 | the in-place probe loop stays inside the table, ends, and does what insertion into a table means; nothing outside the table changes |
| CdbMake.FillTable | djbdns/cdb_make.c:129-139 | the table in place becomes the table of the bucket, and the sorted entries are untouched |
| CdbMake.Maker.Start | djbdns/cdb_make.c:9-19 | a new file with room for the header and no records |
| CdbMake.Maker.Add | djbdns/cdb_make.c:64-70 | one more record: its bytes are put and its entry is kept, or the call fails |
| CdbMake.Maker.AddEnd | djbdns/cdb_make.c:29-49 | the entry (hash, position) goes behind all others, across list blocks, and the position moves past the record |
| CdbMake.Maker.PosPlus | djbdns/cdb_make.c:21-27 | the position grows by len, and the call fails exactly if that would overflow 32 bits |
| CdbMake.Maker.WriteTable | djbdns/cdb_make.c:141-146 | all slots of a table go to the file, each as hash and position |
| CdbMake.Maker.WriteBucket | djbdns/cdb_make.c:122-147 | one bucket's header entry and table, after the tables before it |
| CdbMake.Maker.WriteTables | djbdns/cdb_make.c:122-147 | all 256 tables and the whole header |
| CdbMake.Maker.Finish | djbdns/cdb_make.c:72-152 | on success the file is byte for byte the image of the records, and its size fits 32 bits |
| CdbFormat.Hash | djbdns/cdb_hash.c:5-21 | the loop computes the hash of the string in 32-bit arithmetic |
| CdbLayout.RecordOnDisk | djbdns/cdb_make.c:72-152 | every record is found in the finished file by the rules of the format alone, whoever reads it: with h the hash of its key, the header entry at 8 * (h mod 256) gives a table; of its n slots those from number h / 256 mod n on are taken until one holds h and the position of the lengths, the key and the data |
| CdbLayout.TableOnDisk | djbdns/cdb_make.c:122-147 | each of the 256 header entries gives the place of a table inside the file with twice as many slots as there are records with that hash modulo 256 |
| CdbLayout.HashSteps | djbdns/cdb_hash.c:5-21 | the hash of the empty string is 5381, and each further byte multiplies it by 33 modulo 2^32 and is combined with it |
| Cdb.Reader.Read | djbdns/cdb.c:44-68 | fails exactly if the range leaves the file, and otherwise gives the bytes of the range (mapped case) |
| Cdb.Reader.Match | djbdns/cdb.c:70-85 | the comparison loop equals its specification |
| Cdb.Reader.SearchLoop | djbdns/cdb.c:106-129 | the loop over slots, its cursor updates and its wrap-around equal the specification, and it ends |
| Cdb.Reader.FindNext | djbdns/cdb.c:87-130 | the whole call, with 32-bit arithmetic, equals the specification on the fields of struct cdb |
| Cdb.Reader.Find | djbdns/cdb.c:132-136 | findstart and then findnext |
| Cache.State.Init | djbdns/cache.c:184-207 | size clamped to 100..1000000000, a power-of-two hash area of at most size/16 bytes, and an empty cache in the documented state; or no memory |
| Cache.State.Set | djbdns/cache.c:127-182 | the byte array does what the ring of entries does, whose evictions CacheRing.SetKeeps bounds; the documented invariant holds afterwards; exactly the accepted sets that fit enter the history |
| Cache.State.EvictFor | djbdns/cache.c:144-161 | the eviction loop ends, each round unlinks one entry or wraps around, and it makes room or empties the cache; if there is room already it changes nothing |
| Cache.State.EvictOldest | djbdns/cache.c:152-160 | the oldest entry is unlinked and its space becomes free; all chains stay right |
| Cache.State.UnlinkOldest | djbdns/cache.c:152-153 | the two xors remove the oldest entry from its neighbour's link |
| Cache.State.InsertNewest | djbdns/cache.c:163-181 | the entry becomes the newest of its bucket and of the ring |
| Cache.State.Get | djbdns/cache.c:80-125 | data and remaining ttl of the most recent resident set for the key, unless it has expired, is not resident, or lies beyond the 101 entries examined |
| Cache.State.FindEntry | djbdns/cache.c:94-122 | following xor links from the head visits the bucket's residents newest first and stops as specified |
| Cache.State.NextPos | djbdns/cache.c:118-120 | the xor of a link with the previous position is the position of the next older entry of the bucket, or 0 |
| Cache.State.Bucket | djbdns/cache.c:65-78 | the hash loop gives a word-aligned position inside the hash area |
| Cache.State.Get4 | djbdns/cache.c:57-63 | reads the word at the position; the call of cache_impossible is dead code |
| CacheRing.SetIsFifo | djbdns/cache.c:142-182 | eviction is first in, first out: after a set the residents are a suffix of the earlier residents followed by the new entry; too large an entry empties the cache; a rejected one changes nothing |
| CacheRing.MakeRoomOk | djbdns/cache.c:144-161 | across wrap-around the ring invariant is kept, only oldest entries go, and room is found exactly if the entry fits a whole cache (how many go is EvictsOnlyAsNeeded) |
| CacheRing.EvictsOnlyAsNeeded | djbdns/cache.c:144-161 | the evictions made for an entry are the first few of the ring's, and after no fewer of them is there room for it |
| CacheRing.SetKeeps | djbdns/cache.c:127-182 | a set keeps all residents but the k oldest, and k is 0 if there is room for the entry and otherwise the least number that makes room; it is refused for a long key, long data or a ttl of 0 |
| CacheRing.RingLaid | djbdns/cache.c:22-30 | the two regions tile into whole entries that do not overlap |
| CacheChains.SetThenGet | djbdns/cache.c:80-182 | a set within the documented sizes is what the next get of its key returns, with what remains of its ttl of at most a week, until that time is over |
| CacheChains.KeepsAll | djbdns/cache.c:127-182 | from an empty cache, sets whose entries take no more than the room there is are all resident, in order, each with its key, data and time |
| CacheChains.EarlierIsAnswered | djbdns/cache.c:80-182 | of sets that all fit each is still answered, if no later one has its key, with its data and the rest of its ttl, if and only if at most 100 later ones are in its bucket |
| CacheChains.BucketIs | djbdns/cache.c:65-78 | the head link of a key is at four times its hash modulo the size of the hash area |
| CacheChains.ScanFinds | djbdns/cache.c:98-122 | scanning a bucket newest first finds the newest entry with the key, exactly if fewer than the limit stand before it |
| CacheMemory.UnlinkedConsistent | djbdns/cache.c:152-153 | removing the tail of one bucket leaves every head, link and body of the other entries right |
| CacheMemory.InsertedConsistent | djbdns/cache.c:163-180 | inserting behind the head leaves every head, link and body right, and adds the new one |
| Domain.Length | djbdns/dns_domain.c:7-16 | the number of bytes of a wire-form name |
| Domain.Equal | djbdns/dns_domain.c:40-49 | true exactly if the names are equal up to the case of ASCII letters |
| Domain.Suffix | djbdns/dns_domain.c:51-61 | true exactly if little is big or one of its ancestors, up to case |
| Domain.SuffixExactly | djbdns/dns_domain.c:51-61 | a name has a suffix if and only if its labels, from one of them on, are that suffix up to case; a match inside a label does not count |
| Domain.SuffixPos | djbdns/dns_domain.c:63-74 | where the first ancestor equal to little begins; 0 if there is none |
| Domain.SuffixRespectsCase | djbdns/dns_domain.c:51-61 | the suffix relation does not depend on the case of either name |
| Domain.CaseDiffB | djbdns/case_diffb.c:3-18 | the loop equals the specified difference of the first bytes that differ after folding |
| Domain.CaseDiffZero | djbdns/case_diffb.c:3-18 | zero exactly for strings equal up to case |
| Domain.CaseDiffSwap | djbdns/case_diffb.c:3-18 | swapping the strings changes the sign |
| Domain.CaseDiffTransitive | djbdns/case_diffb.c:3-18 | the sign is transitive: an order on strings of one length |
| Packet.Copy | djbdns/dns_packet.c:8-16 | copies a slice and returns its end, or 0 exactly if the packet is too short |
| Packet.SkipName | djbdns/dns_packet.c:18-33 | the loop equals its specification |
| Packet.GetName | djbdns/dns_packet.c:35-77 | the decompressing loop, with its step and length limits, equals its specification |
| Packet.GetNameSkipName | djbdns/dns_packet.c:18-77 | wherever getname succeeds, skipname returns the same next position |
| Packet.ChainLimit | djbdns/dns_packet.c:44-61 | a name behind a chain of pointers is read, with the position after the first pointer, if and only if there are at most 998 of them |
| Packet.NameAtIsName | djbdns/dns_packet.c:35-77 | on any packet, a name returned is well formed and at most 255 bytes long |
| Compression.RoundTripExactly | djbdns/response.c:23-50 | a name of any length added by response_addname reads back, equal up to case and ending where the appended bytes end, if and only if it has at most 255 bytes and no pointer of 16384 or more was written for it |
| Compression.AddNameShortest | djbdns/response.c:23-50 | a name is written out up to the first of its suffixes that the table has, and from there on as a pointer to the first place where that was written; its own suffixes of at most 128 bytes are recorded where they were written, as long as the table has fewer than 100 rows, and nothing else is |
| Compression.AddNameFits | djbdns/response.c:15-50 | writing a name succeeds if and only if what is written out of it, with the pointer, fits below 65535 bytes |
| Compression.AddNameEncodes | djbdns/response.c:23-50 | the bytes appended, and every suffix recorded on the way, are valid encodings that only point backwards to bytes that no longer change |
| Compression.EncodedReads | djbdns/dns_packet.c:35-77 | a valid encoding is decoded to its name within the limits of getname, exactly if the name has at most 255 bytes |
| Compression.EncodedSkips | djbdns/dns_packet.c:18-33 | skipping a valid encoding of a name of any length ends where the encoding ends |
| Compression.SecondCopyBeyondLimit | djbdns/response.c:12-36 | a concrete case in which the declared bound on pointers is exceeded and the second copy of a name does not read back |
| Response.WalkVisitsAll | djbdns/dns_packet.c:18-33 | skipping name, ten bytes and the data length visits each record once and ends at the end of the response |
| Response.BuilderReads | djbdns/response.c:15-99 | in every state between records: each name written with a fitting pointer reads back exactly if it has at most 255 bytes, the section counts are those of the records, and a reader visits exactly the records as long as every owner pointer fitted, whatever the lengths of names and whatever is inside the data |
| Response.FarOwner | djbdns/response.c:23-91 | a concrete response whose third record is owned by a name first written at 16384: a reader finds the three records if and only if ttl mod 256 * 256 + length / 256 is the data length + 1 |
| Response.FarRecord | djbdns/response.c:73-91 | behind any response in order, one more record whose owner is a pointer to 16384 or beyond: up to 16639 the reader finds all records exactly if that equation holds, from 32768 on never |
| Response.LastRecordWalks | djbdns/dns_packet.c:18-33 | behind complete records, whatever follows is read as one record exactly if the name and data length found there end at the end of the response |
| Response.Builder.AddBytes | djbdns/response.c:15-21 | appends, or refuses exactly if the 65535 bytes would be exceeded |
| Response.Builder.AddNameBytes | djbdns/response.c:23-50 | the loops over labels and recorded names equal the specification |
| Response.Builder.PutName | djbdns/response.c:23-50 | the same for names of any length; every promise made before is kept, and this name is promised too if its pointer fits |
| Response.Builder.Query | djbdns/response.c:52-62 | a reply with one question: an answer bit, recursion desired and available, not cut off, response code 0, then the name, type and class, no records; it succeeds exactly if they fit |
| Response.Builder.RStart | djbdns/response.c:73-85 | owner, type, class IN, ttl (0 if hidden) and an open data length; it succeeds exactly if they fit, no name promised before is forgotten, and the counts stay right whatever the owner |
| Response.Builder.RFinish | djbdns/response.c:87-91 | the data length is filled in, the record is complete, and its section counts one more, with no condition on pointers |
| Response.Builder.CName | djbdns/response.c:93-99 | a whole CNAME record in the answer section, byte for byte, exactly if it fits; owner and target join the names promised, each if its own pointer fits |
| Response.Builder.NxDomain | djbdns/response.c:101-105 | response code 3, as arithmetic on the flags, and the authoritative bit; everything else, and all names and records, unchanged |
| Response.Builder.ServFail | djbdns/response.c:107-110 | response code 2, as arithmetic on the flags; everything else unchanged |
| Response.Builder.Id | djbdns/response.c:112-115 | the id; everything else unchanged |
| Response.Builder.Tc | djbdns/response.c:117-121 | everything after the question is cut off and the truncation bit is set; the counts stay, so that they are right if and only if there was no record |
| RecordRoundTrip.AnswerRoundTrip | djbdns/response.c:15-99 | what a server writes is what a resolver reads: an answer with any records and response code is written exactly if it fits, and repeats its question; if its pointers fit, the resolver's reader finds, for any name and type, exactly the records about them, in order, up to the case of names, with their data in full and their ttls clamped, and concludes what was meant: an answer, the last alias, a denial or a failure, and never a referral |
| RecordRoundTrip.AnswerRepeats | djbdns/response.c:52-99 | an answer that fits has the one question it was made for, name, type and class, whatever records follow |
| RecordRoundTrip.FlagsFiled | djbdns/query.c:481-497 | of the records in place, whether one answers the query and which alias is the last are what the records written say |
| RecordRoundTrip.WriteAnswer | djbdns/query.c:738-776 | the question and the records one after the other: the bytes of the specification, exactly if they fit, with each record in place |
| RecordRoundTrip.WriteRecord | djbdns/query.c:748-775 | one record, its data part by part; earlier records and names stay where they are |
| RecordRoundTrip.FiledReads | djbdns/query.c:741-746 | a record in place is read with its owner, type, class and data, and the next one begins where it ends |
| RecordRoundTrip.PlacesFiled | djbdns/query.c:481-496 | a reader of the section finds exactly the records in place |
| RecordRoundTrip.GivenFiled | djbdns/query.c:738-776 | of the records in place exactly those about the name and of the type are taken out, in order |
| Heapsort.Sort | djbdns/pickdns-data.c:66-93 | sift to a leaf and back up: for every total preorder the loops end and leave a sorted permutation of the array |
| Heapsort.SiftDown | djbdns/pickdns-data.c:80-87 | the hole moves to a leaf, always towards the larger child |
| Heapsort.SiftUp | djbdns/pickdns-data.c:88-91 | the element moves back up to where the heap order holds |
| Heapsort.RootIsMax | djbdns/pickdns-data.c:79-91 | the root of a heap is at least every other element |
| PickdnsData.AddressOrders | djbdns/pickdns-data.c:54-64 | address_diff gives a total preorder |
| PickdnsData.AddressDiffZero | djbdns/pickdns-data.c:54-64 | zero exactly for equal location and equal name up to case |
| PickdnsData.AddressSort | djbdns/pickdns-data.c:66-93 | sorted by location and name, and a permutation |
| PickdnsData.GroupRecords | djbdns/pickdns-data.c:208-221 | one record per distinct location and name, holding all its addresses in order |
| PickdnsData.RunIsComplete | djbdns/pickdns-data.c:209-212 | in a sorted list the run the inner loop finds is all elements equal to its first |
| PacketRecords.SmallerOrders | djbdns/query.c:130-158 | smaller orders packet positions totally: by type and class, owner length, owner up to case, then place in the packet |
| PacketRecords.Collect | djbdns/query.c:533-540 | succeeds exactly if k records can be read from the position on, and then notes where each begins |
| PacketRecords.PlacesInOrder | djbdns/query.c:533-540 | the places noted are readable, strictly increasing, and each lies where the data of the record before it ends |
| PacketRecords.SortRecords | djbdns/query.c:542-559 | sorted by smaller, and a permutation |
| PacketRecords.RunGroup | djbdns/query.c:572-578 | a run of the grouping loop is the complete set of class-IN records with its type and owner, in packet order |
| PacketRecords.GroupRecords | djbdns/query.c:561-581 | each record belongs to exactly one step, and the groups are complete, disjoint and in packet order |
| PacketRecords.GroupPacket | djbdns/query.c:529-581 | collecting, sorting and grouping together, stated about the packet's own records; it fails exactly if one of them cannot be read |
| DnsTrace.WorkListIsJoin | djbdns/dnstrace.c:129-234 | a row is in the work list, up to case, exactly if it joins a query, a server of a zone around it and an address of that server, and its owner is not the root |
| DnsTrace.OrderDoesNotMatter | djbdns/dnstrace.c:129-234 | the same calls in any order and number lead to the same work list up to case |
| DnsTrace.Replay | djbdns/dnstrace.c:129-234 | after any sequence of calls the lists hold exactly what the calls brought, server addresses included, and the work list has exactly the rows that the calls bring: an asked query below the root, a server of a zone around it, and an address of that server |
| DnsTrace.WorkListIsBrought | djbdns/dnstrace.c:129-234 | a row with its four columns is in the work list, up to case, if and only if calls brought a query, a server of a zone around it and an address of that server with those columns; a server counts as a query for its address |
| DnsTrace.MatchesUpToCase | djbdns/dnstrace.c:167-171 | matching does not depend on the case of names |
| DnsTrace.Lists.QtAdd | djbdns/dnstrace.c:129-149 | appends the row unless it is there up to case or belongs to the root |
| DnsTrace.Lists.QueryAdd | djbdns/dnstrace.c:151-172 | a new query joins everything known; the work list stays the join without repeats |
| DnsTrace.Lists.NsAdd | djbdns/dnstrace.c:174-204 | a new server is asked for and joins everything known |
| DnsTrace.Lists.AddressAdd | djbdns/dnstrace.c:206-234 | a new address joins everything known |
| TinyDns.CompileAndFind | djbdns/tinydns-data.c:128-160 | compiling any records and looking a name up gives, in file order, the records with that lower-cased owner, wildcard flag, location and time window, up to the first under the name that is over 32767 bytes; the lookup ends without failure if and only if there is none |
| TinyDns.ReachAll | djbdns/tdlookup.c:57-60 | the lookup gets to the end of the records if and only if none under the name is over 32767 bytes |
| TinyDns.LongRecordFails | djbdns/tdlookup.c:57-60 | a concrete record, with 32767 bytes of data, that is stored and makes the lookup fail |
| TinyDns.CompiledAnswers | djbdns/tdlookup.c:46-88 | the same as a statement about the data stored under a key: all of it is readable if and only if no record under the name is over 32767 bytes, and the answers are those of the records up to the first such record |
| TinyDns.InspectWritten | djbdns/tdlookup.c:62-86 | decoding inverts encoding: type and data come back, and the record is wanted exactly by location, wildcard flag and time; the ttl is the record's own, but if that is zero and there is a time stamp, what is left until then, at least 2 and at most 3600 |
| TinyDns.OneMoreAnswered | djbdns/tdlookup.c:46-88 | one more record in the data file adds to the answers its type, ttl and data if it is owned by the name asked for, or by the wildcard above it as the flag says, and is in its location and its time; otherwise nothing |
| TinyDns.DataParts | djbdns/tinydns-data.c:136-160 | the stored form: type, the mark = or > with the location, or * or + for a wildcard, then ttl, time stamp and data |
| TinyDns.Find | djbdns/tdlookup.c:46-88 | the loop returns the first wanted record still to come, 0 if there is none, -1 at an unreadable one |
| TinyDns.InspectData | djbdns/tdlookup.c:62-86 | the decoding steps equal their specification on any bytes |
| TinyDns.FindAll | djbdns/tdlookup.c:46-88 | calling find until it returns 0 or -1 gives all answers up to the first unreadable record, and 0 comes at the end exactly if there is none |
| TinyDns.Compiler.RrStart | djbdns/tinydns-data.c:136-149 | type, location mark, ttl and time stamp in the stored form |
| TinyDns.Compiler.RrAddName | djbdns/tinydns-data.c:132-135 | appends exactly the name |
| TinyDns.Compiler.RrFinish | djbdns/tinydns-data.c:150-160 | strips a wildcard label, marks the record, lower-cases the key and adds the record to the database |
| RandomIp.SameAddress | djbdns/random-ip.c:47-62 | two counters give the same address if and only if they agree modulo the number of settings of the free bytes |
| RandomIp.Addresses | djbdns/random-ip.c:40-76 | the addresses printed are pairwise different if and only if a byte is fixed or at most 2^32 are asked for |
| RandomIp.Shuffle | djbdns/random-ip.c:25-31 | for every outcome of the random draws the table is a permutation of 0..255 |
| RandomIp.ChainedPassInjective | djbdns/random-ip.c:56-60 | a pass whose carry is the last byte can be undone when at least two bytes are free |
| RandomIp.PassesInjective | djbdns/random-ip.c:54-61 | any number of passes, the first entered with carry 0, can be undone |
| RandomIp.SpreadEqual | djbdns/random-ip.c:47-48 | the counter's bytes determine it modulo the number of settings |
| RandomIp.Mix | djbdns/random-ip.c:54-61 | the two loops do 100 passes in place |
| RandomIp.Clamp | djbdns/random-ip.c:40-43 | the limit on the number of addresses |
| DotText.DotRoundTrip | djbdns/dns_dtda.c:4-35 | the text written for a name reads back as the name in lower case, exactly if the name has at most 255 bytes |
| DotText.ParseText | djbdns/dns_dfd.c:6-63 | the loop accepts exactly the texts whose labels have at most 63 bytes and whose wire form has at most 255, and produces that wire form |
| DotText.FromDot | djbdns/dns_dfd.c:6-69 | the parse of the text, unless there is no memory; a result is a well-formed name of at most 255 bytes, whatever the text |
| DotText.ParsedIsName | djbdns/dns_dfd.c:6-69 | every successful parse is a well-formed name of at most 255 bytes |
| DotText.ReadEscape | djbdns/dns_dfd.c:30-46 | one to three octal digits, modulo 256, or the byte itself |
| DotText.EscapesMean | djbdns/dns_dfd.c:30-46 | a backslash before one, two or three octal digits is that byte modulo 256, and the digits end at the first byte that is none; before any other byte it is that byte |
| DotText.LabelsBetweenDots | djbdns/dns_dfd.c:17-28 | a dot ends a label, and an empty label does not count |
| DotText.TextOfPlain | djbdns/dns_dtda.c:4-35 | the text of a name of letters, digits, hyphens and underscores is its labels in lower case with dots between them, unescaped |
| DotText.TextPrintable | djbdns/dns_dtda.c:19-31 | whatever bytes a name has, its text has small letters, digits, hyphens, underscores, dots and backslashes only |
| DotText.ToDotCat | djbdns/dns_dtda.c:4-35 | appends the text of the name |
| DotText.LabelsOfText | djbdns/dns_dtda.c:14-34 | the labels of the text written are the lower-cased labels of the name |
| Buffer.AllWrite | djbdns/buffer_put.c:6-21 | on success every byte reaches the file in order, however writes are split or interrupted; on failure a prefix does |
| Buffer.OutBuffer.Flush | djbdns/buffer_put.c:23-31 | everything held is written |
| Buffer.OutBuffer.PutAlign | djbdns/buffer_put.c:33-45 | bytes written followed by bytes held are the concatenation of all puts |
| Buffer.OutBuffer.Put | djbdns/buffer_put.c:47-67 | the same, with large strings going past the buffer |
| Buffer.OutBuffer.PutFlush | djbdns/buffer_put.c:69-73 | everything put so far has been written |
| InBuffer.InBuffer.Feed | djbdns/buffer_get.c:25-36 | the bytes still to come do not change, p + n stays constant, and something is held unless there was a failure or the end |
| InBuffer.InBuffer.Get | djbdns/buffer_get.c:48-56 | takes the next bytes in order; none only for length 0 or at the end |
| InBuffer.InBuffer.BGet | djbdns/buffer_get.c:38-46 | the same with reads of one buffer full |
| InBuffer.InBuffer.ShiftRight | djbdns/buffer_get.c:34-34 | the overlapping copy moves the bytes read to the end of the buffer |
| InBuffer.InBuffer.Seek | djbdns/buffer_get.c:63-67 | drops held bytes |
| Getln.Getln2 | djbdns/getln2.c:4-24 | the first line in two parts, or everything left without a separator; nothing is lost on failure |
| Getln.NextLine | djbdns/getln.c:4-14 | the next line, or the rest without a separator, however the reader delivers the data |
| Getln.ReadLines | djbdns/getln.c:4-14 | reading to the end gives the lines of the data |
| Getln.LinesAreData | djbdns/getln2.c:13-23 | the lines are the data cut after each separator and nowhere else |
| Transmit.Transmit.Get | djbdns/dns_transmit.c:241-366 | one event: while it returns 0 the attempt number never falls, never returns from TCP to UDP, and rises at each timeout; the log of connections only grows, and over TCP its UDP part stays; 1 leaves only a packet that answers the question; -1 leaves nothing, and only after every server was tried or a resource failed |
| Transmit.Transmit.Start | djbdns/dns_transmit.c:196-222 | the query, which a reader of messages finds to ask for just this name and type, and the first attempt, over TCP exactly if it exceeds 512 bytes; it succeeds exactly if there is memory and the first attempt not passed over has its socket |
| Transmit.Transmit.Resolve | djbdns/dns_resolve.c:8-29 | for any finite sequence of wake-ups it ends with a packet that repeats the question asked, is not cut off and reports no failure, or fails leaving nothing open or allocated, or still waits, then after fewer than 64 timeouts; the question was for just this name and type, with recursion |
| Transmit.QueryReads | djbdns/dns_transmit.c:207-212 | a reader of messages finds in the query, behind its length, one question for the name, the type wanted and class IN, the recursion bit as wanted, no other flag and no record |
| Transmit.AskedRight | djbdns/dns_transmit.c:196-222 | in every state that waits for a reply the query is such a message for the name and type asked for, and a packet that gives it back is about it |
| Transmit.RelevantExactly | djbdns/dns_transmit.c:32-53 | a packet is taken to be about the query if and only if a reader finds the query's id in it and the same one question, name up to case; it is accepted if and only if it is moreover not cut off and has response code 0 or 3 |
| Transmit.NeverRelevant | djbdns/dns_transmit.c:43-47 | a query for a name of over 255 bytes is sent, but no packet answers it |
| Transmit.ReactionMeans | djbdns/dns_transmit.c:258-284 | what is done about a datagram depends only on its length, memory, the round, and what a reader finds in it: kept if it replies, TCP if it is cut off, the next server if it reports a failure outside round 2 or receiving failed, ignored otherwise |
| Transmit.RunIsOrdered | djbdns/dns_transmit.c:97-194 | in every run each (round, server) pair and each TCP server is tried at most once, no known server is passed over, and no UDP attempt follows a TCP attempt |
| Transmit.RunContacts | djbdns/dns_transmit.c:103-182 | the connections of a run go to the addresses in the slots, in order and round after round, over UDP and then over TCP, and to no empty slot |
| Transmit.PlanExact | djbdns/dns_transmit.c:103-130 | a plan holds each known attempt of its range exactly once, in order |
| Transmit.Transmit.ThisUdp | djbdns/dns_transmit.c:97-133 | goes on to the first UDP attempt that is not passed over (empty slot, or not sent): there the query waits for a reply, for 1, 3, 11 or 45 seconds by the round, or a socket could not be had |
| Transmit.Transmit.ThisTcp | djbdns/dns_transmit.c:147-182 | the same for TCP: the first attempt not passed over is connected or under way |
| Transmit.Transmit.TryUdp | djbdns/dns_transmit.c:104-126 | one server: a new id, a new socket, closed again if the query is not sent |
| Transmit.Transmit.TryTcp | djbdns/dns_transmit.c:155-178 | one server: a connection made at once is written to from pos on, wherever that is |
| Transmit.Transmit.GetUdp | djbdns/dns_transmit.c:258-284 | irrelevant packets are ignored, truncated answers lead to TCP, failures to the next server (in round 2 the others get their time), and exactly the rest is kept |
| Transmit.Transmit.GetConnected | djbdns/dns_transmit.c:286-295 | a connection starts the query at its first byte; a failure leads to the next server |
| Transmit.Transmit.GetLength | djbdns/dns_transmit.c:315-342 | the two bytes of the length, most significant first |
| Transmit.Transmit.GetWritable | djbdns/dns_transmit.c:297-313 | n bytes go out; a reply is awaited exactly when the position has come to the end of the query, if need be by passing 2^32; before that point the bytes are those of the query from where writing began |
| Transmit.Transmit.GetReadable | djbdns/dns_transmit.c:344-363 | the packet kept is exactly the bytes read from the connection; when it is complete it is kept exactly if it answers the query, is not truncated and reports no failure |
| Transmit.Transmit.Irrelevant | djbdns/dns_transmit.c:32-53 | exactly the packets without the query's id and its one question are irrelevant, apart from want of memory |
| Transmit.WholeQuerySent | djbdns/dns_transmit.c:165-175 | in every state in which a reply is awaited over TCP, the bytes written are the whole query if and only if writing began at its first byte; begun within the query it is the rest, begun beyond it it is more bytes than the query has |
| Transmit.StaleRun | djbdns/dns_transmit.c:97-342 | a run that ends otherwise: truncated UDP reply, k bytes written, timeout, next connection made at once; the reply is awaited after bytes k on alone, for each k from 1 to 18 |
| Transmit.StaleBeyond | djbdns/dns_transmit.c:147-363 | a run in which writing begins beyond the query: the first server sends m bytes of a longer reply and times out, the next connection is made at once |
| Transmit.Transmit.Timeout | djbdns/dns_transmit.c:247-252 | the next attempt on the same transport that is not passed over, if any |
| Resolver.Query.Run | djbdns/query.c:821-846 | a whole query, for any finite sequence of wake-ups: an answer is the question asked, the chain of aliases from it, each of which the cache or a packet heard during the query gives for the name before it, and then what its basis, likewise heard, gives: the records of a local name, of the cache or of a packet that repeats the question, that there is no such name only if the cache or such a packet denies it, and a failure only if no server is left or none could be reached; being given up has a reason that holds; both leave nothing open or allocated, and otherwise it still waits, after fewer than 40500 timeouts |
| Resolver.Query.Doit | djbdns/query.c:160-819 | every call ends; 0 means that (100 - loop, level) has become smaller lexicographically and a transmission for this level's name is under way; 1 means an answer with a basis, -1 a reason: memory, room, turns, aliases, servers, or bytes that cannot be read; both leave nothing allocated |
| Resolver.Query.StepNewName | djbdns/query.c:205-411 | the 100th turn is the end; otherwise names that stand for addresses, then the cache, then the closest zone whose servers are known, each with its outcome and with the only reasons for giving up |
| Resolver.Query.Literal | djbdns/query.c:211-241 | exactly localhost, dotted addresses and the name of 127.0.0.1 need no asking; at level 0 the response is the preface and the one record, if its type is wanted, or there is no room; above, the address goes to the first empty server slot of the level below |
| Resolver.Query.Cached | djbdns/query.c:243-375 | a name over 255 bytes is not looked up; a cached denial, then a cached alias, then usable data of a type wanted decides; the response is then the preface and exactly the records that the data stands for, unless there is no room or memory or the data is damaged |
| Resolver.Query.AddServers | djbdns/query.c:328-336 | each address of the answer goes into the first empty slot of the level below, as long as there is one |
| Resolver.Query.FindZone | djbdns/query.c:377-411 | the closest enclosing zone that the configuration knows, or the cache where it may be used, comes under control with its addresses or its first 16 server names; the query is given up if there is none, or for want of memory for the names |
| Resolver.Query.StepHaveNs | djbdns/query.c:414-440 | if the row has a server name and there is a level above, that name is resolved there, memory permitting; otherwise, with no address known the query has failed, and with some they are put in random order and asked, or no attempt gets through |
| Resolver.Query.NextServerName | djbdns/query.c:415-424 | the first name of the row moves one level up; at the top level all are dropped |
| Resolver.Query.StepLowerLevel | djbdns/query.c:443-448 | entered above level 0 only; that level's names are freed, the level below keeps its own |
| Resolver.Query.StepHavePacket | djbdns/query.c:451-804 | the bytes of the packet decide: the lame server is struck off, or an alias is followed, a denial passed on, the records asked for are answered exactly, their addresses used below, or the referral followed strictly down to exactly the servers it names; giving up has its reason in the same bytes, or in turns, memory or room; nothing outside the zone under control is learnt |
| Resolver.Query.UseScan | djbdns/query.c:519-804 | a packet with nothing but a referral that does not lead strictly down from the zone under control always strikes off the server that sent it; any other is learnt from, if it can be, and settles what comes next |
| Resolver.Query.Conclude | djbdns/query.c:674-804 | the last alias or a denial always; else the answer, the addresses for the level below, or the referral, in this order, with the contents read from the packet, or the reason in it why not |
| Resolver.Query.Refer | djbdns/query.c:783-804 | the zone of the referral, strictly below the old one, comes under control with exactly the first 16 servers that the authority section names for it, unless one cannot be read, there is no memory, or the name is not inside that zone |
| Resolver.Query.StepNxDomain | djbdns/query.c:695-701 | above level 0 the level below goes on; at level 0 the response is the preface and that there is no such name |
| Resolver.Query.StepServFail | djbdns/query.c:807-813 | above level 0 the level below goes on; at level 0 the response is the preface and that it failed |
| Resolver.Query.Answer | djbdns/query.c:218-240 | the response is the preface, then at most one record and perhaps a code, and nothing stays allocated |
| Resolver.Query.AnswerPacket | djbdns/query.c:736-780 | the response is the preface, then exactly the records of the answer section about this name, of class IN and the type asked for, in packet order with their data in full; it is given up only for want of room, or if one of them cannot be read |
| Resolver.Query.AnswerCached | djbdns/query.c:263-372 | the response is the preface, then one record for each name, exchange, address or string in the cached data; it is given up only for want of room, or if the data is damaged |
| Resolver.Query.AddAnswers | djbdns/query.c:718-733 | exactly the addresses of the name in the answer section go, in order, into the empty slots of the level below; it fails only if one of them is cut off |
| Resolver.Query.TakeRecords | djbdns/query.c:528-671 | the records are put into the cache, each owned by a name in the zone under control that is served by the same servers, and their list is freed again; otherwise there was no memory, or a record that was needed could not be read |
| PacketCache.LearnPacket | djbdns/query.c:533-669 | every group of records of class IN that is believed goes into the cache (LearntExactly says what that comes to); it fails exactly if a record cannot be collected or one that is needed cannot be read |
| PacketCache.LearntExactly | djbdns/query.c:561-669 | something is learnt if and only if it comes from a group whose owner is in the zone under control and served by the same servers: with the group's type, owner and data, and the ttl of its first record, as long as the data has at most 8192 bytes |
| PacketCache.LearntInZone | djbdns/query.c:580-581 | whatever is learnt is owned by a name in the zone under control that is served by the same servers |
| PacketCache.LearntUnless | djbdns/query.c:583-669 | nothing is learnt if and only if a record that is needed in such a group cannot be read |
| PacketCache.DatasEach | djbdns/query.c:606-668 | the data of a group is that of each of its records, in order |
| PacketCache.ShortAddress | djbdns/query.c:643-647 | an address of another length than four bytes is passed over |
| PacketCache.Learn | djbdns/query.c:583-668 | one group: of aliases the last, of addresses those of four bytes, of the other types all data one behind the other; nothing if they exceed 8192 bytes |
| PacketCache.SaveAll | djbdns/query.c:38-60 | the buffer holds the data of all records so far, or it has overflowed |
| PacketCache.LearntIsAnswered | djbdns/query.c:263-372 | what is learnt from a packet is what is answered from the cache: one record for each record of the group, in packet order, with the same data |
| PacketCache.StoredBack | djbdns/query.c:263-372 | data kept in the cache as one string, of any type, is given out as it came |
| PacketCache.AliasLearnt | djbdns/query.c:599-604 | what is kept for an alias is the target of the last one in the packet |
| Packet.PlainReads | djbdns/dns_packet.c:35-77 | a name written out in full reads back as it is, to the byte |
| QueryData.ScanPacket | djbdns/query.c:461-517 | reading the two sections gives the response code and the flags that the records in them define, and fails exactly if they cannot be read or memory runs out, and says which |
| QueryData.ScanAnswers | djbdns/query.c:481-497 | whether a record answers the query, and where the last alias leads |
| QueryData.ScanAuthority | djbdns/query.c:499-517 | the owner of the last NS record, and whether there is an SOA record |
| QueryData.ScanMeans | djbdns/query.c:461-517 | the flags say what the records say, each read by itself: whether there is a record of class IN about the name and of the type asked for, an alias of it, an NS or an SOA record |
| QueryData.LastAliasIs | djbdns/query.c:487-492 | the alias followed is the last one of the section, with its own target and ttl |
| QueryData.LastZoneIs | djbdns/query.c:508-511 | the referral is to the owner of the last NS record |
| QueryData.AddressesExactly | djbdns/query.c:718-733 | an address is taken over if and only if it is the data, of four bytes, of an address record of class IN about the name |
| QueryData.ServersExactly | djbdns/query.c:792-803 | a server is taken over only if an NS record of the zone names it, and always if fewer than 16 are |
| QueryData.Dd | djbdns/dd.c:4-35 | the loop over labels and digits equals its specification |
| QueryData.DottedExact | djbdns/dd.c:4-35 | a name is read as an address if and only if it is that address written in decimal without leading zeros |
| QueryData.DataExactly | djbdns/query.c:750-772 | the data read for a record is, in the shape of its type, what lies in the packet from there on; and where there is data of that shape, it is read |
| Resolver.AcceptedHeader | djbdns/query.c:470-479 | no packet that the transmission accepts has another response code or lacks a question, as the code's comment says |
| Resolver.Query.StepCname | djbdns/query.c:674-689 | at level 0 the chain of aliases grows by the new name and ttl; the 17th alias is refused always, and others only for want of memory |
| Resolver.Query.Rqa | djbdns/query.c:94-111 | the response begins with the name first asked for and one CNAME record per step of the chain, in order, each with its ttl |
| Resolver.Query.Start | djbdns/query.c:821-835 | refuses zone transfers without touching anything, and otherwise clears the query and begins at level 0 with the name asked for |
| Resolver.Query.Get | djbdns/query.c:837-846 | one event; without one, time passing still moves the transmission on; a packet that comes through repeats the question for the name and type of this level |
| Resolver.Query.Cleanup | djbdns/query.c:79-92 | every name, server name, alias and transmission is released |
| Resolver.Query.StepDie | djbdns/query.c:815-818 | cleanup, and the record list is freed; the reason is kept |
| Resolver.SuffixLonger | djbdns/query.c:519-524 | a proper ancestor is shorter, so referrals below the zone cannot go on for ever |
| ResolverMeaning.ClosestZone | djbdns/query.c:377-411 | the zone chosen is the first, label by label from the name up, whose servers are configured, or in the cache where that may be used; none is chosen only if there is none |
| ResolverMeaning.AddedFirst | djbdns/query.c:212-217 | an address goes into the first empty slot, and only there; without one nothing changes |
| ResolverMeaning.LocalMeans | djbdns/query.c:211-241 | the records of local names, byte for byte: localhost, an address in decimal, and the name of 127.0.0.1, with a ttl of 655360, if their type is wanted |
| ResolverMeaning.WaitsFor | djbdns/query.c:429-440 | whenever a query waits for a reply, its message asks for just the name of its level, with the type asked for at level 0 and for addresses above, and it is put to the servers of that level |
| ResolverMeaning.PrefaceIs | djbdns/query.c:94-111 | the preface is the question and one alias for each step of the chain, from each name to the next |
| ResolverMeaning.HitMeans | djbdns/query.c:263-372 | cached data of just the type asked for is used; if everything is asked for, data of one of four types that is not empty |
| ResolverMeaning.ClearedOnly | djbdns/query.c:519-524 | striking off a server empties its slot and no other |
| Resolver.SortIp | djbdns/dns_sortip.c:7-19 | some order of the same addresses |

## Left out

- The Python code of UnitTenX and the statistics scripts: language-model calls, subprocesses and text scraping.
- The programs around the core (`*-conf`, servers' main loops, logging, signals, environment, installation): input and output only.
- `djbdns/query.c`, the denials put into the cache (693 and 703-711): they are not among what `Resolver.Query.TakeRecords` notes.
- Resolver.Query.AnyKnowledge: what the configuration (`roots.c`) and the cache know about the name and its ancestors is arbitrary, as is what the cache holds for the name in `AnyView`.
- Resolver.Query.AnyName: the target of a cached alias is taken as a well-formed name; that only `query.c` writes the cache is not shown. Names from packets are proved to be well formed (`Packet.NameAtIsName`).
- The pointers `control` and `servers` of `query.c` and `dns_transmit.c` are an offset and a copy in the model; that `control` stays inside a live name is proved (`Controls`), aliasing of the server array is not modelled.
- The arrays `name`, `ns`, `alias` and `servers` of `struct query` are sequences that the methods reassign; the static names `t1`, `t2`, `t3`, `cname` and `referral`, which live as long as the program, are local values.
- Transmit.Transmit.GetWritable: when writing began beyond the end of the query, how much is written is stated but the bytes are arbitrary, since the code then reads outside the query.
- Resolver.Query.Respond: whether a record fits into the response is arbitrary, and noted in `full`; `RecordRoundTrip.dfy` has the exact condition and the bytes.
- Transmit.Transmit.Resolve: a run is followed for any finite number of wake-ups; a peer that sends irrelevant packets for ever keeps the loop going for ever. The same holds for `Resolver.Query.Run`.
- Buffer.AllWrite: interrupted and empty writes are finitely many, by a budget in `File`; a descriptor that takes nothing for ever keeps the loop going. The same holds for interrupted reads in `InBuffer.InBuffer.OneRead`.
- InBuffer.InBuffer.Feed: a read of no bytes is taken as the end of the data.
- The handling of `response_len` around `response_tc` in the servers' main loops.
- Cdb.Reader.Read: the mapped case of `cdb_read`; the case that seeks and reads the descriptor is left out.
- CdbMake.Maker.Add: keys and data shorter than 2^32 bytes, as their lengths are 32-bit arguments in the code.
- `struct cdb_hplist` is a sequence of blocks, newest first; `count`, `start` and `final` of `struct cdb_make` are arrays local to `Finish`.
- Heapsort.Sort: one generic method for both programs. `pickdns-data.c` tests `address_diff(&t,&z[p]) > 0` where the method asks whether the parent is less; `PickdnsData.AddressDiffSwap` shows that to be the same.
- PacketCache.Believed: `roots_same` (`query.c:581`) is a set of owner names, which is arbitrary.
- TinyDns.CompileAndFind: parsing of the data file's lines, and the searches of `tdlookup.c`'s `doit` for NS, SOA and wildcard owners, which call `find`; types, ttls and data come as arguments.
- DnsTrace.Lists.NsAdd: the lines printed for each new record.
- RandomIp.Addresses: printing, and the parsing of the command line into given bytes and a count.
- `alloc.c`: allocation gives fresh memory or fails; its static arena is left out.
- `char` is taken as unsigned throughout, as the comparisons in the modelled code are on ASCII characters or through casts.
- Cache.State.Set: the current time is an argument; `cache_motion`, a statistic, is kept but nothing is said about it.
