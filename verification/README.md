# Verified model of the RPC-MT server library

RPC-MT serves Sun RPC requests from several threads.  This project models the parts of
`src/librpc` that carry its hard guarantees, as Dafny classes that change their fields
and arrays the way the C code does, and proves what those parts promise.

* **Record marking** (`Fragments`, `RecordWriter`, `RecordReader`, `RecordRoundTrip`):
  section 11 of RFC 5531.  `Fragments` says on values what a wire is and what a byte
  stream contains; the writer and the reader are proved against it, and then against
  each other.
* **XDR** (`XdrData`, `XdrCodec`, `XdrLayout`, `XdrStreams`, `XdrFilters`, `XdrEndToEnd`): section 4
  of RFC 4506.  Types and values are data; the filters run over the memory, the
  counting and the record stream through one interface.
* **The UDP reply cache** (`ReplyCache`, `ReplyRuns`): a chained hash table and a circular
  list over the same nodes, proved to be a list of bounded length, the ownership of the
  reply buffers it swaps, and, over whole runs, which call a cached reply really answers.
* **The transport registry** (`RegistrySpec`, `RegistryInv`, `RegistryGc`,
  `RegistryShutdown`, `RegistrySockets`, `RegistryRuns`, `Registry`): ids, sockets, poll slots, reference
  counts, the garbage collector and shutdown, as a state machine on values and as the
  tables and scans that implement it.
* **The callout list** (`Callouts`): registration of services and matching of requests.

## What holds, and what does not

Four properties one might expect turn out to need a condition, and the project proves
the exact one.

* A word put away from a word position can close an empty fragment in the middle of a
  record, the one header the reader refuses.  `Writer.PutLong` says exactly when that
  happens, and `RoundTrip` that a script of puts loses records exactly when it happens;
  `StrandedRun` is an example; `DisciplinedNeverStrands` shows that XDR data never does it.
* `cache_set` files a reply under the call saved at the last miss, and `cache_get` looks
  the saved call up, neither using the call being served.  `RunsServeRightIff` says over
  any run exactly when every reply is filed under the call it answers and every hit answers
  its request: every reply must be prompt, cached while the saved call is still the one it
  answers, and every request settled, carrying the saved call or finding nothing under its
  id and the saved call.  `StaleRun` and `CrossedRun` are examples of the two ways to fail.
  `UniqueIdsAnswerRight` shows that a wrong answer takes two calls with one transaction id,
  and `SequentialServesRightIff` reads the condition off the list of requests for a server
  that takes one at a time.  `Drive` ties all this to the bytes the cache resends.
* When a socket is taken over from a transport that has returned, reaping that transport
  later clears the socket entry and the poll slot of its successor, and `check_xports`
  fails.  A takeover alone does no harm: `RunsPassIff` says over any run that the check
  passes in every state, and every master stays polled, exactly when no pass removes a
  master that shares a socket with one it leaves; `RemovalDisturbsIff` and
  `PassDisturbsIff` say it for one removal and one pass; `ReuseOrphansAMaster` is an example.
* `xprt_unregister` of a master that still has clones leaves them without a parent.
  `UnregisterOrphansClones` says exactly when and `OrphanedClone` is an example; the
  collector and the shutdown never do it.

## Assumptions

* The connection delivers a finite stream.  A read that fails is fatal for the
  connection (`svc_tcp.c:677-680`), so the stream ends where reading fails.  A system
  call that writes takes at least one byte or fails.
* Buffer sizes are below 2^31.  The size of a reply cache is positive, and four times it
  is below 2^32, because a bucket index is kept in 32 bits.
* At least one transport has been registered before a scan of the ids: until then the
  largest id is an unsigned -1 (`src/librpc/svc.c:1523`), which every id is below.
* The two id sets behave as `src/librpc/bitvec.h:62-88` says.  The index arithmetic in
  `src/librpc/bitvec.c:39` and `src/librpc/bitvec.c:72-73` does not give distinct ids
  distinct bits, so this is an assumption about a corrected bit vector.
* A locked region is one step, a cache operation is one step, and `svc_die` ends the run.
* Memory is always allocated.  Streams report failure instead of dying.
* A pointer to a transport is its id.  The invariant shows that every stored id is that
  of a live transport, so the two cannot come apart.

## Model

| member | source | states |
|---|---|---|
| `Bytes.FromNetOfToNet` | src/librpc/xdr_rec.c:214-257 | ntohl undoes htonl on every 32-bit word |
| `Bytes.ToNetOfFromNet` | src/librpc/xdr_rec.c:214-257 | htonl undoes ntohl on every four bytes |
| `Bytes.NetIsBigEndian` | src/librpc/xdr_rec.c:214-257 | a word and its four bytes on the wire are the same number, most significant byte first |
| `Bytes.NetOrder` | src/librpc/xdr_rec.c:214-257 | words compare exactly as their bytes on the wire do, one after another |
| `Fragments.WireReadsBack` | src/librpc/xdr_rec.c:572-653 | a reader of the wire of any fragment list gets exactly the records the fragments assemble to, up to the first empty fragment that is not last; with none of those it gets all of them |
| `Fragments.ParseFragment` | src/librpc/xdr_rec.c:627-653 | a fragment at the head of a stream is read as itself: its data, and then the end of the record or the next fragment |
| `Fragments.ParseCutShort` | src/librpc/xdr_rec.c:598-619 | of a stream that ends inside a fragment a reader still gets the bytes that came, and no complete record |
| `Fragments.ParseStranded` | src/librpc/xdr_rec.c:648-650 | an empty fragment that is not last is the header that stops every reader |
| `Fragments.ParseTake` | src/librpc/xdr_rec.c:265-291 | consuming bytes of a fragment leaves exactly the rest of the record and what follows it |
| `Fragments.ParseHeader` | src/librpc/xdr_rec.c:627-653 | reading a header on the way does not change what the record still holds |
| `Fragments.FragmentLayout` | src/librpc/xdr_rec.c:554-557 | a fragment is four bytes of header and its data; the top bit of the first byte is set exactly when it is the last, the other 31 bits are the length |
| `Fragments.WireAppend` | src/librpc/xdr_rec.c:549-564 | closing a fragment appends its header and data to the wire |
| `Fragments.AssembleAppend` | src/librpc/xdr_rec.c:528-543 | closing a last fragment completes a record; closing another one extends the open record |
| `Fragments.ReadableAppend` | src/librpc/xdr_rec.c:648-650 | a wire stays readable exactly when no empty middle fragment is added |
| `Fragments.ReadablePrefix` | src/librpc/xdr_rec.c:648-650 | the fragments a reader gets through end before the first empty middle fragment |
| `Fragments.ParseMore` | src/librpc/xdr_rec.c:572-653 | bytes that arrive later do not change a record that is already complete |
| `Fragments.RecordsMore` | src/librpc/xdr_rec.c:572-653 | the records seen in a prefix of a stream are a prefix of the records in the stream |
| `Fragments.SeenRecords` | src/librpc/xdr_rec.c:549-564 | a receiver that has any part of a wire sees only records the fragments complete, in order |
| `Fragments.OneRecordForEachLast` | src/librpc/xdr_rec.c:528-543 | a fragment list completes exactly one record for each last fragment |
| `Fragments.ReadsBackIff` | src/librpc/xdr_rec.c:648-650 | a wire that ends with a whole record reads back completely if and only if it holds no empty middle fragment |
| `RecordWriter.FixBufSize` | src/librpc/xdr_rec.c:682-690 | buffer sizes are whole words, 4000 for requests below 100, else the request rounded up |
| `RecordWriter.Link.Write` | src/librpc/svc_tcp.c:701-729 | the write callback sends everything, or reports -1 on a dead connection after some prefix of it; on a reliable connection it cannot fail |
| `RecordWriter.Writer.constructor` | src/librpc/xdr_rec.c:143-207 | a new stream has sent nothing, has no record open and satisfies the writer invariant |
| `RecordWriter.Writer.Patch` | src/librpc/xdr_rec.c:554-557 | patching the header makes the buffer hold the whole fragment and nothing else changes |
| `RecordWriter.Writer.FlushOut` | src/librpc/xdr_rec.c:549-564 | on success the wire is the old fragments and the one closed; on failure the receiver can still see only records that were ended |
| `RecordWriter.Writer.Spill` | src/librpc/xdr_rec.c:242-254 | flushing in the middle of a record keeps the invariant and the record; it strands an empty fragment exactly when the fragment had no data |
| `RecordWriter.Writer.PutLong` | src/librpc/xdr_rec.c:236-257 | the word is appended to the current record, the invariant kept and the fingers end where the buffer size says; the wire stays readable exactly when the put did not start with an empty fragment and less than a word of room; only a broken connection makes it fail |
| `RecordWriter.Writer.PutChunk` | src/librpc/xdr_rec.c:299-305 | bytes that fit are appended to the current record in place |
| `RecordWriter.Writer.PutBytes` | src/librpc/xdr_rec.c:293-313 | bytes of any length are appended to the current record across any number of flushes, and the fingers end where the buffer size says; the wire stays readable; bytes that fit are not sent |
| `RecordWriter.Writer.EndOfRecord` | src/librpc/xdr_rec.c:528-543 | the current record becomes the last finished one; it is sent at once when that is asked, when part of it was sent before, or when there is no room for another header, and else left batched with nothing sent; a failed send never shows the receiver anything else |
| `RecordWriter.OnlyFinishedRecordsAreSeen` | src/librpc/xdr_rec.c:236-313 | in every state of the writer the receiver can see only a prefix of the records ended so far |
| `RecordWriter.AlignedNeverStrands` | src/librpc/xdr_rec.c:242-254 | at a word position a word put never strands an empty fragment |
| `RecordWriter.FlushedReadsBackIff` | src/librpc/xdr_rec.c:528-564 | what a flushed writer has sent reads back as exactly the records it ended if and only if no empty middle fragment was sent |
| `RecordReader.Feed.Read` | src/librpc/svc_tcp.c:660-679 | the read callback delivers between 1 and len bytes, or -1 at the end of the stream |
| `RecordReader.Reader.constructor` | src/librpc/xdr_rec.c:197-206 | a new reader is at the end of an imaginary record, before the whole stream |
| `RecordReader.Reader.FillInputBuf` | src/librpc/xdr_rec.c:572-590 | a refill changes nothing of the stream ahead and keeps the buffer congruent to the stream position modulo 4; it fails exactly at the end of the stream |
| `RecordReader.Reader.GetInputBytes` | src/librpc/xdr_rec.c:598-619 | the next bytes of the stream, whatever the chunks; fails exactly when there are too few |
| `RecordReader.Reader.SkipInputBytes` | src/librpc/xdr_rec.c:661-680 | the same for skipping |
| `RecordReader.Reader.SetInputFragment` | src/librpc/xdr_rec.c:627-653 | the header is consumed and the record still holds the same bytes; fails only where nothing more of the record can be had |
| `RecordReader.Reader.GetBytes` | src/librpc/xdr_rec.c:265-291 | succeeds exactly when the record still has that many bytes, returns exactly those, leaves the bytes after the record alone, and ends in a place fixed by the old one |
| `RecordReader.Reader.GetLong` | src/librpc/xdr_rec.c:214-234 | the same contract and the same place for the in-place fast path as for the four-byte slow path |
| `RecordReader.Reader.ToEndOfRecord` | src/librpc/xdr_rec.c:484-492 | discarding the rest of a record succeeds exactly when the record is complete and stops right after it |
| `RecordReader.Reader.SkipRecord` | src/librpc/xdr_rec.c:479-495 | from any place skipping ends at the start of the next record, exactly when the current one is complete |
| `RecordReader.Reader.Eof` | src/librpc/xdr_rec.c:502-520 | false only at the end of the current record with more input in the buffer; nothing after the record is consumed |
| `RecordReader.Reader.EofThenSkip` | src/librpc/xdr_rec.c:479-520 | looking ahead first does not change where skipping ends |
| `RecordRoundTrip.PerformAll` | src/librpc/xdr_rec.c:236-313 | any script of puts and record ends keeps the writer invariant and ends exactly the records the script says; the wire stays readable exactly when no word is put where it strands a fragment; it fails only by the connection breaking, and then the receiver sees only records of the script |
| `RecordRoundTrip.DisciplinedNeverStrands` | src/librpc/xdr_rec.c:242-254 | words at word positions of the batch never strand a fragment, whatever the size of the buffer |
| `RecordRoundTrip.PlayKeeps` | src/librpc/xdr_rec.c:528-543 | no put or record end takes an ended record back |
| `RecordRoundTrip.GetRecord` | src/librpc/xdr_rec.c:265-291 | getting until failure returns the whole current record and stops right after it exactly when it is complete |
| `RecordRoundTrip.ReadAll` | src/librpc/xdr_rec.c:479-520 | for every byte stream and every chunking the reader returns exactly the complete records of the stream |
| `RecordRoundTrip.RoundTrip` | src/librpc/xdr_rec.c:236-313 | for every script, batching, pair of buffer sizes, write splitting and read chunking, what is read is a beginning of what was put, and is all of it exactly when no word was put where it strands a fragment; only a broken connection stops it |
| `RecordRoundTrip.StrandedRun` | src/librpc/xdr_rec.c:242-254 | a run over a reliable connection, off word positions, whose flushed wire does not read back as the records that were ended |
| `XdrData.Narrow` | src/librpc/xdr.c:88-223 | decoded integers are in the range of the C type |
| `XdrData.CString` | src/librpc/xdr.c:653-732 | a decoded string ends at its first NUL and is unchanged without one |
| `XdrData.Dec` | src/librpc/xdr.c:470-732 | decoding never leaves more bytes than it was given |
| `XdrCodec.RoundTrip` | src/librpc/xdr.c:229-732 | for every type and value within bounds, to any pointer depth, decoding the encoding gives the value back and consumes exactly its bytes |
| `XdrCodec.RoundTripMany` | src/librpc/xdr_array.c:66-164 | the same for the elements of arrays and vectors |
| `XdrCodec.RoundTripFields` | src/librpc/xdr.c:599-636 | the same for the fields of a structure, one filter after another |
| `XdrCodec.HyperBack` | src/librpc/xdr.c:229-287 | 64-bit integers survive being split into two words and joined again, signed and unsigned |
| `XdrCodec.NarrowBack` | src/librpc/xdr.c:88-355 | an integer in range survives the conversion to a word and back |
| `XdrCodec.PrefixFree` | src/librpc/xdr.c:470-732 | no encoding of a type starts another one, so values can follow one another |
| `XdrCodec.WholeUnits` | src/librpc/xdr.c:470-516 | every encoding is a multiple of four bytes |
| `XdrCodec.NoLookahead` | src/librpc/xdr.c:470-732 | decoding looks at no byte beyond those it consumes |
| `XdrLayout.EncodableIff` | src/librpc/xdr.c:470-732 | a value has an encoding exactly when it is within the bounds of its type, said by range, length, count and arm alone |
| `XdrLayout.EncodingLayout` | src/librpc/xdr.c:229-732 | what the bytes of every type are: numbers big-endian, TRUE 1 and FALSE 0, counts in front, data and then zeros to a multiple of four, elements and fields in a row, the discriminant before its arm, 1 before an object and 0 for none |
| `XdrLayout.DecodedFits` | src/librpc/xdr.c:470-732 | whatever is decoded is within the bounds of its type; all else is refused |
| `XdrLayout.FindArmIsFirst` | src/librpc/xdr.c:617-636 | the arm of a union is the first with the discriminant, else the default |
| `XdrLayout.DecodedInt` | src/librpc/xdr.c:88-390 | any four bytes decode to the integer of the range with the same low bits; fewer are refused |
| `XdrLayout.DecodedHyper` | src/librpc/xdr.c:229-287 | any eight bytes decode to the 64-bit integer they are, signed or unsigned |
| `XdrLayout.DecodedBool` | src/librpc/xdr.c:393-419 | anything but zero decodes to TRUE |
| `XdrLayout.DecodedOpaque` | src/librpc/xdr.c:470-512 | the bytes there are, if the padding is there too, whatever it holds |
| `XdrLayout.DecodedBytes` | src/librpc/xdr.c:514-570 | a count over the bound, or of more bytes than follow, is refused; else exactly those bytes |
| `XdrLayout.DecodedString` | src/librpc/xdr.c:653-732 | the same for strings, cut at the first NUL; a count of 2^32 - 1 is refused |
| `XdrLayout.DecodedArray` | src/librpc/xdr_array.c:80-130 | a count over the bound, or of more than 2^32 - 1 bytes of elements, is refused; else so many elements |
| `XdrLayout.DecodedUnion` | src/librpc/xdr.c:599-636 | a discriminant without an arm is refused; else what the arm decodes to |
| `XdrLayout.DecodedPointer` | src/librpc/xdr_ref.c:63-129 | zero decodes to no object, anything else announces one |
| `XdrStreams.MemStream.constructor` | src/librpc/xdr_mem.c:83-94 | a memory stream starts at the base with the whole buffer ahead |
| `XdrStreams.MemStream.PutBytes` | src/librpc/xdr_mem.c:167-178 | stores the bytes at the cursor and nothing else, or refuses, exactly when they do not fit, and changes nothing |
| `XdrStreams.MemStream.PutLong` | src/librpc/xdr_mem.c:130-141 | the same for a word in network order |
| `XdrStreams.MemStream.GetBytes` | src/librpc/xdr_mem.c:149-160 | returns the next bytes and moves past them, or refuses exactly when there are too few |
| `XdrStreams.MemStream.GetLong` | src/librpc/xdr_mem.c:112-123 | the same for a signed word |
| `XdrStreams.MemStream.SetPos` | src/librpc/xdr_mem.c:199-214 | moves the cursor anywhere up to the limit, which no operation moves |
| `XdrStreams.MemStream.Inline` | src/librpc/xdr_mem.c:219-230 | reserves bytes in place exactly when they are there |
| `XdrStreams.SizeStream.PutLong` | src/librpc/xdr_sizeof.c:42-49 | counts a word, modulo 2^32 |
| `XdrStreams.SizeStream.PutBytes` | src/librpc/xdr_sizeof.c:51-58 | counts bytes, modulo 2^32 |
| `XdrStreams.Sink.PutLong` | src/librpc/xdr_rec.c:68-79 | one contract for the three put tables: the word is appended, or the stream refuses for a stated reason |
| `XdrStreams.Sink.PutBytes` | src/librpc/xdr_mem.c:66-77 | one contract for the three put tables: the bytes are appended, or the stream refuses for a stated reason |
| `XdrStreams.Source.GetLong` | src/librpc/xdr_rec.c:68-79 | one contract for the two get tables: succeeds exactly when a word is left, and what lies beyond stays put |
| `XdrStreams.Source.GetBytes` | src/librpc/xdr_mem.c:66-77 | one contract for the two get tables, for any number of bytes |
| `XdrFilters.EncodeOpaque` | src/librpc/xdr.c:470-516 | bytes then zeros up to a whole unit, on any stream |
| `XdrFilters.EncodeCounted` | src/librpc/xdr.c:523-570 | a count then padded bytes, on any stream |
| `XdrFilters.FindChoice` | src/librpc/xdr.c:618-632 | the loop over the choices of a union finds the first arm with the discriminant, else the default |
| `XdrFilters.EncodeHyper` | src/librpc/xdr.c:229-243 | a 64-bit integer is put as its high and low words |
| `XdrFilters.EncodeFlat` | src/librpc/xdr.c:88-570 | a filter without components puts exactly the encoding of its value |
| `XdrFilters.EncodeArray` | src/librpc/xdr_array.c:66-133 | a count then the elements |
| `XdrFilters.EncodeUnion` | src/librpc/xdr.c:599-636 | the discriminant then the chosen arm, or failure when there is none |
| `XdrFilters.EncodePresent` | src/librpc/xdr_ref.c:63-129 | TRUE then the object a pointer leads to |
| `XdrFilters.EncodeMany` | src/librpc/xdr_array.c:115-120 | the element loop puts the elements in order and stops at the first failure |
| `XdrFilters.EncodeFields` | src/librpc/xdr.c:599-636 | filters run one after another put their encodings in order |
| `XdrFilters.Encode` | src/librpc/xdr.c:229-732 | any filter over any stream: success puts exactly the encoding of a value within bounds, failure means the value has none or the stream refuses |
| `XdrFilters.DecodeOpaque` | src/librpc/xdr.c:490-498 | the bytes are taken and the padding skipped, whatever it contains |
| `XdrFilters.DecodeCounted` | src/librpc/xdr.c:523-570 | a count over the bound is refused before any byte is taken |
| `XdrFilters.DecodeHyper` | src/librpc/xdr.c:244-250 | two words are joined into a 64-bit integer |
| `XdrFilters.DecodeMany` | src/librpc/xdr_array.c:115-120 | the element loop decodes the elements in order |
| `XdrFilters.DecodeFields` | src/librpc/xdr.c:599-636 | filters run one after another decode the fields in order |
| `XdrFilters.Decode` | src/librpc/xdr.c:88-732 | any filter on either stream succeeds exactly when the bytes left decode, with that value, consuming exactly those bytes and nothing beyond the record |
| `XdrEndToEnd.SizeOf` | src/librpc/xdr_sizeof.c:132-165 | the size of a value is the length of its encoding modulo 2^32, and 0 when it cannot be encoded |
| `XdrEndToEnd.ThroughMemory` | src/librpc/xdr_mem.c:112-178 | encoding into a buffer and decoding it succeeds exactly when the value is encodable and fits, and gives the value back |
| `XdrEndToEnd.ToMemory` | src/librpc/xdr_mem.c:130-178 | a memory stream ends up with exactly the encoding, exactly when it fits |
| `XdrEndToEnd.ToRecord` | src/librpc/xdr_rec.c:236-313 | a record stream sends one record whose payload is exactly the encoding; it fails only if there is no encoding or the connection breaks |
| `XdrEndToEnd.ThroughAll` | src/librpc/xdr_sizeof.c:132-165 | the counting, the memory and the record stream agree on length and bytes of every value, and each fails only for its own stated reason |
| `XdrEndToEnd.SendOne` | src/librpc/xdr_rec.c:528-543 | one value becomes one ended record, sent or batched |
| `XdrEndToEnd.SendAll` | src/librpc/xdr_rec.c:528-543 | a list of values becomes a list of records, one encoding each, in any batching; it fails only if some value has no encoding or the connection breaks |
| `XdrEndToEnd.ReceiveAll` | src/librpc/xdr_rec.c:479-495 | skipping to each record and decoding gives the values back |
| `XdrEndToEnd.EndToEnd` | src/librpc/xdr_rec.c:236-313 | values sent over a connection arrive as the same list, for every batching, buffer size and chunking; over a reliable connection this happens exactly when every value has an encoding |
| `ReplyCache.ListSet` | src/librpc/svc_udp.c:912-957 | the list the cache stands for never exceeds its size |
| `ReplyCache.ListSetKeepsNewest` | src/librpc/svc_udp.c:912-957 | a set puts the entry last and drops the oldest only when the list is full |
| `ReplyCache.ListGetIsNewest` | src/librpc/svc_udp.c:989-996 | a lookup gives the newest entry with the key and fails only if there is none |
| `ReplyCache.LastEntriesAreKept` | src/librpc/svc_udp.c:899-957 | any number of sets on the bounded list leaves exactly the last min(k, size) entries, in order |
| `ReplyCache.LastAdvances` | src/librpc/svc_udp.c:899-957 | one more set turns the last entries of a history into the last entries of the longer history |
| `ReplyCache.LastIsSuffix` | src/librpc/svc_udp.c:955-956 | the last min(k, size) elements are a suffix of that length |
| `ReplyCache.StaleHit` | src/librpc/svc_udp.c:961-1006 | a concrete run in which a call is answered with the reply to another |
| `ReplyCache.ChainDropOldest` | src/librpc/svc_udp.c:916-924 | the oldest entry is the last of its own chain, and dropping it changes no other chain |
| `ReplyCache.ChainAddNewest` | src/librpc/svc_udp.c:952-954 | a new entry comes first in its own chain and in no other |
| `ReplyCache.FirstMatchIsNewest` | src/librpc/svc_udp.c:989-996 | the first match in a bucket is the newest match in the whole cache |
| `ReplyCache.ChainsDisjoint` | src/librpc/svc_udp.c:849-854 | a node is in the chain of one bucket only |
| `ReplyCache.RingAdvances` | src/librpc/svc_udp.c:955-956 | replacing the slot of the next victim keeps the circular list a rotation of the entries |
| `ReplyCache.OwnBucket` | src/librpc/svc_udp.c:849-854 | every node in use is in the bucket its transaction id gives modulo four times the size |
| `ReplyCache.Transport.Clone` | src/librpc/svc_udp.c:351-391 | a clone has a buffer of its own with the same bytes and the same cursor |
| `ReplyCache.Transport.Fill` | src/librpc/svc_udp.c:613-641 | what is received or encoded starts at the start of the buffer, and fits exactly when the buffer is long enough |
| `ReplyCache.Cache.constructor` | src/librpc/svc_udp.c:861-894 | a new cache is empty and valid |
| `ReplyCache.Cache.Get` | src/librpc/svc_udp.c:978-1006 | returns the newest live entry whose key is the transaction id and the saved call; saves the call asked about exactly on a miss |
| `ReplyCache.Cache.Recv` | src/librpc/svc_udp.c:562-577 | an arriving request gives its transaction id to the transport and is looked up with the saved call |
| `ReplyCache.Cache.FindLink` | src/librpc/svc_udp.c:919-923 | the walk for the victim always finds it, at the end of its chain; the not-found branch is never reached |
| `ReplyCache.Cache.SpliceHead` | src/librpc/svc_udp.c:924 | unlinking an only node empties its bucket and leaves the other chains linked |
| `ReplyCache.Cache.SpliceAfter` | src/librpc/svc_udp.c:924 | unlinking the last node of a chain leaves all chains linked |
| `ReplyCache.Cache.Unlink` | src/librpc/svc_udp.c:916-925 | the oldest node leaves the hash table |
| `ReplyCache.Cache.LinkFront` | src/librpc/svc_udp.c:952-954 | a node put at the front of its bucket is the newest of its chain |
| `ReplyCache.Cache.Room` | src/librpc/svc_udp.c:912-938 | the node and buffer for an entry are those of the oldest entry, or new ones while the cache fills up |
| `ReplyCache.Cache.Store` | src/librpc/svc_udp.c:912-951 | the reply buffer moves into the node and the transport gets the freed one |
| `ReplyCache.Cache.Install` | src/librpc/svc_udp.c:952-956 | the node joins its chain and the circular list and the cache is valid again |
| `ReplyCache.Cache.Set` | src/librpc/svc_udp.c:899-957 | the cache becomes the bounded list with the new entry, the transport gets the buffer the list gives up, and every node is an old one or new |
| `ReplyCache.SetPermutesBuffers` | src/librpc/svc_udp.c:940-946 | a set permutes the buffers among their owners when the cache is full, and adds one new buffer while it fills up |
| `ReplyCache.SetByOne` | src/librpc/svc_udp.c:916-946 | whichever of a parent and its clones caches a reply, all buffers stay distinct and of the common size and none is lost |
| `ReplyCache.CloneOne` | src/librpc/svc_udp.c:351-391 | cloning adds a distinct buffer to the family and changes no owner |
| `ReplyRuns.NewestIsNewest` | src/librpc/svc_udp.c:989-996 | of the replies filed under a key the description finds the newest |
| `ReplyRuns.StoredWasReplied` | src/librpc/svc_udp.c:940-951 | over any run, every cached reply was given by a transport that was serving, under that transaction id, the very call the reply is said to answer |
| `ReplyRuns.FiledHonestlyIff` | src/librpc/svc_udp.c:947-951 | a reply is filed under the call it answers exactly when the call saved at the last miss is still that call |
| `ReplyRuns.AnsweredRightIff` | src/librpc/svc_udp.c:961-1006 | when every cached reply is filed under the call it answers, a request is given its own reply or none exactly when it carries the saved call or nothing is filed under its id and the saved call |
| `ReplyRuns.FoundIff` | src/librpc/svc_udp.c:961-1006 | a request whose reply is cached is given it exactly when it carries the saved call |
| `ReplyRuns.RunsFileHonestlyIff` | src/librpc/svc_udp.c:899-957 | over any run of requests, replies and clones every reply is filed under the call it answers exactly when each is cached while the saved call is still its own |
| `ReplyRuns.PromptRunsAnswerRightIff` | src/librpc/svc_udp.c:961-1006 | over any such run in which that is so, every hit answers the request exactly when every request is settled |
| `ReplyRuns.RunsServeRightIff` | src/librpc/svc_udp.c:899-1006 | over any run: honest filing and right answers together hold exactly when every reply is prompt and every request settled |
| `ReplyRuns.OneAtATimeServesRightIff` | src/librpc/svc_udp.c:899-1006 | a server that replies to each request before the next one files and answers right exactly when every request is settled |
| `ReplyRuns.SequentialServesRightIff` | src/librpc/svc_udp.c:899-1006 | whether such a server serves right can be read off the list of requests: exactly when each call is that of the request before it, or none of the last size requests has its transaction id and the call before it |
| `ReplyRuns.UniqueIdsAnswerRight` | src/librpc/svc_udp.c:899-1006 | if no two different calls share a transaction id, every hit answers its request, in every run and every interleaving |
| `ReplyRuns.StaleRun` | src/librpc/svc_udp.c:961-1006 | a concrete run, whatever is saved at the start, in which an honest cache gives a call the reply to another with the same transaction id |
| `ReplyRuns.CrossedRun` | src/librpc/svc_udp.c:948-951 | a concrete run with a clone, whatever is saved at the start, in which a reply is filed under another call, which is then given it although it carries the saved call |
| `ReplyRuns.SameLookup` | src/librpc/svc_udp.c:989-996 | when every cached buffer starts with the bytes of its label, the reply a lookup finds has the bytes of the label the description finds |
| `ReplyRuns.Apart` | src/librpc/svc_udp.c:940-946 | while every buffer has one owner, no transport works in a buffer that holds a cached reply |
| `ReplyRuns.FillOne` | src/librpc/svc_udp.c:613-641 | receiving or encoding into the buffer of a transport changes no byte of any cached reply |
| `ReplyRuns.OnRecv` | src/librpc/svc_udp.c:545-577 | a request overwrites the buffer of its transport; it is sent exactly the replylen bytes of the newest cached entry under its id and the saved call, which are the bytes of the reply the description gives it, or nothing when there is none |
| `ReplyRuns.OnReply` | src/librpc/svc_udp.c:613-668 | a reply that fits is written into the buffer of its transport and, if it goes out whole, the cache becomes the bounded list with exactly that key, buffer and length; any other leaves the entries as they were; no buffer is lost |
| `ReplyRuns.File` | src/librpc/svc_udp.c:899-957 | the cache takes over the buffer with the reply, and all cached buffers still start with the bytes of their labels |
| `ReplyRuns.OnClone` | src/librpc/svc_udp.c:351-391 | a clone takes over its parent's request and changes nothing in the cache |
| `ReplyRuns.Act` | src/librpc/svc_udp.c:545-1006 | any step, through any of the transports that share the cache, does what the description says, down to the bytes that are sent |
| `ReplyRuns.Drive` | src/librpc/svc_udp.c:545-1006 | over any run through a master and its clones: each request is sent nothing or the very bytes of the reply the description gives it, the cache holds exactly the last min(k, size) of the replies filed, with their bytes, and every buffer, cached or in use, has one owner, the common size, and is never lost |
| `ReplyRuns.Serve` | src/librpc/svc_udp.c:545-1006 | the same for a server from its start, with an empty cache and any junk in the fields that are not set yet |
| `RegistrySpec.Init` | src/librpc/svc.c:1499-1529 | an empty registry satisfies the invariant |
| `RegistrySpec.FreeFrom` | src/librpc/svc.c:1631-1635 | every id the scan passes is taken, and the id it stops at is free or past the maximum |
| `RegistrySpec.EmptyFrom` | src/librpc/svc.c:1592-1598 | every slot the scan passes is occupied, and the slot it stops at is empty or the end |
| `RegistrySpec.PollRemove` | src/librpc/svc.c:1818-1828 | afterwards no slot polls the socket, and every other socket is polled in the slot it was |
| `RegistryInv.AllocIsLeastFree` | src/librpc/svc.c:1620-1656 | the id given out is the least free one |
| `RegistryInv.PollSlotInBounds` | src/librpc/svc.c:1586-1611 | the poll slot a registration takes is inside the table although the guard would let it pass the end, because full slots belong to different live masters and ids are limited |
| `RegistryInv.RegisteredMaster` | src/librpc/svc.c:1717-1789 | a master is entered under the least free id, becomes its socket's transport and gets one poll slot; nothing else changes and the invariant holds |
| `RegistryInv.RegisterMasterKeeps` | src/librpc/svc.c:1717-1789 | registering a master keeps the invariant and dies exactly for want of an id or an available socket |
| `RegistryInv.RegistrationRunsIff` | src/librpc/svc.c:1690-1776 | a socket can be registered exactly when some id is free and the transport that has the socket, if any, has returned; otherwise the server dies |
| `RegistryInv.AllocFits` | src/librpc/svc.c:1620-1656 | an id can be had exactly when the table has an empty place, and then it is the least |
| `RegistryInv.RegisteredClone` | src/librpc/svc.c:1779-1786 | a clone is entered under the least free id, its parent's count goes up by one, and the parent lookup never hits a vacated slot |
| `RegistryInv.ClonedTable` | src/librpc/svc.c:1779-1786 | a clone is entered on the socket and the port of its parent, and the parent's count goes up by one |
| `RegistryInv.RegisterCloneKeeps` | src/librpc/svc.c:1717-1789 | registering a clone keeps the invariant and dies exactly for want of an id |
| `RegistryGc.UnregisterKeeps` | src/librpc/svc.c:1862-1901 | removing a clone, or a master without clones, keeps the invariant, never follows a vacated slot and changes no other transport but for a reference count |
| `RegistryGc.UnregisterRuns` | src/librpc/svc.c:1830-1900 | removing any live transport goes through: neither the count nor the parent lookup can fail |
| `RegistryGc.UnregisterOrphansClones` | src/librpc/svc.c:1883-1899 | removing a master leaves every clone with its parent exactly when the master had no clones |
| `RegistryGc.UnreferencedIsRemovable` | src/librpc/svc.c:1045-1049 | the guard of the collector picks exactly the transports that can go |
| `RegistryGc.ReapOne` | src/librpc/svc.c:1006-1057 | looking at one id keeps the invariant, marks included |
| `RegistryGc.ReapOneEffect` | src/librpc/svc.c:1006-1057 | the id loses its mark, and its transport goes exactly when it was marked and unreferenced |
| `RegistryGc.ReapFrom` | src/librpc/svc.c:1064-1080 | the scan keeps the invariant |
| `RegistryGc.DoomedNow` | src/librpc/svc.c:1045-1049 | the least marked id goes exactly when it is a clone or each of its clones is marked with a smaller id |
| `RegistryGc.DoomedLater` | src/librpc/svc.c:1074-1078 | a step of the scan does not change the fate of later ids |
| `RegistryGc.ReapFromIsExact` | src/librpc/svc.c:1064-1080 | from any point on, the scan removes exactly the doomed transports and the early exit on the counter skips no work |
| `RegistryGc.ReapAllIsExact` | src/librpc/svc.c:1064-1080 | a pass removes every marked clone and every marked master all of whose clones are marked with smaller ids, nothing else, clears all marks and returns the number removed |
| `RegistryShutdown.DestroyFrom` | src/librpc/svc.c:911-1004 | every pass of the shutdown keeps the core of the invariant |
| `RegistryShutdown.DestroyFromIsExact` | src/librpc/svc.c:911-1004 | a pass removes exactly the transports it picks, once each, in the order of their ids |
| `RegistryShutdown.ShutdownIsExact` | src/librpc/svc.c:911-1004 | shutdown takes down each live transport exactly once, clones first, then masters without a port, then the others, and leaves no live id, no socket entry and no occupied poll slot |
| `RegistryShutdown.PortlessFirst` | src/librpc/svc.c:935-959 | no master with a port is taken down before one without |
| `RegistrySockets.CheckIsReachability` | src/librpc/svc.c:1399-1479 | the invariant leaves one thing for the self-check to find: a master whose socket has no entry |
| `RegistrySockets.PolledOnce` | src/librpc/svc.c:1586-1611 | a master that is polled is polled in exactly one slot, on its own socket |
| `RegistrySockets.UnregisterSweeps` | src/librpc/svc.c:1883-1899 | removing a master takes the entry and the poll slots of its socket and no others; removing a clone takes none |
| `RegistrySockets.SweepSparesIff` | src/librpc/svc.c:1883-1899 | the masters that stay keep their entries, and their poll slots, exactly when none of them is on a swept socket |
| `RegistrySockets.RemovalDisturbsIff` | src/librpc/svc.c:1883-1899 | removing a master leaves every other one its entry and its poll slot exactly when no other master is on its socket |
| `RegistrySockets.ReapSweeps` | src/librpc/svc.c:1064-1080 | a pass takes the entries and poll slots of exactly the sockets of the masters it removes |
| `RegistrySockets.PassDisturbsIff` | src/librpc/svc.c:1064-1080 | after a pass every master still has its entry, and is still polled, exactly when no master it removed shares a socket with one it left |
| `RegistrySockets.OpenServes` | src/librpc/svc.c:1763-1776 | a registration leaves every master with an entry and a poll slot, also when it takes a socket over |
| `RegistrySockets.CloneServes` | src/librpc/svc.c:1779-1786 | registering a clone changes no socket entry and no poll slot |
| `RegistryRuns.ReturnedKeeps` | src/librpc/svc.c:2935-2944 | setting or clearing the return bit of a transport keeps the invariant |
| `RegistryRuns.MarkKeeps` | src/librpc/svc.c:893-909 | a mark keeps the invariant: marks are on live transports and counted |
| `RegistryRuns.Next` | src/librpc/svc.c:893-1080 | every step keeps the invariant or ends the run by svc_die |
| `RegistryRuns.RunsAreSafe` | src/librpc/svc.c:893-1900 | in every run the invariant holds in every state, no poll slot past the end is written and no vacated slot is followed |
| `RegistryRuns.ParentsOutliveClones` | src/librpc/svc.c:1045-1049 | in every reachable state a clone's parent is a live master whose count is the number of its clones, so the collector cannot take it |
| `RegistryRuns.ShutdownAfterAnyRun` | src/librpc/svc.c:983-1004 | shutdown after any run leaves nothing registered |
| `RegistryRuns.StepServesIff` | src/librpc/svc.c:1064-1080 | from a state in which every master has its socket entry and is polled, a step keeps either exactly when it is not a pass that removes a master sharing a socket with one it leaves |
| `RegistryRuns.QuietServes` | src/librpc/svc.c:2627-2633 | returning, resuming and marking change no socket entry and no poll slot |
| `RegistryRuns.RunsPassIff` | src/librpc/svc.c:1399-1479 | over any run the self-check passes in every state, and every master is polled in every state, exactly when no pass removes a master that shares a socket with one it leaves |
| `RegistryRuns.ServerPassesIff` | src/librpc/svc.c:1399-1479 | the same for a server from its start |
| `RegistryRuns.OpenKeepsAloneIff` | src/librpc/svc.c:1763-1776 | a registration leaves each master alone on its socket exactly when it did not take the socket over |
| `RegistryRuns.WithoutReuseNothingIsDisturbed` | src/librpc/svc.c:1763-1776 | a run that takes no socket over has no such pass, so the self-check passes throughout |
| `RegistryRuns.ReuseOrphansAMaster` | src/librpc/svc.c:1704-1706 | a concrete run with a socket taken over after which the self-check fails for a live master and nothing polls its socket |
| `RegistryRuns.OrphanedClone` | src/librpc/svc.c:1883-1899 | a reachable state with a clone in which removing the master by hand leaves the clone without a parent |
| `RegistryRuns.BusySocketDies` | src/librpc/svc.c:1767-1770 | two concrete runs in which the server dies because a socket in use, or in use again, is opened |
| `RegistryRuns.NextCases` | src/librpc/svc.c:893-1900 | what each step does, and that what it looks up is there |
| `Registry.Xports.constructor` | src/librpc/svc.c:1499-1529 | the tables start empty |
| `Registry.Xports.IdAlloc` | src/librpc/svc.c:1620-1656 | the scan returns the least free id and records it, or dies when the table is full |
| `Registry.Xports.InitPollfd` | src/librpc/svc.c:1586-1611 | the first empty slot, else one more, gets the socket |
| `Registry.Xports.SocketAvailable` | src/librpc/svc.c:1690-1709 | true exactly when the socket has no transport or one that has returned |
| `Registry.Xports.Register` | src/librpc/svc.c:1717-1789 | succeeds exactly when an id is free and the transport on the socket, if any, has returned; the least free id then gets the transport and the socket its entry |
| `Registry.Xports.RegisterClone` | src/librpc/svc.c:1779-1786 | succeeds exactly when an id is free; the least free one then gets the clone, on its parent's socket and port, and the parent's count goes up |
| `Registry.Xports.PollfdRemove` | src/librpc/svc.c:1818-1828 | the loop empties every slot of the socket and no other |
| `Registry.Xports.UnregisterId` | src/librpc/svc.c:1830-1856 | the id is free again and the count one less |
| `Registry.Xports.Unregister` | src/librpc/svc.c:1862-1901 | the tables change in place exactly as removal specifies; the invariant holds if the transport could go |
| `Registry.Xports.GcMark` | src/librpc/svc.c:893-909 | exactly the one id is added to the marks, and they stay counted |
| `Registry.Xports.GcReapOne` | src/librpc/svc.c:1006-1057 | one id is looked at exactly as specified |
| `Registry.Xports.GcReapAll` | src/librpc/svc.c:1064-1080 | the pass removes exactly the doomed transports, clears all marks and returns their number |
| `Registry.Xports.DestroyPass` | src/librpc/svc.c:911-959 | a shutdown pass takes down what it picks, in order |
| `Registry.Xports.DestroyAll` | src/librpc/svc.c:983-1004 | the three passes take every live transport down and leave the registry vacant |
| `Registry.Xports.SetReturned` | src/librpc/svc.c:2627-2633 | setting or clearing the return bit in the table is the value step and keeps the invariant |
| `Registry.Xports.Return` | src/librpc/svc.c:2935-2944 | a worker's return sets the bit, and marks a clone for collection |
| `Registry.Xports.Take` | src/librpc/svc.c:893-1900 | any step of a run does to the tables what it does to the value, and dies exactly when it does |
| `Registry.Xports.Perform` | src/librpc/svc.c:893-1900 | any run does to the tables what it does to the value, so what is proved of runs holds of the tables |
| `Callouts.IndexOf` | src/librpc/svc.c:1920-1935 | the first position of a program and version, or the end |
| `Callouts.RegisterKeepsUnique` | src/librpc/svc.c:1954-1989 | registering keeps every program and version unique and lists the dispatcher unless it is refused |
| `Callouts.RegisterExactly` | src/librpc/svc.c:1954-1989 | registration fails exactly when another dispatcher has the pair or the port mapper refuses; otherwise the pair is listed with its dispatcher and mapped if it was or is granted; no other service comes or goes |
| `Callouts.UnregisterRemoves` | src/librpc/svc.c:1994-2016 | unregistering removes the program and version and nothing else |
| `Callouts.RunsKeepUnique` | src/librpc/svc.c:1954-2016 | over any run of registrations and removals no program and version is listed twice |
| `Callouts.List.Find` | src/librpc/svc.c:1920-1935 | the walk finds the first callout with the pair and the one before it |
| `Callouts.List.Enroll` | src/librpc/svc.c:1954-1989 | the callout of the pair is found or put in front, and mapped if that is asked and granted |
| `Callouts.List.IsMapped` | src/librpc/svc.c:1937-1945 | true exactly when the pair is listed and mapped |
| `Callouts.List.Register` | src/librpc/svc.c:1954-1989 | the linked list changes exactly as the list of services does: refused exactly when another dispatcher has the pair or the port mapper refuses, else listed, with at most one new callout |
| `Callouts.List.Unlink` | src/librpc/svc.c:2004-2009 | one node is skipped and the rest stay linked in order |
| `Callouts.List.Unregister` | src/librpc/svc.c:1994-2016 | the pair leaves the list; the port mapper is told exactly when there was one |
| `Callouts.List.Perform` | src/librpc/svc.c:1954-2016 | any run of registrations and removals does to the linked list what it does to the list of services, so no pair is ever listed twice |
| `Callouts.List.Match` | src/librpc/svc.c:2669-2705 | a request is dispatched exactly when its pair is listed, has no program exactly when the program is absent, else gets the true lowest and highest versions listed |

## Left out

- XDR_FREE, xdr_float, xdr_double, the fixed-width integer filters, xdr_char and stdio streams: they would only add easy members.
- xdrrec_getpos, xdrrec_setpos and xdrrec_inline: the first two depend on seeking a handle used as a file descriptor; the last hands out a raw pointer.
- Reading into caller memory: a get returns the bytes it got, so what a failed get leaves in the caller's buffer is not modelled.
- C strings of 2^32 bytes or more: their length is truncated before it is checked.
- A system call that writes zero bytes again and again: the write loop of writetcp would not end.
- The aliasing of the sending and receiving halves of a record stream: the C code carves both buffers out of one block and the model has two arrays.
- Concurrent use of one cache or one registry inside a locked region, the order of locks, and the hand-over between a dispatcher and its workers.
- At-most-once execution of UDP requests: a cache hit sends the old reply and the request is dispatched anyway (`src/librpc/svc_udp.c:577`).
- fsck_busy, xports_version and the view of the registry used for tracing: they do not change what is registered.
- svc_return on a UDP master, which dies, and registering a transport that already has an id.
- Marks that survive a shutdown: the marks are left as they are when every transport is destroyed, and nothing is registered afterwards.
- Registry.Xports.DestroyAll: on a registry in which nothing was ever registered the C loops run past the table, because the largest id is an unsigned -1; the model's loops do nothing there.
- An array whose elements have size 0: xdr_array divides by the size (`src/librpc/xdr_array.c:89`), and the type `size` of `XdrData` leaves it out.
- The port mapper itself: its answer is a parameter.
- Sockets, polling, accepting, authentication, configuration, tracing, and everything in `src/libdecode` and `src/libxdr`, the latter being copies of the files modelled.
