# Sober: models and proofs

Sober runs AArch64 Android code on x86-64 Linux. This project models the parts of it in which most can go
wrong unnoticed, and proves what they promise.

- **Zip archives.** The writer (`ZipWriter.dfy`) is a class over a seekable file that may fail at any
  operation; it is proved against a ledger of entries and a reference layout of the file (`ZipLayout.dfy`).
  The reader finds the end record (`EndRecord.dfy`), resolves zip64 values (`Zip64Extra.dfy`), walks the
  directory twice (`ZipDirectory.dfy`), builds a packed hash table (`CdEntryMap.dfy`), cross-checks headers
  (`ZipArchive.dfy`, `Zip64Entries.dfy`, `Zip64Archives.dfy`, `LargeDirectory.dfy`), iterates (`ZipIteration.dfy`) and extracts
  (`Extraction.dfy`). `RoundTrip.dfy`, `WrittenArchives.dfy` and `WriterScripts.dfy` join the two: whatever calls
  were made on the writer, once it is done the reader finds exactly the surviving entries. `WrittenBytes.dfy` gives
  the finished file byte by byte. The formats are those of
  PKWARE APPNOTE.TXT, sections 4.3.7 to 4.3.16 and 4.5.3.
- **Calls between guest and host.** `CallMarshalling.dfy` compares the slow and the fast way of passing
  arguments with the two calling standards and with each other. `VaList.dfy` says exactly for which reads a
  translated variable argument list is faithful. `Fibers.dfy` shows that callbacks to any depth are invisible
  to the guest code around them, and what `setjmp` and `longjmp` restore.
- **Thread contexts.** `ThreadContexts.dfy` is a protocol of many threads in any interleaving: reference
  counts, processor ids, key destructors. `LeakedContexts.dfy` says which threads can leave a context behind.
- **Text.** `Strings.dfy` has the laws of split, join and tokenize; `LogChunks.dfy` says exactly when chunked
  log messages keep their text and their bound.

The hash of a name, the step of a checksum, the behaviour of guest code between two supervisor calls, the
failures of files and media and the choices of the host's thread library are arbitrary throughout: they are
parameters, and every statement holds for all of them.

Some promises do not hold as one would expect them. Each is stated with the exact condition under which it
does, and with an input on which it fails:

- A translated variable argument list goes astray when a double that spilled to the stack is read while saved
  integer registers are left, or after sixteen buffered reads (`VaList.FaithfulExactly`, at
  `VaList.SpilledDoubleGoesAstray`).
- A log message loses empty lines that fall at the start of a buffer (`LogChunks.ConservedExactly`, at
  `LogChunks.EmptyFirstLineIsLost`), and an overlong last line without header exceeds the bound
  (`LogChunks.BoundedExactly`, at `LogChunks.OverlongLastLine`).
- The writer accepts repeated names, and the reader then refuses the whole file (`WrittenArchives.FinishedRunReadsBack`,
  at `WriterScripts.RepeatedNameRefused`).
- The writer accepts empty names. Such a file opens, a lookup by the empty name is refused, and an iteration reads
  the entry unless it is the last one and has no padding, data or descriptor either (`RoundTrip.EntryReadableExactly`,
  `RoundTrip.UnreachableExactly`, at `WriterScripts.LastEmptyEntryLost`).
- The hash index loses names at offsets beyond 32 bits, which takes a directory over 4 GiB with at most 65535 records
  (`ZipDirectory.ParseThenLookup`, `ZipDirectory.UnfaithfulName`, at `LargeDirectory.NameLost`).
- A stream verifies what it could read, not what it should have read (`Extraction.VerifyDecidesExactly`, at
  `Extraction.VerifyMissesFailedRead`).
- Copying a stored entry of 4 GiB or more in one piece does not end (`Extraction.CopyEndsExactly`, at
  `Extraction.FourGibibytesNeverEnd`). The cast to 32 bits is called safe there because of the buffer size, which
  does not bound a copy in one piece.
- The fast path does not announce vector registers to ellipsis functions (`CallMarshalling.FastEllipsisCall`, at
  `CallMarshalling.FloatNotPrinted`).
- `longjmp` with value zero returns zero, not one as in the C library (`Fibers.SecondReturnDistinct`).
- A thread context is never freed if a key is still set when the host library gives up, after at least four rounds
  of destructor calls. A guest that sets keys less than four times after its routine is safe
  (`LeakedContexts.LeakedExactly`, at `LeakedContexts.ContextLeaks`).
- Several variable argument lists in one call share their translation (`CallMarshalling.ListsSeenExactly`, at
  `CallMarshalling.TwoListsShareOne`).
- Callback arguments beyond eight of a kind go into registers in which the callee does not look
  (`Fibers.CallbackReceivesArguments`, at `Fibers.NinthMissed`).

## Model

| member | source | states |
|---|---|---|
| `WrittenArchives.WriteThenOpen` | subprojects/liblinker/external/libziparchive/zip_writer.cc:201-580 | End to end, for any calls, any chunking and any pattern of file failures: a writer that reaches the done state has left a file that the reader opens as exactly the surviving entries, and the concrete hash index holds the same names and offsets |
| `WrittenArchives.FinishedRunReadsBack` | subprojects/liblinker/external/libziparchive/zip_archive.cc:538-659 | Every run of the writer that ends done leaves bytes that open as the surviving entries: refused as empty if none survive, refused as duplicate if and only if a name repeats, otherwise each entry reads back with its payload, checksum, alignment and valid descriptor unless it is the one that is out of reach, and every name is answered: an entry if it is one of theirs, refused if empty or over 65535 bytes, else not found |
| `WrittenArchives.WriteThenList` | subprojects/liblinker/external/libziparchive/zip_archive.cc:1059-1174 | End to end with iteration: over the file of a finished run, an iteration delivers matching names, each once, and runs to the end with all of them if and only if no matching entry is out of reach; otherwise it stops with the error for the empty name of the last entry |
| `WrittenArchives.ListFinished` | subprojects/liblinker/external/libziparchive/zip_archive.cc:1059-1174 | The same from the bytes of a finished run alone |
| `WriterScripts.ScriptSucceedsExactly` | subprojects/liblinker/external/libziparchive/zip_writer.cc:201-580 | Writing requests one after the other, each payload in any chunks, and finishing succeeds if and only if the entries fit the format, and then the ledger holds exactly them |
| `WriterScripts.PayloadsComeBack` | subprojects/liblinker/external/libziparchive/zip_archive.cc:1100-1115 | Requests with distinct nonempty names that fit come back: each name is found with the concatenation of its chunks, its time stamp, and an offset of the requested alignment |
| `WriterScripts.RepeatedNameRefused` | subprojects/liblinker/external/libziparchive/zip_writer.cc:201-293 | Two entries of one name: the writer is done, and the reader refuses the file as duplicate |
| `WriterScripts.LastEmptyEntryLost` | subprojects/liblinker/external/libziparchive/zip_archive.cc:842-847 | A single empty entry without a name on seekable output: the file opens, and the entry cannot be read |
| `WriterScripts.EntryOfRequest` | subprojects/liblinker/external/libziparchive/zip_writer.cc:223-270 | Each entry of the ledger holds the name, stamp, alignment and payload that were asked for |
| `WrittenArchives.RunIsSound` | subprojects/liblinker/external/libziparchive/zip_writer.cc:201-293 | Every run keeps all names valid, at most 65535 entries, and padding that is exactly what the alignment asks for at the place the entry starts; a run that ends done fits the 32-bit fields of the end record |
| `WrittenBytes.FinishedBytes` | subprojects/liblinker/external/libziparchive/zip_writer.cc:176-199 | Every byte of the file of a finished run: entries back to back from the start, a record for each behind them, and the end record, with every field of headers, descriptors, records and end record at its place in the packed structs, also those that no reader looks at |
| `WrittenArchives.WrittenEntryReadsBack` | subprojects/liblinker/external/libziparchive/zip_archive.cc:778-1026 | The lookup of a written entry returns its own bytes at an offset that is a multiple of the requested alignment |
| `WrittenArchives.WrittenExtracts` | subprojects/liblinker/external/libziparchive/zip_archive.cc:1590-1634 | A written entry extracts into any buffer that is large enough, and fails with an input/output error into any smaller one |
| `WrittenArchives.StreamWritten` | subprojects/liblinker/external/libziparchive/zip_archive_stream_entry.cc:68-120 | A stream over a written entry, from any source and with the writer's checksum: the payload and verified if every block can be read, as from a mapping, and fewer bytes otherwise |
| `WrittenArchives.StreamFinished` | subprojects/liblinker/external/libziparchive/zip_archive_stream_entry.cc:68-120 | Opening the file of a finished run, looking any written nonempty name up and streaming it from a mapping yields the payload, verified |
| `RoundTrip.ArchiveOpens` | subprojects/liblinker/external/libziparchive/zip_archive.cc:354-428 | The bytes of any fitting list of validly named entries open if and only if the list is nonempty and no name repeats, with the exact error otherwise |
| `RoundTrip.FindsDirectory` | subprojects/liblinker/external/libziparchive/zip_archive.cc:273-344 | The end record of a written archive is found and points at the directory that was written |
| `RoundTrip.PlainDirectoryReads` | subprojects/liblinker/external/libziparchive/zip_archive.cc:550-638 | A directory of back-to-back records is accepted with exactly its names, unless a name repeats, which is the duplicate error |
| `RoundTrip.EntryFound` | subprojects/liblinker/external/libziparchive/zip_archive.cc:778-1026 | Local and central header of a written entry agree, so its lookup succeeds with payload, checksum and descriptor flag |
| `RoundTrip.EntryReadableExactly` | subprojects/liblinker/external/libziparchive/zip_archive.cc:842-847 | A written entry, whatever its name, is read through its directory record if and only if something follows the fixed part of its local header before the directory |
| `RoundTrip.UnreachableExactly` | subprojects/liblinker/external/libziparchive/zip_archive.cc:842-847 | Only a last entry with no name, padding, data or descriptor fails that |
| `RoundTrip.DescriptorValid` | subprojects/liblinker/external/libziparchive/zip_archive.cc:726-776 | The data descriptor that the writer puts behind an entry is accepted by the reader |
| `ZipLayout.EntryStored` | subprojects/liblinker/external/libziparchive/zip_writer.cc:176-199 | Every entry of the reference layout is stored at the sum of the earlier ones, with header, name, padding, data and trailer |
| `ZipLayout.RecordAt` | subprojects/liblinker/external/libziparchive/zip_writer.cc:517-545 | Every directory record of the reference layout decodes to what was encoded, at the sum of the earlier records |
| `ZipLayout.ChecksumAppend` | subprojects/liblinker/external/libziparchive/zip_writer.cc:369-371 | A running checksum over chunks is the checksum of their concatenation |
| `ZipFormat.DecodeLocalFileHeaderAt` | subprojects/liblinker/external/libziparchive/zip_archive_common.h:129-163 | Decoding a local header from bytes that hold its encoding anywhere in a file gives it back |
| `ZipFormat.DecodeCentralDirectoryRecordAt` | subprojects/liblinker/external/libziparchive/zip_archive_common.h:75-127 | The same for central directory records |
| `ZipFormat.DecodeEocdRecordAt` | subprojects/liblinker/external/libziparchive/zip_archive_common.h:31-67 | The same for the end record |
| `ZipFormat.DecodeZip64EocdLocatorAt` | subprojects/liblinker/external/libziparchive/zip_archive_common.h:192-213 | The same for the zip64 locator |
| `ZipFormat.DecodeZip64EocdRecordAt` | subprojects/liblinker/external/libziparchive/zip_archive_common.h:215-253 | The same for the zip64 end record |
| `ZipWriter.Execute` | subprojects/liblinker/external/libziparchive/zip_writer.cc:201-580 | Tiling invariant over every run: before the end, the file starts with the finished entries back to back and then the open one, and position and bookkeeping stand right after them; if any file operation fails the writer ends in its error state |
| `ZipWriter.ErrorIsFinal` | subprojects/liblinker/external/libziparchive/zip_writer.cc:127-131 | No run leaves the error state |
| `ZipWriter.StartOutcome` | subprojects/liblinker/external/libziparchive/zip_writer.cc:201-270 | What starting an entry answers: the code of each refusal in order, which of them are fatal, and on success exactly the entry asked for with the least padding that aligns its data |
| `ZipWriter.WriteOutcome` | subprojects/liblinker/external/libziparchive/zip_writer.cc:347-373 | Writing is refused, and fatal, exactly without an open entry or beyond 32 bits of data |
| `ZipWriter.EntryOutcome` | subprojects/liblinker/external/libziparchive/zip_writer.cc:464-467 | Finishing or discarding an entry out of turn changes nothing |
| `ZipWriter.FinishOutcome` | subprojects/liblinker/external/libziparchive/zip_writer.cc:512-560 | Finishing is fatal exactly if entries and directory together exceed 32 bits |
| `ZipWriter.SplitWrite` | subprojects/liblinker/external/libziparchive/zip_writer.cc:347-373 | How a payload is cut into chunks does not matter |
| `ZipWriter.DiscardUndoes` | subprojects/liblinker/external/libziparchive/zip_writer.cc:295-307 | Discarding takes back exactly one whole entry |
| `ZipWriter.PaddingFits` | subprojects/liblinker/external/libziparchive/zip_writer.cc:250-269 | Padding fits 16 bits for every accepted alignment, brings the data to a multiple of it, and is less than it |
| `ZipWriter.PaddingFor` | subprojects/liblinker/external/libziparchive/zip_writer.cc:258-262 | The bit test on the offset decides about padding as the remainder does |
| `ZipWriter.ZipWriter.constructor` | subprojects/liblinker/external/libziparchive/zip_writer.cc:87-100 | A fresh writer satisfies the tiling invariant with an empty ledger |
| `ZipWriter.ZipWriter.HandleError` | subprojects/liblinker/external/libziparchive/zip_writer.cc:127-131 | Moves to the error state and passes the code on |
| `ZipWriter.ZipWriter.CheckStart` | subprojects/liblinker/external/libziparchive/zip_writer.cc:203-234 | The checks for a new entry yield, in their order, the code that the ledger assigns |
| `ZipWriter.ZipWriter.StartAlignedEntry` | subprojects/liblinker/external/libziparchive/zip_writer.cc:201-293 | Opens an entry as the ledger does, keeping the tiling invariant; refused calls leave the ledger alone, except that exhausted counts and offsets are fatal |
| `ZipWriter.ZipWriter.StoreBytes` | subprojects/liblinker/external/libziparchive/zip_writer.cc:375-384 | Appends a chunk to the open entry and accounts for size and checksum |
| `ZipWriter.ZipWriter.WriteBytes` | subprojects/liblinker/external/libziparchive/zip_writer.cc:347-373 | Extends the open payload, or moves to the error state if none is open or 32 bits are exceeded |
| `ZipWriter.ZipWriter.PatchHeader` | subprojects/liblinker/external/libziparchive/zip_writer.cc:490-504 | Rewriting the header in place completes the entry and leaves every other byte alone |
| `ZipWriter.ZipWriter.WriteDescriptor` | subprojects/liblinker/external/libziparchive/zip_writer.cc:476-488 | Appending the descriptor completes the entry on output that cannot seek |
| `ZipWriter.ZipWriter.FinishEntry` | subprojects/liblinker/external/libziparchive/zip_writer.cc:464-510 | Moves the open entry to the finished ones, keeping the tiling invariant |
| `ZipWriter.ZipWriter.DiscardLastEntry` | subprojects/liblinker/external/libziparchive/zip_writer.cc:295-307 | Removes the last entry and steps back over it; the stale bytes stay behind the position |
| `ZipWriter.ZipWriter.WriteDirectory` | subprojects/liblinker/external/libziparchive/zip_writer.cc:517-545 | The loop writes exactly the reference directory |
| `ZipWriter.ZipWriter.WriteEnd` | subprojects/liblinker/external/libziparchive/zip_writer.cc:547-576 | End record and truncation: the file is then nothing but entries, directory and end record |
| `ZipWriter.ZipWriter.Finish` | subprojects/liblinker/external/libziparchive/zip_writer.cc:512-580 | A successful finish leaves exactly the reference bytes of the surviving entries; it fails if and only if they exceed 32 bits or the file fails |
| `ZipWriter.ZipWriter.GetLastEntry` | subprojects/liblinker/external/libziparchive/zip_writer.cc:309-317 | Reports the last entry with its offset, size and checksum |
| `CdEntryMap.CdEntryMapZip32.constructor` | subprojects/liblinker/external/libziparchive/zip_cd_entry_map.h:119-132 | The table size is a power of two above the number of entries, so a free slot always remains |
| `CdEntryMap.Probe` | subprojects/liblinker/external/libziparchive/zip_cd_entry_map.cc:36-42 | For every hash function, linear probing ends, on the slot of the name or on the first free slot of its chain |
| `CdEntryMap.FreeSlotExists` | subprojects/liblinker/external/libziparchive/zip_cd_entry_map.h:121-125 | A table with more slots than additions has a free slot |
| `CdEntryMap.FreeSlotMeansAbsent` | subprojects/liblinker/external/libziparchive/zip_cd_entry_map.cc:37-45 | A free slot on the chain of a name proves that the name was never added |
| `CdEntryMap.FillFreeSlot` | subprojects/liblinker/external/libziparchive/zip_cd_entry_map.cc:66-70 | Filling the free slot that probing ended on adds exactly that name and keeps every other chain intact |
| `CdEntryMap.CdEntryMapZip32.AddToMap` | subprojects/liblinker/external/libziparchive/zip_cd_entry_map.cc:48-71 | Rejects exactly the duplicates and otherwise adds exactly this name and offset |
| `CdEntryMap.CdEntryMapZip32.GetCdEntryOffset` | subprojects/liblinker/external/libziparchive/zip_cd_entry_map.cc:30-46 | Returns the offset added for a name if and only if it was added |
| `CdEntryMap.CdEntryMapZip32.Next` | subprojects/liblinker/external/libziparchive/zip_cd_entry_map.cc:78-91 | Each call yields one pair not yet yielded; the empty pair comes only when none is left |
| `CdEntryMap.CdEntryMapZip32.ResetIteration` | subprojects/liblinker/external/libziparchive/zip_cd_entry_map.cc:73-76 | All pairs become pending again |
| `CdEntryMap.CdEntryMapZip64.AddToMap` | subprojects/liblinker/external/libziparchive/zip_cd_entry_map.cc:93-101 | The same law for the ordered map: rejects exactly the duplicates |
| `CdEntryMap.CdEntryMapZip64.GetCdEntryOffset` | subprojects/liblinker/external/libziparchive/zip_cd_entry_map.cc:103-112 | Lookup in the ordered map |
| `CdEntryMap.CdEntryMapZip64.Next` | subprojects/liblinker/external/libziparchive/zip_cd_entry_map.cc:118-124 | Each call yields the first pair, in the order of the names, not yet yielded |
| `CdEntryMap.CdEntryMapZip64.ResetIteration` | subprojects/liblinker/external/libziparchive/zip_cd_entry_map.cc:114-116 | All pairs become pending again |
| `CdEntryMap.ChosenPackingFits` | subprojects/liblinker/external/libziparchive/zip_cd_entry_map.cc:126-138 | The chosen slot layout holds the offset and length of every name in the directory if and only if the offset fits 32 bits |
| `CdEntryMap.Create` | subprojects/liblinker/external/libziparchive/zip_cd_entry_map.cc:126-138 | An empty index, the ordered map exactly beyond 65535 entries |
| `CdEntryMap.Enumerate` | subprojects/liblinker/external/libziparchive/zip_cd_entry_map.cc:73-124 | Reset and then next until the empty pair lists every added pair exactly once, whichever implementation holds the index |
| `Bits.RoundUpPower2` | subprojects/liblinker/external/libziparchive/zip_cd_entry_map.h:38-48 | Between 1 and 2^31 the least power of two that is not smaller; outside that range the increment wraps to zero |
| `Bits.PowerOf2Test` | subprojects/liblinker/external/libziparchive/zip_writer.cc:216-218 | A nonzero value has no bit in common with its predecessor if and only if it is a power of two |
| `Bits.AndMask` | subprojects/liblinker/external/libziparchive/zip_writer.cc:258 | Masking with a power of two minus one is the remainder |
| `EntryName.IsValidEntryName` | subprojects/liblinker/external/libziparchive/entry_name_utils-inl.h:28-63 | Accepts a byte string if and only if it has at most 65535 bytes and is a sequence of characters in the form of section 2 of RFC 2279, none of them zero |
| `EntryName.ScansIffWellFormed` | subprojects/liblinker/external/libziparchive/entry_name_utils-inl.h:32-60 | Scanning from the left succeeds if and only if some division into characters exists |
| `EntryName.ScanContinuations` | subprojects/liblinker/external/libziparchive/entry_name_utils-inl.h:44-58 | The shifting lead byte announces exactly as many continuation bytes as the loop consumes |
| `EntryName.TextIsWellFormed` | subprojects/liblinker/external/libziparchive/entry_name_utils-inl.h:28-63 | Every text without a zero character, encoded by section 2 of RFC 2279, is accepted |
| `EntryName.WellFormedBytes` | subprojects/liblinker/external/libziparchive/entry_name_utils-inl.h:33-50 | No accepted name has a byte 0, 0xFE or 0xFF, starts with a continuation byte or ends with a lead byte |
| `Zip64Extra.ParseZip64ExtendedInfo` | subprojects/liblinker/external/libziparchive/zip_archive.cc:430-530 | The loop ends and reads only inside the field, for every byte string |
| `Zip64Extra.ParsesExactly` | subprojects/liblinker/external/libziparchive/zip_archive.cc:440-530 | Succeeds if and only if the field is any blocks of other kinds, then a zip64 block with exactly the saturated fields, or all three, or all three and the disk number, then anything; and returns what that block says |
| `Zip64Extra.WideDataMeans` | subprojects/liblinker/external/libziparchive/zip_archive.cc:461-502 | For every triple of sizes and offset of which any needs 64 bits, the block that section 4.5.3 of APPNOTE.TXT asks for is usable and says all three |
| `Zip64Extra.BothSizesMean` | subprojects/liblinker/external/libziparchive/zip_archive.cc:936-947 | A local header with both sizes saturated gives both in its block, however small |
| `Zip64Extra.CompleteBlockParses` | subprojects/liblinker/external/libziparchive/zip_archive.cc:440-502 | A block of all three values, with or without a disk number, is read as them whatever the header fields are |
| `Zip64Entries.CentralValues` | subprojects/liblinker/external/libziparchive/zip_archive.cc:817-839 | A lookup reads exactly the declared sizes and offset from the directory, whichever of them are saturated |
| `Zip64Entries.DeclaredOffsetValue` | subprojects/liblinker/external/libziparchive/zip_archive.cc:588-599 | The validating pass resolves exactly the declared offset |
| `Zip64Entries.LocalValues` | subprojects/liblinker/external/libziparchive/zip_archive.cc:905-948 | A lookup reads exactly the declared sizes from a local header |
| `Zip64Entries.LargeEntryFound` | subprojects/liblinker/external/libziparchive/zip_archive.cc:778-1026 | An entry of any size whose two headers carry the same values is found with them, if and only if its data end before the directory and the checksums agree or bit 3 of the flags is set; that bit is also what the entry says about a descriptor |
| `Zip64Archives.Zip64ArchiveOpens` | subprojects/liblinker/external/libziparchive/zip_archive.cc:209-428 | A saturated end record, locator, zip64 record and a directory of members that declare any 64-bit values: the file opens if and only if it starts with a local header and no name repeats, and its index is exactly the members |
| `Zip64Archives.Zip64MemberFound` | subprojects/liblinker/external/libziparchive/zip_archive.cc:778-1026 | Looking up a member of such an archive finds its declared sizes and data if and only if the data end before the directory and the checksums agree or bit 3 of the flags is set, which is what the entry says about a descriptor |
| `Zip64Extra.SaturatedReplaced` | subprojects/liblinker/external/libziparchive/zip_archive.cc:597-598 | The assertions that a saturated value was replaced never fail |
| `EndRecord.ScanBackward` | subprojects/liblinker/external/libziparchive/zip_archive.cc:295-308 | The backward scan finds the last signature, or reports that there is none |
| `EndRecord.FindEndRecord` | subprojects/liblinker/external/libziparchive/zip_archive.cc:273-308 | The scan of the last 65557 bytes gives the position of the last signature in them, or none |
| `EndRecord.MapCentralDirectory` | subprojects/liblinker/external/libziparchive/zip_archive.cc:354-428 | Locates the directory or returns the exact error, for every file |
| `EndRecord.DirectoryBeforeEnd` | subprojects/liblinker/external/libziparchive/zip_archive.cc:323-343 | On success by either route, start plus size of the directory is at most the offset of the end record |
| `EndRecord.EndRecordIsFound` | subprojects/liblinker/external/libziparchive/zip_archive.cc:288-343 | Every end record with a comment of any length is found if no signature starts later, and the directory is where it says, or where the zip64 record says if a field is saturated, with the exact error otherwise |
| `EndRecord.NoEndRefused` | subprojects/liblinker/external/libziparchive/zip_archive.cc:354-390 | A file is invalid if it is shorter than 22 bytes, longer than 256 GiB or has no signature near its end |
| `EndRecord.EndRecordDecides` | subprojects/liblinker/external/libziparchive/zip_archive.cc:310-343 | What becomes of any file by its last end record, with the exact error: its comment must reach the end of the file, a saturated field leads to the zip64 record, the directory must end before it and have records |
| `EndRecord.Zip64Decides` | subprojects/liblinker/external/libziparchive/zip_archive.cc:209-271 | What becomes of a saturated end record, with the exact error: locator, its signature, the place and signature of the zip64 record, and the place of the directory |
| `EndRecord.OnlyLastSignature` | subprojects/liblinker/external/libziparchive/zip_archive.cc:296-304 | A later signature hides an earlier end record |
| `EndRecord.Zip64RecordIsFound` | subprojects/liblinker/external/libziparchive/zip_archive.cc:209-271 | A saturated end record is resolved through locator and zip64 record |
| `ZipDirectory.ValidateRecord` | subprojects/liblinker/external/libziparchive/zip_archive.cc:551-617 | The checks on one record, in their order, with the exact error |
| `ZipDirectory.RecordAccepted` | subprojects/liblinker/external/libziparchive/zip_archive.cc:551-617 | A record is accepted if and only if all of it lies inside the directory, it has the signature and a valid name, and the local header it declares starts before the directory |
| `ZipDirectory.RecordRefused` | subprojects/liblinker/external/libziparchive/zip_archive.cc:551-617 | Which error each failing check on a record gives, in order |
| `ZipDirectory.FirstPass` | subprojects/liblinker/external/libziparchive/zip_archive.cc:549-618 | The validating pass yields the record offsets or the first error, and the longest name |
| `ZipDirectory.FirstPassWalkable` | subprojects/liblinker/external/libziparchive/zip_archive.cc:550-618 | If the first pass succeeds, every header and name that the second pass reads lies inside the directory, at the same offsets |
| `ZipDirectory.WalkableIncreases` | subprojects/liblinker/external/libziparchive/zip_archive.cc:613-617 | The record offsets strictly increase, by at least 46 |
| `ZipDirectory.TooManyRecords` | subprojects/liblinker/external/libziparchive/zip_archive.cc:551-558 | A record count whose headers cannot fit is rejected |
| `ZipDirectory.IndexExactly` | subprojects/liblinker/external/libziparchive/zip_archive.cc:626-638 | The second pass fails exactly on repeated names and otherwise maps exactly the names of the directory |
| `ZipDirectory.SecondPass` | subprojects/liblinker/external/libziparchive/zip_archive.cc:627-638 | The unchecked loop builds an index with exactly those contents, for the hash table if all name offsets fit 32 bits |
| `ZipDirectory.ParseDirectory` | subprojects/liblinker/external/libziparchive/zip_archive.cc:538-638 | Both passes together agree with the reference directory if the index is the ordered map or all name offsets fit 32 bits |
| `ZipDirectory.ParseThenLookup` | subprojects/liblinker/external/libziparchive/zip_archive.cc:538-638 | Parsing and then looking up any name: right under that condition, and wrong for each name whose offset in the hash table exceeds 32 bits |
| `ZipDirectory.UnfaithfulName` | subprojects/liblinker/external/libziparchive/zip_cd_entry_map.h:98-105 | A directory that is parsed without that condition has such a name |
| `LargeDirectory.EncodedFile` | subprojects/liblinker/external/libziparchive/zip_archive.cc:209-428 | Any members that declare any values can be laid out, behind any bytes, as a zip64 file whose directory is exactly them |
| `LargeDirectory.NameLost` | subprojects/liblinker/external/libziparchive/zip_cd_entry_map.h:98-105 | A whole file that opens, with 32768 records in more than 4 GiB: a lookup of its longest name should find the entry, and the hash table has a wrong offset or none for it |
| `ZipDirectory.SmallIsFaithful` | subprojects/liblinker/external/libziparchive/zip_cd_entry_map.cc:126-138 | A directory of at most 4 GiB always meets the condition |
| `ZipArchive.ParseZipArchive` | subprojects/liblinker/external/libziparchive/zip_archive.cc:538-659 | The opened archive and its index agree with the reference, or the error does |
| `ZipArchive.OpenArchive` | subprojects/liblinker/external/libziparchive/zip_archive.cc:661-664 | Opening any byte string agrees with the reference, and a handle that opens points only at records inside the directory |
| `ZipArchive.OpenedWellIndexed` | subprojects/liblinker/external/libziparchive/zip_archive.cc:786-801 | Any file that opens has an index whose offsets are those of records inside the directory and whose names have at most 65535 bytes, so the record that a lookup reads lies inside the directory |
| `ZipArchive.SmallIsReliable` | subprojects/liblinker/external/libziparchive/zip_cd_entry_map.cc:126-138 | Every file whose directory is at most 4 GiB or has more than 65535 records has an index that can be relied on |
| `ZipArchive.LookupSound` | subprojects/liblinker/external/libziparchive/zip_archive.cc:778-1026 | For every file and every name, a lookup that succeeds starts from the indexed record, has its sizes, checksum, method, time stamp, version, attributes and mode, and the local header it declares has the requested name and the flags; the data end before the directory, and that header has the same sizes and checksum unless bit 3 of the flags is set |
| `ZipArchive.DescriptorBit` | subprojects/liblinker/external/libziparchive/zip_archive.cc:973 | A descriptor is announced by bit 3 of the flags, whatever the others are |
| `ZipArchive.LocalHeaderRefused` | subprojects/liblinker/external/libziparchive/zip_archive.cc:842-903 | Which local headers are refused, with the exact error |
| `ZipArchive.LocalSizesDecided` | subprojects/liblinker/external/libziparchive/zip_archive.cc:905-948 | Which sizes a local header gives, with the exact error |
| `ZipArchive.EntryRefused` | subprojects/liblinker/external/libziparchive/zip_archive.cc:973-1010 | Which entries are refused once both headers are read, with the exact error |
| `ZipArchive.DescriptorAcceptedExactly` | subprojects/liblinker/external/libziparchive/zip_archive.cc:726-776 | Where it can be read, a descriptor is accepted if and only if it is, after an optional signature, exactly checksum and sizes of the entry, in 64 bits if either size needs them |
| `ZipIteration.OpenAndLookup` | subprojects/liblinker/external/libziparchive/zip_archive.cc:1100-1115 | Opening any file and looking up any name through the concrete index answers as the reference does |
| `ZipIteration.OpenAndList` | subprojects/liblinker/external/libziparchive/zip_archive.cc:1059-1174 | Opening any file and iterating: each delivered name is a matching one, delivered once, and can be read; the iteration runs to the end with every matching name if and only if all of them can be read, and otherwise stops at a further matching name with the error of its entry |
| `ZipIteration.Lookup` | subprojects/liblinker/external/libziparchive/zip_archive.cc:1100-1115 | Lookup through a concrete index that opening any file yields is lookup in the abstract one |
| `ZipIteration.Next` | subprojects/liblinker/external/libziparchive/zip_archive.cc:1144-1174 | Yields one matching entry not yet yielded; ends, and starts over, exactly if none is left |
| `ZipIteration.ListMatching` | subprojects/liblinker/external/libziparchive/zip_archive.cc:1059-1174 | The same through any concrete index that opening yields |
| `Extraction.MemoryWriter.Append` | subprojects/liblinker/external/libziparchive/zip_archive.cc:1193-1207 | Copies a chunk behind the earlier ones, leaves one alone that already lies in the buffer, and refuses one that does not fit |
| `Extraction.CopyEntryToMemory` | subprojects/liblinker/external/libziparchive/zip_archive.cc:1527-1588 | Whenever the loop ends, mapped and direct copies both leave exactly the range of the file in the buffer, and its checksum, or fail and leave at most a prefix of the range; nothing else is touched |
| `Extraction.CopyEntryToChunks` | subprojects/liblinker/external/libziparchive/zip_archive.cc:1527-1588 | Whenever the loop ends, the mapped copy and the copy through a 32768 byte buffer deliver the same range and checksum; on reliable media they succeed if and only if the range lies in the file |
| `Extraction.CopyEndsExactly` | subprojects/liblinker/external/libziparchive/zip_archive.cc:1553-1581 | The copying loop ends if and only if its blocks are below 4 GiB or one of its first two blocks fails, and an entry of 4 GiB or more that is asked for at once is never copied whole |
| `Extraction.WhichCopiesEnd` | subprojects/liblinker/external/libziparchive/zip_archive.cc:1532-1546 | Every copy through the buffer ends, and no mapped copy of 4 GiB or more to a sink that takes everything does |
| `Extraction.FourGibibytesNeverEnd` | subprojects/liblinker/external/libziparchive/zip_archive.cc:1560-1561 | A mapped entry of exactly 4 GiB is copied zero bytes at a time forever |
| `Extraction.ExtractToMemory` | subprojects/liblinker/external/libziparchive/zip_archive.cc:1590-1634 | Whenever the copying loop ends: the exact error, or the range of the file in the buffer; an unknown method gives the code of a finished iteration |
| `Extraction.ExtractsExactly` | subprojects/liblinker/external/libziparchive/zip_archive.cc:1590-1634 | An extraction from reliable media succeeds if and only if there is room, the entry is stored, its bytes lie in the file, and a descriptor, if announced, is that of the entry |
| `Extraction.StreamEntry.Read` | subprojects/liblinker/external/libziparchive/zip_archive_stream_entry.cc:82-116 | Each read delivers the next 65535 bytes, or what is left, and extends the checksum by them |
| `Extraction.Drain` | subprojects/liblinker/external/libziparchive/zip_archive_stream_entry.cc:68-120 | A stream read to its end has delivered the entry if every block could be read and less otherwise, and verification holds exactly if the checksum of what was delivered matches |
| `Extraction.StopEarly` | subprojects/liblinker/external/libziparchive/zip_archive_stream_entry.cc:118-120 | A stream that is given up after any number of reads verifies only if everything that could be read has come out |
| `Extraction.DeliveredIsRange` | subprojects/liblinker/external/libziparchive/zip_archive_stream_entry.cc:91-116 | From any source, a stream delivers as many bytes as the entry has if and only if every block of it can be read, and then exactly the entry |
| `Extraction.DependableReadsAll` | subprojects/liblinker/external/libziparchive/zip_archive_stream_entry.cc:91-104 | From a source that fails no read, every block can be read if and only if the entry lies inside the file |
| `Extraction.VerifyDecidesExactly` | subprojects/liblinker/external/libziparchive/zip_archive_stream_entry.cc:118-120 | For every checksum function and recorded value the verdict at the end of a stream is the verdict on the entry itself, if and only if every block could be read |
| `Extraction.VerifyMissesFailedRead` | subprojects/liblinker/external/libziparchive/zip_archive_stream_entry.cc:95-104 | From any source, after a failed read of the first block of any entry nothing is delivered and verification still succeeds for a recorded checksum of zero |
| `CallMarshalling.MarshalFixed` | src/execution_context.cpp:286-357 | The slow path takes, for every signature, the registers and stack words that section 6.8.2 of the Arm AAPCS64 assigns; a list is located, and the last one located is what the host finds behind every list; it gives up exactly on an unsupported argument type |
| `CallMarshalling.ArgumentPlaces` | src/execution_context.cpp:288-347 | Each argument is in the register numbered by the earlier arguments of its kind, or, if those are eight or more, in the stack word numbered by the earlier arguments of either kind that found no register |
| `CallMarshalling.TypeTable` | src/execution_context.cpp:296-399 | Which types are passed and returned in which class |
| `CallMarshalling.ListsSeenExactly` | src/execution_context.cpp:292-347 | Each list argument leads the host to its own guest list, for every guest, if and only if the signature has at most one, since all translations share one buffer |
| `CallMarshalling.TwoListsShareOne` | src/execution_context.cpp:292-347 | Two lists: the host finds the second behind both |
| `CallMarshalling.Marshal` | src/execution_context.cpp:286-369 | The same with the remaining registers that an ellipsis function gets |
| `CallMarshalling.ReceivesPlaced` | src/execution_context.cpp:286-357 | The System V placement of any argument list (section 3.2.3 of the psABI) is read back by the callee as that list |
| `CallMarshalling.GetSupervisorFastCall` | src/execution_context.cpp:38-136 | Accepts exactly the ids of table entries that have a function and a signature whose arguments are scalars that fit six general and eight vector registers, with a supported return type and no side effects on the execution context |
| `CallMarshalling.FastAcceptsExactly` | src/execution_context.cpp:42-93 | The fast path takes exactly the functions without side effects whose arguments the System V standard passes in registers alone and whose result type it knows |
| `CallMarshalling.FastFrameIsPlacement` | subprojects/dynarmic/src/dynarmic/backend/x64/a64_emit_x64.cpp:480-499 | Whenever the fast path accepts, the host registers it loads are those of the System V placement of the slow path's list |
| `CallMarshalling.FastCallIsSlowCall` | subprojects/dynarmic/src/dynarmic/backend/x64/a64_emit_x64.cpp:480-520 | For every host function and guest state, a fast call leaves the guest as a slow call does, and the host reads the arguments of the guest's standard |
| `CallMarshalling.ReturnDelivers` | src/execution_context.cpp:371-399 | A result changes x0 or the low half of v0 and nothing else |
| `CallMarshalling.FastEllipsisCall` | subprojects/dynarmic/src/dynarmic/backend/x64/a64_emit_x64.cpp:480-502 | An ellipsis function that asks for no more than the registers hold reads the same on both paths, for every guest, if and only if the byte left in %al is not zero or it asks for integers only |
| `CallMarshalling.FloatNotPrinted` | subprojects/dynarmic/src/dynarmic/backend/x64/block_of_code.h:86-100 | A far call to a function at an address divisible by 256: it does not get the double it asks for |
| `VaList.Translate` | src/execution_context.cpp:322-347 | The two copies leave saved registers, then stack bytes, then old contents in the local buffer |
| `VaList.FaithfulExactly` | src/execution_context.cpp:322-347 | For every well-formed guest list and every script of integer and double reads, the host list yields the guest's values in every memory if and only if no saved integer register is left, or each double that spilled to the stack is read after all of them, at most sixteen reads go to the buffer, and the stack pointer is set if it is needed |
| `VaList.UntranslatableRead` | src/execution_context.cpp:324-344 | In every other script, a read that goes astray |
| `VaList.SpilledDoubleGoesAstray` | src/execution_context.cpp:324 | A concrete script on which the translation fails |
| `Fibers.SaveRestore` | src/execution_context.cpp:516-577 | Restoring brings back exactly the saved registers and touches no other, not even the high halves of v8 to v15 |
| `Fibers.SupervisorCallTransparent` | src/execution_context.cpp:606-620 | For every tree of nested calls and callbacks, a supervisor call returns with x19 to x30, sp, pc and d8 to d15 as they were |
| `Fibers.SupervisorCallResult` | src/execution_context.cpp:371-399 | The host function's value arrives, whatever callbacks left in the registers |
| `Fibers.LoopServesCalls` | src/execution_context.cpp:579-603 | An execution loop of any number of turns serves each supervisor call before the next stretch of guest code, which starts with the result in x0 or d0 and the callee-saved state as it was, or with what a jump restores |
| `Fibers.CallbacksRun` | src/execution_context.cpp:606-644 | A host function with any callbacks runs all of them in order, each started with its arguments, the exit address and else the registers as found, and each ended by putting back exactly the saved state |
| `Fibers.SavedState` | src/execution_context.cpp:516-577 | The saved state is x19 to x30, sp, pc and d8 to d15, and nothing else |
| `Fibers.RootFiberLeaks` | src/execution_context.cpp:609-619 | A root fiber would not be transparent |
| `Fibers.LongJumpReturnsToSetJump` | src/libs/libc_impl.cpp:58-76 | After any turns of the same loop that leave the buffer alone, a long jump restores the state of the setjmp and delivers its value where zero had been |
| `Fibers.SecondReturnDistinct` | src/libs/libc_impl.cpp:69-76 | The value reads back as the int it was, and the two returns are told apart if and only if the value is not zero |
| `Fibers.CallbackReceivesArguments` | src/execution_context.hpp:81-97 | A callback finds its arguments where the AAPCS64 looks for them, whatever its stack, if and only if they are at most eight integers and eight floats; it starts at its address with the exit address in x30 |
| `Fibers.Jit.ExecutionLoop` | src/execution_context.cpp:579-603 | The loop refines the tree semantics |
| `Fibers.Jit.HandleCallSvc` | src/execution_context.cpp:371-399 | Running a host function and delivering its result refines the tree semantics |
| `Fibers.Jit.RunFiber` | src/execution_context.cpp:606-644 | Construction, run and destruction of a fiber |
| `Fibers.Jit.SetArguments` | src/execution_context.hpp:81-97 | The register and vector counters place each argument |
| `ThreadContexts.ProcessorPool.Allocate` | src/execution_context.cpp:407-429 | Takes the lowest free id, failing exactly if none is free |
| `ThreadContexts.ProcessorPool.Release` | src/execution_context.cpp:431-435 | Frees one id and no other |
| `ThreadContexts.StepKeepsInvariant` | src/libs/pthread_impl.cpp:17-114 | Every step of every thread keeps counts exact, ids distinct, and only created keys set |
| `ThreadContexts.EveryRun` | src/libs/pthread_impl.cpp:17-114 | In every state of every interleaving: the count is one for running guest code plus one per set key, a context is freed at most once, guest code runs only on live contexts, and live contexts have distinct ids |
| `ThreadContexts.FreedIsFinal` | src/libs/pthread_impl.cpp:30-31 | Once a context is freed, no guest code runs on that thread again |
| `LeakedContexts.EndedWithKeys` | src/libs/pthread_impl.cpp:50-61 | An ended thread leaves its context behind if and only if a key was still set when the host library gave up on destructors |
| `LeakedContexts.FewLateSetsFreed` | src/libs/pthread_impl.cpp:49-114 | Whatever the interleaving and the host library's order and number of rounds, a thread that sets keys less than four times after its routine ends with its context freed, once |
| `LeakedContexts.LeakedExactly` | src/libs/pthread_impl.cpp:49-114 | For every number of such late sets: every thread that makes so many ends with its context freed, if and only if they are less than four |
| `LeakedContexts.ContextLeaks` | src/libs/pthread_impl.cpp:49-114 | A thread whose destructor sets its key again in each of the four rounds that POSIX asks for, any number of times in all: its context stays behind |
| `ThreadContexts.LiveBounded` | src/execution_context.cpp:404-435 | No more than 64 contexts are live in any state of any run |
| `ThreadContexts.UsedExactly` | src/execution_context.cpp:404-435 | An id is in use if and only if a live context has it |
| `ThreadContexts.SetThenGet` | src/libs/pthread_impl.cpp:82-122 | A successful set is what a later get returns, for that key only; each error has its exact condition and changes nothing; the count follows whether the key is set |
| `ThreadContexts.DestructorKept` | src/libs/pthread_impl.cpp:66 | In every run, once a step has created a key with a destructor the key has that destructor in every later state |
| `ThreadContexts.Runtime.ContextInit` | src/execution_context.cpp:437-497 | Starts a context as the protocol says, failing exactly if no id is free |
| `ThreadContexts.Runtime.SubRef` | src/libs/pthread_impl.cpp:30-31 | Drops a reference and frees with the last one, keeping the invariant |
| `ThreadContexts.Runtime.KeyCreate` | src/libs/pthread_impl.cpp:49-69 | A key that the host library grants has the given destructor, is zero on every thread and can then be set, with all other keys as before; without one nothing changes; the invariant is kept either way |
| `ThreadContexts.Runtime.SetSpecificOn` | src/libs/pthread_impl.cpp:82-114 | All five outcomes of setting a key |
| `ThreadContexts.Runtime.StartDestructor` | src/libs/pthread_impl.cpp:50-57 | A destructor runs with the nonzero value last set, on a live context, while its key reads as zero and no other key has changed; the invariant is kept |
| `LogChunks.SplitByLogdChunks` | subprojects/liblinker/external/libbase/logging_splitters.h:49-132 | The loop over newlines packs exactly as the reference does into chunks of 4033 bytes less the tag, or aborts if the tag leaves no room |
| `LogChunks.ConservedExactly` | subprojects/liblinker/external/libbase/logging_splitters.h:49-132 | The chunks hold the message with its headers, line for line, if and only if no line is cut and no empty line falls at the start of a buffer, which depends on lengths only |
| `LogChunks.BoundedExactly` | subprojects/liblinker/external/libbase/logging_splitters.h:113-131 | No chunk exceeds the bound if and only if there is a header or the last line keeps to it |
| `LogChunks.OverlongLastLine` | subprojects/liblinker/external/libbase/logging_splitters.h:124-131 | A message of one line that is a character too long, without header, goes out as one chunk over the bound |
| `LogChunks.OrdinaryMessage` | subprojects/liblinker/external/libbase/logging_splitters.h:45-48 | A message of nonempty lines that fit is conserved and bounded; without header the chunks join to the message |
| `LogChunks.ChunksAreGroups` | subprojects/liblinker/external/libbase/logging_splitters.h:93-131 | A message whose lines fit goes out as consecutive groups of lines, in order and without a gap, and no group could have taken the line that follows it |
| `LogChunks.EmptyFirstLineIsLost` | subprojects/liblinker/external/libbase/logging_splitters.h:77-98 | A message that starts with an empty line loses it: a concrete case |
| `Strings.Split` | subprojects/liblinker/external/libbase/strings.cpp:37-53 | Yields the pieces between delimiters, empty ones included |
| `Strings.JoinAll` | subprojects/liblinker/internal_includes/android-base/strings.h:98-109 | Joins with a separator |
| `Strings.JoinOfSplit` | subprojects/liblinker/external/libbase/strings.cpp:37-53 | Joining the pieces of a split at one delimiter gives the string back |
| `Strings.SplitOfJoin` | subprojects/liblinker/internal_includes/android-base/strings.h:98-109 | Splitting the join of any nonempty list of delimiter-free pieces gives the list back |
| `Strings.PiecesFree` | subprojects/liblinker/external/libbase/strings.cpp:44-50 | No piece contains a delimiter |
| `Strings.Tokenize` | subprojects/liblinker/external/libbase/strings.cpp:55-70 | For any set of delimiters, the pieces of the split without the empty ones |

## Left out

- Compression: `deflate` and `inflate` and the branches that need them; entries are stored.
- Memory mapping, prefetching, signal handlers and Windows branches.
- The standard library's file buffering: a write reaches the file when it is made.
- Conversion of times: the writer's time and date fields are parameters.
- ZipWriter.ZipWriter.StartAlignedEntry: stored entries only, and the 32-bit alignment flag is a parameter instead of a bit of the flags.
- ZipWriter.ZipWriter.WriteBytes: stored entries only; the branch that feeds the compressor is not modelled.
- ZipWriter.ZipWriter.FinishEntry: stored entries only; flushing of the compressor is not modelled.
- Extraction.ExtractToMemory: deflated entries are not modelled, it is stated for calls whose copying loop ends (`Extraction.CopyEndsExactly`), and no checksum is compared because that check is compiled out.
- Extraction.CopyEntryToMemory: stated for calls whose loop ends, which `Extraction.CopyEndsExactly` characterises.
- Extraction.CopyEntryToChunks: stated for calls whose loop ends; one class stands for files and callbacks, and free space and file length are not modelled.
- VaList.FaithfulExactly: scalar reads of eight bytes only, from a list whose stack does not start inside its own register save area.
- CallMarshalling.FastEllipsisCall: what an ellipsis function reads beyond the registers is not compared, since only the slow path puts anything there; the library behind the slow path is taken to announce eight vector registers.
- The host calling library behind the slow path is represented by the calling standard it implements.
- Fibers.Jit.HandleCallSvc: the marshalling of arguments is in `CallMarshalling.Marshal`.
- Fibers.SupervisorCallTransparent: guest memory is not modelled beyond jump buffers, and a jump to a buffer that was never set does nothing.
- Fibers.Jit.SetArguments: at most 31 integers and 32 floats, as many as there are registers.
- The comparator variables of `qsort` and `bsearch` when such calls nest.
- ThreadContexts.EveryRun: does not model deletion of keys, threads that leave by other means than returning, or data races on the map of keys; each step is atomic.
- A key created with a null destructor: its guest routine is entered like any other.
- Replacement and trimming of strings, comparison without case, `SplitByLines` (a split at newlines) and formatting of log lines.
- The translator, the linker, trampolines, JNI, user interface, audio, graphics and media.
