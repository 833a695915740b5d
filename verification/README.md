# ntfs-linker core, modelled in Dafny

ntfs-linker is a forensic tool. It reads three NTFS metadata streams of a
volume and its shadow copies: the `$MFT`, the `$LogFile` and the
`$UsnJrnl:$J` change journal. From them it builds a table of file records
and a timeline of create, delete, rename and move events. This project
models the pure decisions at the centre of that pipeline, as functions over
byte and integer sequences, and proves what they promise.

- **`trim.dfy`: the Python front ends.**
  - Locate `$J` (or `$USNJR~1`).
  - Scan it backwards in 1 MiB steps until a 4096-byte peek reads only zeros.
  - Copy the rest to `$USN`.
  - Build the argv of the native program.
- **`helper_functions.dfy`: little-endian and text helpers.**
  - `hex_to_long`.
  - `byte_to_str`.
  - `filetime_to_unixtime`.
  - `countAscii` and `compareNames`.
  - `getFullPath` with its cycle check.
  - `getCmdOption` and `cmdOptionExists`.
  - Enum printing.
- **`unicode.dfy`: the two converters.**
  - UTF-16 to a code point, following section 2.2 of RFC 2781.
  - A code point to UTF-8, following section 3 of RFC 3629.
- **`lnis.dfy`: `computeLNIS`.** Patience sorting with a binary search and a predecessor walk.
- **`mft.dfy`: an `$MFT` record.**
  - The "FILE" check and header fields.
  - The attribute walk.
  - The `$STANDARD_INFORMATION` and `$FILE_NAME` decoders.
  - The `$FILE_NAME` preference.
  - `asFile` and the table building of `parseMFT`.
- **`usn.dfy`: the journal.**
  - `decodeUSNReason`.
  - The record decoder and the record walk.
  - `clearFields`.
  - The rename/move pairing of `parseUSN`.
- **`log.dfy`: the `$LogFile`.**
  - Op-code names.
  - `LogRecord::init`.
  - `LogData::clearFields`.
  - `transactionRunMatch` and the create/delete/rename/move tests.
- **`aggregate.dfy`: aggregation.**
  - `textToString` and `Event::init`.
  - `Event::updateRecords`.
  - The two-stream merge of `outputEvents` / `writeAndStep`.
- **`sqlite_util.dfy`: `getColList`** and the three column tables it is applied to.
- **`walkers.dfy`: `zeroPad`** and the `vss_base` / `vss_NN` directory names.
- **Shared definitions.**
  - `common.dfy`: bytes, out-of-range reads, the 32-bit narrowing, `std::string` ordering, subsequences.
  - `file.dfy`: the `File` record.

## Model

| member | source | states |
|---|---|---|
| Trim.Locate | ntfs-linker.py:63-71 | The aliases are tried in order. The result is the first one naming a regular file: `$USNJR~1` is chosen only when `$J` is not one. The result is None exactly when neither names a regular file. |
| Trim.ScanBoundary | ntfs-linker.py:73-82 | The backward scan either stops at a peek k that is the first entirely-zero peek, preceded only by peeks with data, leaving the position 4096 bytes past that peek's start. Or it fails because a seek would pass the file start after only non-zero peeks. |
| Trim.ProbesMoveBack | ntfs-linker.py:76-77 | Each iteration leaves the cursor 2^20 - 4096 bytes further back. A later peek therefore ends before any earlier one begins. |
| Trim.ScanDeterministic | ntfs-linker.py:75-82 | At most one peek can end the scan. A scan that stops cannot also fail, so the outcome is determined by the bytes. |
| Trim.TailProperties | ntfs-linker.py:75-86 | The kept tail is k whole steps long. The 4096 bytes just before it are all zero, and every earlier peek that found data lies inside the tail. |
| Trim.RetrimFails | ntfs-linker.py:73-86 | Scanning the written `$USN` again meets the same non-zero peeks and then runs off the file start, so a trimmed copy is never trimmed further. |
| Trim.TrimJournal | ntfs-linker.py:63-95 | No journal is reported exactly when neither alias names a regular file. Otherwise the seek fails exactly when the scan runs off the file start. Opening `$USN` fails exactly when the scan stops but `$USN` is a folder. A successful run changes only `$USN`, which then holds exactly the bytes after the all-zero peek, and launches with the given argv. |
| Trim.LaunchedIffScanStops | ntfs-linker.py:66-93 | The native program is launched exactly when a journal is found, its scan stops at an all-zero peek, and `$USN` is not a folder. |
| Trim.LinkerArgv | ntfs-linker.py:89-91 | The argv is the executable, `--python`, `-i` input, `-o` output, followed by `--overwrite` exactly when `--append` was not given. |
| Trim.LinkerArgvParses | ntfs-linker.py:89-91 | The native program's `getCmdOption` reads back the input after `-i`. It reads the output after `-o` unless the input folder is itself called "-o". `--python` is always present. `--overwrite` is present iff append is off, when neither folder is called "--overwrite". |
| Trim.LinkerMain | ntfs-linker.py:58-95 | The whole trimming contract above holds for the input directory, with the argv of LinkerArgv. So the subprocess is launched exactly when the scan stops and `$USN` can be written, with `$USN` holding the tail. A missing journal is reported, not launched. |
| Trim.SelectDir | main-v4.3.py:10-18 | The directory is the argument after the first `-i`, else after the first `-u`, else "". A flag in last position raises an uncaught IndexError, modelled as None. |
| Trim.PassThroughArgv | main-v4.3.py:44 | The argv is the executable and `--python` followed by the script's own arguments minus argv[0], unchanged and in order. |
| Trim.PassThroughMain | main-v4.3.py:5-46 | The run fails with IndexError exactly when SelectDir does. Otherwise the whole trimming contract holds for the selected directory, with the pass-through argv. A path naming no directory has no journal. |
| HelperFunctions.HexToLongIsLeValue | src/helper_functions.cpp:38-45 | The shift-and-add loop from the last byte down computes the little-endian value of the bytes (unsigned) reduced modulo 2^64. |
| HelperFunctions.HexToLongExact | src/helper_functions.cpp:33-45 | For at most 8 bytes nothing overflows: the result is the exact little-endian value and is below 2^(8n). |
| HelperFunctions.HexToLongTestVectors | test/test_helper_functions.cpp:6-9 | `10 00 00 00` reads as 16 and `FF 00 00 00` as 255. |
| HelperFunctions.ByteToStr | src/helper_functions.cpp:19-31 | The text has exactly two characters per byte, each from 0-9/A-F. |
| HelperFunctions.ByteToStrRoundTrip | src/helper_functions.cpp:22-31 | The high nibble comes first and nothing is lost: reading the hex pairs back gives the original bytes. |
| HelperFunctions.FiletimeToUnixtime | src/helper_functions.cpp:47-56 | The epoch shift wraps in 64 bits and the division by 10^7 truncates toward zero. 116444736000000000 maps to 0. |
| HelperFunctions.CountAscii | src/helper_functions.cpp:233-240 | The count of bytes with bit 7 clear is at most the length. It equals the length iff every byte is ASCII. |
| HelperFunctions.CompareNamesStrictOrder | src/helper_functions.cpp:242-251 | `compareNames` is irreflexive, asymmetric and transitive, so it is a strict preference. |
| HelperFunctions.CompareNamesAsciiFirst | src/helper_functions.cpp:246-249 | An all-ASCII name is preferred to any non-ASCII name, whatever their lengths. |
| HelperFunctions.FullPath | src/helper_functions.cpp:138-151 | An out-of-range or invalid record gives "". A record already on the stack gives "CYCLICAL_HARD_LINK". A self-parented record gives its bare name. Any other record's path ends with a backslash followed by its name. |
| HelperFunctions.FullPathDepthBound | src/helper_functions.cpp:138-156 | Each record is pushed at most once, so the recursion depth is at most the number of records. |
| HelperFunctions.FullPathTwoCycle | src/helper_functions.cpp:142-149 | Two records that are each other's parent give "CYCLICAL_HARD_LINK\\b\\a" instead of looping. |
| HelperFunctions.RootedFullPath | src/helper_functions.cpp:138-151 | For a chain of distinct valid records, each the parent of the next, starting at a self-parented root, the path of the last record is the chain's names joined by backslashes, root first. |
| HelperFunctions.CyclicFullPath | src/helper_functions.cpp:138-151 | For the same kind of chain whose first record's parent is a later record of the chain, the path is "CYCLICAL_HARD_LINK" followed by a backslash and the chain's names joined by backslashes. |
| HelperFunctions.OrphanFullPath | src/helper_functions.cpp:138-151 | For a chain whose first record's parent is out of range or invalid, that parent contributes "", so the path is a backslash followed by the chain's names joined by backslashes. |
| HelperFunctions.GetCmdOption | src/helper_functions.cpp:159-164 | There is a value iff the option occurs somewhere before the last position. The value is the argument after the first occurrence. |
| HelperFunctions.CmdOptionExistsIff | src/helper_functions.cpp:166-168 | `cmdOptionExists` holds iff the option occurs anywhere. |
| HelperFunctions.EventTypeNameRoundTrip | src/helper_functions.cpp:211-222 | Create, delete and move print as their own names and read back. Every other value prints "Rename". |
| HelperFunctions.EventSourceNameCases | src/helper_functions.cpp:224-231 | Only the journal source prints "$UsnJrnl/$J". Every other source, the embedded one included, prints "$LogFile". |
| Unicode.Utf16ToCp | include/unicode.h:5-50 | Fewer than 2 bytes consume nothing and leave cp alone. Only 0, 2 or 4 bytes are ever consumed, and never more than are available. |
| Unicode.PairCp | include/unicode.h:34 | The shifted-and-or'ed surrogate combination equals 0x10000 + (lead - 0xD800)·1024 + (trail - 0xDC00), which lies in [0x10000, 0x110000). |
| Unicode.Utf16RoundTrip | include/unicode.h:12-49 | Decoding the UTF-16 encoding of any scalar value, in either byte order and whatever follows it, consumes exactly 2 or 4 bytes and yields that value. |
| Unicode.Utf16DecodeIsEncoding | include/unicode.h:12-49 | Conversely, whenever the decoder succeeds, the bytes it consumed are exactly the encoding of the scalar value it returned. Lone trails, unpaired leads and truncated pairs are rejected. |
| Unicode.EndianIsByteSwap | include/unicode.h:12-27 | The LE flag only chooses which byte of each pair is the high byte. Big-endian decoding is little-endian decoding of the pair-swapped bytes. |
| Unicode.CpToUtf8 | include/unicode.h:52-99 | Nothing is written for negative values, surrogates or values at or above 0x110000. Otherwise 1, 2, 3 or 4 bytes are written for values below 0x80, 0x800, 0x10000 and 0x110000. |
| Unicode.Utf8Shape | include/unicode.h:58-94 | The bytes written have the lead and continuation bit patterns 0xxxxxxx, 110xxxxx 10xxxxxx, 1110xxxx 10xxxxxx 10xxxxxx and 11110xxx 10xxxxxx×3. |
| Unicode.Utf8RoundTrip | include/unicode.h:58-94 | The payload bits of the written bytes reassemble to the code point, for every scalar value. |
| Unicode.Utf8Canonical | include/unicode.h:58-94 | The encoder writes the only well-formed encoding: any byte string a strict UTF-8 decoder accepts is what the encoder writes for the value it decodes to. |
| Unicode.Utf16ThenUtf8 | include/unicode.h:32-36 | Every code point produced by a successful UTF-16 decode is accepted by the UTF-8 encoder and decodes back from its bytes. |
| Lnis.FindPile | include/aggregate.h:69-79 | The binary search returns the first pile whose top value is below x. That slot exists, so the write `s[lo] = i` is in range. |
| Lnis.ForwardPass | include/aggregate.h:57-83 | After the loop the pile tops never increase and p[i] < i for every i. Each predecessor has a value at least as large. The walk from every position is at least as long as any non-increasing subsequence ending there. |
| Lnis.ReadPredecessors | include/aggregate.h:85-91 | The walk back through p terminates and collects the hits along the predecessor chain, in original order. |
| Lnis.ComputeLnis | include/aggregate.h:47-93 | Empty hits give an empty result. Otherwise the result is the hits along a non-increasing subsequence that ends at the last hit, with no such subsequence longer. Its last element is the last hit. |
| Lnis.ComputeLnisLongest | include/aggregate.h:25-29 | With the walk started at the top of the last pile, the result is a longest non-increasing subsequence overall, which is what the class comment promises. |
| Lnis.TestVectorOne | test/test_lnis.cpp:23-34 | On {10, 9, 9, 8, 2, 1, 8, 7, 6, 5} the only answer meeting the contract is [0, 1, 2, 3, 6, 7, 8, 9], the expected list. |
| Lnis.LastHitCounterexample | include/aggregate.h:86-91 | On {3, 2, 5} the contract forces the answer [2], although positions [0, 1] form a longer non-increasing subsequence. |
| Mft.DecodeSi | src/mft.cpp:57-64 | The four times are the 8-byte little-endian fields at 0, 8, 0x10 and 0x18. Usn is at 0x40, and the attribute is marked valid. |
| Mft.DecodeFn | src/mft.cpp:66-77 | Parent is the 6-byte field at 0 narrowed to unsigned int. The times are at 0x08 to 0x20 and the sizes at 0x28/0x30. The name is converted from the bytes at 0x42 with the length byte at 0x40, and the attribute is valid. |
| Mft.ParentIsLowFourBytes | src/mft.cpp:67 | Narrowing the 6-byte parent reference to 32 bits keeps exactly its low four bytes. |
| Mft.FnLessStrictWeakOrder | src/mft.cpp:92-103 | `operator<` is irreflexive, asymmetric and transitive, and so is its incomparability. |
| Mft.FnLessIsRankOrder | src/mft.cpp:92-103 | For names below 2^31 bytes the order is validity first, then ASCII-ness, then length. |
| Mft.PickFnIsFirstMaximum | src/mft.cpp:40-45 | The kept `$FILE_NAME` is not below the start value or any candidate. Otherwise it is the first candidate to reach the maximum, since only a strictly greater one replaces it. |
| Mft.WalkBounds | src/mft.cpp:29-54 | Every visited offset is below 1024 and below the allocated size. Each advance is by a length in (0, 1024). The walk starts at the first-attribute offset and ends within 1024 steps. |
| Mft.FoldSiIsLast | src/mft.cpp:36-39 | Sia is the last `$STANDARD_INFORMATION` attribute of the walk, or the default when there is none. |
| Mft.ParseNeedsSignature | src/mft.cpp:13-16 | A record is parsed exactly when its first four bytes are "FILE". Otherwise every field keeps its default. |
| Mft.ParseHeader | src/mft.cpp:19-26 | isAllocated is bit 0 and isDir bit 1 of the flags word at 0x16. Lsn is the 8-byte field at 8 and Record the 4-byte field at 0x2C. |
| Mft.ParsedFnIsPreferred | src/mft.cpp:40-45 | Across the record's `$FILE_NAME` attributes the kept one is maximal under `operator<`. It is valid whenever the record has any. |
| Mft.AsFile | src/mft.cpp:88-90 | The result is a valid File with the chosen name, the record number, the parent and the formatted MFT-change time. |
| Mft.RegisterRecordGrows | src/mft.cpp:162-165 | Below 2^31 entries a too-short table grows to Record + 2 entries and the record lands at its number. Earlier entries are kept and new ones are placeholders. |
| Mft.RegisterRecordWraps | src/mft.cpp:163-165 | A record number of 2^31 makes the int loop counter negative, so nothing is appended and the store falls outside the table. |
| Usn.DecodeIsJoin | src/usn.cpp:18-46 | The rendering is "USN" followed by "\|NAME" for each set flag, in the fixed listing order. The trailing '\|' is dropped. |
| Usn.DecodeShape | src/usn.cpp:18-46 | Every rendering starts with "USN", and reason 0 renders as "USN". |
| Usn.MoreFlagsMoreNames | src/usn.cpp:21-41 | Setting more listed flags only adds names: the names for fewer flags are a subsequence of those for more. |
| Usn.OrKeepsNames | src/usn.cpp:21-41 | Or-ing in more bits keeps every name already rendered. |
| Usn.ListedFlagsOnly | src/usn.cpp:21-41 | Two reasons that agree on the 21 listed bits render identically. |
| Usn.UnlistedBits | src/usn.cpp:21-41 | Bits 0x8 and 0x80 contribute nothing to the rendering. |
| Usn.UnlistedBit | src/usn.cpp:21-41 | Any bit outside the listed flags leaves the rendering unchanged. |
| Usn.DecodeUsnRecord | src/usn.cpp:250-264 | The fields come from their fixed offsets: references at 0x8/0x10, usn 0x18, timestamp 0x20, reason 0x28, name length 0x38 and name offset 0x3A. The name is `file_len >> 1` UTF-16 units. |
| Usn.RecordNumbersAreLow48Bits | src/usn.cpp:252-256 | The MFT and parent record numbers are the low 48 bits of their 8-byte file references. |
| Usn.RecordsAreDisjoint | src/usn.cpp:161-175 | The records decoded lie inside the input. Each has a length in (0, 0x1000]. They do not overlap, because zero lengths skip 8 bytes and the offset advances by exactly the record length. |
| Usn.StopsAtOversizedLength | src/usn.cpp:167-175 | A length word above 0x1000 ends the walk: no record is found there or after. |
| Usn.Streams | src/usn.cpp:194-201 | A record goes to the create stream iff FILE_CREATE is set and to the delete stream iff FILE_DELETE is set. |
| Usn.ClearFields | src/usn.cpp:266-282 | All twelve fields are reset: the file, MFT, parent, parent-after, USN, timestamp, length and name-offset numbers are 0, both names are empty and no reason flag is left. |
| Usn.AccumulateKeeps | src/usn.cpp:209-220 | For a rename record, OLD sets the old name and parent and NEW sets the new name and parent. The reasons are or-ed in, and a fresh accumulator first takes the record itself. |
| Usn.AccumulateIgnoresOthers | src/usn.cpp:202 | A record without a rename flag leaves the accumulator unchanged. |
| Usn.FlushIff | src/usn.cpp:223-233 | A flush emits a rename iff the new name is set and differs from the old. It emits a move iff the new name is set and the parents differ, and nothing else. |
| Usn.PairFlushesOnlyAtBoundaries | src/usn.cpp:222-235 | Nothing is emitted while the MFT number stays the same without CLOSE. On a different number or CLOSE the accumulator is flushed and cleared. |
| Usn.RenameSequence | src/usn.cpp:202-235 | RENAME_OLD_NAME, RENAME_NEW_NAME, CLOSE for one file emit a rename when the names differ and a move when the parents differ, in that order. The accumulator ends cleared. |
| Usn.PairAllEventsJustified | src/usn.cpp:202-235 | Over any run of records, every emitted rename has a set, changed name and every emitted move a set name and changed parent. |
| Usn.ParseUsn | src/usn.cpp:143-238 | Every walked record is written to the main stream, in order, each one decoded at the offset the walk reached. The created/deleted streams are in-order subsequences holding exactly the records with FILE_CREATE/FILE_DELETE, and every paired event is justified. |
| Log.DecodeInvalidIff | src/log.cpp:15-48 | Exactly the LogOps constants have a name. Every other value, such as 0x10, 0x11, 0x17 or 0x22, is "Invalid". |
| Log.InitRecord | src/log.cpp:244-313 | init returns -2, -1 or a record length of at least 0x30. |
| Log.InitClassifies | src/log.cpp:264-313 | Record type 0 gives -2. -1 is returned iff the type is non-zero and the flags word is 1. A length is returned iff neither op exceeds 0x21, and it is 0x30 plus the 4-byte ClientDataLength. |
| Log.InitIgnoresPrevHasNext | src/log.cpp:264-274 | `prev_has_next` changes nothing: the `exit(0)` branch is unreachable. |
| Log.AcceptedOpsInRange | src/log.cpp:285-294 | An accepted record's redo and undo ops are at most 0x21, so each either names an op or prints "Invalid". |
| Log.ClearFields | src/log.cpp:424-438 | Ids and Offset become -1, Lsn 0, and the strings and op lists empty. Snapshot and Volume are untouched. |
| Log.ClearFieldsIdempotent | src/log.cpp:424-438 | Clearing twice is clearing once. Two transactions of the same volume clear to the same state. |
| Log.FirstMatchIsSubsequence | src/log.cpp:450-466 | Taking the first matching pair for each pattern entry succeeds iff the pattern is a subsequence, so greediness loses nothing. |
| Log.TransactionRunMatch | src/log.cpp:440-467 | The result is true iff the pattern pairs occur in order at strictly increasing positions of the run. With interchange, 0x0C/0x0D count as 0x0E/0x0F. The empty pattern matches, and the transaction's own lists are inputs only. |
| Log.RenameAndMoveShareThePattern | src/log.cpp:556-562 | A rename needs a changed name and a move a changed parent. Both use the rename pattern, so a rename with a changed parent is also a move and vice versa. |
| Log.CreateNeedsEnd | src/log.cpp:568-577 | A create transaction contains the (ForgetTransaction, CompensationLogRecord) pair. |
| Log.DeleteNeedsEnd | src/log.cpp:552-585 | A delete transaction contains the (ForgetTransaction, CompensationLogRecord) pair, the last pair of the delete pattern. |
| Log.DeletePatternIsDeleteOnly | src/log.cpp:548-585 | The delete pattern logged on its own is a finished transaction. It is recognised as a delete and not as a create. |
| Log.TransactionOverIff | src/log.cpp:564-566 | Stated for non-empty op lists, since `back()` of an empty list is undefined. The transaction is over iff its last (redo, undo) pair is (ForgetTransaction, CompensationLogRecord), and that pair survives interchange. |
| Log.RootFormOfRename | src/log.cpp:586-595 | A rename logged with the index-root ops matches the rename pattern only with interchange. |
| Aggregate.TextToString | src/aggregate.cpp:82-84 | NULL reads as "" and any other text as itself. |
| Aggregate.EventInit | src/aggregate.cpp:86-112 | The row's columns are read in order, the text columns through textToString, and the event is unanchored. |
| Aggregate.InitRecordsChangesOnly | src/aggregate.cpp:107-110 | An unchanged parent becomes -1 and an unchanged name "". A genuine change is kept as read. |
| Aggregate.InitIdempotent | src/aggregate.cpp:86-112 | Reading an event back after storing it gives the same event: the normalisation is idempotent. |
| Aggregate.UpdateRecordsEffect | src/aggregate.cpp:167-193 | DELETE with Record ≥ 0 stores a valid File of the event's name, record, parent and time. CREATE changes nothing. A non-embedded MOVE sets the parent to PreviousParent, and a non-embedded RENAME with a previous name restores the name. |
| Aggregate.UpdateRecordsFrame | src/aggregate.cpp:167-193 | Only the event's own entry can change, only in the field its type names, and the table keeps its size. |
| Aggregate.MoveWithoutParentChange | src/aggregate.cpp:181-184 | A move read with an unchanged parent carries -1, so replaying it sets the parent to 2^32 - 1. |
| Aggregate.OutputEvents | src/aggregate.cpp:13-80 | Every event of both streams is written exactly once, each stream in order, with orders Count+1, Count+2, … consecutive. While both streams have rows, a journal event goes first only when the waiting log row is a create with a strictly earlier timestamp; a waiting non-create log row always goes first. Journal events are anchored; a log event is anchored only when it is a create written while journal rows remain. |
| Aggregate.UsnFirstIff | src/aggregate.cpp:43-61 | While both streams have rows, the next event comes from the journal if and only if the waiting log row is a create whose timestamp is strictly earlier than the journal row's. |
| Aggregate.MergeIsDetermined | src/aggregate.cpp:23-80 | Any two outputs that both satisfy the merge rule at every position are equal, so the rule fixes the interleaving completely. |
| SqliteUtil.GetColList | src/sqlite_util.cpp:22-43 | The items are joined with ", " between neighbours, none leading or trailing. An empty range gives "". |
| SqliteUtil.CountJoin | src/sqlite_util.cpp:24-29 | n items are joined by exactly n - 1 separators. |
| SqliteUtil.JoinLength | src/sqlite_util.cpp:24-29 | The length is the items' total plus two characters per separator. |
| SqliteUtil.PlaceholdersPerColumn | src/sqlite_util.cpp:37-39 | Mode 2 has exactly one "?" per column. |
| SqliteUtil.NamesCommaCount | src/sqlite_util.cpp:34-36 | With comma-free names, mode 1 has one comma fewer than columns. |
| SqliteUtil.OtherModeIsSeparators | src/sqlite_util.cpp:30-41 | Any mode other than 0, 1 and 2 writes only the n - 1 separators, since the switch has no default. |
| SqliteUtil.InsertStatementsBalance | src/sqlite_util.cpp:173-181 | The event insert skips id and position, so it names 16 columns and binds 16 placeholders. The log insert has 12 of each and the journal insert 11. |
| Walkers.ZeroPadLength | src/walkers.cpp:84-89 | The result is as wide as the wider of i and n, and never narrower than i's own digits. |
| Walkers.ZeroPadValue | src/walkers.cpp:84-89 | For i ≥ 0 the result is i's digits with '0's on the left, so it reads back as i. |
| Walkers.StoreWidth | src/walkers.cpp:107-111 | Every store 0 ≤ i < n gets a name exactly as wide as n. |
| Walkers.StoreOrder | src/walkers.cpp:107-111 | For i < j < n, "vss_" + zeroPad(i, n) sorts strictly before "vss_" + zeroPad(j, n). |
| Walkers.BaseSortsLast | src/walkers.cpp:99-100 | "vss_base" sorts after every store directory name. |
| Walkers.NegativePadding | src/walkers.cpp:84-89 | A negative number is padded outside its sign: zeroPad(-1, 100) is "0-1". |
| Walkers.DigitsValue | src/walkers.cpp:85 | `std::to_string` of a natural number reads back as that number. |
| Files.MakeFile | include/file.h:16-21 | The constructed File is valid. It carries the name and time, and its numbers are narrowed to unsigned int, keeping in-range values. |

## Left out

- Reading and writing files, SQLite statements, shadow-copy access (libvshadow, TSK), progress output and `exit` are not modelled.
  - A directory is a map from names to contents.
  - A database select is a sequence of rows.
  - Written streams are returned sequences.
- The Python scripts' argparse, folder checks and `print` messages are not modelled. `LinkerMain` starts after argparse has accepted the folders.
- Stream mechanics of `parseLog`, `parseUSN` and `parseMFT` are not modelled: eof state, buffer regrowth, and the split-page handling in `src/log.cpp:161-217`.
  - The journal walk works on one byte sequence, with the input end in place of `eof()`.
  - `doFixup`, `ceilingDivide` and `advanceStream` are not part of this model.
- `mbcatos` (external UTF-8 library) and `filetime_to_iso_8601` (`gmtime`/`strftime`) are function-valued parameters, not definitions.
- Reads past the end of a buffer are undefined behaviour in the C++ code. The model reads them as zero bytes.
- `par_record_after` is never set by the `USN_Record` constructor (it is indeterminate). The model takes it as 0.
- `processLogRecord` (attribute-content parsing of log records), the `insert`/`toString`/`write` formatting and the column-header strings are not modelled. The op-code names are modelled, but their injectivity is not proved.
- `EventLNIS` (`include/aggregate.h:24-43`) is a class whose methods are not shown. Only `computeLNIS` is modelled, on `int` elements as the tests use it.
- Lnis.TestVectorOne: the second vector of `test/test_lnis.cpp` ({8, 5, 9, 2, 1, 4, 3, 6, 2}) is not proved. Only the first is.
- Unicode.Utf16ToCp: the templates are instantiated on unsigned bytes and an `int` code point. The `B` iterator type and the template parameters are not modelled.
- Log.InitRecord: ClientDataLength is the unsigned 4-byte field (`include/log.h:26`). The conversion of `0x30 + ClientDataLength` to `int` is not modelled as a wrap, so values at or above 2^31 - 0x30 are returned unwrapped.
- Log.InitClassifies: its length clause has the same gap. It states 0x30 plus ClientDataLength without the `int` wrap.
- `LogData` keeps its redo and undo op lists of equal length (`Paired`). The event tests require this, because the source's `transactionRunMatch` indexes `undo1[j]` with `j` bounded only by `redo1.size()`.
- A USN reason word is modelled as the set of its bit positions. `ReasonFlags` converts the 4-byte field to that set.
- Walkers.ZeroPadValue: stated for natural `i` only. The walker only pads store indices 0 ≤ i < n, and `NegativePadding` shows the one negative case.
- HelperFunctions.FiletimeToUnixtime: the input is required to be a 64-bit `long long`, as in the source's signature.
- Mft.RegisterRecordGrows: stated below 2^31 entries and record numbers below 2^31 - 1. The wrap-around beyond is shown by `RegisterRecordWraps` only.
- The trim scan, as `ntfs-linker.py:73-82` writes it:
  - The scan stops at the first peek that reads only zeros.
  - In a file of length L, peek k starts at L - k·(2^20 - 4096) - 4096, because each peek's read moves the cursor forward again by 4096 bytes.
- `computeLNIS` walks the predecessors back from the last position (`include/aggregate.h:86`), not from the top of the longest pile that the class comment at `include/aggregate.h:25-29` describes. See "## Findings".

## Findings

| source | as written | input that shows it | evidently intended | confidence | as-written member | corrected member |
|---|---|---|---|---|---|---|
| include/aggregate.h:86 | The reconstruction starts at `p.size() - 1`, the last position, so the result is a longest non-increasing subsequence among those ending at the last hit only. | elements {3, 2, 5}, hits {0, 1, 2}: the result is [2], while [0, 1] (values 3, 2) is longer. | Start at `s.back()`, the top of the longest pile, giving a longest non-increasing subsequence overall as the comment at include/aggregate.h:25-29 says. | not executed | Lnis.ComputeLnis, Lnis.LastHitCounterexample | Lnis.ComputeLnisLongest |
