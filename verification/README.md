# Verified models of littlefs, the median filter and the software CRC

littlefs (`ext/littlefs`) keeps a file system on flash that survives power loss at any moment. This
project models its core in Dafny and proves what its design rests on. Two stand-alone algorithms from
`community/os/various`, the running median and the software CRC driver, are modelled beside it.

The meaning of a metadata log is given once, in `Replay`: tags replayed from the front insert,
remove and set the entries of a directory. Everything faster is proved against that.

- **Shared.** `Basics`, `Align` and `Tags`: options, words, rounding, and the fields of a tag.
- **The log.** `Words`, `TagChain`, `Commits` and `Crc` take tags to bytes and back: xor-chained tags, sealed
  by checksum footers. `Lookup` searches the bytes backward, `Compaction` and `Sources` rewrite a log, `NameSearch` and
  `NameUpkeep` find names during a fetch, and `WholeLog` puts writing, scanning and looking up together.
- **Stopping at any point.** `Commits` keeps the bytes of the block after every record and footer it writes.
  `PairLog` runs appends and rewrites of a metadata pair through it, and answers for every image of the
  two blocks that agrees with one of these up to the last checksum complete in it. A `MetaPair` goes
  through any sequence of appends, rewrites, stops and mounts; its history says which commits came through,
  and its log is always made of just those. `GlobalState` (one record kept as the xor of shares in all pairs) and
  `Rename` (two commits and a pending move) keep the linked pairs after each commit in a trace. What a
  rename leaves is compared directory by directory, a directory being a run of pairs.
- **Storage.** `Allocator`, the file skip list (`CtzMath`, `CtzList`, `BitTricks`) and the read and program
  caches (`BlockCache`).
- **In memory.** `Handles` (open files after a commit) and `Path` (path lookup).
- **Beside littlefs.** `Median`; `SoftCrc` and `SoftCrcPaths`, on the algebra of `Remainders` that `Crc` uses too.

State that the source changes in place is a class with the same fields; its loops are loops with
invariants. Integers are unbounded unless a width matters; then the wraparound is written out
(`Index`, `Bump`, `Scmp`, `AddId`, `NextPow2`). Device calls succeed unless the run stops. What each traversal
finds that the allocator asks for, the erased value of a block and padding bytes are arbitrary.

Where a property one would expect is false of the code, the exact condition is proved:

- The closed form for the block of a file position is right for all sizes up to a limit if and only if
  blocks have room for their pointers (`IndexRightIff`). The check at set-up and DESIGN.md (line 702) admit
  blocks of 104 bytes, for which it fails at position 805306368 (`BlockSizes`, `SetupAdmits104`).
- No read through the caches with a given hint gets stuck if and only if the waiting bytes start at a
  multiple of the read size, or the block ends too soon for a direct read before them (`MovesIffAligned`). A hint of
  0 gets stuck exactly on aligned requests for less than a read unit that no cache answers (`HintNeeded`).
- Compaction leaves a deletion of an attribute behind if and only if the input ends with one in range
  (`RemovalLeftIff`).
- A traversal that comes upon moves and lists of user attributes emits what it would if they were expanded
  before, if and only if nothing behind one that is in range writes an item of it (`TraverseFrom`). The
  lists that the file system makes are such (`OneSource`); otherwise a deleted attribute can come
  back (`DisturbedStays`). A list of 0x3ff user attributes is lost, since its tag reads as a deletion
  (`FullListLost`).
- The backward lookup answers as the forward replay if and only if it is not misled: the id it traces
  back leaves its ten bits before a record answers, and an entry has an attribute of the type that the carry makes
  (`GetSlice`, `BackwardIff`). No id of a directory leaves its bits (`FitsInside`); id 0x3ff can
  (`WrapsAround`).
- A path is looked up as it reads if and only if no "." takes the ".." of a name before it
  (`LooksUpResolvedIff`, `DotAfterName`).
- A name search goes on to the next pair exactly when all names in this pair are less and not both a move
  is pending and some name that is not less was once in the log (`FetchMatch`, `UnsetIff`, `StopsEarly`).
- The plain C form of lfs_npw2 is right if and only if its argument is not 1 (`NextPow2`).

## Model

| member | source | states |
|---|---|---|
| `Compaction.Traverse` | ext/littlefs/lfs.c:743-835 | the tags a filtered traversal emits for [begin, end) replay to exactly those entries, renumbered from 0; each is in force, none is there twice, none is a create or delete; a deletion is left iff the input ends with one in range |
| `Compaction.Collect` | ext/littlefs/lfs.c:750-802 | the loop emits the surviving tags in range, in log order |
| `Compaction.Visit` | ext/littlefs/lfs.c:777-833 | one round: the type mask, the nested scan, the range, the renumbering |
| `Compaction.Scan` | ext/littlefs/lfs.c:713-739 | the nested traversal with its filter follows one tag to the end of the log, or drops it |
| `Compaction.LiveRep` | ext/littlefs/lfs.c:713-739 | for every well-formed log the surviving tags hold just the attributes of the replay, each once |
| `Compaction.RemovalLeftIff` | ext/littlefs/lfs.c:723-730 | a deletion of an attribute is left in the output iff the last tag of the input is one, of an entry in range |
| `Sources.TraverseFrom` | ext/littlefs/lfs.c:743-835 | the same traversal when moves and lists of user attributes are among the pending attributes, expanded where it comes to them: which tags it emits; with fewer than 0x3ff attributes in a list they are those of the traversal of the expanded attributes, iff nothing behind a source in range writes one of its items; then all of the above holds of it |
| `Sources.ScanFrom` | ext/littlefs/lfs.c:785-790 | the nested traversal goes over the log and each source expanded |
| `Sources.VisitSource` | ext/littlefs/lfs.c:807-827 | a source is filtered as a whole, and its items handed on under the id it has then |
| `Sources.Lockstep` | ext/littlefs/lfs.c:713-739 | the tag of a source goes where its items go, and is left exactly as long as an item nobody overwrites |
| `Sources.OneSource` | ext/littlefs/lfs.c:3357-3364 | the attribute lists of a rename and of a file with attributes meet the condition |
| `Sources.MoveDistinct` | ext/littlefs/lfs.c:807-818 | a move carries no attribute twice |
| `Sources.DisturbedStays` | ext/littlefs/lfs.c:819-827 | a list the traversal takes that does not meet the condition: a deleted attribute comes back |
| `Sources.FullListLost` | ext/littlefs/lfs.c:723-730 | a list of 0x3ff user attributes is dropped by the filter as soon as any tag comes behind it |
| `Lookup.GetSlice` | ext/littlefs/lfs.c:582-642 | the backward search over the bytes of a sealed block is the search over its records, whatever is asked; for an id that stays in its bits it answers as the forward replay, NOENT exactly when the replay has no such attribute; for any id it does so iff it is not misled by a carry into the type; a pending move acts as one more delete |
| `Lookup.BackwardIff` | ext/littlefs/lfs.c:597-641 | with a pending move or without: the search agrees with the replay iff the id does not leave its bits unanswered, or the replay up to there has no entry with an attribute of the type that the carry makes, through any number of carries |
| `Lookup.SeesExact` | ext/littlefs/lfs.c:609-620 | after a carry the search goes on as that for entry 0 and the next type |
| `Lookup.Probe` | ext/littlefs/lfs.c:609-638 | one round: the tag answers, or shows that nothing is there, or the id is traced back over it, with the carry of an id that leaves its bits |
| `Lookup.BackwardFinds` | ext/littlefs/lfs.c:597-641 | while the id stays in its bits, the record the search ends on is the attribute of the replay, and NOENT means there is none |
| `Lookup.WrapsAround` | ext/littlefs/lfs.c:611-623 | two files, one of them deleted, violate that condition: a lookup of id 0x3ff, which names no entry, finds the struct of the first |
| `Lookup.FitsInside` | ext/littlefs/lfs.c:609-620 | every id of the directory can be traced back without leaving its ten bits |
| `Lookup.LookupAfterCompaction` | ext/littlefs/lfs.c:1706-1712 | a compacted log answers every lookup as the log it replaces |
| `Words.XorRaw` | ext/littlefs/lfs.c:607 | xoring two tag words as numbers is xoring them field by field |
| `TagChain.ForwardScan` | ext/littlefs/lfs.c:876-960 | over any bytes, the records found are the longest run of complete commits whose tags and checksums are right; it says where and behind which tag to go on, and that the block is erased there exactly if the end is aligned and the next word cannot be a tag |
| `TagChain.RecordsTo` | ext/littlefs/lfs.c:750-774 | reading tag after tag up to an offset gives back just the records written |
| `TagChain.ScanAtLeast` | ext/littlefs/lfs.c:876-960 | no complete commit that is there is lost, whatever follows it |
| `TagChain.ScanExactly` | ext/littlefs/lfs.c:876-960 | and no more is found than is there, unless another checksum matches behind it |
| `TagChain.ScanSealed` | ext/littlefs/lfs.c:908-915 | which cannot be where the next word was made invalid |
| `TagChain.HoldsFrame` | ext/littlefs/lfs.c:890-941 | only the bytes under the records matter, so what a torn commit leaves behind them does no harm |
| `TagChain.BackStep` | ext/littlefs/lfs.c:597-607 | from behind a record its tag leads to before it, and uncovers the tag before |
| `TagChain.BackwardWalk` | ext/littlefs/lfs.c:597-607 | walking back from the end visits the same tags in reverse |
| `Commits.Commit.Fresh` | ext/littlefs/lfs.c:1671-1703 | a commit into an erased block starts with the revision, whatever the erased bytes read as |
| `Commits.Commit.Append` | ext/littlefs/lfs.c:1884-1893 | a commit can go on behind the sealed commits of a block |
| `Commits.Commit.CommitAttr` | ext/littlefs/lfs.c:1294-1337 | one record is added, or NOSPC exactly if it does not fit; bytes before and behind are untouched; the moments of writing get one more, with no gap to the one before |
| `Commits.Commit.CommitCrc` | ext/littlefs/lfs.c:1341-1439 | the footers end exactly at the aligned end, each with a size of 4 to 0x3fe; the block then holds exactly the records, and what follows cannot pass for a tag; reading back succeeds |
| `Commits.Commit.Seal` | ext/littlefs/lfs.c:1346-1393 | the loop over the footers, for any end at least 8 bytes away |
| `Commits.Commit.Footer` | ext/littlefs/lfs.c:1353-1392 | one footer: its checksum covers the commit or only its own tag, and its reset bit makes the next erased word invalid |
| `Commits.ReadBack` | ext/littlefs/lfs.c:1401-1438 | for any image: accepted exactly if the bytes up to every stored checksum, and it, run to zero and the first checksum is the one written; the stretches checked are those of the footers, in order, and no padding |
| `Commits.ReadSpan` | ext/littlefs/lfs.c:1405-1428 | one stretch: accepted exactly if it runs to zero and has the checksum written where that is known |
| `Commits.WrittenCancels` | ext/littlefs/lfs.c:1401-1438 | what the footers wrote is accepted |
| `Commits.StopScan` | ext/littlefs/lfs.c:876-960 | whatever was half-written behind the checksum of the commits complete at some point, padding included, a scan finds at least these, and exactly these unless a checksum matches by chance |
| `WholeLog.WriteCommit` | ext/littlefs/lfs.c:1895-1945 | one commit is written iff it fits below the end, which may be before that of the block, and adds just its attributes; there is one moment per record and footer, each holds one more of them, and none leaves a gap; the commits complete are the old ones, or all |
| `WholeLog.WriteLog` | ext/littlefs/lfs.c:1882-1953 | any series of commits, over any erased bytes and for any metadata_max, is written iff each fits in turn; the block holds exactly their attributes |
| `WholeLog.PayloadReplays` | ext/littlefs/lfs.c:915-961 | checksum records mean nothing for the entries |
| `WholeLog.WriteAndLookUp` | ext/littlefs/lfs.c:582-642 | write any commits, fetch, look up: the answer from the bytes is that of the replay of everything committed |
| `NameSearch.Match` | ext/littlefs/lfs.c:1141-1163 | the comparison of names, by bytes and then by size |
| `NameSearch.CmpEq` | ext/littlefs/lfs.c:1141-1163 | it says equal exactly for equal names |
| `NameSearch.CmpFlip` | ext/littlefs/lfs.c:1156-1159 | it is antisymmetric |
| `NameSearch.CmpTrans` | ext/littlefs/lfs.c:1141-1163 | it is transitive, so it orders names |
| `NameSearch.SearchStep` | ext/littlefs/lfs.c:980-1036 | over one more tag the candidate keeps standing for the name, or for the first greater one |
| `NameSearch.Search` | ext/littlefs/lfs.c:880-1037 | after a whole log the candidate is the entry of that name in the replay, or bounds the place where it belongs |
| `NameSearch.CountedAll` | ext/littlefs/lfs.c:981-987 | the count kept during the scan is the number of entries, once all are named |
| `NameSearch.FetchMatch` | ext/littlefs/lfs.c:1039-1062 | found exactly if an entry has the name; otherwise the id returned is its place in order; it goes on to the next pair iff all names here are less and not both a move is pending and a name not less was once in the log; a pending move hides its entry |
| `NameSearch.UnsetIff` | ext/littlefs/lfs.c:1011-1036 | the scan is left without a candidate iff no name that is not less was ever in the log |
| `NameSearch.StopsEarly` | ext/littlefs/lfs.c:1045-1061 | a log that meets that condition: the search stops although all its names are less |
| `NameSearch.CreatedInOrder` | ext/littlefs/lfs.c:1051-1054 | a name created at the id returned leaves the directory in order |
| `NameSearch.CreateKeepsTidy` | ext/littlefs/lfs.c:1051-1054 | after creating it there, the log is again one the search is right for |
| `NameSearch.DeleteKeepsTidy` | ext/littlefs/lfs.c:986-995 | so it is after deleting an entry |
| `NameUpkeep.TraversedTidy` | ext/littlefs/lfs.c:1706-1712 | and after compaction, in whatever order its tags come |
| `Path.Find` | ext/littlefs/lfs.c:1165-1263 | what is found is what walking the uncancelled names finds; on NOENT the parents were found, the name stands at `at`, and `last` says that it may be created |
| `Path.ScanAhead` | ext/littlefs/lfs.c:1191-1213 | the scan ahead finds the ".." that cancels the current name, if there is one |
| `Path.CancelSkips` | ext/littlefs/lfs.c:1202-1207 | all names skipped with a cancelled one are cancelled too |
| `Path.ResolveKept` | ext/littlefs/lfs.c:1184-1213 | without "." the uncancelled names are the path normalised with a stack, ".." stopping at the root |
| `Path.LooksUpResolvedIff` | ext/littlefs/lfs.c:1184-1213 | the names looked up are those of the usual meaning iff no "." takes the ".." of an earlier name |
| `Path.PlainPath` | ext/littlefs/lfs.c:1178-1213 | in particular for every path without "." |
| `Path.DotAfterName` | ext/littlefs/lfs.c:1208-1210 | "a/./.." is looked up as "a" |
| `Crc.LfsCrc` | ext/littlefs/lfs_util.c:14-30 | the nibble table computes the bitwise reflected CRC-32 (section 8 of RFC 1952, without the complements) |
| `Crc.UpdateConcat` | ext/littlefs/lfs_util.c:23-28 | the checksum of a concatenation continues the one of its first part |
| `Crc.SealedIsZero` | ext/littlefs/lfs.c:1422-1428 | with its little-endian value appended, any data runs to zero |
| `CrcLaws.Crc32Lawful` | ext/littlefs/lfs_util.c:14-30 | CRC-32 has the laws the commit code relies on |
| `SoftCrc.Reflect` | community/os/various/crcsw.c:189-204 | the loop reverses the lowest n bits |
| `SoftCrc.Driver.constructor` | community/os/various/crcsw.c:269-271 | a driver starts from the initial value |
| `SoftCrc.Driver.Reset` | community/os/various/crcsw.c:269-271 | and a reset goes back to it |
| `SoftCrc.Driver.Calc` | community/os/various/crcsw.c:282-334 | a call goes on from the remainder of the call before, by table or bit by bit, and returns it finished and masked |
| `SoftCrc.LookUpIs` | community/os/various/crcsw.c:287-291 | one table step is eight steps of the reflected division |
| `SoftCrc.Linear32` | community/os/various/crcsw.c:42-107 | each of the 256 entries of the CRC-32 table is the sum of its row and column, and those of the remainders of single bits |
| `SoftCrc.Linear16` | community/os/various/crcsw.c:111-144 | the same for CRC-16 |
| `SoftCrc.TableRuns` | community/os/various/crcsw.c:286-294 | the table path is the reflected definition |
| `SoftCrcPaths.ReflectedTwice` | community/os/various/crcsw.c:189-204 | reflecting twice keeps the bits of the width |
| `SoftCrcPaths.DivideReflected` | community/os/various/crcsw.c:317-321 | a division step, reflected, is a step of the reflected division, for every width and polynomial |
| `SoftCrcPaths.BitRuns` | community/os/various/crcsw.c:303-323 | so the bit path of every reflected configuration is the reflected definition |
| `SoftCrcPaths.PathsAgree` | community/os/various/crcsw.c:282-334 | the table path and the bit path give the same checksum, however the data is cut into calls |
| `SoftCrcPaths.BuiltIn` | community/os/various/crcsw.c:157-177 | both built-in configurations qualify |
| `SoftCrcPaths.Crc32Is` | community/os/various/crcsw.c:157-165 | the CRC-32 one is the complement of the file system's checksum started from all ones |
| `PairLog.LaterIsGreater` | ext/littlefs/lfs_util.h:163-165 | a revision compares greater than the one before it, across the wraparound |
| `PairLog.Fetch` | ext/littlefs/lfs.c:852-1072 | the block in force is found from the bytes of the two, whichever it is, with its records, where to go on, and whether it is erased there; CORRUPT exactly if neither has a complete commit |
| `PairLog.Later` | ext/littlefs/lfs.c:853-868 | the loop over the revisions picks the later one |
| `PairLog.FetchAfter` | ext/littlefs/lfs.c:852-1072 | after a stop at any point of an append or a rewrite, a fetch yields exactly the old log or exactly the new one, and the pair is again one that can be written |
| `PairLog.Appending` | ext/littlefs/lfs.c:1882-1950 | why that is so while a commit is appended, for all bytes behind the commits complete |
| `PairLog.Rewriting` | ext/littlefs/lfs.c:1670-1776 | and while the log is rewritten: before the first checksum the other block counts, also while the revision is half-written |
| `PairLog.MetaPair.Compact` | ext/littlefs/lfs.c:1670-1776 | the moments of a rewrite are the other block before and after its erase, with the revision, and after every record and footer, without a gap; at each, and for any bytes written next, a fetch finds the old log or the new one and loses no complete commit; the new one has the entries of the old one with the attributes applied; it succeeds iff it fits |
| `PairLog.MetaPair.Append` | ext/littlefs/lfs.c:1882-1950 | the same for an appended commit, from the block as it was to the block as it is; one that does not fit leaves the old log in force |
| `PairLog.MetaPair.Restart` | ext/littlefs/lfs.c:852-1072 | stop at any moment of the last commit, with any bytes it allows, and mount: that commit came through as a whole or not at all, all before it are as they were, and the pair can be written again; so after any sequence of appends, rewrites, stops and mounts the log is made of whole commits |
| `GlobalState.FileSystem.Mount` | ext/littlefs/lfs.c:3766-3787 | mounting adds up the shares; the state of the last commit comes back |
| `GlobalState.FileSystem.Commit` | ext/littlefs/lfs.c:1911-1953 | appended, compacted or divided, a commit leaves shares that make up the new state; until its last write the linked pairs are the old ones |
| `GlobalState.FileSystem.Drop` | ext/littlefs/lfs.c:1487-1503 | dropping a pair keeps the sum: its share is taken over in the same commit, as are its tail and whether the directory goes on there |
| `GlobalState.FileSystem.Delete` | ext/littlefs/lfs.c:1864-1880 | deleting the last entry of a pair behind another one of its directory drops the pair; any other delete is a commit; either way the sum is kept |
| `GlobalState.FileSystem.Split` | ext/littlefs/lfs.c:1600-1616 | so does splitting one into any number of pairs: the last is written first and takes the change; while only new pairs are written, the linked pairs are the old ones |
| `GlobalState.FileSystem.PrepMove` | ext/littlefs/lfs.c:4105-4111 | a pending move is noted or cleared, the orphan count kept |
| `GlobalState.Conserved` | ext/littlefs/lfs.c:1735-1760 | adding the delta turns the stored total into the new state |
| `GlobalState.UnlinkedTotal` | ext/littlefs/lfs.c:1487-1503 | also when the share of a dropped pair is carried over |
| `GlobalState.LinkedTotal` | ext/littlefs/lfs.c:1523-1530 | pairs linked in add their shares |
| `Rename.MoveCarries` | ext/littlefs/lfs.c:807-818 | a move carries exactly the structs and user attributes of its entry |
| `Rename.Arrives` | ext/littlefs/lfs.c:3357-3364 | the commit to the new pair puts the entry in its place under its new name, over an old one if there is one |
| `Rename.RenameAcross` | ext/littlefs/lfs.c:3352-3381 | whichever write of its two commits reaches the disk last, mounting shows the directories before or those after, never again the ones before, and can be finished; also when a commit divides its pair into any number of pairs, or drops it |
| `Rename.CommittedTree` | ext/littlefs/lfs.c:1600-1616 | a commit that divides a pair shows the same directories as one that does not |
| `Rename.Leave` | ext/littlefs/lfs.c:1864-1880 | the commit that ends the move and deletes the hidden entry changes nothing that can be seen, also when it drops the pair with its last entry or divides it |
| `Rename.Demove` | ext/littlefs/lfs.c:4115-4143 | finishing a pending move changes nothing that can be seen, at none of its writes |
| `Rename.Recover` | ext/littlefs/lfs.c:4115-4143 | mounting and finishing shows the same tree, with no move pending |
| `Rename.RenameWithin` | ext/littlefs/lfs.c:3311-3313 | within a pair, the last tag deletes the entry under its old name, at the id it then has |
| `Allocator.Allocator.LookAhead` | ext/littlefs/lfs.c:565-576 | the next window is taken and shows exactly the blocks in use; after a failed walk nothing is looked at or pending |
| `Allocator.Allocator.Fill` | ext/littlefs/lfs.c:565-572 | after the walk a bit is set iff its block was found |
| `Allocator.Allocator.Mark` | ext/littlefs/lfs.c:505-515 | a block is marked iff it is in the window |
| `Allocator.Allocator.Ack` | ext/littlefs/lfs.c:521-523 | after an ack nothing is pending or looked at; of the blocks freed only those the window still shows in use are held back |
| `Allocator.Allocator.Drop` | ext/littlefs/lfs.c:527-531 | dropping the window keeps the state sound |
| `Allocator.Allocator.Search` | ext/littlefs/lfs.c:536-556 | a free block of the window is handed out, once |
| `Allocator.Allocator.Alloc` | ext/littlefs/lfs.c:534-578 | a block handed out is neither in use nor pending; it ends; NOSPC only once every block was looked at since the last ack, each being pending, in use, or gone from the tree after the window that showed it was filled; each window has a walk of its own, and the first that fails ends the call; ack never underflows |
| `Allocator.Allocator.Change` | ext/littlefs/lfs.c:505-515 | what leaves the tree is held back exactly if it was passed over, or the window still shows it in use |
| `CtzMath.StartClosed` | ext/littlefs/lfs.c:2267-2278 | the sum of the block capacities has a closed form in popcounts |
| `CtzMath.IndexLocates` | ext/littlefs/lfs.c:2267-2278 | the code's formula gives the block and offset that adding up capacities defines, if blocks are roomy |
| `CtzMath.LocatesUnique` | ext/littlefs/lfs.c:2267-2278 | those are unique |
| `CtzMath.IndexRightIff` | ext/littlefs/lfs.c:2267-2278 | it is right for all positions up to a limit iff blocks are roomy for the limit |
| `CtzMath.FirstBreak` | ext/littlefs/lfs.c:2275-2276 | the first position at which it goes wrong otherwise |
| `CtzMath.BlockSizes` | ext/littlefs/lfs.c:3498-3500 | 128 bytes are roomy for every 32-bit size, 104 are not |
| `CtzMath.SetupAdmits104` | ext/littlefs/lfs.c:3498-3500 | the check at set-up lets 104 pass |
| `CtzList.Find` | ext/littlefs/lfs.c:2280-2312 | the walk ends on the block that holds the position, and reads at most 2 log2(d) + 1 pointers for distance d; behind the last block it stays there without a read; an empty file has no block |
| `CtzList.Extend` | ext/littlefs/lfs.c:2315-2403 | the grown list is well formed, and only the new block is written |
| `CtzList.AppendPointers` | ext/littlefs/lfs.c:2373-2398 | pointer k of the new block leads 2^k blocks back |
| `CtzList.Traverse` | ext/littlefs/lfs.c:2414-2455 | every block is called back once |
| `CtzList.GrownFile` | ext/littlefs/lfs.c:2342-2402 | extending and then writing makes a file of the larger size |
| `CtzList.GrownHolds` | ext/littlefs/lfs.c:2342-2402 | and it holds the old bytes and the new ones |
| `CtzList.Write` | ext/littlefs/lfs.c:2991-3055 | a write at the end of a file, over as many blocks as it takes, adds just its bytes to what the file holds and changes no other block |
| `CtzList.WriteAll` | ext/littlefs/lfs.c:2991-3055 | any series of writes to an empty file makes a well-formed file that holds them all in order |
| `CtzList.ReadByte` | ext/littlefs/lfs.c:2895-2928 | reading by way of the skip list gives the byte written |
| `CtzList.IndexUnique` | ext/littlefs/lfs.c:2267-2278 | the formula is the only index of a position |
| `BitTricks.NextPow2` | ext/littlefs/lfs_util.h:129-136 | the binary search is the exponent of the next power of two iff the argument is not 1 |
| `BitTricks.TrailingZeros` | ext/littlefs/lfs_util.h:146 | isolating the lowest one counts the trailing zeros |
| `BitTricks.CountOnes` | ext/littlefs/lfs_util.h:155-157 | adding in ever wider fields counts the ones |
| `BlockCache.Device.Read` | ext/littlefs/lfs.c:27-108 | a read ends and returns the device's bytes with the waiting ones laid over; CORRUPT exactly out of range |
| `BlockCache.Device.Round` | ext/littlefs/lfs.c:37-105 | one round yields right bytes, or a load after which the next one does |
| `BlockCache.Device.Cmp` | ext/littlefs/lfs.c:116-141 | comparing in chunks is comparing the whole |
| `BlockCache.Device.Flush` | ext/littlefs/lfs.c:144-175 | the waiting bytes are on the device, with padding up to the program unit only; the read-back agrees; the bytes of an inline file stay where they are |
| `BlockCache.Device.Prog` | ext/littlefs/lfs.c:195-239 | contiguous programs read as if written through, whatever was flushed on the way |
| `BlockCache.Device.ProgInline` | ext/littlefs/lfs.c:195-239 | the bytes of an inline file stay in the cache, also when it is full |
| `BlockCache.Device.FillPending` | ext/littlefs/lfs.c:204-226 | a full cache is written out at once, without padding |
| `BlockCache.MovesIffAligned` | ext/littlefs/lfs.c:40-87 | for every hint: no request gets stuck iff the waiting bytes are aligned or the block ends too soon for a direct read in front of them |
| `BlockCache.HintNeeded` | ext/littlefs/lfs.c:90-99 | with hint 0 a round loads nothing, and so does the next, exactly for an aligned request of less than a read unit outside the caches |
| `Handles.Handle.Follow` | ext/littlefs/lfs.c:1975-1995 | a handle goes where its entry goes, and is cut loose when it is deleted; a directory's position moves along |
| `Handles.Handle.Descend` | ext/littlefs/lfs.c:2001-2008 | after a split it settles on the part that holds its id |
| `Handles.FixUp` | ext/littlefs/lfs.c:1974-2010 | every open handle, the committing one and those on other pairs included |
| `Handles.FixedReads` | ext/littlefs/lfs.c:1974-2010 | after the fix-up a handle is on the part that holds its entry, at its entry, which is the old one with just its own rewrites; or its entry is gone and the handle is cut loose |
| `Handles.CarriedIs` | ext/littlefs/lfs.c:1977-1995 | a handle still on the pair is on its own entry, with the same old entries before and behind; one is cut loose exactly if its entry is gone |
| `Handles.CarriedReads` | ext/littlefs/lfs.c:1977-1995 | through it the replay reads as the old entry with just the rewrites addressed to it |
| `Handles.SettledReads` | ext/littlefs/lfs.c:2001-2008 | on the settled part it finds the entry of the undivided directory |
| `Median.MedianFilter.constructor` | community/os/various/median.c:19-29 | a filter starts empty, whatever the buffer holds |
| `Median.MedianFilter.Filter` | community/os/various/median.c:31-110 | the chain stays acyclic, sorted and made of exactly the last min(n, size) data, and the value returned has (m - 1) / 2 of the m data before it in descending order |
| `Median.MedianFilter.Scan` | community/os/various/median.c:63-108 | the pass ends at the stopper with the old cell out, the new one in and the median half-way |
| `Median.MedianFilter.Visit` | community/os/various/median.c:67-77 | one cell of the pass |
| `Median.MedianUnique` | community/os/various/median.c:109 | the descending arrangement of the data is unique, so the median is |

## Left out

- Relocation, wear levelling and bad blocks: a device call either succeeds or the run stops.
- Repair of orphans: the orphan count is kept by the global state, the repair is not modelled.
- lfs_file_rawtruncate, seeking, and writing in the middle of a file, which copies what follows; migration, format, the public wrappers, locking and tracing.
- The bits of the lookahead buffer are a sequence of booleans, not packed words.
- Median.MedianFilter.Filter: for inputs not below the stopper and a stopper below 0xffff, since the configuration asks for a stopper smaller than any datum (community/os/various/median.h:30).
- Compaction.Traverse: for plain attributes; moves and user attributes from memory are in `Sources.TraverseFrom`, and that a move stands for the right tags in `Rename.MoveCarries`.
- Sources.TraverseFrom: the comparison with the expanded attributes is for lists of fewer than 0x3ff user attributes; of longer ones it says what is emitted, and `Sources.FullListLost` what that means. Which of an entry's tags a move takes is a function here, not a third nested loop.
- Lookup.GetSlice: the exact condition is for logs of at most 0x3ff entries and for carries that stay below type 0x400 (`Traceable`); beyond that only the record the search ends on is stated.
- PairLog.FetchAfter: assumes that no checksum matches by chance in what was half-written (`NoChance`); without that, `NoneLost` says that no complete commit is lost.
- PairLog.MetaPair.Compact: the tail and the share of the global state behind the entries are given as tags; what they hold is in `GlobalState`.
- PairLog.MetaPair.Append: only where the block is erased behind its commits, as the code tests; otherwise it compacts.
- NameSearch.FetchMatch: for logs in the form that creates, deletes and compaction keep (`Tidy`): an entry is named right after it is created, and not renamed in place.
- BlockCache.Device.Cmp: for a hint of at least the number of bytes compared; both callers give just that number (ext/littlefs/lfs.c:159-161 and 1149-1151), and with a smaller one the hint left for a later chunk wraps around.
- BlockCache.Device.Flush: after a flush without validation the read cache may hold old bytes of that block.
- BlockCache.Device.ProgInline: for bytes that fit in the cache, as an inline file does.
- Handles.FixUp: the committed pair keeps one of its blocks; with both relocated the second pass of the code does not apply.
- Rename.RenameAcross: an overwritten directory, whose pair is dropped in further commits, is not modelled; where a commit divides a pair is a parameter, and the new pairs are taken to be free blocks, as `Allocator` hands out. The expansion of the superblock by a commit to it is left out.
- SoftCrc.Driver.Calc: polynomials of 8 to 32 bits; the 256 entries of a table are sixteen rows of sixteen.
- Align: the sum inside lfs_alignup is taken not to exceed 32 bits, as for offsets in a block.
