# LevelDB and nanopb, modelled and proved

A Dafny model of the two libraries whose sources are vendored in the app: LevelDB
(`ShareImage/Pods/leveldb-library`) and nanopb (`ShareImage/Pods/nanopb`). To verify:
`dafny verify dfyconfig.toml`.

## LevelDB

LevelDB keeps a map from keys to values as a log-structured merge tree. A write gets a sequence number,
goes to a log and into a memtable; full memtables become sorted tables at level 0 or a little deeper;
compactions merge tables into the next level and drop what no live snapshot can see. The specification
is small: the *history* is the set of all entries ever written, and a read of a key at a sequence number
`s` is the newest entry of the key with sequence number at most `s`. The project proves that the
machinery in between agrees with that specification.

- **The tree** (`DbFormat`, `Reads`, `Files`, `Versions`, `InputSelection`, `InputGaps`, `VersionSet`,
  `Compaction*`, `GrandparentStops`, `MidCompaction`, `MergeInput`, `Layering`, `Edits`, `Builder`, `Store*`, `Database`): every background round of the
  `Database` object is one legal step of the `Store` state machine, every step keeps the tree's structure,
  and reads that stop at the first hit see what the whole store holds.
- **Two results about the code.** `SetupOtherInputs` extends only the upper inputs by boundary files
  (db/version_set.cc:1407 and 1422). Therefore a compaction can drop a deletion while an older value of
  the same key stays behind in a neighbouring file of the next level. `Resurrection.DeletedKeyReturns`
  gives a run of thirteen steps after which a deleted key reads as its old value, and
  `ResurrectionRun.DeletedKeyIsRead` makes that run with calls of the `Database` object: its two compactions
  are forced, whoever asks for them, and neither is a trivial move. The exact condition
  is proved: all live reads are kept if and only if no dropped deletion leaves such an entry
  (`CompactionSafety.CompactionPreservesReads`, `StoreRuns.StepKeepsCoherence`), every run without such a
  compaction reads as its history (`StoreRuns.CleanRunReadsHistory`), and cutting the lower inputs between
  user keys, which can be checked before the compaction runs, would be enough (`StoreRuns.CleanCutIsEnough`).

  The merge loop flushes the immutable memtable while a compaction runs (db/db_impl.cc:908-918), and the
  level it goes to is chosen by the tables that are there, not by the outputs to come. A manual compaction may
  take inputs with a gap between them; a table flushed into that gap at the output level is then spanned by an
  output, the level is no longer disjoint, and a search of it looks into the wrong table:
  `LostWrites.WriteIsLost` gives a run after which a written key reads as missing. The store stays legal if and
  only if no table flushed meanwhile to the output level meets an output (`MidCompaction.FinishIsLegal`).
  Inputs without a gap, which can be checked when they are chosen, never allow it (`MidCompaction.GapFreeIsLegal`),
  and the inputs of automatic compactions have none (`VersionSets.VersionSet.PickCompaction`).
- **Iterators** (`Cursor`, `Merger`, `TwoLevel`, `DbIter`, `Iteration`): any run of calls, with any changes
  of direction, acts as the same run on a cursor over a sorted sequence: of all children's entries, of all
  blocks' entries, of the live keys.
- **Crashes** (`CrashSafety`, `TableFiles`, `LogReplay`, `OpenDatabase`, `DurableDatabase`): the database with
  its logs and its manifest. After any run, with the manifest cut in a record that was not yet synced and each
  log cut at any byte, opening it again gives a legal store with exactly the surviving batches; if no compaction
  resurrected a key, it reads as their history (`DurableDatabase.Reopen`). A restarted database is again one of
  which this holds (`DurableDatabases.Restart`), so it holds over any number of crashes.
- **Write path and recovery** (`WriteQueue`, `WriteBatch`, `LogFormat`, `LogWriter`, `LogReader`,
  `LogRoundTrip`, `LogDamage`, `LogHarvest`, `Recovery`, `EditCodec`, `Manifest`, `ManifestWriter`, `Crc32c`, `Coding`, `Spelling`,
  `BatchSpelling`, `EditSpelling`): all interleavings of the write queue; a log or manifest cut at any byte; a log with a
  damaged fragment, and any bytes at all, of which the reader returns exactly the unbroken runs that have their checksums; exactly which bytes
  are taken for a batch, an edit or a manifest; the interleaved CRC-32C of section 12.1 of RFC 3720.
- **Structures in memory and on disk** (`SkipList`, `HandleTable`, `Cache`, `BlockFormat`, `BlockSpelling`, `Block`,
  `BlockIter`, `Bloom`, `FilterBlock`, `Table`, `TableBuilder`, `TableBlock`, `Comparator`).

User keys of the tree are real numbers: the rank of the key among all byte strings.
`BytewiseComparator.RankKeepsOrder` shows that ranks order as the bytewise comparator does, and
`BytewiseComparator.EncodedOrderIsLess` that encoded internal keys order as the tree's keys do.

## nanopb

nanopb encodes and decodes Protocol Buffers messages held in C structs, driven by tables of fields. The
model covers statically allocated fields: all scalar kinds, strings, byte arrays, submessages, packed and
unpacked arrays, unions, proto2 and proto3 presence (`Pb*`). The encoder's two passes agree; whatever
bytes the decoder accepts, the message stays inside its struct; required fields are tracked exactly; fields
of other schemas are passed over. Which bytes decode, and to what, is told without the decoder's
steps, for any bytes (`PbSpelling`). Encoded fields, in any
order and any number, merge into any message as the specification says (`PbMerge`). Decoding an encoded message gives
it back if and only if every string sent is shorter than its buffer: the encoder accepts a string that fills its buffer (nanopb/pb_encode.c:885-896), the
decoder wants room for a zero byte (nanopb/pb_decode.c:1476-1495); `PbRoundTrip.FullStringIsRejected`
gives such a message. Where the two varint decoders differ is
stated exactly (`PbVarints`): the 32-bit one takes some numbers past 2^32 for negative ones, and its position
wraps around after 37 groups of zeros.

Paths below are relative to the repository's root. Members without a row are helpers of those with one.

## Model

| member | source | states |
|---|---|---|
| Reads.NewestExists | ShareImage/Pods/leveldb-library/db/dbformat.cc:51-67 | If any entry of a key is visible at a sequence number, there is a newest one, so a read is always well defined. |
| Reads.SeekFindsNewest | ShareImage/Pods/leveldb-library/db/memtable.cc:100-134 | In sorted data, the entry a lookup key seeks to is the newest one the snapshot may see, and if it has another user key (or there is none) nothing of the key is visible. |
| Reads.FirstHit | ShareImage/Pods/leveldb-library/db/db_impl.cc:1122-1134 | A search may stop at the first source that answers: if nothing was visible before it and all entries of the key behind it are older, its answer is the answer over all sources. |
| Reads.AnswersRead | ShareImage/Pods/leveldb-library/db/version_set.cc:263-276 | An outcome that answers for a set of entries (found, deleted or missing) is the read of that set. |
| Files.TableGet | ShareImage/Pods/leveldb-library/table/table.cc:216-244 | One table gives the newest visible entry of the key, a deletion included, or says the key has none there. |
| Files.FindFile | ShareImage/Pods/leveldb-library/db/version_set.cc:88-106 | The binary search splits a sorted level exactly: all files before the result end before the key, none from it on does; over any files it ends where one that ends before the key stands beside one that does not. |
| Files.SomeFileOverlapsRange | ShareImage/Pods/leveldb-library/db/version_set.cc:122-157 | True if and only if some file of the level meets the range, for the scan over overlapping files and for the binary search over disjoint ones, with open ends. |
| Versions.OverlappingNewestFirst | ShareImage/Pods/leveldb-library/db/version_set.cc:336-350 | Exactly the level-0 files that cover the key, newest file first. |
| Versions.GetLevelZero | ShareImage/Pods/leveldb-library/db/version_set.cc:326-421 | Searching covering files newest first and stopping at the first answer reads what all of level 0 holds. |
| Versions.OneFileDecides | ShareImage/Pods/leveldb-library/db/version_set.cc:326-421 | On a sorted level the one file the binary search returns decides the read, even if the user key spans several adjacent files. |
| Versions.GetSortedLevel | ShareImage/Pods/leveldb-library/db/version_set.cc:326-421 | One binary search and one table read what the whole level holds, if its files do not overlap. |
| Versions.Get | ShareImage/Pods/leveldb-library/db/version_set.cc:326-421 | Searching level by level and stopping at the first hit gives the newest entry with sequence number at most the snapshot's over every file of the version. |
| Databases.MemTableGet | ShareImage/Pods/leveldb-library/db/memtable.cc:100-134 | A memtable lookup gives the newest visible entry of the key in the memtable, or missing. |
| Databases.Lookup | ShareImage/Pods/leveldb-library/db/db_impl.cc:1100-1145 | Memtable, immutable memtable and files searched in order, stopping at the first hit, answer for the union of all their entries in every state that meets the invariant. |
| Databases.Database.Get | ShareImage/Pods/leveldb-library/db/db_impl.cc:1100-1145 | The result is the newest visible entry over the store, and, in a coherent state at any live sequence number, over every write ever made. |
| Versions.GetOverlappingInputs | ShareImage/Pods/leveldb-library/db/version_set.cc:519-559 | Below level 0 exactly the files that meet the range, in order; at level 0 the restart loop ends with the files of the least range that contains the given one and is closed under overlap. |
| Versions.GrowthStaysLeast | ShareImage/Pods/leveldb-library/db/version_set.cc:541-555 | Widening the range to a file that meets it never leaves the least closed range. |
| Versions.OverlapInLevel | ShareImage/Pods/leveldb-library/db/version_set.cc:485-489 | True if and only if some file of the level meets the closed user-key range. |
| Versions.PickLevelForMemTableOutput | ShareImage/Pods/leveldb-library/db/version_set.cc:491-516 | Level 0 if the range meets level 0; otherwise the deepest level up to 2 that is reached without meeting a file or too many grandparent bytes on the way; what stops it is named. |
| InputSelection.GetRange | ShareImage/Pods/leveldb-library/db/version_set.cc:1205-1224 | The least and the greatest internal key over all the files, both attained. |
| InputSelection.FindLargestKey | ShareImage/Pods/leveldb-library/db/version_set.cc:1326-1340 | Finds a largest key exactly when there are files, and it is their largest. |
| InputSelection.FindSmallestBoundaryFile | ShareImage/Pods/leveldb-library/db/version_set.cc:1344-1362 | The file with the least start among those that start after the key with the key's user key, or none if there is no such file. |
| InputSelection.AddBoundaryInputs | ShareImage/Pods/leveldb-library/db/version_set.cc:1378-1401 | The inputs grow by a chain of smallest boundary files, each for the largest key so far, and in the end no boundary file of the level is left out; empty inputs stay empty. |
| InputSelection.ChainExtendsRun | ShareImage/Pods/leveldb-library/db/version_set.cc:1378-1401 | On a sorted level the boundary chain of a run of neighbouring files makes a longer run. |
| InputSelection.CleanCut | ShareImage/Pods/leveldb-library/db/version_set.cc:1378-1401 | A run with no boundary file left ends between two user keys. |
| InputSelection.BoundaryMakesClean | ShareImage/Pods/leveldb-library/db/version_set.cc:1403-1410 | Inputs picked by range and then extended by boundary files are cleanly cut at every level, 0 included. |
| InputSelection.OverlappingIsSlice | ShareImage/Pods/leveldb-library/db/version_set.cc:519-559 | On a sorted level the files that meet a range are neighbours. |
| InputSelection.OverlappingMonotone | ShareImage/Pods/leveldb-library/db/version_set.cc:1427-1446 | A wider range takes in at least as many files, and the same files if as many. |
| VersionSets.VersionSet.ParentInputs | ShareImage/Pods/leveldb-library/db/version_set.cc:1403-1418 | All files of the next level, and only those, that meet the user-key range of the inputs. |
| VersionSets.VersionSet.Expand | ShareImage/Pods/leveldb-library/db/version_set.cc:1420-1424 | The files of the level that the whole range of the compaction takes in, with their boundary files; they are cleanly cut and contain the inputs. |
| VersionSets.VersionSet.ChooseInputs | ShareImage/Pods/leveldb-library/db/version_set.cc:1403-1447 | The upper inputs are the picked files with their boundary files, widened to what the whole range takes in exactly if there are parents and this brings in more files, no other parents, and stays below 25 times the file size; the lower inputs are all their parents. |
| VersionSets.SameParents | ShareImage/Pods/leveldb-library/db/version_set.cc:1427-1446 | Widened inputs have the same number of parents exactly if they have the same parents. |
| VersionSets.SetUpOnce | ShareImage/Pods/leveldb-library/db/version_set.cc:1403-1447 | What a compaction starts from leaves one choice of inputs: the description of boundary files, found range and widening has one solution. |
| VersionSets.VersionSet.Grandparents | ShareImage/Pods/leveldb-library/db/version_set.cc:1449-1454 | All files two levels down that meet the range of both sets of inputs; none at the last level. |
| VersionSets.VersionSet.SetupOtherInputs | ShareImage/Pods/leveldb-library/db/version_set.cc:1403-1462 | The compaction's inputs are the ones the description of its selection allows, cleanly cut at its level, complete at the next, contain what was picked, and the level's compaction pointer is the largest key of the inputs. |
| VersionSets.VersionSet.FileAfterPointer | ShareImage/Pods/leveldb-library/db/version_set.cc:1278-1292 | The first file of the level behind its compaction pointer, or the level's first file if no file is behind it. |
| VersionSets.VersionSet.PickCompaction | ShareImage/Pods/leveldb-library/db/version_set.cc:1270-1322 | A compaction exactly when one was called for, ready to run, at the chosen level; its inputs are those that the chosen file, or for a size compaction the first file behind the compaction pointer, leads to; and their ranges leave no gap. |
| VersionSets.PrefixOfSize | ShareImage/Pods/leveldb-library/db/version_set.cc:1477-1489 | The shortest non-empty prefix of the files that reaches the size limit, or all of them. |
| VersionSets.VersionSet.CompactRange | ShareImage/Pods/leveldb-library/db/version_set.cc:1464-1495 | No compaction exactly when no file of the level meets the range; otherwise one that is ready to run and whose inputs are those that all files found in the range lead to at level 0, and elsewhere the shortest prefix of them that reaches the size limit. |
| InputGaps.FoundFilesJoin | ShareImage/Pods/leveldb-library/db/version_set.cc:518-560 | What the overlap search finds around files without a gap, at level 0 with its growing range as elsewhere, leaves no gap either. |
| InputGaps.BoundaryFilesJoin | ShareImage/Pods/leveldb-library/db/version_set.cc:1378-1401 | Nor do boundary files. |
| Compactions.Compaction.IsBaseLevelForKey | ShareImage/Pods/leveldb-library/db/version_set.cc:1533-1552 | With level pointers that only advance, true if and only if no deeper level has a file covering the user key. |
| Compactions.Compaction.ShouldStopBefore | ShareImage/Pods/leveldb-library/db/version_set.cc:1554-1576 | The grandparents ending before the key are passed, their bytes counted once the first key was seen, and a cut is called for exactly when the count exceeds its limit, which resets it. |
| CompactionWork.ShadowedByPredecessor | ShareImage/Pods/leveldb-library/db/db_impl.cc:928-955 | Rule (A) exactly: in sorted input an entry is shadowed by a newer one of its key the oldest snapshot sees if and only if the entry just before it has its user key and is at most the oldest snapshot. |
| CompactionWork.ShouldDrop | ShareImage/Pods/leveldb-library/db/db_impl.cc:928-955 | An entry is dropped if and only if rule (A) holds or it is an old deletion at the base level of its key. |
| CompactionWork.DoCompactionWork | ShareImage/Pods/leveldb-library/db/db_impl.cc:878-1036 | The outputs, concatenated, are exactly the entries of the input iterator that are not obsolete, in order; they are valid, disjoint tables numbered in a row. No table goes on after the entry that fills it; no table has a stop inside, where a stop is an entry at which more than ten tables' worth of grandparents have ended since the stop before; and every table but the last is full or ends at a stop. |
| CompactionWork.CutsAreDisjoint | ShareImage/Pods/leveldb-library/db/db_impl.cc:905-999 | Tables cut one after the other from sorted data do not overlap in internal keys. |
| CompactionWork.CutsAreUnique | ShareImage/Pods/leveldb-library/db/db_impl.cc:921-988 | The rules for closing a table leave one way to cut: two sequences of tables with the same entries, numbers and stops that both follow them are the same tables. |
| CompactionWork.FewStopsCutBySize | ShareImage/Pods/leveldb-library/db/version_set.cc:1515-1523 | With few grandparents, tables are cut at the stops if and only if every table but the last is full. |
| GrandparentStops.PassedIsEnded | ShareImage/Pods/leveldb-library/db/version_set.cc:1554-1576 | The grandparents that the forward-moving index passes between two keys are exactly those that end at or after the first and before the second. |
| GrandparentStops.StopsBefore | ShareImage/Pods/leveldb-library/db/version_set.cc:1554-1576 | Asked for each merged entry in turn, the compaction calls for a stop exactly at the stops that grandparents and entries define. |
| GrandparentStops.NoStops | ShareImage/Pods/leveldb-library/db/version_set.cc:1515-1523 | A compaction with few grandparent bytes in all never stops for them. |
| CompactionWork.SurvivorsMembers | ShareImage/Pods/leveldb-library/db/db_impl.cc:905-999 | What a merge keeps is exactly what is not obsolete. |
| CompactionSafety.DroppedTombstone | ShareImage/Pods/leveldb-library/db/db_impl.cc:945-955 | If the newest visible entry of a key is dropped, it is a base-level deletion, and the read then shows only what the files left out of the lower inputs hold. |
| CompactionSafety.CompactionRead | ShareImage/Pods/leveldb-library/db/db_impl.cc:905-999 | A read at a live sequence number is the same before and after the drop loop for every key that is not resurrected. |
| CompactionSafety.ResurrectionChangesRead | ShareImage/Pods/leveldb-library/db/version_set.cc:1403-1447 | A resurrected key reads as deleted before the compaction and as a value after it. |
| CompactionSafety.CompactionPreservesReads | ShareImage/Pods/leveldb-library/db/db_impl.cc:878-1036 | For all keys and all live sequence numbers: every read is kept if and only if no dropped deletion leaves an older entry of its key in a lower-level file that is no input. |
| MergeInput.FilesAreDistinct | ShareImage/Pods/leveldb-library/db/version_set.cc:1237-1268 | Two files of a layered version never hold the same internal key, so merging them loses nothing. |
| MergeInput.AddChild | ShareImage/Pods/leveldb-library/db/version_set.cc:1245-1262 | One more iterator with other keys joins the children: together they partition the union of the entries. |
| MergeInput.MakeInputIterator | ShareImage/Pods/leveldb-library/db/version_set.cc:1237-1268 | The merging iterator of a compaction, over one child for each level-0 input and one concatenating child for each other level, runs over exactly the entries of all input files, in order. |
| Layering.SelectionIsOrdered | ShareImage/Pods/leveldb-library/db/version_set.cc:1403-1462 | In a layered version, selected inputs split the store into layers: what stays above is newer than the inputs, what stays below is older, and the files left out of the lower inputs share no key with the upper ones. |
| Layering.OutputApart | ShareImage/Pods/leveldb-library/db/version_set.cc:1403-1447 | No output of a compaction overlaps a file of the next level that was not an input. |
| Layering.LevelStaysDisjoint | ShareImage/Pods/leveldb-library/db/db_impl.cc:860-876 | After the outputs are installed every level below 0 is still sorted and disjoint in internal keys. |
| Layering.LevelsStayAbove | ShareImage/Pods/leveldb-library/db/db_impl.cc:860-876 | After the outputs are installed, entries of one user key are still newer at shallower levels. |
| Layering.InstalledEntries | ShareImage/Pods/leveldb-library/db/db_impl.cc:860-876 | After the outputs are installed the store holds exactly what was not an input and the outputs' entries. |
| Layering.InstallKeepsStructure | ShareImage/Pods/leveldb-library/db/db_impl.cc:860-876 | A compaction keeps the version well formed and layered, whatever part of its input entries it keeps. |
| Edits.FoldInstalls | ShareImage/Pods/leveldb-library/db/db_impl.cc:860-876 | The version edit a compaction logs does exactly what installing its outputs means. |
| Edits.InstalledFolds | ShareImage/Pods/leveldb-library/db/db_impl.cc:860-876 | And installing the outputs is the fold of the edit that is logged. |
| Edits.FoldAdds | ShareImage/Pods/leveldb-library/db/db_impl.cc:491-533 | The version edit of a flush adds exactly the new table to its level. |
| Edits.OutputsAreKept | ShareImage/Pods/leveldb-library/db/db_impl.cc:878-1036 | The tables the merge loop wrote hold exactly the entries the state machine says a compaction keeps. |
| Builders.MaybeAddFile | ShareImage/Pods/leveldb-library/db/version_set.cc:741-754 | A file joins the level unless it was deleted; the level stays sorted. |
| Builders.SaveLevel | ShareImage/Pods/leveldb-library/db/version_set.cc:695-739 | Merging base and added files gives the sorted level of exactly the live ones. |
| Builders.Builder.SaveTo | ShareImage/Pods/leveldb-library/db/version_set.cc:695-739 | The new version is sorted on every level and holds exactly the files the applied edits leave live. |
| Builders.Builder.Apply | ShareImage/Pods/leveldb-library/db/version_set.cc:650-692 | Applying an edit changes every level as the edit says: first its deletions, then its additions. |
| Builders.ReplayEdits | ShareImage/Pods/leveldb-library/db/version_set.cc:933-968 | Applying any number of edits to one builder and saving once equals folding the edits one at a time over the base. |
| Builders.SortedLevelIsUnique | ShareImage/Pods/leveldb-library/db/version_set.cc:593-605 | A sorted level is determined by its set of files. |
| Builders.ReplayRebuildsVersion | ShareImage/Pods/leveldb-library/db/version_set.cc:650-739 | Folding edits and then one more gives the very version installed for that edit. |
| VersionSets.VersionSet.LogAndApply | ShareImage/Pods/leveldb-library/db/version_set.cc:801-884 | The current version becomes the fold of the edit over the old one. |
| Stores.InitHolds | ShareImage/Pods/leveldb-library/db/db_impl.cc:878-1036 | The empty store meets the invariant and agrees with the empty history. |
| Stores.WriteKeepsInv | ShareImage/Pods/leveldb-library/db/db_impl.cc:1185-1256 | A write keeps the invariant and adds exactly its numbered entries. |
| StoreSafety.FlushedFileApart | ShareImage/Pods/leveldb-library/db/version_set.cc:491-516 | A flushed table meets no file on the levels it was pushed past or onto below level 0. |
| StoreSafety.FlushKeepsInv | ShareImage/Pods/leveldb-library/db/db_impl.cc:491-566 | A flush keeps the invariant, to whatever level the table goes, and keeps every entry. |
| StoreSafety.InstallKeepsInv | ShareImage/Pods/leveldb-library/db/db_impl.cc:860-876 | Replacing inputs by outputs that hold part of their entries keeps the invariant. |
| StoreRuns.MoveKeepsInv | ShareImage/Pods/leveldb-library/db/db_impl.cc:718-735 | A trivial move keeps the invariant and every entry. |
| StoreRuns.StepKeepsInv | ShareImage/Pods/leveldb-library/db/db_impl.cc:688-767 | Every step (write, memtable switch, flush, move, compaction, snapshot taken or released) keeps levels sorted, disjoint and layered, level 0 ordered by file number, and numbers unique. |
| StoreRuns.RunKeepsInv | ShareImage/Pods/leveldb-library/db/db_impl.cc:688-767 | The invariant holds in every state of every run from the empty store. |
| StoreRuns.CompactCoherence | ShareImage/Pods/leveldb-library/db/db_impl.cc:878-1036 | A compaction keeps all live reads equal to those of the full write history if and only if it resurrects no key. |
| StoreRuns.StepKeepsCoherence | ShareImage/Pods/leveldb-library/db/db_impl.cc:688-767 | Any step keeps the store true to its history if and only if it is not a compaction that resurrects a key. |
| StoreRuns.CleanRunReadsHistory | ShareImage/Pods/leveldb-library/db/db_impl.cc:1100-1145 | In every run without such a compaction every state reads as its whole write history at every live sequence number. |
| StoreRuns.FirstUncleanStep | ShareImage/Pods/leveldb-library/db/db_impl.cc:878-1036 | The first such compaction is exactly where reads and history part. |
| StoreSteps.StepIsDeterministic | ShareImage/Pods/leveldb-library/db/db_impl.cc:688-767 | State and step leave one next state: a write one memtable, a flush, move or compaction one version. |
| StoreRuns.CleanCutIsEnough | ShareImage/Pods/leveldb-library/db/version_set.cc:1403-1447 | If the lower inputs were cut between user keys as the upper ones are, no compaction would resurrect a key. |
| MidCompaction.EventsGrow | ShareImage/Pods/leveldb-library/db/db_impl.cc:899-925 | While a compaction runs, whatever writes, memtable switches, flushes, snapshots and numbers given out come in between, the tables it was chosen from stay, and each new one is newer than all of them and met none on the levels it passed. |
| MidCompaction.FinishIsLegal | ShareImage/Pods/leveldb-library/db/db_impl.cc:860-876 | Installed after all that, the outputs leave a store that meets the invariant if and only if no table flushed to the output level meanwhile meets an output. |
| MidCompaction.GapFreeIsLegal | ShareImage/Pods/leveldb-library/db/db_impl.cc:899-925 | If the input ranges leave no gap, as for every automatic compaction, that is always so. |
| MidCompaction.FinishKeepsReads | ShareImage/Pods/leveldb-library/db/db_impl.cc:878-1036 | If the compaction resurrects no key among the tables it was chosen from, installing it keeps every read at or after the snapshot it was chosen with, whatever happened meanwhile. |
| Resurrection.RunIsExecution | ShareImage/Pods/leveldb-library/db/version_set.cc:1403-1447 | A concrete run of thirteen legal steps from the empty store: three flushes and two compactions of level 1 into level 2. |
| Resurrection.FlushLevelsAreForced | ShareImage/Pods/leveldb-library/db/version_set.cc:491-516 | Each flush of that run goes to the one level that the placement rule allows. |
| Resurrection.CompactionsAreForced | ShareImage/Pods/leveldb-library/db/version_set.cc:1403-1447 | Any selection of inputs at level 1 is the one of the run; it has a parent, so it is no trivial move, and no grandparents. |
| Resurrection.KeyComesBack | ShareImage/Pods/leveldb-library/db/version_set.cc:1403-1447 | In its last compaction the key's deletion is dropped while its old value stays in a file that was not taken in. |
| Resurrection.DeletedKeyReturns | ShareImage/Pods/leveldb-library/db/version_set.cc:1403-1447 | After that run the history says the key is deleted and the store reads its old value. |
| ResurrectionRun.RoundIsForced | ShareImage/Pods/leveldb-library/db/db_impl.cc:688-767 | Whether sizes, seeks or a manual request ask for level 1, the round of the database object is the compaction of the run, with the same tables cut at the same places. |
| ResurrectionRun.DeletedKeyIsRead | ShareImage/Pods/leveldb-library/db/version_set.cc:1403-1447 | A program of calls of the database object reads the deleted key as absent before the second compaction and as its old value after it. |
| LostWrites.StartIsReachable | ShareImage/Pods/leveldb-library/db/db_impl.cc:491-566 | A run of twelve legal steps from the empty store: four writes, each flushed. |
| LostWrites.FlushLevelsAreForced | ShareImage/Pods/leveldb-library/db/version_set.cc:491-516 | Each of its flushes, and the one during the compaction, goes to the one level that the placement rule allows. |
| LostWrites.InputsAreForced | ShareImage/Pods/leveldb-library/db/version_set.cc:1464-1495 | A manual compaction of all of level 1 then takes these inputs and no others. |
| LostWrites.InputsLeaveAGap | ShareImage/Pods/leveldb-library/db/version_set.cc:1464-1495 | They leave a gap. |
| LostWrites.CompactionEnds | ShareImage/Pods/leveldb-library/db/db_impl.cc:899-925 | A key in the gap is written, and its memtable flushed, while the compaction runs; when it ends, two tables of level 2 overlap. |
| LostWrites.WriteIsLost | ShareImage/Pods/leveldb-library/db/version_set.cc:326-421 | The store then has the write, in the only level with tables, and the search of that level answers that the key is missing. |
| Databases.InsertSorted | ShareImage/Pods/leveldb-library/db/memtable.cc:75-98 | Inserting an entry with a new internal key keeps the memtable sorted and adds exactly that entry. |
| Databases.InsertBatch | ShareImage/Pods/leveldb-library/db/write_batch.cc:116-137 | A batch adds its updates with consecutive sequence numbers. |
| Databases.Database.Write | ShareImage/Pods/leveldb-library/db/db_impl.cc:1185-1256 | A write is the Write step of the state machine and is recorded in the history. |
| Databases.Database.SwitchMemTable | ShareImage/Pods/leveldb-library/db/db_impl.cc:1345-1367 | The full memtable becomes immutable and an empty one takes its place. |
| Databases.Database.GetSnapshot | ShareImage/Pods/leveldb-library/db/db_impl.cc:1166-1169 | The new snapshot is the last sequence number, appended to the live ones. |
| Databases.Database.ReleaseSnapshot | ShareImage/Pods/leveldb-library/db/db_impl.cc:1171-1174 | Exactly that snapshot is removed. |
| Databases.Database.CompactMemTable | ShareImage/Pods/leveldb-library/db/db_impl.cc:491-566 | A flush as the state machine has it, to the deepest level the placement rule allows. |
| Databases.Database.InstallCompactionResults | ShareImage/Pods/leveldb-library/db/db_impl.cc:860-876 | The new version is the old one with the inputs replaced by the outputs. |
| Databases.Database.MoveDown | ShareImage/Pods/leveldb-library/db/db_impl.cc:718-735 | A trivial move is the state machine's move step. |
| Databases.Database.CompactTables | ShareImage/Pods/leveldb-library/db/db_impl.cc:878-1036 | The outputs hold exactly the entries a compaction must keep, and are cut at the stops of its own grandparents and entries. |
| Databases.Database.RunCompaction | ShareImage/Pods/leveldb-library/db/db_impl.cc:878-1036 | Merging and installing is the state machine's compaction step, with tables cut where the rules ask for it. |
| Databases.Database.BackgroundCompaction | ShareImage/Pods/leveldb-library/db/db_impl.cc:688-767 | Every round of background work is one legal step of the state machine: a flush while there is an immutable memtable; otherwise nothing exactly when nothing is asked for or in range, a move exactly for an automatic compaction of a lone file with no parents and few grandparents, and else a compaction of exactly the inputs that the request leads to, cut by size and at the stops of its grandparents. |
| Mergers.FindSmallest | ShareImage/Pods/leveldb-library/table/merger.cc:148-161 | The first child with the least key among the valid ones, or none if none is valid. |
| Mergers.FindLargest | ShareImage/Pods/leveldb-library/table/merger.cc:163-176 | A child with the greatest key among the valid ones, or none if none is valid. |
| Mergers.SmallestIsLeast | ShareImage/Pods/leveldb-library/table/merger.cc:148-161 | If every child stands at its first entry past a bound, the smallest of them is the first entry of the union past it. |
| Mergers.LargestIsGreatest | ShareImage/Pods/leveldb-library/table/merger.cc:163-176 | The mirror image for the last entry under a bound. |
| Mergers.BackOffStands | ShareImage/Pods/leveldb-library/table/merger.cc:81-108 | Seeking a child to the key and backing off by one leaves it at its last entry before the key, also when it ran off the end. |
| Mergers.AllBeyond | ShareImage/Pods/leveldb-library/table/merger.cc:55-79 | After Next has moved the children, with or without a change of direction, each stands at its first entry after the old key. |
| Mergers.AllBefore | ShareImage/Pods/leveldb-library/table/merger.cc:81-108 | After Prev has moved the children, each stands at its last entry before the old key. |
| Mergers.MergingIterator.SeekToFirst | ShareImage/Pods/leveldb-library/table/merger.cc:31-37 | Acts as SeekToFirst of one cursor over the sorted union of the children. |
| Mergers.MergingIterator.SeekToLast | ShareImage/Pods/leveldb-library/table/merger.cc:39-45 | Acts as SeekToLast of that cursor. |
| Mergers.MergingIterator.Seek | ShareImage/Pods/leveldb-library/table/merger.cc:47-53 | Acts as Seek of that cursor. |
| Mergers.MergingIterator.Next | ShareImage/Pods/leveldb-library/table/merger.cc:55-79 | Acts as Next of that cursor in either direction. |
| Mergers.MergingIterator.Prev | ShareImage/Pods/leveldb-library/table/merger.cc:81-108 | Acts as Prev of that cursor in either direction. |
| Mergers.MergingIterator.Perform | ShareImage/Pods/leveldb-library/table/merger.cc:31-108 | Every run of legal calls, with any changes of direction, ends where the same run on one cursor over the union ends. |
| DbIterators.FirstSeenIsNewest | ShareImage/Pods/leveldb-library/db/db_iter.cc:168-198 | The first visible entry of a user key is its newest, so its kind decides whether the key is live. |
| DbIterators.ScanFinds | ShareImage/Pods/leveldb-library/db/db_iter.cc:168-198 | Where the forward scan stops is the least live key past its bound. |
| DbIterators.BackFinds | ShareImage/Pods/leveldb-library/db/db_iter.cc:227-267 | Where the backward scan stops, the saved key and value are the greatest live key under its bound and its value. |
| DbIterators.DbIter.FindNextUserEntry | ShareImage/Pods/leveldb-library/db/db_iter.cc:168-198 | From any scanning position, moves to the least live key past the bound, or to the end if there is none. |
| DbIterators.DbIter.FindPrevUserEntry | ShareImage/Pods/leveldb-library/db/db_iter.cc:227-267 | From any backing position, moves to the greatest live key under the bound, or becomes invalid if there is none. |
| DbIterators.DbIter.ValueIsRead | ShareImage/Pods/leveldb-library/db/db_iter.cc:168-267 | At a live key the value shown is what a Get at the iterator's sequence number reads. |
| DbIterators.DbIter.Next | ShareImage/Pods/leveldb-library/db/db_iter.cc:141-166 | Moves to the least live key after the current one, from either direction. |
| DbIterators.DbIter.Prev | ShareImage/Pods/leveldb-library/db/db_iter.cc:200-225 | Moves to the greatest live key before the current one, from either direction. |
| DbIterators.DbIter.Seek | ShareImage/Pods/leveldb-library/db/db_iter.cc:269-281 | Moves to the least live key at or after the target. |
| DbIterators.DbIter.SeekToFirst | ShareImage/Pods/leveldb-library/db/db_iter.cc:283-292 | Moves to the least live key. |
| DbIterators.DbIter.SeekToLast | ShareImage/Pods/leveldb-library/db/db_iter.cc:294-299 | Moves to the greatest live key. |
| DbIterators.LiveInOrder | ShareImage/Pods/leveldb-library/db/db_iter.cc:141-299 | The live entries are one per live key, in key order. |
| DbIterators.DbIter.Perform | ShareImage/Pods/leveldb-library/db/db_iter.cc:141-299 | Every run of calls ends where the same run on a cursor over the sorted live keys ends. |
| TwoLevel.TwoLevelIterator.SkipEmptyDataBlocksForward | ShareImage/Pods/leveldb-library/table/two_level_iterator.cc:115-126 | Moves to the entry it was heading for, over any number of empty or exhausted blocks. |
| TwoLevel.TwoLevelIterator.SkipEmptyDataBlocksBackward | ShareImage/Pods/leveldb-library/table/two_level_iterator.cc:128-139 | The mirror image, backwards. |
| TwoLevel.TwoLevelIterator.SeekGoes | ShareImage/Pods/leveldb-library/table/two_level_iterator.cc:82-87 | Seeking in the index and then in the block it points to lands, or is heading, for the first entry of all at or after the target. |
| TwoLevel.TwoLevelIterator.Seek | ShareImage/Pods/leveldb-library/table/two_level_iterator.cc:82-87 | Acts as Seek of one cursor over the concatenated blocks. |
| TwoLevel.TwoLevelIterator.SeekToFirst | ShareImage/Pods/leveldb-library/table/two_level_iterator.cc:89-94 | Acts as SeekToFirst of that cursor. |
| TwoLevel.TwoLevelIterator.SeekToLast | ShareImage/Pods/leveldb-library/table/two_level_iterator.cc:96-101 | Acts as SeekToLast of that cursor. |
| TwoLevel.TwoLevelIterator.Next | ShareImage/Pods/leveldb-library/table/two_level_iterator.cc:103-107 | Acts as Next of that cursor. |
| TwoLevel.TwoLevelIterator.Prev | ShareImage/Pods/leveldb-library/table/two_level_iterator.cc:109-113 | Acts as Prev of that cursor. |
| TwoLevel.TwoLevelIterator.Perform | ShareImage/Pods/leveldb-library/table/two_level_iterator.cc:82-139 | Every run of legal calls ends where the same run on that cursor ends. |
| MergeInput.ConcatIsSorted | ShareImage/Pods/leveldb-library/db/version_set.cc:223-228 | The entries of a sorted level's files, one file after the other, are sorted and complete. |
| MergeInput.LevelIsTwoLevel | ShareImage/Pods/leveldb-library/db/version_set.cc:164-228 | The files' largest keys index their tables as a two-level iterator needs, so it is a cursor over the whole level. |
| Iteration.AddIterators | ShareImage/Pods/leveldb-library/db/version_set.cc:230-249 | The children for level-0 files and deeper levels partition all entries of the store, with no key in two children. |
| Iteration.NewInternalIterator | ShareImage/Pods/leveldb-library/db/db_impl.cc:1062-1087 | The merged iterator is a cursor over exactly the store's entries, sorted. |
| Iteration.NewIterator | ShareImage/Pods/leveldb-library/db/db_impl.cc:1147-1157 | A user iterator over the merging iterator of the whole store, at the given snapshot or at the last sequence number. |
| Iteration.IterationShowsHistory | ShareImage/Pods/leveldb-library/db/db_iter.cc:141-299 | In a coherent store an iteration at a live sequence number shows a key with a value if and only if the write history reads so, each key once and in order. |
| SkipLists.PublishKeepsInv | ShareImage/Pods/leveldb-library/db/skiplist.h:336-368 | Linking a node at one level keeps every level's list sorted and a sublist of the level below. |
| SkipLists.StepKeepsInv | ShareImage/Pods/leveldb-library/db/skiplist.h:336-368 | So does every single step of the inserting thread or of a reader. |
| SkipLists.RunKeepsInv | ShareImage/Pods/leveldb-library/db/skiplist.h:336-368 | And so it is in every state of every interleaving. |
| SkipLists.ReaderFindsLinks | ShareImage/Pods/leveldb-library/db/skiplist.h:260-281 | A reader, whatever it interleaves with, never follows a pointer that was not yet written. |
| SkipLists.ReturnIsLowerBound | ShareImage/Pods/leveldb-library/db/skiplist.h:260-281 | At the moment a search returns, its result is the first key at or after the target in the list as it then is. |
| SkipLists.SearchMissesNothing | ShareImage/Pods/leveldb-library/db/skiplist.h:260-281 | No key present at any moment before the return lies between the target and the result. |
| SkipLists.SkipList.FindGreaterOrEqual | ShareImage/Pods/leveldb-library/db/skiplist.h:260-281 | The first key at or after the target, and the node before it at every level. |
| SkipLists.SkipList.FindLessThan | ShareImage/Pods/leveldb-library/db/skiplist.h:283-302 | The last node before the target, or the head. |
| SkipLists.SkipList.FindLast | ShareImage/Pods/leveldb-library/db/skiplist.h:304-322 | The last node, or the head. |
| SkipLists.SkipList.Contains | ShareImage/Pods/leveldb-library/db/skiplist.h:370-378 | True if and only if the key is in the list. |
| SkipLists.SkipList.Insert | ShareImage/Pods/leveldb-library/db/skiplist.h:336-368 | The key joins exactly the lists below its height, through states that form a legal execution of the shared-memory steps. |
| SkipLists.SkipList.SeekToFirst | ShareImage/Pods/leveldb-library/db/skiplist.h:229-231 | The first key, or none. |
| SkipLists.SkipList.SeekToLast | ShareImage/Pods/leveldb-library/db/skiplist.h:234-239 | The last key, or none. |
| SkipLists.SkipList.Next | ShareImage/Pods/leveldb-library/db/skiplist.h:207-211 | The key after, or none. |
| SkipLists.SkipList.Prev | ShareImage/Pods/leveldb-library/db/skiplist.h:213-222 | The key before, found by search, or none at the front. |
| HandleTables.SpreadIsAMap | ShareImage/Pods/leveldb-library/util/cache.cc:69-147 | Chains with distinct keys, each in its hash's bucket, hold every key at most once. |
| HandleTables.HandleTable.FindPointer | ShareImage/Pods/leveldb-library/util/cache.cc:114-120 | The slot of the one handle with this key, or the end of its bucket's chain when no handle in the table has it. |
| HandleTables.HandleTable.Lookup | ShareImage/Pods/leveldb-library/util/cache.cc:74-76 | The handle with the key if and only if the table has one. |
| HandleTables.HandleTable.Link | ShareImage/Pods/leveldb-library/util/cache.cc:78-92 | The new handle takes the slot of the one with its key, or the end of the chain, through the pointers in place. |
| HandleTables.HandleTable.Insert | ShareImage/Pods/leveldb-library/util/cache.cc:78-92 | The new handle joins, the one with the same key leaves and is returned, everything else stays, also through a resize. |
| HandleTables.HandleTable.Remove | ShareImage/Pods/leveldb-library/util/cache.cc:94-102 | The handle with the key leaves and is returned; without one nothing changes. |
| HandleTables.HandleTable.Resize | ShareImage/Pods/leveldb-library/util/cache.cc:122-146 | Moving every handle to its new chain keeps the contents. |
| HandleTables.BucketsFor | ShareImage/Pods/leveldb-library/util/cache.cc:122-126 | The least power of two, at least four, that is no smaller than the number of elements. |
| HandleTables.HandleTable.IsAMap | ShareImage/Pods/leveldb-library/util/cache.cc:69-147 | The table never holds two handles with one key. |
| LruCaches.LruRemove | ShareImage/Pods/leveldb-library/util/cache.cc:239-242 | Exactly this node leaves the circular list. |
| LruCaches.LruAppend | ShareImage/Pods/leveldb-library/util/cache.cc:244-250 | The node becomes the newest of the list, just before the head. |
| LruCaches.LRUCache.constructor | ShareImage/Pods/leveldb-library/util/cache.cc:197-203 | An empty cache with two empty circular lists. |
| LruCaches.LRUCache.Ref | ShareImage/Pods/leveldb-library/util/cache.cc:217-223 | One more reference for a client; an idle entry moves to the in-use list. |
| LruCaches.LRUCache.Unref | ShareImage/Pods/leveldb-library/util/cache.cc:225-237 | One reference less; the last but the cache's own makes the entry the newest idle one, the very last deletes it. |
| LruCaches.LRUCache.FinishErase | ShareImage/Pods/leveldb-library/util/cache.cc:307-316 | An entry out of the table leaves its list, the usage and the cache's reference. |
| LruCaches.LRUCache.Lookup | ShareImage/Pods/leveldb-library/util/cache.cc:252-259 | The cached entry with the key, now held by the caller and off the idle list, if and only if there is one. |
| LruCaches.LRUCache.Release | ShareImage/Pods/leveldb-library/util/cache.cc:261-264 | One client reference less; a cached entry that no client holds any more becomes the newest idle one, and otherwise both lists stay; the entry is deleted exactly when it is not cached and no client holds it any more. |
| LruCaches.LRUCache.EvictOldest | ShareImage/Pods/leveldb-library/util/cache.cc:293-299 | The longest idle entry leaves the cache; nothing else does. |
| LruCaches.LRUCache.Insert | ShareImage/Pods/leveldb-library/util/cache.cc:266-303 | The new entry replaces one with its key; then the longest idle entries, and no more than needed, are evicted until the usage fits or nothing is idle. |
| LruCaches.LRUCache.Erase | ShareImage/Pods/leveldb-library/util/cache.cc:318-321 | The entry with the key, and no other, leaves the cache; clients keep their handles. |
| LruCaches.LRUCache.Prune | ShareImage/Pods/leveldb-library/util/cache.cc:323-333 | All idle entries leave the cache; entries in use stay. |
| LruCaches.LRUCache.CachedIsAMap | ShareImage/Pods/leveldb-library/util/cache.cc:266-303 | Every state caches at most one entry per key. |
| LruCaches.LRUCache.HeldIsAlive | ShareImage/Pods/leveldb-library/util/cache.cc:225-237 | In every state an entry some client holds has not been deleted. |
| LruCaches.LRUCache.DeletedOnceUnreferenced | ShareImage/Pods/leveldb-library/util/cache.cc:225-237 | Every entry ever made is deleted at most once: exactly when neither the cache nor a client refers to it. |
| LruCaches.ReplaceWhileHeld | ShareImage/Pods/leveldb-library/util/cache.cc:225-303 | An entry replaced under its key while a client holds it leaves the cache but is not deleted; giving it back deletes it, once, exactly when no other client holds it. |
| LogWriters.LogAppend | ShareImage/Pods/leveldb-library/db/log_writer.cc:34-80 | The log of one more record is the log followed by that record's fragments, with the block offset the log's length gives. |
| LogWriters.Writer.AddRecord | ShareImage/Pods/leveldb-library/db/log_writer.cc:34-80 | The file grows by exactly the fragments of the record, trailer zeros and an empty first fragment included; the loop ends. |
| LogWriters.Writer.EmitPhysicalRecord | ShareImage/Pods/leveldb-library/db/log_writer.cc:82-108 | Header and payload are appended and the block offset advances by both. |
| LogFormat.PhysicalOnBytes | ShareImage/Pods/leveldb-library/db/log_reader.cc:189-271 | What a physical read yields, told on the bytes of the file: a fragment only if it stands behind the next header with its checksum; the end if the header or an unfinished fragment is cut off by the end of the file; otherwise the rest of the block is dropped, with one report unless the header is of type zero and length zero. |
| LogReaders.Reader.ReadPhysicalRecord | ShareImage/Pods/leveldb-library/db/log_reader.cc:189-271 | Reading through the block buffer equals reading at a position of the file, and that is what the bytes say: a fragment with its checksum, the end, or a bad record with a report when one is due. |
| LogReaders.Reader.ReadRecord | ShareImage/Pods/leveldb-library/db/log_reader.cc:56-174 | Returns the next logical record of the file, for any bytes at all, and counts every report; a record returned stands in the file, cut as a writer cuts it, with the checksum of each of its fragments. |
| LogRoundTrip.TrailerIsSkipped | ShareImage/Pods/leveldb-library/db/log_reader.cc:189-216 | A block trailer too short for a header is skipped, whole or cut. |
| LogDamage.TrailerIsZero | ShareImage/Pods/leveldb-library/db/log_writer.cc:45-55 | What a writer puts before the next header, where a block has no room for one, is zeros. |
| LogRoundTrip.ReadsBack | ShareImage/Pods/leveldb-library/db/log_reader.cc:56-174 | What the writer wrote for a record is read back as that record, or as the end of the log if the cut took any of it. |
| LogRoundTrip.WholeCountsEnds | ShareImage/Pods/leveldb-library/db/log_writer.cc:34-80 | A record counts as surviving a cut if and only if its last byte does. |
| LogRoundTrip.TruncatedLogReads | ShareImage/Pods/leveldb-library/db/log_reader.cc:56-174 | From any start, a log cut at any byte reads as exactly the surviving records, in order, with nothing reported. |
| LogRoundTrip.LogSurvivesTruncation | ShareImage/Pods/leveldb-library/db/log_reader.cc:56-174 | The same for the whole log and every cut. |
| LogDamage.RecordsAreGenuine | ShareImage/Pods/leveldb-library/db/log_reader.cc:56-174 | For any bytes and from any state of the loop, the record read is the rest of the one begun or stands further on in the file, fragment by fragment with checksums. |
| LogDamage.NothingMadeUp | ShareImage/Pods/leveldb-library/db/log_reader.cc:243-257 | No file, whatever its bytes, yields a record that does not stand in it with its checksums. |
| LogHarvest.FileIsHarvested | ShareImage/Pods/leveldb-library/db/log_reader.cc:56-174 | For any file: the records read are exactly its runs, one full fragment or a first, middle and a last one with nothing between them, in order; and the reports are exactly its faults: a bad stretch, a run broken or given up with text in it, a fragment outside a run, an unknown type. |
| LogHarvest.HarvestIsUnique | ShareImage/Pods/leveldb-library/db/log_reader.cc:56-174 | A file has one such sequence of records. |
| LogDamage.PassesOrphans | ShareImage/Pods/leveldb-library/db/log_reader.cc:56-174 | Fragments whose beginning was lost are passed over, each with a report. |
| LogDamage.TakesUp | ShareImage/Pods/leveldb-library/db/log_reader.cc:56-174 | From a block boundary the reader takes up exactly the records that begin there or later. |
| LogDamage.DamageIsContained | ShareImage/Pods/leveldb-library/db/log_reader.cc:189-271 | A log with one fragment's checksum, type or payload changed, so that its checksum shows it, reads as all its records but the damaged one and those whose first header stands behind the damage in its block; the number of reports is exact, and at least one. |
| Crc32c.Zero1ByTable | ShareImage/Pods/leveldb-library/util/crc32c.cc:287-291 | One byte step is a table entry and a shift. |
| Crc32c.FoldWord | ShareImage/Pods/leveldb-library/util/crc32c.cc:292-300 | Four byte steps are one word step. |
| Crc32c.ByteTableEntries | ShareImage/Pods/leveldb-library/util/crc32c.cc:20-63 | The byte table's entries at the powers of two are those of the polynomial. |
| Crc32c.ExtendChains | ShareImage/Pods/leveldb-library/util/crc32c.cc:276-377 | Extending by two pieces one after the other is extending by both joined. |
| Crc32c.StrideAdvances | ShareImage/Pods/leveldb-library/util/crc32c.cc:302-314 | Four lookups in correct stride tables advance a partial checksum by sixteen zero bytes. |
| Crc32c.StrideFeedsWord | ShareImage/Pods/leveldb-library/util/crc32c.cc:302-323 | Feeding a word into the oldest of four partial checksums keeps their combination equal to the checksum of all bytes so far. |
| Crc32c.StepByte | ShareImage/Pods/leveldb-library/util/crc32c.cc:287-291 | The table step is the bit-by-bit division of one byte. |
| Crc32c.StepWord | ShareImage/Pods/leveldb-library/util/crc32c.cc:292-300 | The table step is the bit-by-bit division of four bytes. |
| Crc32c.FeedWord | ShareImage/Pods/leveldb-library/util/crc32c.cc:302-323 | One turn of the interleaved loop advances the combined checksum by one word. |
| Crc32c.Extend | ShareImage/Pods/leveldb-library/util/crc32c.cc:276-377 | For every buffer, address and starting value the interleaved computation is the bit-by-bit checksum. |
| Crc32c.ExtendStrides | ShareImage/Pods/leveldb-library/util/crc32c.cc:333-369 | The four interleaved partial results, combined at the end, are the checksum of all bytes they went over. |
| Coding.UnmaskInvertsMask | ShareImage/Pods/leveldb-library/util/crc32c.h:29-38 | Unmasking a masked checksum gives it back. |
| Coding.MaskInvertsUnmask | ShareImage/Pods/leveldb-library/util/crc32c.h:29-38 | Masking is onto, too. |
| Coding.Fixed32RoundTrip | ShareImage/Pods/leveldb-library/util/coding.cc:9-18 | A fixed 32-bit number decodes to itself, whatever follows it. |
| Coding.Fixed64RoundTrip | ShareImage/Pods/leveldb-library/util/coding.cc:20-33 | The same for 64 bits. |
| Coding.VarintRoundTrip | ShareImage/Pods/leveldb-library/util/coding.cc:112-157 | A number of at most so many base-128 digits decodes to itself and to its own length, whatever follows it. |
| Spelling.NumberIsRead | ShareImage/Pods/leveldb-library/util/coding.cc:112-160 | For any bytes: a varint is read exactly if the input starts with base-128 digits of it, at most the limit of them, of which all but the last have their high bit set. |
| Spelling.SliceIsRead | ShareImage/Pods/leveldb-library/util/coding.cc:181-191 | For any bytes: a slice is read exactly if the input starts with its length in 32 bits and then the slice. |
| Spelling.Fixed32Bits | ShareImage/Pods/leveldb-library/util/coding.h:60-72 | Bit i of a fixed-width number is bit i % 8 of byte i / 8. |
| Spelling.Fixed64Bits | ShareImage/Pods/leveldb-library/util/coding.h:74-86 | The same for eight bytes. |
| Spelling.MaskRotates | ShareImage/Pods/leveldb-library/util/crc32c.h:29-38 | Less the constant, bit i of a masked checksum is bit i + 15 of the checksum, around the word. |
| Coding.EncodeVarint32 | ShareImage/Pods/leveldb-library/util/coding.cc:47-73 | The five cases write the base-128 digits. |
| Coding.EncodeVarint64 | ShareImage/Pods/leveldb-library/util/coding.cc:81-90 | The loop writes the base-128 digits. |
| Coding.GetVarint | ShareImage/Pods/leveldb-library/util/coding.cc:112-157 | The bytes are taken off if and only if a number ends within the limit; digits past the word's width are lost. |
| WriteBatches.BatchRoundTrip | ShareImage/Pods/leveldb-library/db/write_batch.cc:42-96 | An encoded batch gives back its sequence number, its count and its updates. |
| WriteBatches.WalkReadsBack | ShareImage/Pods/leveldb-library/db/write_batch.cc:42-80 | Walking the encoded updates calls the handler with each of them, in order, and ends soundly. |
| WriteBatches.Iterate | ShareImage/Pods/leveldb-library/db/write_batch.cc:42-80 | For any bytes, the handler calls made before a fault and whether there was one, a wrong count included. |
| BatchSpelling.SoundBatches | ShareImage/Pods/leveldb-library/db/write_batch.cc:42-80 | Any bytes are taken for a batch of these updates exactly if, behind a header that holds their number, they spell them by the grammar of write_batch.cc:5-13. |
| BatchSpelling.UnsoundBatches | ShareImage/Pods/leveldb-library/db/write_batch.cc:42-80 | A batch is refused after these updates exactly if it spells them and then either goes on with bytes no update starts with, or ends and its header has another number. |
| BatchSpelling.CutBatch | ShareImage/Pods/leveldb-library/db/write_batch.cc:42-80 | A batch cut short anywhere is refused, after a proper prefix of its updates. |
| WriteBatches.WriteBatch.Put | ShareImage/Pods/leveldb-library/db/write_batch.cc:98-103 | One more value at the end; the sequence number stays. |
| WriteBatches.WriteBatch.Delete | ShareImage/Pods/leveldb-library/db/write_batch.cc:105-109 | One more deletion at the end; the sequence number stays. |
| WriteBatches.WriteBatch.Append | ShareImage/Pods/leveldb-library/db/write_batch.cc:144-148 | The other batch's updates follow this one's own. |
| WriteBatches.WriteBatch.SetSequence | ShareImage/Pods/leveldb-library/db/write_batch.cc:94-96 | Only the sequence number changes. |
| Recovery.InsertInto | ShareImage/Pods/leveldb-library/db/write_batch.cc:116-137 | Each update of a record is inserted with the next sequence number, up to the first fault. |
| Recovery.RecoverLogFile | ShareImage/Pods/leveldb-library/db/db_impl.cc:371-489 | For any log bytes, the tables written on the way and the last memtable hold the insertions of all records read, each table closed with the batch that filled it and the last memtable not full; the result is the greatest last sequence number, and the reports are the reader's and one for each record too short for a batch. |
| Recovery.PrefixReplays | ShareImage/Pods/leveldb-library/db/db_impl.cc:418-453 | A prefix of the committed records replays as that prefix of the batches, and ends at its last sequence number. |
| Recovery.TruncatedLogRecovers | ShareImage/Pods/leveldb-library/db/db_impl.cc:418-453 | A log of committed batches cut at any byte replays exactly the batches wholly inside the cut, with their own sequence numbers and nothing reported. |
| Recovery.DamagedLogRecovers | ShareImage/Pods/leveldb-library/db/db_impl.cc:418-453 | A log of committed batches damaged in one fragment replays exactly the batches whose records were not lost, with their own sequence numbers, and reports the loss. |
| Recovery.UpdatesAreHistory | ShareImage/Pods/leveldb-library/db/db_impl.cc:418-453 | The replayed entries are the history those batches made. |
| Recovery.RecoveryIsAPrefixOfHistory | ShareImage/Pods/leveldb-library/db/db_impl.cc:371-489 | After a crash the store holds exactly what a prefix of its committed batches had written. |
| EditCodec.DecodeFrom | ShareImage/Pods/leveldb-library/db/version_edit.cc:107-205 | For any bytes, the edit they spell or a failure at the first bad field. |
| EditSpelling.EditsAreSpelt | ShareImage/Pods/leveldb-library/db/version_edit.cc:107-205 | Any bytes are taken for an edit exactly if they are fields one after the other, each a known tag with all its parts and a level that exists, that make it: the last scalar counts, files and pointers pile up, deletions are a set. |
| EditSpelling.ParsedIsWritable | ShareImage/Pods/leveldb-library/db/version_edit.cc:41-205 | Whatever is taken for an edit can be written, and what is written decodes to the same edit. |
| EditCodec.ParseDeleted | ShareImage/Pods/leveldb-library/db/version_edit.cc:160-168 | Deleted files in set order decode to the same set. |
| EditCodec.EditRoundTrip | ShareImage/Pods/leveldb-library/db/version_edit.cc:41-205 | Every writable edit decodes, into a fresh edit, to itself. |
| Manifests.RecordsDecode | ShareImage/Pods/leveldb-library/db/version_set.cc:933-968 | Every record of a written manifest is accepted and decodes to its edit. |
| Manifests.InstallsFold | ShareImage/Pods/leveldb-library/db/version_set.cc:801-884 | Installing edits one at a time is folding them all. |
| Manifests.FoldIsUnique | ShareImage/Pods/leveldb-library/db/version_set.cc:695-739 | Two foldings of the same edits over the same base are the same version. |
| Manifests.Recover | ShareImage/Pods/leveldb-library/db/version_set.cc:886-1011 | For any manifest bytes: succeeds if and only if nothing was reported, every record spells an edit that names this comparator or none, and some record sets each of the next file number, the log number and the last sequence number; then the version is the fold of all edits and the counters are the last ones set. |
| Manifests.RestorableExactly | ShareImage/Pods/leveldb-library/db/version_set.cc:933-980 | The checks made record by record and at the end come to that condition on the bytes. |
| Manifests.LastCounts | ShareImage/Pods/leveldb-library/db/version_set.cc:949-967 | Each counter is the last one that an edit sets, or missing if none does. |
| Manifests.SnapshotFolds | ShareImage/Pods/leveldb-library/db/version_set.cc:1083-1113 | The record of a snapshot, folded over no files, gives the version it was taken of. |
| Manifests.ManifestFolds | ShareImage/Pods/leveldb-library/db/version_set.cc:933-968 | The first n records of a manifest, a snapshot and later edits, fold over no files to the version that was current after the n-th. |
| Manifests.ManifestCounters | ShareImage/Pods/leveldb-library/db/version_set.cc:945-964 | The counters of a manifest's first n records are those of the last one, and incomplete if that is the snapshot. |
| Manifests.TruncatedManifestRecovers | ShareImage/Pods/leveldb-library/db/version_set.cc:886-1011 | A manifest cut at any byte reads without a report as its surviving records; they meet what recovery asks, fold to the version after the last of them, and have all counters if and only if an edit after the snapshot is among them. |
| Manifests.RecoverTruncated | ShareImage/Pods/leveldb-library/db/version_set.cc:886-1011 | Recovering from a manifest cut at any byte gives exactly the version and the counters of the last surviving edit, or fails, exactly if not even one edit after the snapshot survived. |
| ManifestWriters.Snapshot | ShareImage/Pods/leveldb-library/db/version_set.cc:1083-1113 | A record with the comparator, all files level by level, every compaction pointer that is set, and no counters. |
| ManifestWriters.PointersAt | ShareImage/Pods/leveldb-library/db/version_set.cc:651-656 | After an edit, a level's compaction pointer is the last one the edit has for it, or as before. |
| ManifestWriters.VersionLog.LogAndApply | ShareImage/Pods/leveldb-library/db/version_set.cc:801-884 | The current version becomes the fold of the edit; the manifest gets the edit with all counters, before the first one a snapshot of the old version, and stays a manifest that recovers. |
| ManifestWriters.VersionLog.WriteSnapshot | ShareImage/Pods/leveldb-library/db/version_set.cc:1083-1113 | A new manifest that holds exactly the snapshot of the current version. |
| ManifestWriters.VersionLog.RecoverAfterCrash | ShareImage/Pods/leveldb-library/db/version_set.cc:801-1011 | After any installed edits and a cut at any byte of the manifest they wrote, recovery gives exactly the version that was current after the last surviving edit, with its counters. |
| CrashSafety.RecoveredStore | ShareImage/Pods/leveldb-library/db/db_impl.cc:280-369 | From any surviving manifest record and any surviving part of the logs comes a store that meets the invariant, holds nothing that was not written, and, if all compactions so far were clean, reads as the history of what survived. |
| CrashSafety.WriteKeeps | ShareImage/Pods/leveldb-library/db/db_impl.cc:1185-1256 | A logged batch keeps tables and logs recoverable, and adds exactly its entries to what they stand for. |
| CrashSafety.SwitchKeeps | ShareImage/Pods/leveldb-library/db/db_impl.cc:1345-1367 | So does a new log for a new memtable; the old log is still needed. |
| CrashSafety.FlushKeeps | ShareImage/Pods/leveldb-library/db/db_impl.cc:491-566 | So does a flush, after which the memtable's log is needed no more. |
| CrashSafety.ReplaceKeeps | ShareImage/Pods/leveldb-library/db/db_impl.cc:860-876 | So does any replacement of tables that keeps reads from some past sequence number on. |
| CrashSafety.CompactedTree | ShareImage/Pods/leveldb-library/db/db_impl.cc:878-1036 | A compaction that resurrects no key among the tables alone keeps what the tables read as, whatever the memtables hide. |
| CrashSafety.StoreReadsHistory | ShareImage/Pods/leveldb-library/db/db_impl.cc:1100-1145 | While the database runs, tables and memtables read as the whole history at the last sequence number. |
| TableFiles.NumbersNeverReused | ShareImage/Pods/leveldb-library/db/version_set.cc:801-884 | If each number names one table file, no edit of the manifest reuses a number, over the whole manifest and for the current version. |
| TableFiles.OutputsFit | ShareImage/Pods/leveldb-library/db/db_impl.cc:878-1036 | A compaction makes no more tables than the tree has entries, so file numbers last. |
| LogReplay.ReplayLog | ShareImage/Pods/leveldb-library/db/db_impl.cc:371-489 | A log cut anywhere adds exactly the entries of the batches that survive whole to a sorted memtable, and the sequence number returned is at least all of theirs. |
| LogReplay.LoggedSurvives | ShareImage/Pods/leveldb-library/db/db_impl.cc:1206-1222 | A batch whose record ends before the cut survives, so a synced one always does. |
| OpenDatabase.ReopenedManifest | ShareImage/Pods/leveldb-library/db/db_impl.cc:1476-1511 | A new manifest: a snapshot of the recovered version and an edit with the replayed memtable's table and the number of the new log. |
| DurableDatabases.DurableDatabase.constructor | ShareImage/Pods/leveldb-library/db/db_impl.cc:1476-1511 | A new database: empty, with an empty log and a manifest that names it. |
| DurableDatabases.DurableDatabase.Recovered | ShareImage/Pods/leveldb-library/db/db_impl.cc:1476-1511 | A recovered database: its tables are those recovered and one more at level 0 with the replayed entries, under the next file number; a new log and manifest under the numbers after it; and it remembers the surviving history. |
| DurableDatabases.DurableDatabase.Write | ShareImage/Pods/leveldb-library/db/db_impl.cc:1185-1256 | The store's write step, with its batch as the next record of the log. |
| DurableDatabases.DurableDatabase.SwitchMemTable | ShareImage/Pods/leveldb-library/db/db_impl.cc:1345-1367 | The memtable becomes immutable and keeps its log; a new log with a new number starts. |
| DurableDatabases.DurableDatabase.BackgroundCompaction | ShareImage/Pods/leveldb-library/db/db_impl.cc:688-767 | The round that the request asks for, a legal step of the store whose tables are on disk and whose edit is the manifest's last record; everything stays recoverable, from the manifest with that record and from the one without it. |
| DurableDatabases.DurableDatabase.DeleteObsoleteFiles | ShareImage/Pods/leveldb-library/db/db_impl.cc:223-280 | A log is deleted only when its memtable has been flushed and the record of that has reached the disk. |
| DurableDatabases.DurableDatabase.Get | ShareImage/Pods/leveldb-library/db/db_impl.cc:1100-1145 | In a run with clean compactions, and across any number of crashes, a read gives what the surviving history says. |
| DurableDatabases.DurableDatabase.Reopen | ShareImage/Pods/leveldb-library/db/db_impl.cc:280-369 | After any run, with the manifest cut anywhere in its last unsynced record and both logs cut anywhere: the version of a surviving record, the entries of exactly the surviving batches that its tables do not hold, the last sequence number that any of these names, the least file number past that of the new manifest and those of the replayed logs, and a store that meets the invariant; if nothing was cut from the logs, nothing is lost. |
| DurableDatabases.DurableDatabase.MarkLogsUsed | ShareImage/Pods/leveldb-library/db/db_impl.cc:351-362 | The next file number after the replayed logs are marked as used: unchanged or one past a replayed log, and past all of them. |
| DurableDatabases.Restart | ShareImage/Pods/leveldb-library/db/db_impl.cc:1470-1515 | A crash and a restart give a database in which all this holds again, whose history is what survived, and which writes over no log it has replayed. |
| WriteQueue.BuildBatchGroup | ShareImage/Pods/leveldb-library/db/db_impl.cc:1260-1306 | The group is the longest the rules allow from the front of the queue, and its updates are those of its writers in order. |
| WriteQueue.GroupIsBounded | ShareImage/Pods/leveldb-library/db/db_impl.cc:1260-1306 | A group adds at most 128 KB to a first batch of at most 128 KB, and to a larger one no more than makes 1 MB; it ends only before a synced write behind an unsynced leader or a batch that would exceed that. |
| WriteQueue.StepKeepsInv | ShareImage/Pods/leveldb-library/db/db_impl.cc:1185-1256 | Every step of a writer, a leader or an arrival keeps the invariant of queue, log, memtable and last sequence number. |
| WriteQueue.RunKeepsInv | ShareImage/Pods/leveldb-library/db/db_impl.cc:1185-1256 | It holds in every state of every interleaving. |
| WriteQueue.ReadersSeeFinished | ShareImage/Pods/leveldb-library/db/db_impl.cc:1185-1256 | At the last sequence number a reader sees exactly the batches of the finished writers. |
| WriteQueue.BatchesAreAtomic | ShareImage/Pods/leveldb-library/db/db_impl.cc:1185-1256 | Each batch is visible wholly or not at all, with a run of numbers of its own. |
| WriteQueue.LogReplaysQueue | ShareImage/Pods/leveldb-library/db/db_impl.cc:1185-1256 | The log replays the batches in queue order, numbered without gap or overlap. |
| WriteQueue.SyncWritesAreSynced | ShareImage/Pods/leveldb-library/db/db_impl.cc:1280-1285 | A logged write that asked for a sync lies in a record that was synced. |
| WriteQueue.StepsRefineStoreWrites | ShareImage/Pods/leveldb-library/db/db_impl.cc:1185-1256 | What readers see changes only when a group finishes, and then by the store's own write of the whole group. |
| WriteQueue.StepsMakeProgress | ShareImage/Pods/leveldb-library/db/db_impl.cc:1185-1256 | Every step but an arrival lowers a natural rank and no writer finishes twice. |
| WriteQueue.SomeStepIsEnabled | ShareImage/Pods/leveldb-library/db/db_impl.cc:1185-1256 | While anyone waits and sequence numbers are left, a step can be taken; so every writer finishes. |
| BlockFormat.EntryDecodes | ShareImage/Pods/leveldb-library/table/block.cc:54-75 | Encoded entries decode to their parts wherever they stand. |
| BlockFormat.FastPath | ShareImage/Pods/leveldb-library/table/block.cc:54-75 | The one-byte fast path reads what the general path would. |
| BlockSpelling.HeadIsRead | ShareImage/Pods/leveldb-library/table/block.cc:54-75 | For any bytes: the head of an entry is taken exactly if three 32-bit numbers stand there and what they announce, the sum modulo 2^32, has room before the limit. |
| BlockSpelling.EntryIsInside | ShareImage/Pods/leveldb-library/table/block.cc:54-75 | If the two lengths do not wrap around, the rest of the key and the value are inside the block. |
| BlockSpelling.BlockOpens | ShareImage/Pods/leveldb-library/table/block.cc:19-41 | For any contents: they are taken for a block exactly if the number at their end counts restart points that all have room before it, and the entries end where those begin. |
| BlockFormat.EntryInData | ShareImage/Pods/leveldb-library/table/block_builder.cc:72-106 | Each entry's bytes stand where its offset says, whatever is added later. |
| Blocks.SharedLength | ShareImage/Pods/leveldb-library/table/block_builder.cc:80-88 | The length of the longest common prefix. |
| Blocks.BlockBuilder.Reset | ShareImage/Pods/leveldb-library/table/block_builder.cc:47-54 | An empty block being built. |
| Blocks.BlockBuilder.Add | ShareImage/Pods/leveldb-library/table/block_builder.cc:72-106 | The pair joins the block's entries; buffer, restart points and counter stay what the entries make them. |
| Blocks.BlockBuilder.Finish | ShareImage/Pods/leveldb-library/table/block_builder.cc:62-70 | The contents are the encoded entries, the restart points and their number. |
| BlockIters.BlockIter.SeekToRestartPoint | ShareImage/Pods/leveldb-library/table/block.cc:104-112 | The next parse starts at that restart point. |
| BlockIters.BlockIter.ParseNextKey | ShareImage/Pods/leveldb-library/table/block.cc:224-251 | Parses the next entry's full key and value from the shared prefix, or runs off the end exactly when there is none. |
| BlockIters.BlockIter.Next | ShareImage/Pods/leveldb-library/table/block.cc:137-140 | Moves from entry i to entry i + 1 or off the end. |
| BlockIters.BlockIter.Prev | ShareImage/Pods/leveldb-library/table/block.cc:142-161 | Moves from entry i to entry i - 1 or off the front, though the restart index may lag by one. |
| BlockIters.BlockIter.LastRestartBefore | ShareImage/Pods/leveldb-library/table/block.cc:164-189 | The binary search returns the last restart point whose key is below the target, or the first one. |
| BlockIters.BlockIter.Seek | ShareImage/Pods/leveldb-library/table/block.cc:163-201 | Binary search over restart points and a linear scan land on the first entry at or after the target, or off the end. |
| BlockIters.BlockIter.SeekToFirst | ShareImage/Pods/leveldb-library/table/block.cc:203-206 | The first entry, or none in an empty block. |
| BlockIters.BlockIter.SeekToLast | ShareImage/Pods/leveldb-library/table/block.cc:208-213 | The last entry, or none in an empty block. |
| BlockIters.Scan | ShareImage/Pods/leveldb-library/table/block.cc:203-251 | Reading a finished block from the front gives back exactly the pairs that were added. |
| Bloom.NoFalseNegatives | ShareImage/Pods/leveldb-library/util/bloom.cc:28-80 | For every hash function, size and number of probes, a key the filter was made for may match. |
| Bloom.FilterBits | ShareImage/Pods/leveldb-library/util/bloom.cc:28-54 | A filter has the least number of whole bytes with 64 bits and the wanted bits per key; a bit is set exactly if the hash of some key plus so many steps, modulo 2^32 and the size, asks for it; the last byte is the number of probes. |
| Bloom.MatchIsAllSet | ShareImage/Pods/leveldb-library/util/bloom.cc:56-80 | For any filter bytes: a key may match exactly if the last byte is over 30, or every bit its probes ask for is set; and never if there are fewer than two bytes. |
| Bloom.DeltaRotates | ShareImage/Pods/leveldb-library/util/bloom.cc:45-45 | The step of the double hashing is the hash rotated right by 17 bits. |
| Bloom.CreateFilter | ShareImage/Pods/leveldb-library/util/bloom.cc:28-54 | The nested loops set exactly the probe bits of every key, by or-ing into the array in place. |
| Bloom.KeyMayMatch | ShareImage/Pods/leveldb-library/util/bloom.cc:56-80 | True if and only if all probe bits are set, or the probe count is a reserved one; false for a filter too short. |
| FilterBlocks.FilterBlockBuilder.StartBlock | ShareImage/Pods/leveldb-library/table/filter_block.cc:21-27 | Filters are closed up to the one this block's offset falls into; the pending keys went into the first of them. |
| FilterBlocks.FilterBlockBuilder.AddKey | ShareImage/Pods/leveldb-library/table/filter_block.cc:29-33 | The key joins the pending keys. |
| FilterBlocks.FilterBlockBuilder.GenerateFilter | ShareImage/Pods/leveldb-library/table/filter_block.cc:51-75 | One more filter, for exactly the pending keys. |
| FilterBlocks.FilterBlockBuilder.Finish | ShareImage/Pods/leveldb-library/table/filter_block.cc:35-49 | The finished block is all filters, their offsets, where the offsets start and the base. |
| FilterBlocks.ReadsItsFilter | ShareImage/Pods/leveldb-library/table/filter_block.cc:77-104 | A query at a block offset asks exactly the filter that offset falls into. |
| FilterBlocks.DeniedExactly | ShareImage/Pods/leveldb-library/table/filter_block.cc:77-104 | For any contents: a key is denied exactly if the block has a filter that denies it, or an empty range past the filters; everything that does not parse may match. |
| FilterBlocks.KeyIsFound | ShareImage/Pods/leveldb-library/table/filter_block.cc:90-104 | A key given while a block was written may match at that block's offset. |
| TableBuilders.TableBuilder.Add | ShareImage/Pods/leveldb-library/table/table_builder.cc:94-123 | The entry joins the table; what is known of blocks, separators and filters is kept. |
| TableBuilders.TableBuilder.Flush | ShareImage/Pods/leveldb-library/table/table_builder.cc:125-139 | The current block is written, its index entry waits for the next key, and the filter moves on. |
| TableBuilders.TableBuilder.Finish | ShareImage/Pods/leveldb-library/table/table_builder.cc:198-253 | The result is a table of exactly the added entries, with separators and filters as lookups need them. |
| TableBuilders.BloomIsSound | ShareImage/Pods/leveldb-library/util/bloom.cc:28-80 | The Bloom filter meets the one hypothesis lookups have about a filter policy. |
| Tables.NotInBlock | ShareImage/Pods/leveldb-library/table/table.cc:216-244 | A key the filter denies is in no entry of the block. |
| Tables.SeparatorHidesNoUser | ShareImage/Pods/leveldb-library/db/dbformat.cc:69-86 | A target that falls between a block's last key and its separator has no entry of its user key in any later block. |
| Tables.BlockDecides | ShareImage/Pods/leveldb-library/table/table.cc:216-244 | The one block the index points to holds the first entry at or after the target, or that entry has another user key. |
| Tables.InternalGet | ShareImage/Pods/leveldb-library/table/table.cc:216-244 | Whatever is reported is the first entry of the whole table at or after the target; if that entry has the target's user key it is reported, the filter notwithstanding. |
| TableBlocks.SeekAgrees | ShareImage/Pods/leveldb-library/table/block.cc:163-201 | The lower bound among a block's encoded keys and values is the one lookups in the table use. |
| TableBlocks.WriteBlock | ShareImage/Pods/leveldb-library/table/table_builder.cc:141-175 | The block builder, given a table block's entries, makes the bytes of exactly those entries. |
| TableBlocks.SeekInBytes | ShareImage/Pods/leveldb-library/table/block.cc:163-201 | Seeking in those bytes finds exactly the entry that a table lookup takes from the block, or none. |
| BytewiseComparator.RankKeepsOrder | ShareImage/Pods/leveldb-library/util/comparator.cc:25-27 | Byte strings order as their ranks do, and different strings have different ranks. |
| BytewiseComparator.FindShortestSeparator | ShareImage/Pods/leveldb-library/util/comparator.cc:29-50 | Replaced exactly if the keys first differ at a byte with room above it: by their common prefix and the next byte, strictly between start and limit; otherwise kept. |
| BytewiseComparator.FindShortSuccessor | ShareImage/Pods/leveldb-library/util/comparator.cc:52-64 | The bytes up to the first that is not 0xff, that one raised by one: at or after the given key, and no shorter key is; only a run of 0xff bytes stays itself. |
| BytewiseComparator.EncodedOrderIsLess | ShareImage/Pods/leveldb-library/db/dbformat.cc:51-67 | Encoded internal keys compare as (user key, sequence number, kind) does in the rest of the model. |
| BytewiseComparator.TagIsParsed | ShareImage/Pods/leveldb-library/db/dbformat.h:165-175 | The trailing word of an internal key parses exactly to the sequence number and type it was packed from (db/dbformat.cc:14-18); other types are refused. |
| BytewiseComparator.FindShortestKeySeparator | ShareImage/Pods/leveldb-library/db/dbformat.cc:69-86 | Strictly between start and limit with a shorter user key and the largest tag exactly if the user keys have a shorter separator; otherwise kept. |
| BytewiseComparator.FindShortKeySuccessor | ShareImage/Pods/leveldb-library/db/dbformat.cc:88-101 | After the key with a shorter user key and the largest tag exactly if the user key has a shorter successor; otherwise kept. |
| PbCommon.FieldIter.Next | ShareImage/Pods/nanopb/pb_common.c:20-76 | Moves to the next field, or wraps around; the required fields passed are counted exactly. |
| PbCommon.FieldIter.Find | ShareImage/Pods/nanopb/pb_common.c:78-95 | From any position, finds the field with the tag if and only if there is one. |
| PbEncoders.OStream.Write | ShareImage/Pods/nanopb/pb_encode.c:103-124 | Goes out if and only if there is room, or if the stream only counts; a counting stream keeps no bytes. |
| PbEncoders.EmitVarint | ShareImage/Pods/nanopb/pb_encode.c:608-628 | The base-128 digits of the number. |
| PbEncoders.EmitSigned | ShareImage/Pods/nanopb/pb_encode.c:630-639 | The zigzag number, computed with 64-bit shifts and inversion. |
| PbEncoders.EmitItems | ShareImage/Pods/nanopb/pb_encode.c:180-233 | Every item in order, each after its tag if it has one; fails exactly at a rejected item or a full stream. |
| PbEncoders.PackedSize | ShareImage/Pods/nanopb/pb_encode.c:167-188 | The size of the packed items, by multiplication for fixed widths and by a counting pass for others, is the number of bytes they take. |
| PbEncoders.EmitArray | ShareImage/Pods/nanopb/pb_encode.c:147-236 | Nothing for no items, an error for too many, otherwise the packed form if the kind allows one and tagged items if not; the same for a counting stream. |
| PbEncoders.EmitSubmessage | ShareImage/Pods/nanopb/pb_encode.c:717-765 | Succeeds if and only if the message can be encoded and fits; both passes write the same number of bytes, so a changed size is never the reason to fail. |
| PbEncoders.CheckZero | ShareImage/Pods/nanopb/pb_encode.c:240-337 | True if and only if every field of the data is absent or zero, through submessages. |
| PbEncoders.EmitField | ShareImage/Pods/nanopb/pb_encode.c:341-426 | The field's bytes by its rule; it takes bytes if and only if it goes out: always if required, if its flag is set, if it is not zero, if it has items, or if its union is set to it. |
| PbPresence.FieldGoesOut | ShareImage/Pods/nanopb/pb_encode.c:341-426 | A field takes bytes if and only if the struct says so: required, flag set, value not zero, array not empty, union set to it. |
| PbPresence.AbsentTakesNoBytes | ShareImage/Pods/nanopb/pb_encode.c:240-337 | The zero test of a submessage succeeds if and only if the message would take no bytes and sets no union. |
| PbEncoders.EmitMessage | ShareImage/Pods/nanopb/pb_encode.c:528-550 | The bytes of all fields in schema order, if all can be encoded and there is room; otherwise failure. |
| PbEncoders.EncodedSize | ShareImage/Pods/nanopb/pb_encode.c:567-576 | The size announced is the number of bytes a writing pass writes. |
| PbDecoders.ReadVarint32 | ShareImage/Pods/nanopb/pb_decode.c:187-247 | Reads as the 32-bit varint function does, the eight-bit position counter included, and reports an empty stream. |
| PbDecoders.ReadVarint64 | ShareImage/Pods/nanopb/pb_decode.c:255-275 | Shifting and or-ing groups gives the base-128 number of at most ten bytes modulo 2^64. |
| PbVarints.Varint32RoundTrip | ShareImage/Pods/nanopb/pb_decode.c:187-247 | Every 32-bit number comes back from the 32-bit decoder. |
| PbVarints.Varint64RoundTrip | ShareImage/Pods/nanopb/pb_decode.c:255-275 | Every 64-bit number comes back from the 64-bit decoder. |
| PbVarints.VarintsAgree | ShareImage/Pods/nanopb/pb_decode.c:187-275 | On all bytes both decoders accept, the 32-bit result is the 64-bit result modulo 2^32 and both read equally far. |
| PbVarints.Varint32Accepts | ShareImage/Pods/nanopb/pb_decode.c:187-247 | The 32-bit decoder accepts an encoded 64-bit number if and only if it is below 2^32 or its groups look like a carried sign. |
| PbVarints.NegativeAccepted | ShareImage/Pods/nanopb/pb_decode.c:214-224 | A negative 32-bit number in its ten-byte form is accepted and keeps its low half. |
| PbVarints.ZeroGroupsMove | ShareImage/Pods/nanopb/pb_decode.c:187-247 | Groups of zeros only move the position of the next group, which counts in eight bits. |
| PbVarints.PositionWraps | ShareImage/Pods/nanopb/pb_decode.c:187-247 | A varint with 37 groups of zeros that the 32-bit decoder reads as 8 and the 64-bit one rejects. |
| PbDecoders.SkipField | ShareImage/Pods/nanopb/pb_decode.c:321-331 | Passes over exactly the data the wire type announces. |
| PbDecoders.ReadTag | ShareImage/Pods/nanopb/pb_decode.c:298-319 | Splits a tag into field number and wire type, or tells an end mark from a bad tag. |
| PbDecoders.OpenSubstream | ShareImage/Pods/nanopb/pb_decode.c:372-385 | A substream of exactly the announced bytes, if the parent has them. |
| PbDecoders.CloseSubstream | ShareImage/Pods/nanopb/pb_decode.c:387-400 | The parent stands right after the substream, however far that was read. |
| PbDecoders.ReadInteger | ShareImage/Pods/nanopb/pb_decode.c:1329-1412 | The number if it fits the field's size, with sign and zigzag as each kind has them; otherwise an error. |
| PbDecoders.SetToDefaults | ShareImage/Pods/nanopb/pb_decode.c:836-919 | Every flag false, every array empty, every union unset, and every other field at its given initial value or else at zero, an empty string or zero bytes, through submessages. |
| PbFormat.DefaultsAreInitial | ShareImage/Pods/nanopb/pb_decode.c:836-919 | What decoding starts from is a cleared struct: no flag, no item, no union, initial values where given and zero elsewhere. |
| PbDecoders.ReadPacked | ShareImage/Pods/nanopb/pb_decode.c:424-453 | All items of a packed array, or an error if one is bad or the array is full before they end. |
| PbDecoders.ReadField | ShareImage/Pods/nanopb/pb_decode.c:406-480 | The field's slot after one more occurrence: replaced, merged into, appended to, or made the one set in its union. |
| PbRequired.MarkSeen | ShareImage/Pods/nanopb/pb_decode.c:1012-1017 | Sets the bit of the required field and no other. |
| PbRequired.CheckRequired | ShareImage/Pods/nanopb/pb_decode.c:1031-1070 | Comparing whole words and a shifted mask succeeds if and only if each of the first 64 required fields was seen. |
| PbDecoders.ReadFields | ShareImage/Pods/nanopb/pb_decode.c:925-1073 | For any bytes, the message the fields make of what was there, or failure, and how far the stream was read. |
| PbDecoders.ReadMessage | ShareImage/Pods/nanopb/pb_decode.c:1075-1087 | The same from a message set to its defaults. |
| PbSpelling.DecodesExactly | ShareImage/Pods/nanopb/pb_decode.c:925-1087 | For any bytes: they decode to a message exactly if they spell it: fields one after the other up to their end or an end mark, each making the next message of the one before, and no tracked required field missing. |
| PbSpelling.MessageIsRead | ShareImage/Pods/nanopb/pb_decode.c:925-1073 | The same into any message, with the required fields seen before. |
| PbSpelling.TaggedIsRead | ShareImage/Pods/nanopb/pb_decode.c:942-1026 | Data behind a tag changes the slot of the field with that tag, or, for an unknown tag, nothing, if it is as long as its wire type says. |
| PbSpelling.FieldIsRead | ShareImage/Pods/nanopb/pb_decode.c:406-480 | One occurrence of a field is taken exactly if its data spells an item (for a packed array, items) with room in the slot; what the slot becomes for each rule. |
| PbSpelling.PackedIsRead | ShareImage/Pods/nanopb/pb_decode.c:424-453 | Packed bytes are taken exactly if they are spellings of items end to end that all have room. |
| PbSpelling.ScalarIsRead | ShareImage/Pods/nanopb/pb_decode.c:1318-1549 | For every kind: which bytes are taken for an item and for which, in terms of two's complement, zigzag, lengths and buffer sizes. |
| PbSpelling.SkippedIsRead | ShareImage/Pods/nanopb/pb_decode.c:321-331 | Skipped data ends where its wire type says; other wire types are an error. |
| PbItems.PackedRoundTrip | ShareImage/Pods/nanopb/pb_decode.c:424-453 | A packed array decodes to its items behind those already there if there is room for them; otherwise bytes are left over. |
| PbMerge.PieceMerges | ShareImage/Pods/nanopb/pb_decode.c:925-1073 | An encoded field followed by anything merges into any message: replaced, merged into if it is a submessage, appended, or set up anew in its union; it is rejected exactly if an array has no room or a string does not end inside its buffer. |
| PbMerge.PiecesMerge | ShareImage/Pods/nanopb/pb_decode.c:925-1073 | Encoded fields in any order and any number, decoded into any message, merge one after the other; accepted if and only if all are taken and every tracked required field is among them or was seen before. |
| PbRoundTrip.MergedIsReceived | ShareImage/Pods/nanopb/pb_decode.c:406-480 | Merging an item into a fresh one gives it as it is received. |
| PbRoundTrip.MessageRoundTrip | ShareImage/Pods/nanopb/pb_encode.c:528-550 | Decoding an encoded message gives the message back, told from the sender's slots alone (zero comes back as zero, a flag as it was, an unset field as in a cleared struct), if every string sent ends inside its buffer, and fails if one does not. |
| PbRoundTrip.MessagesMerge | ShareImage/Pods/nanopb/pb_decode.c:925-1073 | Two encoded messages one after the other decode to the second merged into the first. |
| PbRoundTrip.MissingRequired | ShareImage/Pods/nanopb/pb_decode.c:1031-1070 | Encoded fields without a tracked required field are rejected, whatever else they hold. |
| PbRoundTrip.FullStringIsRejected | ShareImage/Pods/nanopb/pb_decode.c:1468-1501 | A message that shows it: a one-byte buffer holding one letter is encoded as three bytes that the decoder rejects. |
| PbRoom.FieldsInRoom | ShareImage/Pods/nanopb/pb_decode.c:925-1073 | Whatever bytes are accepted, no decoded array, buffer or string exceeds the struct, in submessages too. |
| PbRoom.RoomyFieldsEncode | ShareImage/Pods/nanopb/pb_encode.c:528-550 | The encoder rejects no message that is within its room. |
| PbRoom.DecodedEncodes | ShareImage/Pods/nanopb/pb_decode.c:1075-1087 | Any bytes the decoder accepts give a message the encoder takes, and the decoder takes that back. |
| PbCompat.DatumSkips | ShareImage/Pods/nanopb/pb_decode.c:321-331 | The wire type alone tells the decoder where an encoded item of any kind ends. |
| PbCompat.PackedIsOneField | ShareImage/Pods/nanopb/pb_encode.c:147-214 | A packable array goes out as one field of the length-delimited wire type whose data are all its items. |
| PbCompat.ItemsAreFields | ShareImage/Pods/nanopb/pb_encode.c:215-260 | Any other array goes out as one field for each item, with its tag and wire type. |
| PbCompat.UnknownFieldIsSkipped | ShareImage/Pods/nanopb/pb_decode.c:953-988 | A field of another schema, repeated or not, leaves a message that does not know its tag unchanged. |

## Left out

Of LevelDB:

- CompactionSafety.CompactionPreservesReads: holds when no key is resurrected, and only then; see the first result about the code above.
- CompactionWork.DoCompactionWork: runs to its end in one call, and `Databases.Database` takes a compaction as one step; what may come between its turns is in `MidCompaction`, on states. The I/O error exits are left out.
- Databases.Database.Write: numbers and inserts a batch as one step; `WriteQueue` models the steps of many writers and shows they refine it. `MakeRoomForWrite`'s delays and waits are left out, switching memtables is a step that may happen at any time; sequence numbers are taken not to run out.
- Databases.Database.BackgroundCompaction: which level or file is compacted (size scores, seek statistics, manual requests) is a free choice of the caller.
- DurableDatabases.DurableDatabase.BackgroundCompaction: the version set is two objects that agree, so a version becomes current just before its record is written instead of just after, which the mutex hides; the edits have no compaction pointers; old table files are not deleted. File numbers are taken not to run out.
- DurableDatabases.DurableDatabase.Write: one writer at a time; `WriteQueue` has many. When the log is synced is the crash's choice of the cut.
- DurableDatabases.DurableDatabase.Reopen: all replayed entries go to one memtable, where the code writes a full one to level 0 at once, and each log's last one, numbered before the log itself is marked as used; reading `CURRENT`, looking for missing tables and the previous log number, always 0, are left out.
- LogReaders.Reader.ReadRecord: reads from the start of the file, as all callers in the library do; an initial offset with resynchronisation and `LastRecordOffset` are not modelled. A record of type 5 or 6 is treated as the code does, which confuses it with its own codes for end of file and bad record.
- Recovery.RecoverLogFile: `paranoid_checks` off and one log file; reusing the last log is not modelled.
- Manifests.Recover: reading `CURRENT`, reusing the manifest and the compaction pointers are not modelled. The edits must not reuse a file number at a level for another file; `VersionLog.LogAndApply` asks the same of the edits it writes, and its manifests meet it.
- ManifestWriters.VersionLog.LogAndApply: failing writes, the `CURRENT` file and the first manifest of a new database (`DBImpl::NewDB`) are left out.
- VersionSets.VersionSet.LogAndApply: the version only; `VersionLog` has the manifest, the counters and the compaction pointers of an edit, and `DurableDatabase` writes each installed edit to it.
- Builders.Builder.Apply: `allowed_seeks` is left out; the compaction pointers are `ManifestWriters.SetPointers`.
- EditCodec.EditRoundTrip: decodes into a fresh edit, since `VersionEdit::Clear` leaves the compaction pointers (db/version_edit.cc:26-39).
- Crc32c.Extend: the byte table and the stride tables are hypotheses (`Correct`: each entry is the advance of its byte); the accelerated implementation is left out.
- Bloom.CreateFilter: the hash function and the number of probes, which the code derives by floating point from the bits per key, are parameters.
- Tables.InternalGet: blocks are sequences of entries keyed by their offset in the file; `TableBlocks` shows that seeking in their bytes finds the same entries. Index block bytes, compression, block trailers and checksums, the footer, the metaindex block, tables without a filter and read errors are left out. The filter is given user keys, as `InternalFilterPolicy` does.
- TableBuilders.TableBuilder.Flush: the size of a written block is a parameter, at least one byte.
- BlockIters.BlockIter.Seek: reads blocks the builder made; corrupt blocks and their error status are left out.
- TwoLevel.TwoLevelIterator.Seek: an iterator already open on the right block is always opened again.
- DbIterators.DbIter.Perform: read sampling and unparsable internal keys are left out.
- SkipLists.SkipList.Insert: sequentially consistent memory; node heights are a parameter; keys stand for node addresses.
- WriteQueue.StepKeepsInv: sequentially consistent steps; failing log writes and syncs, and the background error they set, are left out.
- LruCaches.LRUCache.Insert: one shard; calling the deleter is counted by a ghost field; the hash is taken modulo the table length, which for a power of two is the code's mask; the mutex and the destructor are left out.
- HandleTables.HandleTable.Resize: the old bucket array is garbage collected.
- Databases.Database.GetSnapshot: live snapshots are an ascending sequence instead of a ring of pointers (db/snapshot.h:39-91).

Of nanopb:

- PbEncoders.EmitMessage: message sizes are unbounded numbers; the code's wrap at the width of `size_t` is not modelled. Only streams into a buffer and counting streams; a callback never fails.
- PbDecoders.ReadMessage: callbacks, extensions, pointer fields (so there is nothing to release) and arrays of fixed count are left out; so is the layout of structs, a message is a list of slots.
- PbRoundTrip.MessageRoundTrip: for encodings below 2^32 bytes, as the decoder's 32-bit lengths need; legal distinct tags, integer sizes C has, no default values in proto3.
- PbRoom.FieldsInRoom: what a rejected decode leaves in the struct is not modelled; after an array overflow the count is one more than the array holds (nanopb/pb_decode.c:460-461).
- PbDecoders.ReadTurn: a message type without fields takes tag 0 for its end mark and decodes a flag there; the flag is not part of the message.

Not modelled at all:

- Files, threads, clocks and the environment (env_posix.cc, port), I/O errors, the table cache, repair, `DestroyDB`, the C interface, statistics and logging.
- The app's own Swift code and the Firebase headers: user interface and network calls.
