# Verified model of the CloudpilotEmu file, database and transport core

CloudpilotEmu emulates Palm OS handhelds. This project models the parts of it in which a mistake
loses user data, and proves what they promise, for all inputs and over whole runs:

* **The file walk on a memory card and what is built on it** (`Paths`, `FatFs`, `Worklists`, `Walk`,
  `DeleteRecursive`, `Extract`, `Mkdir`, `CopyPlan`, `Copy`, `Overwrite`). `RecursiveFsIterator` walks a tree with a
  worklist, `DeleteRecursiveContext` unlinks what it yields, `GenericCopyContext` and `PasteContext` copy
  it, all of them cut into time slices. The card is a finite, prefix-closed map from component paths to
  files and directories; every FatFs call is a step on that map. On a volume that is not `faultless` any call
  may fail; on one that is not `spacious` a call that needs room may be refused and a write may be cut
  short; `reliable` means both. Closing a file that was written may fail, too: then a tail of the file is
  missing, and what it should have held is recorded as `torn`. The walk and the deletion ask for no more than `faultless`. The clock is a
  parameter: each call is told how many batches or rounds it lets through.
* **The Palm database container** (`Bytes`, `PalmDatabase`, `FixPdb`, `DbInstaller`, `DbExporter`,
  `FileImport`, `DataManager`, `HomebrewInstall`). One image format, with a Python reader, writer and
  repair program, a C++ writer, a C++ relocation to a gap of two bytes, and a C++ validator and installer.
  They are proved against one description of the format, so that what one writes another reads. The data
  manager of the device is a class whose calls may fail at any time but whose effects are fixed.
* **Checksums, the card image and the serial pipes** (`BitStream`, `Crc7`, `Crc16`, `Crc32`, `CardImage`,
  `Fifo`, `SerialBuffer`). Table-driven checksums are the bit-by-bit division; the dirty-page bitmap marks
  exactly the pages written to; the ring buffer loses only what it says.
* **The command line** (`CliWords`, `CliHandOver`). The tokenizer against the escaping that feeds it, and
  the hand-over of commands from the command line thread to the main thread, as a state machine over all
  interleavings of single steps, with spurious wake-ups.

Methods follow the code step by step, with its fields and loops; each is proved against functions and
predicates on values, and the properties are proved about those.

## What came out

Most promises hold as they stand. These hold only under a condition, which the first member named states
for all inputs; the second one shows an input on the failing side.

* `parseDb` checks the order of record blocks only for the first entry: from the second one on it compares
  each offset with itself (`PalmDatabase.CheckItemsExact`, `PalmDatabase.OutOfOrderExample`).
* Serializing and parsing gives the database back exactly if nothing was cut, padded or masked, its items are
  all of the kind its attributes say, and its gap is not negative (`PalmDatabase.RoundTripExact`); writing the parsed database again reproduces the file exactly if the name
  has no text behind its first zero (`PalmDatabase.ReserializedExact`); `PalmDatabase.CutNameExample` shows a
  name of 32 characters for the one and a name with a zero in it for the other.
* With a 64-bit `size_t`, `FixupGap` copies inside the old buffer exactly if the first block starts between the
  end of the entry table and the end of the file, which `InspectDb` does not check. With a 32-bit one a block
  inside the table does no harm, because address and length wrap around together and the relocation is right
  nevertheless (`DbInstaller.GapInBounds`, `DbInstaller.BlockInTableExample`).
* With a 64-bit `long` the importer's validator accepts exactly the tilings. With a 32-bit `long` it also
  accepts an image whose first chunk claims to start more than 2 GB behind its end
  (`FileImport.NarrowAcceptsAlsoWrapping`, `FileImport.WrappingExample`).
* The importer reads the first entry of a resource database as if it were a record entry when it looks for
  the end of the info blocks. What it installs agrees with what the parser reads exactly if there are no info
  blocks or the first four bytes of the first entry happen to be the offset of the first chunk
  (`HomebrewInstall.InstallsWhatIsParsed`, `HomebrewInstall.MisreadExample`). With a printable type code
  in that place the block seems to be larger than 500 MB, so that the installation fails for want of memory
  and is undone (`HomebrewInstall.ResourcesAreOversized`, `HomebrewInstall.OversizedExample`).
* A resource without a chunk is counted by the exporter with whatever size the device reports for no chunk, but
  nothing is written for it. The offsets announced behind it are right exactly if that size is zero or no
  child with a chunk follows (`DbExporter.OffsetsAreHonest`), and the file parses back exactly if that size is
  zero or no child but the last is such a resource (`DbExporter.ExportReadsBack`); `DbExporter.DriftingExport`
  fails both.
* The parent test of the paste context is right exactly if both paths are spelled with a drive or both
  without, and the parent has no trailing slash (`Paths.ParentTestExact`, `Paths.SameNodeExamples`).
* With delete-after-copy the source goes although closing its copy has failed, because the result of `f_close`
  is dropped. The bytes of a file are lost only then (`Copy.PasteContext.Continue`, `Copy.TornCopyExample`).
* The test that keeps an entry from being pasted onto itself compares spellings. It recognises the same node
  exactly if both paths have a drive or both have none, and both or neither end with a slash
  (`Paths.SkipTestExact`). If it fails for a file with content and the user answers the collision with
  overwriting, the file loses its content even on a volume without faults, with or without delete-after-copy
  (`Copy.PasteContext.ContinueWithOverwrite`, `Copy.MisaimedExample`).
* `MkdirRecursive` of a path whose first slash is its last character succeeds without looking at the
  directory (`Copy.PasteContext.MkdirRecursive`, `Mkdir.SlashAtTheEndExample`).
* A path that is selected for deletion is looked for below the root of drive 0, because the walk puts its
  prefix, a slash, in front; that is where it leads exactly if it has no drive of its own
  (`DeleteRecursive.DeleteRecursiveContext.DriveIsPartOfTheName`,
  `DeleteRecursive.DeleteRecursiveContext.DriveExample`). A deletion that begins with another path fails at once
  (`DeleteRecursive.DeleteRecursiveContext.DriveGoesAstray`), so that a paste to a destination with a drive cannot
  overwrite directories: the run ends with an error, and the directory stays
  (`Overwrite.OverwriteContext.ContinueWithOverwrite`).
* The range test of the card image adds offset and length in a `size_t`. A range that leaves the card passes
  exactly if the sum wraps around and what is left of it fits the card (`CardImage.RangeTestExact`,
  `CardImage.WrappingRangeExample`).
* A line of escaped words is read back exactly if no word is empty and none starts with a quote
  (`CliWords.LineRoundTrip`, `CliWords.LostWordsExamples`).

Two contracts say that a report differs from what one might expect: a write error while a file is copied is
reported as a full card exactly if not all bytes had been written, because the second test overwrites the
result of the first (`Extract.ExtractContext.OnExtract`); and in sync mode a draining host loses one byte
of a write exactly if the receive buffer was already full before the write
(`SerialBuffer.EmTransportSerialBuffer.Write`).

## Model

| member | source | states |
|---|---|---|
| Paths.NormalizePath | src/vfs/VfsUtil.cpp:13-34 | the loop computes the normal form of the path |
| Paths.ResolveNormal | src/vfs/VfsUtil.cpp:13-34 | the normal form denotes the same node as the path |
| Paths.NormalIdempotent | src/vfs/VfsUtil.cpp:13-34 | a normal form is its own normal form and has no doubled slash or backslash |
| Paths.NormalKeepsPrefix | src/vfs/RecursiveFsIterator.cpp:161-168 | whatever follows a normal prefix, the normal form still starts with it |
| Paths.ParentTestExact | src/vfs/PasteContext.cpp:10-14 | the string test holds if and only if the first path is the second or an ancestor of it, both or neither have a drive, and there is no trailing slash |
| Paths.SameNodeExamples | src/vfs/PasteContext.cpp:10-14 | a trailing slash or a drive on one side only keeps two spellings of one node apart |
| Paths.SkipTestExact | src/vfs/PasteContext.cpp:93-95 | the string test holds if and only if both paths denote the same node, both or neither have a drive, and both or neither end with a slash |
| Walk.EntryDenotes | src/vfs/RecursiveFsIterator.cpp:161-168 | the entry without its prefix, put behind the prefix, names the same node |
| Walk.JoinAnchored | src/vfs/RecursiveFsIterator.cpp:23-27 | an added file stands under the prefix, at the components of its path |
| Walk.RecursiveFsIterator.AddFile | src/vfs/RecursiveFsIterator.cpp:23-27 | a file is added only before the walk starts, in normal form |
| Walk.RecursiveFsIterator.PopFile | src/vfs/RecursiveFsIterator.cpp:42-67 | a selected file is yielded, a directory is taken up or skipped, a missing path is dropped; the work left changes accordingly |
| Walk.RecursiveFsIterator.ReadEntry | src/vfs/RecursiveFsIterator.cpp:68-90 | one directory entry is yielded or queued, or the directory is finished; the work left loses exactly what was yielded |
| Walk.RecursiveFsIterator.OpenNext | src/vfs/RecursiveFsIterator.cpp:105-109 | opening the next directory changes nothing of the work left |
| Walk.RecursiveFsIterator.PopDirectory | src/vfs/RecursiveFsIterator.cpp:91-101 | in the cleanup phase the last directory is yielded, after everything in it |
| Walk.RecursiveFsIterator.Next | src/vfs/RecursiveFsIterator.cpp:37-110 | every call ends; it yields one node of the work left and everything below that node is already gone from it, or it is done and no work is left; on a faultless volume, full or not, it does not fail, and it always fails if the path to be looked at first leads nowhere |
| Walk.Enumerate | src/vfs/RecursiveFsIterator.cpp:37-110 | on any volume a whole walk lists only nodes under the selected paths, each once, a directory after everything it contains; if it is done these are all of them, and on a faultless volume it is done if every selected path can be looked up |
| Walk.RecursiveFsIterator.ReadChunks | src/vfs/RecursiveFsIterator.cpp:129-140 | the loop hands the whole content of the file to the callback, in order |
| Walk.RecursiveFsIterator.ReadCurrent | src/vfs/RecursiveFsIterator.cpp:116-143 | reads the current file to the end or fails; only the target of the callback changes |
| Worklists.YieldRoot | src/vfs/RecursiveFsIterator.cpp:42-67 | a yielded selected file is the only node at or below it that leaves the work |
| Worklists.AcceptRoot | src/vfs/RecursiveFsIterator.cpp:59-62 | taking a selected directory up leaves the work as it is |
| Worklists.DropRoot | src/vfs/RecursiveFsIterator.cpp:46-48 | dropping a missing or skipped path leaves the work as it is |
| Worklists.DescendInto | src/vfs/RecursiveFsIterator.cpp:81-84 | queueing a subdirectory leaves the work as it is |
| Worklists.YieldEntry | src/vfs/RecursiveFsIterator.cpp:85-90 | a yielded directory entry leaves the work, and nothing else does |
| Worklists.CloseDirectory | src/vfs/RecursiveFsIterator.cpp:76-80 | a directory without entries left has nothing below it in the work |
| Worklists.YieldDirectory | src/vfs/RecursiveFsIterator.cpp:91-96 | the last directory is the only node at or below it that is left |
| Worklists.NothingLeft | src/vfs/RecursiveFsIterator.cpp:97-101 | when the cleanup list is empty no work is left |
| DeleteRecursive.DeleteRecursiveContext.AddFile | src/vfs/DeleteRecursiveContext.cpp:21-25 | a selected path that is neither above nor below another one |
| DeleteRecursive.DeleteRecursiveContext.DriveIsPartOfTheName | src/vfs/DeleteRecursiveContext.cpp:17-25 | the place below the root of drive 0 is where a selected path leads if and only if the path has no drive |
| DeleteRecursive.DeleteRecursiveContext.DriveExample | src/vfs/DeleteRecursiveContext.cpp:17-25 | selecting 1:/a looks for a node of that name on drive 0 |
| DeleteRecursive.DeleteRecursiveContext.DriveGoesAstray | src/vfs/DeleteRecursiveContext.cpp:17-25 | a selected path with a drive can neither be found nor be missing, since no name has a colon |
| DeleteRecursive.DeleteRecursiveContext.StartsOnTrack | src/vfs/DeleteRecursiveContext.cpp:21-25 | a new deletion cannot fail on a faultless volume if and only if every selected path can be looked up |
| DeleteRecursive.YieldedIsEmpty | src/vfs/DeleteRecursiveContext.cpp:65-70 | every unlink of a directory meets a directory that is already empty, so FatFs does not refuse it |
| DeleteRecursive.Unlinked | src/vfs/DeleteRecursiveContext.cpp:65-70 | unlinking the yielded node takes it from the tree and leaves the rest of the walk ready |
| DeleteRecursive.EntryIsTheNode | src/vfs/DeleteRecursiveContext.cpp:69 | the entry that is unlinked names the node that was yielded |
| DeleteRecursive.DeleteRecursiveContext.ExecuteStep | src/vfs/DeleteRecursiveContext.cpp:65-70 | one step removes at most one selected node; the node has no children left, so that its unlink fails only by a fault of the volume; the work shrinks |
| DeleteRecursive.DeleteRecursiveContext.ExecuteSlice | src/vfs/DeleteRecursiveContext.cpp:55-63 | a slice of any number of batches keeps everything that is not selected |
| DeleteRecursive.DeleteRecursiveContext.Continue | src/vfs/DeleteRecursiveContext.cpp:27-31 | each call that lets a batch through comes closer to the end, and the first one fails without touching the tree if the path to be looked at first leads nowhere |
| DeleteRecursive.DeleteRecursiveContext.Run | src/vfs/DeleteRecursiveContext.cpp:27-83 | however it is sliced, the run ends; if it is done the tree is the old one without exactly the selected subtrees; on a faultless volume, full or not, it is done |
| Extract.ExtractContext.OnExtract | src/vfs/GenericCopyContext.cpp:17-25 | only the target file grows; the card counts as full if and only if not all bytes were appended; after a failure nothing more is written |
| Mkdir.DirnameIsParent | src/vfs/GenericCopyContext.cpp:32-36 | without a trailing slash the directory part names the parent |
| Mkdir.CacheStaysSound | src/vfs/GenericCopyContext.cpp:273-280 | as long as nothing is removed, a directory cached as visited is a directory |
| Mkdir.SmoothRound | src/vfs/GenericCopyContext.cpp:266-323 | on a path without files in the way no round of the loop can be refused |
| Mkdir.SlashAtTheEndExample | src/vfs/GenericCopyContext.cpp:252-264 | a path that denotes a directory though its first slash is its last character |
| Copy.PasteContext.MakeDirectory | src/vfs/GenericCopyContext.cpp:273-322 | one round: the directory exists afterwards, or the state says why not |
| Copy.PasteContext.MkdirRecursive | src/vfs/GenericCopyContext.cpp:252-324 | only missing directories on the way are added, the cache stays sound, success means the path is a directory, a collision names a file; on a clear path a volume without faults never fails |
| Copy.PasteContext.CopyCurrentEntry | src/vfs/GenericCopyContext.cpp:188-250 | success leaves the source and a byte-for-byte copy, or the beginning of one if closing it failed; a collision changes nothing; after a full card or a read error the partial copy is unlinked again, so that without I/O errors nothing is left of it |
| Copy.PasteContext.FillCopy | src/vfs/GenericCopyContext.cpp:228-249 | only the new file grows; it holds all bytes of the source unless the state says why not, and none if it is the source itself |
| Copy.PasteContext.CloseCopy | src/vfs/GenericCopyContext.cpp:222-226 | the file keeps its bytes, or is recorded as torn and keeps the beginning of them; a partial copy is unlinked |
| Copy.CurrentPathMeaning | src/vfs/GenericCopyContext.cpp:148-149 | the target is the destination followed by the components below the source prefix |
| Copy.PasteContext.OnAfterCopy | src/vfs/PasteContext.cpp:85-91 | only with delete-after-copy, and then at most the source goes |
| Copy.PasteContext.MakeParent | src/vfs/GenericCopyContext.cpp:162-163 | only directories are added; in a planned run the directory of the image is there afterwards and the image itself is free |
| Copy.PasteContext.PlaceFile | src/vfs/GenericCopyContext.cpp:162-169 | a file goes to the image of its path |
| Copy.PasteContext.PlaceDirectory | src/vfs/GenericCopyContext.cpp:153-160 | a yielded directory exists at the image of its path |
| Copy.PasteContext.PlaceNext | src/vfs/GenericCopyContext.cpp:144-170 | a planned entry is placed and the plan moves on by exactly this entry |
| Copy.PasteContext.ExecuteEntry | src/vfs/GenericCopyContext.cpp:144-170 | one entry: nothing that was there is lost without delete-after-copy; otherwise the source goes only if its bytes are at the target, less a tail if the copy could not be closed |
| Copy.PasteContext.ExecuteSlice | src/vfs/GenericCopyContext.cpp:108-170 | the same for a round in any state of the walk |
| Copy.PasteContext.Round | src/vfs/GenericCopyContext.cpp:68-73 | one turn of the loop keeps what Continue promises |
| Copy.PasteContext.SkipCollision | src/vfs/GenericCopyContext.cpp:58-61 | after a collision the walk goes on behind the entry |
| Copy.PasteContext.Continue | src/vfs/GenericCopyContext.cpp:50-74 | purely additive without delete-after-copy, even if it ends with a full card or a read error; with delete-after-copy the bytes of every file that was there are still in some file, unless its copy could not be closed, which never happens without faults; the names and the spelling of the walk stay; a planned run stays on its plan |
| Copy.PasteContext.StartsSteady | src/vfs/PasteContext.cpp:17-26 | a context that has not started may delete after copying without losing a file |
| Copy.MovedLosesNothing | src/vfs/PasteContext.cpp:85-91 | an entry that is copied before its source goes loses no bytes, unless the copy could not be closed |
| Copy.TornCopyExample | src/vfs/GenericCopyContext.cpp:222-226 | a file of one byte whose copy is empty after closing and which goes nevertheless |
| Copy.MisaimedExample | src/vfs/PasteContext.cpp:93-95 | the file /a pasted into 0:/ is its own target and is not skipped |
| Copy.PasteContext.RemoveConflictingFile | src/vfs/GenericCopyContext.cpp:172-186 | exactly the file that collided is removed, or nothing, and on a faultless volume it is removed |
| Copy.PasteContext.ContinueWithOverwrite | src/vfs/PasteContext.cpp:77-83 | after a file collision only the file that collided may change; with delete-after-copy the bytes of every other file are still in some file, unless its copy could not be closed; a file with content that collides with itself has lost its content afterwards, unless a fault kept everything as it was |
| Overwrite.OverwriteContext.DeleteSlice | src/vfs/GenericCopyContext.cpp:111-125 | one turn of the deletion: only what is doomed goes; the copy goes on when nothing of it is left, or fails; without faults it comes closer to the end |
| Overwrite.OverwriteContext.Delete | src/vfs/GenericCopyContext.cpp:70-71 | while the deletion lasts the copy waits; if the copy goes on, the tree is the old one without exactly what is doomed |
| Overwrite.OverwriteContext.BeginOverwrite | src/vfs/GenericCopyContext.cpp:82-86 | a new deletion of the directory below drive 0, which goes well if and only if the path can be looked up there |
| Overwrite.OverwriteContext.Continue | src/vfs/GenericCopyContext.cpp:50-74 | with a deletion under way: what is not doomed stays without delete-after-copy, and with it the bytes of every file that is not doomed are still in some file, unless its copy could not be closed; the deletion goes first |
| Overwrite.OverwriteContext.ContinueWithOverwrite | src/vfs/GenericCopyContext.cpp:76-89 | nothing but the file or directory that collided, and what is below it, may go; with delete-after-copy the bytes of every other file are kept as in Continue; a directory at a path with a drive stays, and the run fails |
| Overwrite.OverwriteContext.DoomedDirectory | src/vfs/GenericCopyContext.cpp:82-84 | the directory that collided is the one that goes if and only if its path has no drive |
| Overwrite.OverwriteContext.Replace | src/vfs/GenericCopyContext.cpp:108-125 | on a faultless volume the deletion ends with exactly the doomed directory gone and the copy ready to go on, however the clock cuts it |
| Copy.PasteContext.Launch | src/vfs/PasteContext.cpp:17-26 | a new context with its files, with or without delete-after-copy, is on track for every feasible plan |
| Copy.PasteContext.Run | src/vfs/GenericCopyContext.cpp:50-74 | a fault-free, collision-free copy to a place outside the selection is done, with every yielded node at its image, the success count equal to the number of nodes, and everything else as it was, however the clock cuts it; with delete-after-copy all sources are gone, otherwise all are there |
| CopyPlan.FinishedIsDetermined | src/vfs/GenericCopyContext.cpp:67-73 | two finished runs of the same plan leave the same tree, so the slices do not matter |
| CopyPlan.ImageIsFree | src/vfs/GenericCopyContext.cpp:190-201 | in a planned run no file meets a collision |
| CopyPlan.WayIsClear | src/vfs/GenericCopyContext.cpp:252-324 | in a planned run no file stands where a directory is needed |
| CopyPlan.SourceUnlinks | src/vfs/PasteContext.cpp:85-91 | in a planned run with delete-after-copy nothing is left below a source when its turn comes, so that its unlink is not refused |
| CopyPlan.ProgressStep | src/vfs/GenericCopyContext.cpp:144-170 | one more node at its image, its source gone if it is to go, and nothing else changed |
| CopyPlan.WorkUndisturbed | src/vfs/GenericCopyContext.cpp:144-170 | copying outside the selection changes nothing of the walk that is still to come |
| CopyPlan.WorkWithout | src/vfs/PasteContext.cpp:85-91 | taking a copied source away changes nothing of the walk that is still to come |
| Copy.CacheWithoutSource | src/vfs/PasteContext.cpp:85-91 | in a planned run no directory in the cache of visited ones is taken away |
| Copy.NotOntoItself | src/vfs/PasteContext.cpp:93-95 | in a planned run no entry is skipped as its own target |
| Copy.PasteContext.StaysWellSpelled | src/vfs/PasteContext.cpp:17-26 | a walk whose names are among well spelled ones is well spelled; Continue and ContinueWithOverwrite promise it of every run |
| Copy.PasteContext.NeverAboveDestination | src/vfs/PasteContext.cpp:17-26 | no directory that the walk opens or yields is the destination or above it, though only selected paths are tested |
| PalmDatabase.HeaderRoundTrip | tools/prctool.py:136-181 | a header reads back as it was written |
| PalmDatabase.NameRoundTrip | tools/prctool.py:35-38 | the stored name is cut to 31 characters and at its first zero; only those 31 characters have to be ASCII |
| PalmDatabase.EntryRoundTrip | tools/prctool.py:230-267 | an entry of either layout reads back with its block |
| PalmDatabase.CheckItemsExact | tools/prctool.py:445-459 | the entry loop accepts if and only if the table is complete, the first block does not start too early and no later one starts behind the end |
| PalmDatabase.OutOfOrderExample | tools/prctool.py:445-459 | a file that is accepted although its second block starts before the first |
| PalmDatabase.AppendRecords | tools/prctool.py:440-463 | the loop reads the items or reports the first objection |
| PalmDatabase.ParseDb | tools/prctool.py:439-524 | the parser returns the fields of the image or its first objection |
| PalmDatabase.ImageRoundTrip | tools/prctool.py:439-524 | every well laid out image is accepted and read back part by part, absent and empty info blocks kept apart |
| PalmDatabase.Serialize | tools/prctool.py:370-420 | the writer produces header, entries, gap, info blocks and data of any database, or fails if a name or number does not fit its field |
| PalmDatabase.SerializedIsImage | tools/prctool.py:370-420 | for a database whose items are of the kind its attributes say, with a gap that is not negative, that is an image |
| PalmDatabase.ParseOfSerialized | tools/prctool.py:370-524 | parsing what was serialized gives the stored database, for every such database that can be packed |
| PalmDatabase.ParsedIsRegular | tools/prctool.py:439-524 | whatever the file, what is parsed has items of the kind its attributes say and a gap that is not negative |
| PalmDatabase.RoundTripExact | tools/prctool.py:370-524 | for everything that can be packed: it gives back the very database if and only if nothing was cut, padded or masked, all items are of the kind the attributes say and the gap is not negative |
| PalmDatabase.ReserializedExact | tools/prctool.py:370-524 | serializing again reproduces the bytes if and only if the stored name is plain |
| PalmDatabase.CutNameExample | tools/prctool.py:370-524 | a name that does not come back, and one that does not give the same file again |
| FixPdb.FindNext | tools/prctool.py:584-588 | the inner loop finds the next live record or the end of the file |
| FixPdb.FixPdb | tools/prctool.py:554-598 | a resource database with a readable header is reported as such; the record databases with a complete header and table are repaired; everything else fails |
| FixPdb.PatchedKeeps | tools/prctool.py:577-590 | only offsets of deleted records change |
| FixPdb.FixedAccepted | tools/prctool.py:554-601 | the parser accepts the repaired file if and only if it has one segment, its info blocks are in order, the first live record stands behind them and no live record after the first entry starts behind the end of the file |
| FixPdb.FixedAcceptedInFile | tools/prctool.py:554-601 | for a file whose offsets lie inside it the last condition can be left out |
| FixPdb.FixedRecord | tools/prctool.py:554-601 | a live record keeps its attributes, id and bytes up to the next live one; a deleted one is empty |
| DbInstaller.DbInstaller.CheckName | src/cloudpilot/emulator/DbInstaller.cpp:162-178 | the name is terminated inside its field and printable |
| DbInstaller.DbInstaller.ValidateEntries | src/cloudpilot/emulator/DbInstaller.cpp:258-281 | entries lie in the file and their offsets never decrease from the watermark on |
| DbInstaller.DbInstaller.InspectDb | src/cloudpilot/emulator/DbInstaller.cpp:154-224 | accepts and reports kind, gap and emptiness as the inspection of the image defines them |
| DbInstaller.GapInBounds | src/cloudpilot/emulator/DbInstaller.cpp:154-256 | the relocation reads inside the old buffer if and only if the first block does not start behind the end of the file and, with a 64-bit size_t, not inside the table; it then reads exactly what follows the first block's start |
| DbInstaller.BlockInTableExample | src/cloudpilot/emulator/DbInstaller.cpp:154-256 | an accepted image whose relocation would leave the old buffer with a 64-bit size_t, and is right with a 32-bit one |
| DbInstaller.DbInstaller.FixupEntries | src/cloudpilot/emulator/DbInstaller.cpp:283-292 | every entry offset moves by the same distance, nothing else changes |
| DbInstaller.DbInstaller.FixupGap | src/cloudpilot/emulator/DbInstaller.cpp:226-256 | with sums that wrap around as a size_t of either width, the new buffer holds the relocated image |
| DbInstaller.RelocationKeepsMeaning | src/cloudpilot/emulator/DbInstaller.cpp:226-292 | the length changes by two minus the gap, and a reader sees the same header, info blocks and items, with a gap of two, also if the gap was negative |
| DbInstaller.RelocatedIsAccepted | src/cloudpilot/emulator/DbInstaller.cpp:154-256 | the relocated image is accepted again, with a gap of two |
| DbInstaller.DbInstaller.PreprocessDb | src/cloudpilot/emulator/DbInstaller.cpp:136-152 | only on Palm OS 3 and only accepted images with another gap are relocated; everything else is untouched, whatever it holds |
| DbExporter.DbExporter.WriteHeader | src/cloudpilot/emulator/DbExporter.cpp:157-165 | the writes add up to the header |
| DbExporter.DbExporter.WriteRecordEntry | src/cloudpilot/emulator/DbExporter.cpp:173-175 | an entry with eight bits of attributes and 24 of the id |
| DbExporter.DbExporter.WriteEntries | src/cloudpilot/emulator/DbExporter.cpp:91-118 | one entry per child, each with the 32-bit sum of the sizes reported before it; records without a chunk are not counted, resources are |
| DbExporter.DbExporter.WriteChunks | src/cloudpilot/emulator/DbExporter.cpp:128-131 | the chunks are written one after the other, children without one left out |
| DbExporter.DbExporter.Export | src/cloudpilot/emulator/DbExporter.cpp:43-133 | a finished export has found a chunk for every local id but zero and has written exactly the file of the database |
| DbExporter.FileIsImage | src/cloudpilot/emulator/DbExporter.cpp:43-133 | if no child but the last is a resource without a chunk, or that size is zero, the file is the image of the header, info blocks and children |
| DbExporter.EntryAndChunk | src/cloudpilot/emulator/DbExporter.cpp:91-131 | in every file the entry of a child holds its announced offset and the chunk stands at its position |
| DbExporter.ExportReadsBack | src/cloudpilot/emulator/DbExporter.cpp:43-133 | the parser gives back all fields, a gap of two and every child at its index if and only if that size is zero or no child but the last is a resource without a chunk; a name that is not ASCII is refused |
| DbExporter.OffsetsAreHonest | src/cloudpilot/emulator/DbExporter.cpp:91-131 | every child with a chunk is announced at the position at which it is written if and only if the size reported for no chunk is zero or no such child follows a resource without one |
| DbExporter.DriftingExport | src/cloudpilot/emulator/DbExporter.cpp:91-131 | an export whose second resource is announced four bytes behind its position and which does not parse back |
| FileImport.ValidateHeader | src/cloudpilot/emulator/EmFileImport.cpp:969-1010 | name and table size are checked in this order |
| FileImport.ValidateEntries | src/cloudpilot/emulator/EmFileImport.cpp:1024-1110 | the loop reports the first fault of the entries |
| FileImport.ValidateDatabase | src/cloudpilot/emulator/EmFileImport.cpp:1125-1148 | the first fault of the image |
| FileImport.AcceptsExactlyTilings | src/cloudpilot/emulator/EmFileImport.cpp:1024-1110 | with a 64-bit long, accepted if and only if the chunks follow each other up to the end of the file, behind the table, with distinct non-empty resources |
| FileImport.NarrowAcceptsAlsoWrapping | src/cloudpilot/emulator/EmFileImport.cpp:1045-1106 | with a 32-bit long, the same or a first chunk that wraps around, and nothing else |
| FileImport.WrappingExample | src/cloudpilot/emulator/EmFileImport.cpp:1045-1106 | a file of 86 bytes that only the 32-bit validator accepts |
| FileImport.TilesTheFile | src/cloudpilot/emulator/EmFileImport.cpp:1024-1110 | the chunks of a tiling put together are the file from the first chunk to its end |
| FileImport.ParserAgrees | src/cloudpilot/emulator/EmFileImport.cpp:1024-1110 | the Python parser accepts an accepted image if and only if the info blocks stand in order before the first chunk, and then sees the same items |
| HomebrewInstall.EmFileImport.DeleteCurrentDatabase | src/cloudpilot/emulator/EmFileImport.cpp:840-850 | closes before it deletes, so that the other databases are left as they were |
| HomebrewInstall.EmFileImport.HomeBrewInstallStart | src/cloudpilot/emulator/EmFileImport.cpp:431-585 | a rejected image changes nothing; an error leaves no database behind, and there is one if an info block seems larger than the heap; otherwise the database has its settings and info blocks and no items |
| HomebrewInstall.EmFileImport.HomeBrewInstallMiddle | src/cloudpilot/emulator/EmFileImport.cpp:603-729 | one entry more with its own bytes, an empty record skipped; an error leaves no database behind |
| HomebrewInstall.EmFileImport.HomeBrewInstallEnd | src/cloudpilot/emulator/EmFileImport.cpp:746-771 | the modification number of the image is restored and the database closed; an error leaves a complete database |
| HomebrewInstall.EmFileImport.Continue | src/cloudpilot/emulator/EmFileImport.cpp:230-242 | the installation ends: rejected and untouched, complete with exactly the non-empty records or all resources in file order, or failed with nothing half-installed; it is failed and undone if an info block seems larger than the heap |
| HomebrewInstall.InstallsWhatIsParsed | src/cloudpilot/emulator/EmFileImport.cpp:494-571 | the items are those the parser reads without empty records; well placed info blocks that are installed are those the parser reads if and only if there are none or the first four bytes of the first entry are the offset of the first chunk |
| HomebrewInstall.RecordsReadInside | src/cloudpilot/emulator/EmFileImport.cpp:494-571 | well placed info blocks of a record database are copied inside the file, and fit if and only if they are no larger than the heap |
| HomebrewInstall.ResourcesAreOversized | src/cloudpilot/emulator/EmFileImport.cpp:494-571 | well placed info blocks of a resource database with a printable type code ask for more memory than any heap below 500 MB has |
| HomebrewInstall.OversizedExample | src/cloudpilot/emulator/EmFileImport.cpp:494-571 | an accepted program with an app info block that the parser reads and the importer cannot install |
| HomebrewInstall.MisreadExample | src/cloudpilot/emulator/EmFileImport.cpp:494-571 | an accepted resource database that is installed with its first resource as part of its app info |
| Crc7.EntryIs | src/common/CPCrc.cpp:4-22 | every entry of the CRC-7 table is the register after eight shifts |
| Crc7.SdCrc7 | src/common/CPCrc.cpp:91-98 | the result is the bitwise remainder, seven bits, and the index stays below 256 |
| Crc7.ChecksumCancels | src/common/CPCrc.cpp:91-98 | a message followed by its checksum leaves no remainder |
| Crc16.EntryIs | src/common/CPCrc.cpp:24-48 | every entry of the CRC-16 table is the register after eight shifts |
| Crc16.TableStep | src/common/CPCrc.cpp:104 | one table step is one byte of the bitwise division |
| Crc16.SdCrc16 | src/common/CPCrc.cpp:100-107 | the result is the bitwise remainder |
| Crc16.BurstDetected | src/common/CPCrc.cpp:100-107 | messages of equal length that differ only within two adjacent bytes have different checksums |
| Crc16.ChecksumCancels | src/common/CPCrc.cpp:100-107 | a message followed by its checksum leaves no remainder |
| Crc32.EntryIs | src/common/CPCrc.cpp:50-87 | every entry of the CRC-32 table is the register after eight shifts |
| Crc32.TableStep | src/common/CPCrc.cpp:114 | one table step is one byte of the bitwise division |
| Crc32.Crc32Of | src/common/CPCrc.cpp:109-116 | the result is the bitwise checksum |
| Crc32.BurstDetected | src/common/CPCrc.cpp:109-116 | messages of equal length that differ only within four adjacent bytes have different checksums |
| CardImage.PageInBitmap | src/common/CardImage.cpp:6-12 | for any number of blocks every page has its bit inside the bitmap |
| CardImage.SetBit | src/common/CardImage.cpp:34-35 | setting a bit sets that bit and no other |
| CardImage.CardImage.Write | src/common/CardImage.cpp:25-39 | whole blocks as far as the card reaches are overwritten; exactly their pages join the dirty ones |
| CardImage.CardImage.WriteByteRange | src/common/CardImage.cpp:42-51 | a range inside the card is overwritten; exactly the pages of its blocks join the dirty ones; any other range is refused, unless it escapes the test |
| CardImage.RangeTestExact | src/common/CardImage.cpp:43 | a range that leaves the card passes the test if and only if the sum of offset and length wraps around to at most the size of the card |
| CardImage.WrappingRangeExample | src/common/CardImage.cpp:43 | 300 bytes from shortly below 4 GB on pass for a card of one block with a 32-bit size_t |
| CardImage.CardImage.MarkRangeDirty | src/common/CardImage.cpp:62-70 | the bitmap marks exactly the pages touched so far |
| CardImage.CardImage.CleanPageIsInitial | src/common/CardImage.cpp:25-70 | a page that is not dirty has its initial content |
| Fifo.Fifo.Push | src/cloudpilot/emulator/Fifo.h:56-64 | the content is the last bytes of the old content and the new one, up to the capacity |
| Fifo.Fifo.Pop | src/cloudpilot/emulator/Fifo.h:66-76 | the oldest byte goes, zero comes from an empty ring |
| Fifo.PushIntoRing | src/cloudpilot/emulator/Fifo.h:56-64 | what storing one element does to the ring as a sequence |
| Fifo.Fifo.Conservation | src/cloudpilot/emulator/Fifo.h:56-76 | pushed bytes are popped, held or overwritten, and the held ones are the last pushed |
| SerialBuffer.EmTransportSerialBuffer.Receive | src/cloudpilot/emulator/EmTransportSerialBuffer.cpp:149-156 | copies out exactly the bytes held, inside the copy-out buffer |
| SerialBuffer.EmTransportSerialBuffer.Write | src/cloudpilot/emulator/EmTransportSerialBuffer.cpp:79-94 | in sync mode with a draining host the stream grows by exactly the bytes written, less one old byte if and only if the buffer was full; otherwise the last bytes are kept |
| SerialBuffer.EmTransportSerialBuffer.Read | src/cloudpilot/emulator/EmTransportSerialBuffer.cpp:62-77 | takes the oldest bytes, and suspends exactly in sync mode with nothing left of an incomplete frame |
| SerialBuffer.EmTransportSerialBuffer.Send | src/cloudpilot/emulator/EmTransportSerialBuffer.cpp:158-185 | appends all bytes, up to the capacity, wakes the emulation, and remembers in sync mode whether a complete frame is a discovery frame |
| SerialBuffer.IsXIDSniffingCommand | src/cloudpilot/emulator/EmTransportSerialBuffer.cpp:10-43 | true if and only if the bytes are fill bytes followed by a discovery frame with a possibly escaped source address; no byte behind the end is read |
| SerialBuffer.OneStart | src/cloudpilot/emulator/EmTransportSerialBuffer.cpp:13-20 | a frame can start only at the first byte that does not fill |
| SerialBuffer.OneAddress | src/cloudpilot/emulator/EmTransportSerialBuffer.cpp:27-34 | an address ends only with its fourth byte that is not an escape |
| SerialBuffer.EmTransportSerialBuffer.OnTransactionStateChange | src/cloudpilot/emulator/EmTransportSerialBuffer.cpp:110-143 | the host is asked exactly when a frame has been sent or no answer came, without losing a byte; the emulation then waits exactly after a frame or after a discovery frame |
| SerialBuffer.EmTransportSerialBuffer.SetModeSync | src/cloudpilot/emulator/EmTransportSerialBuffer.cpp:206-214 | a change of the mode forgets the transaction and the discovery frame |
| CliWords.Escape | src/common/Cli.cpp:113-124 | the escaped text, which unescapes to the text |
| CliWords.Unescape | src/common/Cli.cpp:126-143 | backslashes that escape are taken off |
| CliWords.UnescapeEscape | src/common/Cli.cpp:113-143 | unescaping what was escaped gives back every string |
| CliWords.ParseLine | src/common/Cli.cpp:145-205 | the loop is the run of the three-mode tokenizer, with the quote flag of an unfinished word |
| CliWords.LineRoundTrip | src/common/Cli.cpp:113-205 | escaped words joined by blanks are read back if and only if none is empty and none starts with a quote |
| CliWords.LostWordsExamples | src/common/Cli.cpp:113-205 | an empty word and a single quote are not read back |
| CliHandOver.InvAlways | src/common/Cli.cpp:320-328 | lock, command, arguments and both threads fit together at every moment of every run |
| CliHandOver.ExecutedIsPrefix | src/common/Cli.cpp:471-485 | at every moment the executed commands with their arguments are a prefix of the dispatched ones with at most one outstanding |
| CliHandOver.RunsTheOutstanding | src/common/Cli.cpp:471-485 | though it tests without the lock, Execute never meets a null command and runs the one that is outstanding |
| CliHandOver.ReturnsAfterExecution | src/common/Cli.cpp:320-328 | when Dispatch is not running, everything dispatched has been executed |
| CliHandOver.EveryRunCanFinish | src/common/Cli.cpp:320-485 | no deadlock and no lost wake-up: every run can go on until Dispatch returns |

## Left out

- FatFs itself: case folding, short names, trailing dots and blanks, the names `.` and `..`, volume labels and
  timestamps. A name is invalid if it is empty or contains a control character, a separator or one of a
  few punctuation marks; two names are the same if they are equal as strings.
- Drives: a path without a drive is on drive 0. A colon elsewhere in a path makes an invalid name here; FatFs
  reports an invalid drive if the path has no drive of its own, and so it does for a drive that is not
  configured, which is one without a root here. That two spellings of the same node differ for the string
  tests of the paste context is part of `Paths.ParentTestExact`.
- Nested selections such as a directory and a file in it: the code does not remove them; that no selected
  path is above another one is a precondition of `AddFile`.
- Overwrite.OverwriteContext.ContinueWithOverwrite: that the cache of visited directories, which is kept, still
  says the truth after a directory has been overwritten is not shown, and what is promised does not rest on it.
- Closing a file that was only read, and closing a directory, change nothing and are not modelled.
- Copy.PasteContext.Run: is stated for the plan of one selection below one prefix, on a volume without faults
  and without collisions; the other runs are covered by Continue.
- Copies driven by a zip file, the zip export and the reading of directories for display.
- GzipContext and GunzipContext, which rest on a compression library.
- The clock: how many batches or rounds a slice holds is a parameter, and any number is allowed.
- PalmDatabase.Serialize: the dates and tags that the program prints are not modelled.
- FixPdb.FixPdb: reading and writing files and what is printed; for files of 4 GB or more only failures are
  described.
- DbInstaller.DbInstaller.PreprocessDb: takes the operating system version and the state of the user interface
  as parameters, and asks for what `DbInstaller.GapInBounds` says exactly, since otherwise the copy leaves the
  buffer, for an old and a new image that a `size_t` can count together, and for a gap below 2 GB; the installation through the exchange manager of the device is not modelled.
- DbExporter.DbExporter.Export: chunk sizes do not change during the export, and the device reports the same
  size whenever there is no chunk; OffsetsAreHonest and ExportReadsBack are stated for exports whose announced
  sizes add up to less than 4 GB.
- The data manager of the device: handles are reduced to the blocks they hold, writing into a block that was
  just allocated succeeds, and the error asked for after a failed call is an error.
- HomebrewInstall.EmFileImport.Continue: nothing is left half-installed if the data manager finds a database
  it has just created and can delete a closed one; if it does not, the code leaves the new database behind.
  Copying an info block is required not to leave the file, which the validator does not ensure and
  RecordsReadInside and ResourcesAreOversized give for well placed ones; and with a 32-bit long a first chunk
  that wraps around is excluded, because its bytes lie outside the file. That blocks larger than the heap are
  not allocated is all that is assumed about memory.
- The callback of the host in `SerialBuffer` either fetches everything or nothing.
- CardImage.CardImage.WriteByteRange: asks that the range does not escape the test as `CardImage.RangeTestExact`
  says, since the copy would leave the image.
- CardImage.CardImage.Write: writes that bypass the image through the raw data pointer, as the volume layer
  makes them, are not seen by the bitmap.
- CliHandOver.EveryRunCanFinish: says that the run can be continued to its end, not that a scheduler does it;
  Stop is not modelled, since a Dispatch that waits checks only the command when it wakes up. The read of the
  command without the lock is one atomic step, and the commands themselves are opaque.
- CliWords.ParseLine: completion and the script reader of the command line are not modelled.
- Fifo.Fifo.Push: a capacity of zero divides by zero and one above 2 GB wraps around in the original; both are
  excluded.
- The CPU, the debugger, the session, the web bindings and the server.
