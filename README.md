# ZIP listings and spliced re-reads of invenio-rdm-records

invenio-rdm-records can list and extract the contents of uploaded ZIP
archives without rereading each archive in full. The first time a ZIP file
is processed, the `ZipProcessor` reads the archive's central directory
through a `RecordingStream`. That stream remembers the lowest and the
highest position the ZIP library seeked to. From the entries the processor
builds a tree of folders and files and stores it, together with the bytes
from the lowest recorded position to the end of the archive (the "toc"),
as the media file `<key>.listing`. Later, `ZipExtractor` finds an entry's
node in that tree and opens the archive through a `ReplyStream`. Reads
inside the cached range come from the stored bytes, and reads outside it
come from the live storage stream. A folder is re-packed as a new ZIP of
the files below it. An opened entry is handed out as a handle whose `close`
releases, in order, the entry stream, the archive object, the storage
stream and its context manager.

The project also models two helpers of the deposit form:
- `preloadFiles`, which turns a record's file entries into the form's
  initial upload state;
- `normalizeLanguageCode`, which picks the locale pack of the Uppy
  uploader.

The central results are `Splicing.SplicedRead` and `Splicing.SplicedReads`.
A ReplyStream built from the toc the processor recorded, after a seek,
returns exactly the archive's own bytes for one read at any offset, and for
any run of consecutive reads that together stay within the archive. The
lemmas behind them (`ReplyStreams.Splice`, `Splicing.ConsecutiveReads`)
show how each read is spliced. With the toc the processor records, the
header extends to the end of the archive. A read leaves the header in
two ways, and both leave the storage stream behind, because the header
branch of `read` never moves it:
- a read that asks for bytes past the end of the archive
  (`ReplyStreams.DrainPastHeaderIsStale`) returns the header's rest and
  then goes on with bytes from wherever the storage stream was left;
- a read that ends exactly at the end of the archive
  (`ReplyStreams.ReadToHeaderEnd`) returns the right bytes, but every later
  read without a seek returns bytes from that stale position instead of
  nothing.

`Wrappers.GetOr`, the `LiveStream` constructor and `LiveStream.Tell` have
no row in the table below. They are stock helpers and the stand-in for the
storage stream, not part of the repository.

Modules, one per source unit:

- `LiveStreams`: the storage stream (`seek`, `tell`, `read`).
- `RecordingStreams`: `RecordingStream` and its `toc()`.
- `ReplyStreams`: `ReplyStream`, with its read loop as a function on a cursor and the splicing lemmas.
- `Paths`: `PurePosixPath(...).parts`, `os.path.join`, `"/".join`, `os.path.splitext` and `can_process`.
- `ListingTree`: the listing tree and `insert_container_item`.
- `ZipProcessor`: `_build_zip_toc` and `process`.
- `ZipExtractor`: `_find_container_item`, `list`, the metadata lookup, `_collect_files` and `send_file`.
- `Splicing`: `extract`/`open` over the recorded toc.
- `OpenedContainers` and `OpenedEntries`: the two handle classes.
- `DepositStore`: `preloadFiles`.
- `UppyLocale`: `normalizeLanguageCode`.
- `Wrappers`: `Option` and `Result`.

## Model

| member | source | states |
|---|---|---|
| LiveStreams.SeekTarget | invenio_rdm_records/services/files/extractors/reply_stream.py:69-77 | a target exists exactly for the three `whence` values SEEK_SET, SEEK_CUR and SEEK_END |
| LiveStreams.LiveRead | invenio_rdm_records/services/files/extractors/reply_stream.py:108 | a storage read returns the bytes that follow the position, no more than asked for, and fewer only at the end of the data |
| LiveStreams.LiveStream.Seek | invenio_rdm_records/services/files/extractors/reply_stream.py:82 | an unknown whence or a negative target is refused and the position is kept; otherwise the stream moves to the target and returns it |
| LiveStreams.LiveStream.Read | invenio_rdm_records/services/files/extractors/reply_stream.py:127 | a read returns `LiveRead` of the old position and moves the position past the bytes returned |
| RecordingStreams.Lowest | invenio_rdm_records/services/files/processors/zip.py:218-219 | the minimum is one of the recorded positions and is at most every one of them; it is absent exactly when nothing was recorded |
| RecordingStreams.Highest | invenio_rdm_records/services/files/processors/zip.py:221-222 | the maximum is one of the recorded positions and is at least every one of them; it is absent exactly when nothing was recorded |
| RecordingStreams.LowestAppend | invenio_rdm_records/services/files/processors/zip.py:218-219 | recording one more position changes the minimum exactly as the `min_offset` update of `seek` does |
| RecordingStreams.HighestAppend | invenio_rdm_records/services/files/processors/zip.py:221-222 | recording one more position changes the maximum exactly as the `max_offset` update of `seek` does |
| RecordingStreams.RecordingStream.constructor | invenio_rdm_records/services/files/processors/zip.py:191-195 | a new recording stream wraps the stream with no offsets recorded |
| RecordingStreams.RecordingStream.Seek | invenio_rdm_records/services/files/processors/zip.py:210-222 | a seek that the wrapped stream accepts records where it left the stream, keeping min/max equal to the lowest/highest recorded positions; a refused seek records nothing |
| RecordingStreams.RecordingStream.Tell | invenio_rdm_records/services/files/processors/zip.py:224-226 | tell is the wrapped stream's position |
| RecordingStreams.RecordingStream.Read | invenio_rdm_records/services/files/processors/zip.py:228-230 | read is the wrapped stream's read; nothing is recorded |
| RecordingStreams.RecordingStream.Toc | invenio_rdm_records/services/files/processors/zip.py:232-242 | with nothing recorded the entry is the raw empty one; otherwise it holds every byte from the lowest recorded position to the end, plus both offsets, and the wrapped stream is left at its end (at the lowest offset, when that lies past the end); with nothing recorded the wrapped stream does not move |
| ReplyStreams.Step | invenio_rdm_records/services/files/extractors/reply_stream.py:104-133 | one pass of the read loop takes at most the bytes wanted and never runs past the header when starting before it; inside the header it never breaks and never moves the live stream |
| ReplyStreams.Drain | invenio_rdm_records/services/files/extractors/reply_stream.py:101-135 | the loop returns at most the bytes asked for and advances the cursor by exactly what it returned |
| ReplyStreams.DrainAfterHeader | invenio_rdm_records/services/files/extractors/reply_stream.py:125-133 | after the header a read is one live read from wherever the live stream stands |
| ReplyStreams.DrainStopsAtHeader | invenio_rdm_records/services/files/extractors/reply_stream.py:106-114 | before the header, a read that stays before it is one live read and never passes the header position |
| ReplyStreams.Splice | invenio_rdm_records/services/files/extractors/reply_stream.py:90-135 | from a synchronised cursor, over a header that holds the archive's own bytes, a read that does not cross the header's end returns exactly the archive's bytes of that window and stays synchronised |
| ReplyStreams.SpliceInHeader | invenio_rdm_records/services/files/extractors/reply_stream.py:117-123 | a read that stays inside the header returns the archive's bytes of that window |
| ReplyStreams.SpliceAfter | invenio_rdm_records/services/files/extractors/reply_stream.py:125-133 | a read after the header returns the archive's bytes and stays synchronised |
| ReplyStreams.DrainPastHeaderIsStale | invenio_rdm_records/services/files/extractors/reply_stream.py:116-133 | a read that runs out of a non-empty header returns the header's rest and then bytes from where the live stream was left, which is not the header's end |
| ReplyStreams.StaleReadExample | invenio_rdm_records/services/files/extractors/reply_stream.py:116-133 | concrete case: for the window [1, 4) of the bytes [1, 2, 3] with header [2, 3] at 1, a read returns [2, 3, 1] |
| ReplyStreams.InHeaderToEnd | invenio_rdm_records/services/files/extractors/reply_stream.py:116-123 | a read inside the header that ends exactly at its end returns the archive's bytes up to there, and leaves the storage stream where it stood |
| ReplyStreams.ReadToHeaderEnd | invenio_rdm_records/services/files/extractors/reply_stream.py:104-133 | a read from inside or before a non-empty header that ends exactly at its end returns the archive's bytes, but leaves the storage stream at the header position, or where it stood; every following read is a storage read from there |
| ReplyStreams.ReadAfterEndExample | invenio_rdm_records/services/files/extractors/reply_stream.py:104-133 | concrete case: over [1, 2, 3] with header [2, 3] at 1, a read of 2 from 1 returns [2, 3] and reaches the end, yet the next read of 1 returns [1] where the archive has nothing left |
| ReplyStreams.ReplyStream.constructor | invenio_rdm_records/services/files/extractors/reply_stream.py:35-42 | the stream starts at virtual position 0 over the given live stream, header position, header and file size |
| ReplyStreams.ReplyStream.HeaderLen | invenio_rdm_records/services/files/extractors/reply_stream.py:40 | `header_len` is the header's length |
| ReplyStreams.ResolveSize | invenio_rdm_records/services/files/extractors/reply_stream.py:95-96 | a size of -1 asks for everything up to `file_size`; any other size is kept; `ReplyStream.Read` states what the read then returns |
| ReplyStreams.ReplyStream.Seekable | invenio_rdm_records/services/files/extractors/reply_stream.py:52-54 | the reply stream is always seekable |
| ReplyStreams.ReplyStream.Readable | invenio_rdm_records/services/files/extractors/reply_stream.py:56-58 | the reply stream is always readable |
| ReplyStreams.ReplyStream.Writable | invenio_rdm_records/services/files/extractors/reply_stream.py:60-62 | the reply stream is never writable |
| ReplyStreams.ReplyStream.Tell | invenio_rdm_records/services/files/extractors/reply_stream.py:137-139 | tell is the virtual cursor |
| ReplyStreams.ReplyStream.Seek | invenio_rdm_records/services/files/extractors/reply_stream.py:64-88 | the cursor moves for the three `whence` values (an invalid one raises and changes nothing); the live stream moves to the same offset exactly when the cursor lands outside the header; a negative offset outside the header raises after the cursor has moved |
| ReplyStreams.ReplyStream.ReadPass | invenio_rdm_records/services/files/extractors/reply_stream.py:105-133 | one loop pass changes the stream exactly as `Step` says |
| ReplyStreams.ReplyStream.DrainLoop | invenio_rdm_records/services/files/extractors/reply_stream.py:101-135 | the loop returns the bytes of `Drain` and leaves the cursor and live stream where `Drain` does |
| ReplyStreams.ReplyStream.Read | invenio_rdm_records/services/files/extractors/reply_stream.py:90-135 | `-1` reads up to the file size; a size of at most zero returns nothing and moves nothing; otherwise the result is `Drain` and the cursor moves by its length |
| Paths.Split | invenio_rdm_records/services/files/processors/zip.py:173 | `split` gives at least one piece, no piece holds the separator, and joining the pieces gives the string back |
| Paths.SplitJoin | invenio_rdm_records/services/files/processors/zip.py:173 | round trip: splitting the join of separator-free pieces gives the pieces back |
| Paths.SplitPrefix | invenio_rdm_records/services/files/processors/zip.py:173 | a separator-free prefix is split off as the first piece |
| Paths.JoinSnoc | invenio_rdm_records/services/files/processors/zip.py:151 | joining keeps the last piece last, after one separator |
| Paths.Keep | invenio_rdm_records/services/files/processors/zip.py:173 | the kept segments are exactly the pieces that are neither empty nor `.` |
| Paths.Anchor | invenio_rdm_records/services/files/processors/zip.py:173 | a path has no root exactly when it does not start with a slash, and `//` only for two leading slashes |
| Paths.PathParts | invenio_rdm_records/services/files/processors/zip.py:173 | the parts are the anchor, when there is one, followed by the kept segments |
| Paths.PathPartsSegments | invenio_rdm_records/services/files/processors/zip.py:173 | every part after the anchor is a clean segment |
| Paths.KeepSegments | invenio_rdm_records/services/files/processors/zip.py:173 | clean segments are kept as they are |
| Paths.RelativePartsRoundTrip | invenio_rdm_records/services/files/processors/zip.py:151 | round trip: the parts of the `/`-join of clean relative segments are those segments |
| Paths.OsJoin | invenio_rdm_records/services/files/processors/zip.py:137 | `os.path.join`: an absolute second part wins, otherwise exactly one slash separates the two parts |
| Paths.OsJoinAllRelative | invenio_rdm_records/services/files/processors/zip.py:136-137 | for clean relative segments the folded `os.path.join` equals the `/`-join, so each folder id is `p1/…/pi` |
| Paths.JoinLast | invenio_rdm_records/services/files/processors/zip.py:151 | a join ends with the last character of its last piece |
| Paths.AbsoluteIds | invenio_rdm_records/services/files/processors/zip.py:136-151 | for `/a/b` the folder id is `/a` but the file id is `//a/b` |
| Paths.AbsoluteSplit | invenio_rdm_records/services/files/processors/zip.py:173 | `/a/b` splits into an empty piece, `a` and `b` |
| Paths.Lower | invenio_rdm_records/services/files/processors/zip.py:39 | lower-casing keeps the length and maps each character on its own |
| Paths.RFind | invenio_rdm_records/services/files/processors/zip.py:39 | the index found holds the character and no later index does; -1 when there is none |
| Paths.RFindAt | invenio_rdm_records/services/files/processors/zip.py:39 | the last occurrence is characterised by its character and the absence of later ones |
| Paths.Ext | invenio_rdm_records/services/files/processors/zip.py:39 | the extension is empty or a dot-started suffix of the path with no slash in it |
| Paths.ExtOfName | invenio_rdm_records/services/files/processors/zip.py:39 | `archive.zip` has the extension `.zip` |
| Paths.ExtOfDottedDirectory | invenio_rdm_records/services/files/processors/zip.py:39 | a dot in a directory name gives no extension |
| Paths.ExtOfHiddenName | invenio_rdm_records/services/files/processors/zip.py:36-41 | `.zip` has no extension, so it is not processed |
| Paths.ExtUpperCase | invenio_rdm_records/services/files/processors/zip.py:36-41 | only the last suffix counts and it is compared lower-cased: `a.tar.ZIP` is processed |
| Paths.ExtOfSuffix | invenio_rdm_records/services/files/extractors/zip.py:217-222 | a name ending in a dot-word after a non-slash, non-dot character has that suffix as extension, and it is processed exactly when the lower-cased suffix is configured |
| Paths.CanProcess | invenio_rdm_records/services/files/processors/zip.py:36-41 | a key is processed exactly when its lower-cased extension is one of the configured formats; `Paths.ExtOfSuffix` states what that means for a name with a dot-suffix |
| ListingTree.MimeType | invenio_rdm_records/services/files/processors/zip.py:155-156 | the MIME type is never empty; it is the guess when there is one |
| ListingTree.IndexOf | invenio_rdm_records/services/files/processors/zip.py:139 | the index found holds the key and no earlier index does; none when the key is absent |
| ListingTree.Get | invenio_rdm_records/services/files/processors/zip.py:147 | a node found is stored under the key asked for |
| ListingTree.GetPutSame | invenio_rdm_records/services/files/processors/zip.py:140-147 | reading back a key returns what was stored under it |
| ListingTree.GetPutOther | invenio_rdm_records/services/files/processors/zip.py:140-149 | storing under one key leaves every other key as it was |
| ListingTree.PutPut | invenio_rdm_records/services/files/processors/zip.py:149 | storing twice under one key is the same as storing the second node |
| ListingTree.UniqueTreePut | invenio_rdm_records/services/files/processors/zip.py:140-149 | storing a node with a unique subtree keeps the tree free of repeated keys |
| ListingTree.FileNode | invenio_rdm_records/services/files/processors/zip.py:149-158 | the file node has the last part as key, the `/`-joined parts as id, and the entry's sizes, MIME type and CRC |
| ListingTree.DescendGet | invenio_rdm_records/services/files/processors/zip.py:138-147 | after `setdefault` and the folder creation the part is present: as a new folder if it was absent, otherwise unchanged |
| ListingTree.InsertAt | invenio_rdm_records/services/files/processors/zip.py:134-158 | an insertion keeps the node's key, id and kind and gives it a children dict; it can only fail for missing children |
| ListingTree.Insert | invenio_rdm_records/services/files/processors/zip.py:126-158 | an insertion on the top-level children fails with `EmptyPath` exactly when there are no parts, and otherwise only for missing children; `InsertReachesFile` and `InsertKeepsOthers` state what a success writes |
| ListingTree.InsertContainerItem | invenio_rdm_records/services/files/processors/zip.py:126-158 | the in-place walk and final write compute `Insert`, whose meaning the lemmas below state |
| ListingTree.WalkParents | invenio_rdm_records/services/files/processors/zip.py:136-147 | the loop over `parts[:-1]` ends at the last parent, with the remaining write, seen through the parents passed, equal to the whole insertion |
| ListingTree.DescendOne | invenio_rdm_records/services/files/processors/zip.py:137-147 | one pass of that loop preserves the insertion still to do |
| ListingTree.InsertLast | invenio_rdm_records/services/files/processors/zip.py:149-158 | the final write fails exactly when the last node has no children |
| ListingTree.InsertStep | invenio_rdm_records/services/files/processors/zip.py:137-147 | one step down keeps the insertion, seen through the frames, unchanged |
| ListingTree.WalkSameFirst | invenio_rdm_records/services/files/processors/zip.py:147 | a walk depends only on what its first key finds |
| ListingTree.InsertReachesFile | invenio_rdm_records/services/files/processors/zip.py:126-158 | after a successful insertion the walk along the parts reaches exactly the file node written |
| ListingTree.InsertIntermediate | invenio_rdm_records/services/files/processors/zip.py:136-147 | every intermediate node of the path exists and has children; a new one is a folder whose id is the joined path so far, an existing one keeps its kind and id |
| ListingTree.InsertKeepsOthers | invenio_rdm_records/services/files/processors/zip.py:126-158 | paths that are neither a prefix nor an extension of the inserted one walk to the same place as before |
| ListingTree.InsertTwice | invenio_rdm_records/services/files/processors/zip.py:149 | inserting the same path twice gives the same tree as inserting the second entry only |
| ListingTree.InsertFails | invenio_rdm_records/services/files/processors/zip.py:136-149 | the insertion raises for no parts, or exactly when the last parent reached is a file node without children |
| ListingTree.InsertUnique | invenio_rdm_records/services/files/processors/zip.py:126-158 | insertion keeps every dict of the tree free of repeated keys |
| ZipProcessor.Files | invenio_rdm_records/services/files/processors/zip.py:171-172 | the entries kept are not directories, and there are as many of them as `FileCount` counts |
| ZipProcessor.ScanCounts | invenio_rdm_records/services/files/processors/zip.py:170-178 | `total` counts the file entries, capped at a truthy `max_entries`; `truncated` is set exactly when that limit is reached |
| ZipProcessor.Scan | invenio_rdm_records/services/files/processors/zip.py:170-178 | the enumeration counts at most one more for each entry, and truncation happens only under a truthy limit that the count has reached |
| ZipProcessor.ScanSkipsDirectories | invenio_rdm_records/services/files/processors/zip.py:171-172 | directory entries make no difference to the enumeration |
| ZipProcessor.BuildTree | invenio_rdm_records/services/files/processors/zip.py:160-178 | the in-place loop computes the enumeration `Scan` |
| ZipProcessor.RunRead | invenio_rdm_records/services/files/processors/zip.py:228-230 | a library read moves the stream and records nothing |
| ZipProcessor.RunSeek | invenio_rdm_records/services/files/processors/zip.py:210-222 | an accepted library seek records the position it left the stream at |
| ZipProcessor.RunRefused | invenio_rdm_records/services/files/processors/zip.py:215 | a refused seek ends the run with its error |
| ZipProcessor.Replay | invenio_rdm_records/services/files/processors/zip.py:166-170 | the library's accesses, on the recording stream, leave it where `Run` says and record `Run`'s seek positions; a refused seek fails the same way |
| ZipProcessor.Run | invenio_rdm_records/services/files/processors/zip.py:210-230 | the library's accesses on the storage stream record at most one position per access, and reads alone record none; `Replay` states that these are the positions the recording stream records |
| ZipProcessor.ReplayOne | invenio_rdm_records/services/files/processors/zip.py:210-230 | one access through the recording stream advances the run by one step |
| ZipProcessor.TocCovers | invenio_rdm_records/services/files/processors/zip.py:232-242 | every recorded position in the stream lies between the two offsets, and the toc content holds every byte from it to the end |
| ZipProcessor.TocOf | invenio_rdm_records/services/files/processors/zip.py:232-242 | the toc is the raw empty one exactly when nothing was recorded; otherwise both offsets are recorded positions, in order, and the content is the storage read from the lowest one to the end |
| ZipProcessor.BuildZipToc | invenio_rdm_records/services/files/processors/zip.py:160-185 | the listing is the enumeration of the entries with the toc of the seeks the library made; a stream or insertion failure propagates |
| ZipProcessor.ListingKey | invenio_rdm_records/services/files/processors/zip.py:57 | the listing key is the file key followed by `.listing` |
| ZipProcessor.MediaFiles.Process | invenio_rdm_records/services/files/processors/zip.py:43-86 | media files end up enabled with a bucket; an existing listing returns early; a build failure or an unserialisable toc raises; a failed store is logged and changes nothing; otherwise exactly the new listing is added |
| ZipProcessor.MediaFiles.ProcessTwice | invenio_rdm_records/services/files/processors/zip.py:57-60 | the second process of a file finds the listing stored by the first |
| ZipExtractor.FindFromNoMatch | invenio_rdm_records/services/files/extractors/zip.py:231-239 | a scan past every sibling with the key finds nothing |
| ZipExtractor.Find | invenio_rdm_records/services/files/extractors/zip.py:224-239 | a node found has the last part as its key; `FindInserted`, `FindIsWalk` and `FindMissing` state which node is found |
| ZipExtractor.FindFrom | invenio_rdm_records/services/files/extractors/zip.py:231-239 | the sibling scan finds only a node whose key is the last part |
| ZipExtractor.FindMissing | invenio_rdm_records/services/files/extractors/zip.py:227-239 | no parts, or a first part no sibling has, finds nothing |
| ZipExtractor.FindIsWalk | invenio_rdm_records/services/files/extractors/zip.py:224-239 | in a tree without repeated keys the search is the plain walk down the children dicts |
| ZipExtractor.FindStopsAtLeaf | invenio_rdm_records/services/files/extractors/zip.py:235-239 | a non-final part whose node has missing or empty children finds nothing |
| ZipExtractor.FindInserted | invenio_rdm_records/services/files/extractors/zip.py:224-239 | round trip: the parts inserted by `insert_container_item` find the file node written for them |
| ZipExtractor.FindPassesChildlessSibling | invenio_rdm_records/services/files/extractors/zip.py:231-239 | with repeated keys the scan passes a childless same-keyed sibling and finds a later one, where the plain walk finds nothing |
| ZipExtractor.List | invenio_rdm_records/services/files/extractors/zip.py:241-251 | `list` is empty exactly when the file has no listing |
| ZipExtractor.ListingKeyInjective | invenio_rdm_records/services/files/extractors/zip.py:243 | distinct files have distinct listing keys |
| ZipExtractor.ListAfterStore | invenio_rdm_records/services/files/extractors/zip.py:241-251 | after a listing is stored, `list` shows it without its toc, and every other file's list is unchanged |
| ZipExtractor.Lookup | invenio_rdm_records/services/files/extractors/zip.py:253-277 | a missing listing or a missing path each raises `FileNotFoundError`, exactly in those cases; otherwise the node found is returned with the listing's toc |
| ZipExtractor.LookupIsWalk | invenio_rdm_records/services/files/extractors/zip.py:253-277 | in a tree without repeated keys the lookup succeeds exactly for the paths the tree walks to, and returns that node |
| ZipExtractor.ParamsOf | invenio_rdm_records/services/files/extractors/zip.py:304-308 | the reply stream gets the toc's min offset, content and max offset, or 0, empty and 0 without a toc |
| ZipExtractor.Collected | invenio_rdm_records/services/files/extractors/zip.py:191-204 | everything collected is a file node |
| ZipExtractor.CollectFiles | invenio_rdm_records/services/files/extractors/zip.py:191-204 | the loop with recursion into folders computes `Collected` |
| ZipExtractor.CollectedComplete | invenio_rdm_records/services/files/extractors/zip.py:198-202 | every file reached from the folder through folders only is collected |
| ZipExtractor.CollectedSound | invenio_rdm_records/services/files/extractors/zip.py:198-202 | every file collected lies at the end of a walk through folders |
| ZipExtractor.RelativeArcname | invenio_rdm_records/services/files/extractors/zip.py:149-155 | the arcname is the rest of the id after the folder id and a slash, or the whole id when it does not start so |
| ZipExtractor.JoinAppend | invenio_rdm_records/services/files/extractors/zip.py:149-155 | the join of two non-empty part lists is their joins around one slash |
| ZipExtractor.ArcnameBelowFolder | invenio_rdm_records/services/files/extractors/zip.py:145-155 | for clean relative segments a file's arcname inside any of its folders is its path below that folder |
| ZipExtractor.Members | invenio_rdm_records/services/files/extractors/zip.py:145-173 | one member per collected file, with the file id as source and the relative name as arcname |
| ZipExtractor.SendFile | invenio_rdm_records/services/files/extractors/zip.py:46-189 | a folder is re-packed as `<key>.zip` of its collected files under relative names; a file is streamed as its id with its key as file name, size as length and MIME type |
| ZipExtractor.FolderOfTwoFiles | invenio_rdm_records/services/files/extractors/zip.py:143-173 | a folder of two files is re-packed with the two names as member names, in children order |
| ZipExtractor.FolderDownloadNames | tests/services/files/test_zip_listing.py:159-166 | the test folder `test_directory_zip/directory1` is re-packed as `directory1-file1.txt` and `directory1-file2.txt` |
| ZipExtractor.ArcnameOfChild | invenio_rdm_records/services/files/extractors/zip.py:150-155 | a direct child's arcname is its name |
| Splicing.TocIsCached | invenio_rdm_records/services/files/processors/zip.py:232-242 | the toc recorded is a true copy of the archive from its min offset to the end |
| Splicing.ArchiveOf | invenio_rdm_records/services/files/extractors/zip.py:304-319 | a reply stream over such a toc has a header that matches the archive and ends at its end |
| Splicing.ServedFromToc | invenio_rdm_records/services/files/extractors/zip.py:304-324 | any read from a synchronised cursor that stays within the archive, or starts past its end, returns the archive's own bytes |
| Splicing.SplicedRead | invenio_rdm_records/services/files/extractors/zip.py:294-324 | a seek and read through the reply stream of `open` fail exactly for a negative offset and otherwise return the archive's bytes from the offset |
| Splicing.Reads | invenio_rdm_records/services/files/extractors/reply_stream.py:90-135 | consecutive reads without a seek between them give one result per read, each starting where the previous one left the stream |
| Splicing.ConsecutiveReads | invenio_rdm_records/services/files/extractors/reply_stream.py:90-135 | consecutive reads from a synchronised cursor that together stay within the archive return its consecutive windows |
| Splicing.SplicedReads | invenio_rdm_records/services/files/extractors/zip.py:294-324 | a seek and consecutive reads through the reply stream of `open` fail exactly for a negative offset, give one result per read, and return the archive's consecutive windows from the offset when they together stay within it |
| OpenedContainers.CloseReleases | invenio_rdm_records/services/files/extractors/opened_container.py:85-112 | each reference held is released when present (the storage stream only when it has `close`), and nothing not held is released |
| OpenedContainers.CloseOrder | invenio_rdm_records/services/files/extractors/opened_container.py:85-112 | releases come in the order entry, archive, storage, context, each at most once |
| OpenedContainers.CloseReleasesNothing | invenio_rdm_records/services/files/extractors/opened_container.py:114-119 | with every reference dropped nothing is released |
| OpenedContainers.OpenedContainerItem.constructor | invenio_rdm_records/services/files/extractors/opened_container.py:26-43 | the handle holds the five references, records whether the entry stream has `seek` and whether it has `tell`, and has released nothing |
| OpenedContainers.OpenedContainerItem.Readable | invenio_rdm_records/services/files/extractors/opened_container.py:44-46 | the handle is always readable |
| OpenedContainers.OpenedContainerItem.Writable | invenio_rdm_records/services/files/extractors/opened_container.py:48-50 | the handle is never writable |
| OpenedContainers.OpenedContainerItem.Seekable | invenio_rdm_records/services/files/extractors/opened_container.py:53-55 | seekable exactly when there is an entry stream with `seek` |
| OpenedContainers.OpenedContainerItem.Read | invenio_rdm_records/services/files/extractors/opened_container.py:57-59 | read delegates to the entry stream, and raises once the handle is closed |
| OpenedContainers.OpenedContainerItem.Seek | invenio_rdm_records/services/files/extractors/opened_container.py:65-69 | seek delegates when the entry stream has `seek`, and otherwise returns None without moving |
| OpenedContainers.OpenedContainerItem.Tell | invenio_rdm_records/services/files/extractors/opened_container.py:71-75 | tell returns the stream's position when the stream is still held and has a `tell` attribute (a flag independent of `seek`), and None otherwise, closed handle included |
| OpenedContainers.OpenedContainerItem.Close | invenio_rdm_records/services/files/extractors/opened_container.py:85-119 | close appends the releases of `CloseReleases` and drops all five references |
| OpenedContainers.OpenedContainerItem.CloseTwice | invenio_rdm_records/services/files/extractors/opened_container.py:85-119 | a second close releases nothing more |
| OpenedContainers.OpenedContainerItem.Exit | invenio_rdm_records/services/files/extractors/opened_container.py:125-127 | leaving the context closes the handle |
| OpenedEntries.OpenedArchiveEntry.constructor | invenio_rdm_records/services/files/extractors/opened_entry.py:19-35 | the handle holds the five references, records whether the extracted stream has `seek` and whether it has `tell`, and has released nothing |
| OpenedEntries.OpenedArchiveEntry.Readable | invenio_rdm_records/services/files/extractors/opened_entry.py:37-38 | the handle is always readable |
| OpenedEntries.OpenedArchiveEntry.Writable | invenio_rdm_records/services/files/extractors/opened_entry.py:40-41 | the handle is never writable |
| OpenedEntries.OpenedArchiveEntry.Seekable | invenio_rdm_records/services/files/extractors/opened_entry.py:43-44 | seekable exactly when there is an extracted stream with `seek` |
| OpenedEntries.OpenedArchiveEntry.Read | invenio_rdm_records/services/files/extractors/opened_entry.py:46-47 | read delegates to the extracted stream, and raises once the handle is closed |
| OpenedEntries.OpenedArchiveEntry.Seek | invenio_rdm_records/services/files/extractors/opened_entry.py:52-53 | seek delegates when there is `seek`, otherwise it returns None |
| OpenedEntries.OpenedArchiveEntry.Tell | invenio_rdm_records/services/files/extractors/opened_entry.py:55-56 | tell returns the stream's position when the stream is still held and has a `tell` attribute (a flag independent of `seek`), and None otherwise, closed handle included |
| OpenedEntries.OpenedArchiveEntry.Close | invenio_rdm_records/services/files/extractors/opened_entry.py:64-98 | close appends the releases of `CloseReleases` and drops all five references |
| OpenedEntries.OpenedArchiveEntry.CloseTwice | invenio_rdm_records/services/files/extractors/opened_entry.py:64-98 | a second close releases nothing more |
| OpenedEntries.OpenedArchiveEntry.Exit | invenio_rdm_records/services/files/extractors/opened_entry.py:103-104 | leaving the context closes the handle |
| DepositStore.Lookup | invenio_rdm_records/assets/semantic-ui/js/invenio_rdm_records/src/deposit/store.js:27 | a table lookup is defined exactly for the keys the table has, with their values |
| DepositStore.SizeOr | invenio_rdm_records/assets/semantic-ui/js/invenio_rdm_records/src/deposit/store.js:24 | a missing size is 0, and a present one is kept |
| DepositStore.StateOf | invenio_rdm_records/assets/semantic-ui/js/invenio_rdm_records/src/deposit/store.js:22-33 | each field gets its default; the status is the table's entry for the status, for `"undefined"` when it is missing, or for `"null"` when it is null; progress is 100 exactly when the status is the completed one, and 0 otherwise |
| DepositStore.States | invenio_rdm_records/assets/semantic-ui/js/invenio_rdm_records/src/deposit/store.js:20-34 | one state per entry, in order |
| DepositStore.KeyedLastWins | invenio_rdm_records/assets/semantic-ui/js/invenio_rdm_records/src/deposit/store.js:35-38 | the reduced object's keys are exactly the names, and each holds the last state with that name |
| DepositStore.Keyed | invenio_rdm_records/assets/semantic-ui/js/invenio_rdm_records/src/deposit/store.js:35-38 | every key of the reduced object holds a state with that name; `KeyedLastWins` states which one |
| DepositStore.Reduce | invenio_rdm_records/assets/semantic-ui/js/invenio_rdm_records/src/deposit/store.js:35-38 | the accumulator loop builds `Keyed` |
| DepositStore.PreloadFiles | invenio_rdm_records/assets/semantic-ui/js/invenio_rdm_records/src/deposit/store.js:16-40 | `entries: null` fails as the `.map` on null throws, and only then; otherwise the links default to empty, and the entries are the mapped states keyed by name, an empty object when `entries` is missing |
| DepositStore.PreloadedEntry | invenio_rdm_records/assets/semantic-ui/js/invenio_rdm_records/src/deposit/store.js:16-40 | a name is shown exactly when some entry has that key, and then it holds the state of the last such entry |
| DepositStore.NullStatusIsNotAbsent | invenio_rdm_records/assets/semantic-ui/js/invenio_rdm_records/src/deposit/store.js:27 | a null status looks up `"null"` and a missing one `"undefined"`, so the two can give different states |
| DepositStore.LaterEntryWins | invenio_rdm_records/assets/semantic-ui/js/invenio_rdm_records/src/deposit/store.js:35-38 | of two entries with one key, the later one is kept |
| UppyLocale.IndexOf | invenio_rdm_records/assets/semantic-ui/js/invenio_rdm_records/src/deposit/fields/UppyUploader/locale.js:66 | the first occurrence: it holds the character and no earlier index does; -1 when there is none |
| UppyLocale.ReplaceFirst | invenio_rdm_records/assets/semantic-ui/js/invenio_rdm_records/src/deposit/fields/UppyUploader/locale.js:66 | a string pattern replaces only its first occurrence and keeps every other character |
| UppyLocale.NormalizeLanguageCode | invenio_rdm_records/assets/semantic-ui/js/invenio_rdm_records/src/deposit/fields/UppyUploader/locale.js:19-67 | a two-letter code is defined exactly when the table has it, with the table's value; every other code keeps its length |
| UppyLocale.NoDashUnchanged | invenio_rdm_records/assets/semantic-ui/js/invenio_rdm_records/src/deposit/fields/UppyUploader/locale.js:66 | a longer code without a dash stays as it is |
| UppyLocale.FirstDashOnly | invenio_rdm_records/assets/semantic-ui/js/invenio_rdm_records/src/deposit/fields/UppyUploader/locale.js:66 | only the first dash becomes an underscore, and everything else is kept |
| UppyLocale.Examples | invenio_rdm_records/assets/semantic-ui/js/invenio_rdm_records/src/deposit/fields/UppyUploader/locale.js:20-64 | `en`, `pt` and `zh` give `en_US`, `pt_BR` and `zh_CN`; an unknown code gives undefined |
| UppyLocale.RegionExample | invenio_rdm_records/assets/semantic-ui/js/invenio_rdm_records/src/deposit/fields/UppyUploader/locale.js:66 | `pt-PT` gives `pt_PT` |

## Left out

- The ZIP library is not modelled. What it does to the recording stream is a parameter sequence of seeks and reads. What it reports is a parameter sequence of central-directory records. Opening an entry through `zipfile` uses the reply stream in the same way, through `SplicedRead`.
- Base64 encoding and decoding, JSON serialisation and parsing, Flask responses, the database session and the ZipStream writer are not modelled. The listing is stored as a value, and `base64.b64decode(b64encode(x)) == x` is taken as given.
- `mimetypes.guess_type` is a parameter, and an empty guess stands for None.
- Paths.Lower: ASCII lower-casing only. Python's full Unicode `str.lower` is not modelled.
- UppyLocale.NormalizeLanguageCode: code lengths are counted in characters. JavaScript counts UTF-16 units.
- The toc of a stream that was never seeked holds raw bytes, so `json.dumps` raises in `process` (`ProcessError.NotSerializable`). A stored listing therefore either has a range toc or, in a listing written elsewhere, no `"toc"` at all. `ParamsOf`'s `NoRange` case stands for the latter and gives the defaults 0, empty and 0.
- Splicing.TocIsCached: requires the lowest recorded seek to lie within the archive. A seek past the end of the storage stream records a position whose toc content is empty.
- Splicing.SplicedRead: states only that a read starting inside the archive and asking for bytes past its end succeeds. `ReplyStreams.DrainPastHeaderIsStale` states what such a read returns: the rest of the header, then bytes from wherever the live stream was left.
- Splicing.SplicedReads: the sizes are explicit counts. A `read(-1)` between other reads resolves against `file_size`, the toc's `max_offset`, and is covered only by `SplicedRead`. Reads after one that ended exactly at the end of the archive are described by `ReplyStreams.ReadToHeaderEnd`, not here.
- The 64 KiB chunk loops of `_send_item` and `_send_folder` are left out, because they only forward the entry stream. So are the response headers built around `SendFile`'s result: the `application/zip` MIME type and the `Content-Length` string.
- `readline`, `__iter__`, `__next__` and `__getattr__` of the two handle classes only forward to the entry stream and are left out. So is `ReplyStream`'s empty `__enter__`/`__exit__`.
- Exceptions raised by the close steps of the handles are not modelled. Each is swallowed, and no later step depends on it. What is modelled is which releases are made.
- The storage stream's own failures, and the context manager entered in `_send_item`, `_send_folder` and `open`, are not modelled.
- The entry stream of an opened handle is modelled as a live stream over the entry's bytes. `zipfile` decompression is not modelled.
- The in-place writes of `insert_container_item` through `toc_pos` are modelled as values. The parents walked through are kept as frames and written back at the end. Aliasing between dicts is therefore not modelled.
- The `StreamedZipContainerItem` constructor only stores its arguments. Its values are the parameters of `SendFile` and `SplicedRead`.
- `record.commit()` and `media_files.create_bucket()` are not modelled beyond the bucket flag. A failed store is the parameter `persistFails`.
- DepositStore.PreloadFiles / DepositStore.StateOf: an entry's `key` is taken to be a string, and every element of `entries` an object. A missing or null key (stored under `"undefined"` or `"null"`) and a null element (on which `file.key` throws) are not modelled. For `size`, `checksum`, `links` and the record's `links`, null and missing are one case, since `x || default` treats them alike.
- `useUppyLocale`, `importLangPack` and `configureStore` are left out: they load packs and build the Redux store. The `UploadState` table is a parameter. `_cloneDeep` needs no model, because Dafny values are immutable.
