# A verified model of the prfs store and its front-ends

prfs is a synthetic file system: a snapshotting graph of nodes and named links kept in an ordered
key/value map, a reference engine that serves as its oracle, a content generator, and NFS front-ends.
This project models the parts of it that carry state or arithmetic and proves what they promise.

One plain file system is the yardstick (`FileSystem`, `Observations`, `Handles`): it keeps a full copy
of the graph per sealed snapshot, with nothing versioned, shared or indexed. Two engines are proved to
be observably that file system:

* the versioned store: `VersionedDb` and `VersionedOps` give its tables (floor-read records, link sets
  copied on the first write after a snapshot, the inverse up-links, the change index) and the
  simulation; `Engine` is the ordered map with cursors, `TableKeys` and `Scans` the byte layouts, and
  `PrfsStore` the class that does it all cursor by cursor on byte maps;
* the oracle: `Intervals` holds version lists and link lifetimes, `MemStore` is the class that edits
  them in place.

`Refinement` draws the conclusion: driven by the same calls from a fresh start, both return the same
outcomes and answer every query alike at every view, for exactly the calls on which the two sources
agree; the rest is told apart call by call, and `Witnesses` runs into each difference from a fresh
start. `Laws` and `Reports` say what single calls do as a caller sees it: what a snapshot's number goes
on showing, what lookup finds, what a setter, a link, an unlink or a move changes, and how differences
and statistics report it. `Cursors` and `Paging` are about scans whose directory, ordinary or of snapshots, changes
between the pages.

Beside the store: `LockRanges`, `LeaseTables`, `LeaseLaws`, `Shares` and `LeaseServer` are the NFSv4.0
client, open and lock tables, safe over every run, and what is in them when; `ReaddirBridge`, `ReaddirSession`, `LiveSession`, `ReaddirReply`,
`ReaddirParse`, `ReplyLaws` and `Xdr` are READDIR and READDIRPLUS with their cookie cache, byte budget, encoding and
a client's reading of it; `Content` and `ContentLaws` are the random-access content generator. `Options`, `Numbers`,
`Reads`, `Listings` and `Tallies` hold shared groundwork.

Operations of a class carry ghost state (the tables, the plain file system) only to state what the
real fields mean. A `requires` beyond the object's own invariant says that ids, snapshots and sizes
fit the source's 64 bits, or that a counter still has room; handles may name any view and need not
resolve, names may be empty, and a page may be asked for no entries.

Where code and commentary differ the code is followed: the store's comment that paging is stable
holds for every name but the empty one, which `readdirPage` never returns; the oracle is described
as the observable semantics, yet its link never answers NOENT and its `diffPaths` reports rebound
names and runs backward; an NFSv4 upgrade or downgrade stores share bits unchecked, so reservations
hold over a run exactly when each of them would have passed the check; and a READDIR reply to a stale
handle ends after the status, where RFC 1813 has an attribute flag; and one slot of the content corpus
yields one block content only under one block index, which the generator's counter holds too, while
docs/content.md:143-147 says so of the slot alone.

## Model

| member | source | states |
|---|---|---|
| `Keys.EncodeBe` | src/core/prfs.cpp:24-32 | `be` yields the eight bytes that the lexicographic order compares as the number |
| `Keys.DecodeBe` | src/core/prfs.cpp:34-42 | `rdbe` computes the decoding that inverts it |
| `Keys.BeRoundTrip` | src/core/prfs.cpp:24-42 | `rdbe(be(x)) == x` for every 64-bit x |
| `Keys.RdbeRoundTrip` | src/core/prfs.cpp:24-42 | `be(rdbe(s)) == s` for every eight bytes |
| `Keys.BeOrder` | src/core/prfs.cpp:24-32 | byte order of encodings is numeric order, both ways, and equal encodings mean equal numbers |
| `Keys.BeConcatOrder` | src/core/prfs.cpp:24-32 | keys headed by an encoded integer sort by it first, then by the rest |
| `Keys.PrefixConvex` | src/core/prfs.cpp:671-683 | keys with one prefix are contiguous, so a scan may stop at the first key without it |
| `Engine.MemCursor.constructor` | src/storage/memory/kv.cpp:24-28 | the cursor walks the map's keys, each once, in order |
| `Engine.MemCursor.Seek` | src/storage/memory/kv.cpp:30-33 | lands on the first key not below the one sought, and says whether there is one |
| `Engine.MemCursor.Last` | src/storage/memory/kv.cpp:40-47 | lands on the greatest key, or reports an empty map |
| `Engine.MemCursor.Prev` | src/storage/memory/kv.cpp:56-63 | steps back one key, from past the end too, and fails at the first |
| `Engine.LowerBoundExists` | src/storage/memory/kv.cpp:30-33 | every search key has exactly the lower bound the cursor lands on |
| `FileSystem.AcyclicGrows` | src/core/prfs.cpp:824-826 | adding the edge d to c keeps a graph acyclic when c does not already reach d |
| `FileSystem.StepHealthy` | src/core/prfs.cpp:808-867 | every operation keeps every view sound: acyclic, link counts exact, links from directories to existing nodes, nodes never lost or retyped |
| `FileSystem.RunHealthy` | src/core/prfs.cpp:808-867 | the same over every run of operations, for the live and every sealed view, reachable from the root or not |
| `FileSystem.SealedViewsNeverChange` | src/core/prfs.cpp:492-502 | no later run, of any operations, changes what a sealed snapshot shows |
| `FileSystem.MovedCases` | src/core/prfs.cpp:323-346 | a move either changes nothing, or is a link that succeeds and then an unlink that cannot fail |
| `FileSystem.FailedStepIsNoOp` | src/storage/memory/kv.cpp:76-77 | an operation that fails leaves the whole file system as it was |
| `FileSystem.ClosedUnreachable` | src/core/prfs.cpp:781-806 | a set closed under child directories that misses the target shows it unreachable |
| `Observations.ListingMeaning` | src/core/prfs.cpp:671-683 | a listing holds every link of the directory once, in strict name order |
| `Observations.ListingUnique` | src/core/prfs.cpp:671-683 | only one sequence does so |
| `Observations.ParentsVersusNlink` | src/core/prfs.cpp:467-490 | `parents` counts containers, never more than `nlink`, and equals it exactly when no directory names the node twice |
| `Observations.ParentsBelowNlink` | src/core/prfs.cpp:467-490 | a reachable file system in which `parents` is shorter than `nlink` |
| `Observations.LinksConserved` | src/core/prfs.cpp:578-602 | in every sound view the link counts of all nodes sum to the number of links plus one |
| `Observations.DiffNodesMeaning` | src/core/prfs.cpp:517-550 | a node is reported once, in order of id, exactly when it has a classification, which `Reports.ReportedAs` gives by the fields |
| `Reports.ReportedAs` | src/core/prfs.cpp:525-547 | by the fields: CREATED and REMOVED exactly when a node gained its first link or lost its last, MODIFIED_CONTENT exactly when blob, spec or size differ, MODIFIED_ATTRS exactly when mode, owner, group or mtime differ and content does not |
| `Reports.SilenceMeans` | src/core/prfs.cpp:540-547 | a linked node is without report exactly when blob, spec, size, mode, owner, group and mtime are equal |
| `Reports.SetterReported` | src/core/prfs.cpp:928-937 | across one attribute setter the only report is the one its field calls for: a new size is content, a new mode, owner, group or mtime attributes, access and change times and nanoseconds nothing |
| `Reports.PayloadReported` | src/core/prfs.cpp:348-382 | across a guarded setter that succeeds, content exactly when the blob or spec is a new one, nothing else |
| `Reports.LinkReported` | src/core/prfs.cpp:808-841 | across a link, CREATED exactly for a node that had none, nothing else |
| `Reports.UnlinkReported` | src/core/prfs.cpp:843-867 | across an unlink, REMOVED exactly when it was the last one, nothing else |
| `Reports.SilentCalls` | src/core/prfs.cpp:323-346 | creating, moving, sealing and setting the clock are no difference |
| `Reports.StatsMove` | src/core/prfs.cpp:578-602 | views that differ in one node differ in the statistics by what that node adds: one of its type and a file's size while it is linked; links are counted all |
| `Reports.FreshStats` | src/core/prfs.cpp:182-203 | a fresh file system counts its root and nothing else |
| `Observations.DiffTriangle` | src/core/prfs.cpp:517-550 | whatever differs between the ends of two intervals differs in one of them |
| `Observations.DiffMirrored` | src/core/prfs.cpp:529-547 | read backward in time a difference is the same one, with creations and removals exchanged |
| `Observations.PathDiffsAgreeIff` | src/core/prfs.cpp:552-576 | name differences and binding differences are the same set exactly when no name is bound to two children |
| `Observations.ReportedOnce` | src/core/prfs.cpp:552-576 | in the order of either engine no path report comes twice |
| `Observations.NoBindingDiffIff` | src/reference/memstore.cpp:444-461 | nothing differs exactly when the links are equal |
| `Handles.ParsePrinted` | src/core/prfs.cpp:913-926 | `parseSnap(to_string(n))` is n for every 64-bit n |
| `Laws.SnapshotFreezes` | src/core/prfs.cpp:492-502 | the number a snapshot answers was not sealed before, is from then on, and shows after any later run what was live |
| `Laws.FrozenReads` | src/core/prfs.cpp:492-502 | attributes, listings, names and parents read through that number as they read live when it was taken, for ever |
| `Laws.LookupIsListed` | src/core/prfs.cpp:271-301 | an ordinary lookup finds exactly what readdir lists, in the view of the directory |
| `Laws.SnapLookupIsListed` | src/core/prfs.cpp:273-283 | in a snapshot directory every entry is found by its name, and whatever is found is an entry |
| `Laws.ReservedNameIff` | src/core/prfs.cpp:290-294 | the reserved name is found exactly in a live directory view |
| `Laws.LookupFinds` | src/core/prfs.cpp:271-301 | what lookup finds is found by its id too |
| `Laws.FoundStays` | src/core/prfs.cpp:242-246 | what is found by its id stays found, in its view and in the live one, over every run |
| `Laws.SetterReads` | src/core/prfs.cpp:928-937 | a field set reads back, every other is as it was, and a server-side time clears its nanoseconds |
| `Laws.PayloadReads` | src/core/prfs.cpp:348-382 | a guarded setter is refused for any other type, else it reads back and nothing else moves |
| `Laws.SettersMiss` | src/core/prfs.cpp:928-937 | of an id without a node an attribute setter is ignored, and a guarded one refused |
| `Laws.SettersTouchOne` | src/core/prfs.cpp:928-937 | any other node, any frozen view and every link reads as before |
| `Laws.CreateReads` | src/core/prfs.cpp:651-669 | a new node reads what it was given, with its type's mode and the clock's times, under an id no view knew, linked nowhere |
| `Laws.NewIdsDiffer` | src/core/prfs.cpp:651-669 | ids rise: no two creations answer the same, whatever comes between |
| `Laws.FreshRoot` | src/core/prfs.cpp:182-203 | a fresh file system: an empty root with one link of its own, and no snapshot |
| `Laws.SnapDirReads` | src/core/prfs.cpp:885-904 | a snapshot directory reads as a read-only directory with the times of its node in the same view |
| `Laws.LinkAnswers` | src/core/prfs.cpp:808-830 | link's answers in their order: under a free name refused exactly when the graph would no longer be acyclic, a taken name in any case |
| `Laws.LinkEffect` | src/core/prfs.cpp:832-840 | a link that succeeds binds one name and counts one link, and leaves all else alone |
| `Laws.UnlinkAnswers` | src/core/prfs.cpp:843-867 | unlink succeeds exactly on a bound name |
| `Laws.UnlinkEffect` | src/core/prfs.cpp:843-867 | it takes that name and one link of its node, and leaves all else alone |
| `Laws.LinkUnlinkRestores` | src/core/prfs.cpp:808-867 | linking again a name just linked answers EXIST; unlinking it restores the file system, and it can be linked again |
| `Laws.MoveAnswers` | src/core/prfs.cpp:323-346 | NOENT for a name not bound, else what linking its node at the destination would answer |
| `Laws.MoveEffect` | src/core/prfs.cpp:323-346 | a move that succeeds changes no node: one name goes, the other comes, bound to the same node |
| `Laws.OneLinkReported` | src/core/prfs.cpp:552-576 | across one link the only path report is that name added, read backward that name removed |
| `Laws.ParentsMeaning` | src/core/prfs.cpp:467-490 | parents lists, ascending, the directories that bind some name to the node in the handle's view |
| `ReplyLaws.DecimalDigits` | src/core/prfs.cpp:431 | snapshot names are plain decimal |
| `ReplyLaws.ParsedDigits` | src/core/prfs.cpp:913-926 | a name parses exactly when it is digits, at least one; each counts ten times what came before, modulo 2^64 |
| `Handles.AfterMeaning` | src/core/prfs.cpp:450-458 | what lies beyond a cursor is exactly the entries whose name sorts above it, in order |
| `VersionedDb.LoadMeaning` | src/core/prfs.cpp:623-644 | the floor search returns the newest record at or below g, and fails only when there is none |
| `VersionedDb.LoadUnwritten` | src/core/prfs.cpp:623-644 | with no record written in (a, b] both snapshots read the same one |
| `VersionedDb.LoadBounds` | src/core/prfs.cpp:736-779 | link-set versions never exceed the record's snapshot, nor that the current one |
| `VersionedDb.WritableDnInvisible` | src/core/prfs.cpp:736-753 | copying a directory's link set to the current version changes no node, link or up-link in any view |
| `VersionedDb.WritableUpInvisible` | src/core/prfs.cpp:755-779 | the same for a node's up-link set |
| `VersionedDb.StoreViews` | src/core/prfs.cpp:646-649 | rewriting a record's attributes changes one node in the live view and nothing else |
| `VersionedOps.LinkSim` | src/core/prfs.cpp:808-841 | link on the tables answers and does what link on the plain file system does, at every snapshot |
| `VersionedOps.UnlinkSim` | src/core/prfs.cpp:843-867 | the same for unlink |
| `VersionedOps.MoveSim` | src/core/prfs.cpp:323-346 | the same for move |
| `VersionedOps.CreateSim` | src/core/prfs.cpp:651-669 | a fresh id shows in the live view only |
| `VersionedOps.SnapshotSim` | src/core/prfs.cpp:492-502 | a snapshot seals the live view and leaves every view as it was |
| `VersionedOps.StepSim` | src/core/prfs.cpp:303-382 | every operation keeps the table invariant (only current versions are written, changes mirror records both ways) and the simulation, up-links mirroring down-links |
| `VersionedOps.RunSim` | src/core/prfs.cpp:303-382 | the same over every run |
| `VersionedOps.TablesIsolated` | src/core/prfs.cpp:646-649 | after any run, every read of the tables at a sealed snapshot returns what it did |
| `VersionedOps.NonCandidateUnchanged` | src/core/prfs.cpp:722-734 | a node absent from the change index between a and b reads the same record at both |
| `TableKeys.FloorBelow` | src/core/prfs.cpp:623-644 | the key just before the lower bound of (id, g) is the floor record of id, if it has that id at all |
| `TableKeys.NodeBytesDecode` | src/core/prfs.cpp:646-649 | sixteen-byte keys decode to the pair they encode |
| `TableKeys.PairOrder` | src/core/prfs.cpp:24-42 | node keys sort by id, then by snapshot |
| `Scans.ScanFromLists` | src/core/prfs.cpp:671-683 | a prefix scan from the lower bound lists exactly the link set of one version, in name order |
| `Scans.PutAllDownCopies` | src/core/prfs.cpp:736-753 | writing the scanned links under the current version yields the copy of the whole set |
| `Scans.PutAllUpsCopies` | src/core/prfs.cpp:755-779 | the same for up-links |
| `Scans.PageMeaning` | src/core/prfs.cpp:443-464 | a walk from the cursor key collects what lies beyond the cursor |
| `Reads.CandidatesCover` | src/core/prfs.cpp:517-550 | comparing only the candidates of the change index equals comparing all nodes |
| `Reads.CandidatesCoverNames` | src/core/prfs.cpp:552-576 | every directory whose names changed is a candidate |
| `Reads.WalkedAreCandidates` | src/core/prfs.cpp:722-734 | between its bounds the walk over the index meets exactly the nodes written in (a, b] |
| `Reads.ContainersListed` | src/core/prfs.cpp:467-490 | the containers in a view's up-link set are the view's containers |
| `Reads.WalkedAll` | src/core/prfs.cpp:695-720 | the one-pass walk reads every record |
| `Reads.EffectiveCloses` | src/core/prfs.cpp:695-720 | closing an id in that pass adds its floor record, if it has one |
| `Reads.CompareNames` | src/core/prfs.cpp:563-572 | added and removed names of one directory, and nothing else |
| `PrfsStore.PrfsStore.constructor` | src/core/prfs.cpp:182-203 | a fresh store shows the file system holding only the root |
| `PrfsStore.PrfsStore.LoadNode` | src/core/prfs.cpp:623-644 | the seek, prev and last dance is the floor search |
| `PrfsStore.PrfsStore.StoreNode` | src/core/prfs.cpp:646-649 | record and change-index entry together, at the current snapshot |
| `PrfsStore.PrfsStore.ScanDownlinks` | src/core/prfs.cpp:671-683 | lists the link set of one version, in name order |
| `PrfsStore.PrfsStore.ScanPage` | src/core/prfs.cpp:443-464 | one page beyond the cursor, and whether more is left |
| `PrfsStore.PrfsStore.ScanUplinks` | src/core/prfs.cpp:763-771 | lists the up-link suffixes of one version |
| `PrfsStore.PrfsStore.EnsureWritableDnLinks` | src/core/prfs.cpp:736-753 | the byte tables hold the copied link set |
| `PrfsStore.PrfsStore.EnsureWritableUpLinks` | src/core/prfs.cpp:755-779 | the same for up-links |
| `PrfsStore.PrfsStore.Reachable` | src/core/prfs.cpp:781-806 | terminates on any graph, and answers whether a possibly empty chain of live directory links leads there |
| `PrfsStore.PrfsStore.LinkT` | src/core/prfs.cpp:808-841 | verdict and tables as specified; an error leaves every byte untouched |
| `PrfsStore.PrfsStore.UnlinkT` | src/core/prfs.cpp:843-867 | verdict and tables as specified; an error leaves every byte untouched |
| `PrfsStore.PrfsStore.Link` | src/core/prfs.cpp:303-311 | outcome and every view as on the plain file system; an error touches nothing |
| `PrfsStore.PrfsStore.Unlink` | src/core/prfs.cpp:313-321 | outcome and every view as on the plain file system; an error touches nothing |
| `PrfsStore.PrfsStore.Move` | src/core/prfs.cpp:323-346 | outcome and every view as on the plain file system; an error touches nothing, so no rollback is needed |
| `PrfsStore.PrfsStore.Create` | src/core/prfs.cpp:651-669 | mints the next id in the live view |
| `PrfsStore.PrfsStore.SetAttr` | src/core/prfs.cpp:928-937 | changes the live node, whatever view the handle names; a missing id is ignored |
| `PrfsStore.PrfsStore.SetPayload` | src/core/prfs.cpp:348-382 | the type guards of setContent, setTarget, setRdev and setContentSeed, and their effect |
| `PrfsStore.PrfsStore.Snapshot` | src/core/prfs.cpp:492-502 | returns a number not sealed before, sealed from then on, at which every later run shows what was live when it was taken |
| `PrfsStore.PrfsStore.SetTime` | src/core/prfs.cpp:230-236 | only the clock changes |
| `PrfsStore.PrfsStore.NodeById` | src/core/prfs.cpp:242-246 | a handle exactly for what resolves, real or synthesized |
| `PrfsStore.PrfsStore.ReadNode` | src/core/prfs.cpp:885-904 | the attributes at the handle's view, synthesized for a snapshot directory |
| `PrfsStore.PrfsStore.Lookup` | src/core/prfs.cpp:271-301 | names, the snapshot directory and its numbered entries, a child in the view of its directory; `Laws.LookupIsListed` and its companions say what is found |
| `PrfsStore.PrfsStore.Readdir` | src/core/prfs.cpp:384-410 | the listing at the handle's view, or the snapshots the base existed at |
| `PrfsStore.PrfsStore.ReaddirPage` | src/core/prfs.cpp:412-465 | at most max entries beyond the cursor, the last name as cookie, eof exactly when nothing is left |
| `PrfsStore.PrfsStore.Parents` | src/core/prfs.cpp:467-490 | the distinct containers in ascending order |
| `PrfsStore.PrfsStore.CandidateIds` | src/core/prfs.cpp:722-734 | exactly the ids written after a, up to b |
| `PrfsStore.PrfsStore.DiffNodes` | src/core/prfs.cpp:517-550 | for a <= b the comparison of all nodes of two views; nothing otherwise |
| `PrfsStore.PrfsStore.DiffPaths` | src/core/prfs.cpp:552-576 | for a <= b exactly the names gained and lost, directory by directory in order; nothing otherwise |
| `PrfsStore.PrfsStore.EachEffNode` | src/core/prfs.cpp:695-720 | each existing node once, in order, with the record the floor search gives |
| `PrfsStore.PrfsStore.Stats` | src/core/prfs.cpp:578-602 | living nodes by type, all links, total size of living files |
| `Intervals.ChildWhenLive` | src/reference/memstore.cpp:570-591 | lifetimes of one link never overlap, so the first live interval is the only one |
| `Intervals.BirthShows` | src/reference/memstore.cpp:216-217 | a new interval shows from the current snapshot on and changes no earlier one |
| `Intervals.EndShows` | src/reference/memstore.cpp:237-241 | ending one hides it from the current snapshot on and changes no earlier one |
| `Intervals.StampShows` | src/reference/memstore.cpp:557-566 | a write through the live version shows from the current snapshot on and changes no earlier one |
| `MemStore.MemStore.constructor` | src/reference/memstore.cpp:124-134 | a fresh oracle shows the file system holding only the root |
| `MemStore.MemStore.EffVersion` | src/reference/memstore.cpp:505-519 | the last version not newer than g |
| `MemStore.MemStore.EffR` | src/reference/memstore.cpp:505-519 | that is the node of the view, and nothing alive under a snapshot directory's id |
| `MemStore.MemStore.NodeById` | src/reference/memstore.cpp:151-154 | a handle exactly for an id with a version at the snapshot; in a valid oracle, for what resolves |
| `MemStore.MemStore.LinkLiveAt` | src/reference/memstore.cpp:593-599 | the child a view binds the name to |
| `MemStore.MemStore.Rewrite` | src/reference/memstore.cpp:557-566 | the version of the current snapshot, copied on first write, takes the new value |
| `MemStore.MemStore.Reachable` | src/reference/memstore.cpp:602-629 | terminates, and answers whether a chain of live directory links leads there |
| `MemStore.MemStore.Link` | src/reference/memstore.cpp:201-223 | on any two handles the verdict from the types they read; outcome and every view as on the plain file system exactly when the verdicts agree; the tables in either case |
| `MemStore.MemStore.Unlink` | src/reference/memstore.cpp:225-246 | outcome and every view as on the plain file system, the unguarded counter included |
| `MemStore.MemStore.Move` | src/reference/memstore.cpp:248-259 | on any two handles the verdict; outcome and every view as on the plain file system exactly when the verdicts agree |
| `MemStore.MemStore.Create` | src/reference/memstore.cpp:492-502 | mints the next id in the live view |
| `MemStore.MemStore.SetAttr` | src/reference/memstore.cpp:662-703 | the live node changes, whatever view the handle names; on a snapshot directory nothing changes in any view; any other id without a node gets one made up |
| `MemStore.MemStore.SetPayload` | src/reference/memstore.cpp:261-295 | the type guards, read through the handle's view, and their effect; the plain file system's exactly when the verdicts agree |
| `MemStore.MemStore.Snapshot` | src/reference/memstore.cpp:389-394 | as the store's |
| `MemStore.MemStore.Lookup` | src/reference/memstore.cpp:178-199 | as the store's |
| `MemStore.MemStore.Readdir` | src/reference/memstore.cpp:297-322 | as the store's, found by trying every name ever used |
| `MemStore.MemStore.ReaddirPage` | src/reference/memstore.cpp:324-372 | as the store's |
| `MemStore.MemStore.Parents` | src/reference/memstore.cpp:374-387 | as the store's, by looking at every interval |
| `MemStore.MemStore.DiffNodes` | src/reference/memstore.cpp:404-442 | as the store's |
| `MemStore.MemStore.DiffPaths` | src/reference/memstore.cpp:444-461 | exactly the bindings gained and lost, in either direction of time, link by link in order |
| `MemStore.MemStore.Stats` | src/reference/memstore.cpp:463-484 | as the store's |
| `MemStore.LinkVerdictsIff` | src/reference/memstore.cpp:201-223 | on handles of any view link's two verdicts agree exactly when the name is refused outright, or the directory exists and, if it is one, resolves, and the child exists and resolves or closes no cycle |
| `MemStore.MoveVerdictsIff` | src/reference/memstore.cpp:248-259 | move's two verdicts agree exactly when there is nothing to move, the name is refused outright, or the destination exists and, if a directory, resolves |
| `MemStore.PayloadIff` | src/reference/memstore.cpp:261-295 | a guarded setter's two verdicts agree exactly when the node exists and its handle resolves or reads as acceptably |
| `MemStore.TouchedCover` | src/reference/memstore.cpp:404-413 | the touched ids cover every node that differs |
| `Listings.FoundIsListing` | src/reference/memstore.cpp:311-321 | trying every name ever used, in order, yields the listing, from any cursor on |
| `Listings.KeyOrderMeaning` | src/reference/memstore.cpp:374-387 | walking links in map order meets each once, directories in ascending order |
| `Refinement.Differential` | src/reference/memstore.cpp:4-10 | fresh store and oracle through the same calls, any that both answer alike: the same outcome each time, then the same answer to any query at any view |
| `Refinement.DriveStore` | src/core/prfs.cpp:303-382 | one call on any handles, on the store: the plain file system's step |
| `Refinement.DriveOracle` | src/reference/memstore.cpp:201-295 | one call on any handles, on the oracle: its own answer, and the plain file system's step on the calls that agree |
| `Refinement.AskStore` | src/core/prfs.cpp:384-602 | one query, on the store |
| `Refinement.AskOracle` | src/reference/memstore.cpp:297-484 | one query, on the oracle |
| `Refinement.DifferentialPaths` | src/reference/memstore.cpp:444-461 | path differences of the two agree exactly when no name was rebound (forward), or no link differs (backward) |
| `Refinement.RepresentationsAgree` | src/core/prfs.cpp:736-867 | floor records are effective versions, copied link sets are the links whose lifetime contains the snapshot, up-links their mirror; under a snapshot directory's id no version is alive |
| `Refinement.TellApart` | src/reference/memstore.cpp:201-295 | any one call on both engines, any handles, and a look for the node by id after a setter: outcomes and findings are the same exactly on the calls `Differential` admits, and on those the engines stay alike |
| `Refinement.CallsAgreeIff` | src/reference/memstore.cpp:201-295 | the same of the two answers and findings, as functions of the state and the call |
| `Refinement.SettersAgreeIff` | src/reference/memstore.cpp:557-566 | a setter carries the oracle's tables along exactly when the node exists or is a snapshot directory, and exactly then the node is found as in the store |
| `Witnesses.EmptyNameNeverPaged` | src/core/prfs.cpp:450-456 | a reachable file system with an entry that readdir lists, that a one-page scan finishes without, and that no finished scan returns |
| `Witnesses.RebindingUnseen` | src/core/prfs.cpp:552-576 | a reachable one in which a name is rebound across a snapshot: the oracle reports it, the store no path at all |
| `Witnesses.NodeMadeUp` | src/reference/memstore.cpp:557-566 | a setter on an id never minted: the oracle then finds a node by it, the store none |
| `Witnesses.SnapshotDirTaken` | src/reference/memstore.cpp:201-259 | link and move into the looked-up `.snapshot`: OK from the oracle, NOENT from the store |
| `Witnesses.SnapshotZeroReadsAsFile` | src/reference/memstore.cpp:149 | the root at snapshot 0: link NOTDIR against OK, setContent OK against INVAL |
| `Witnesses.CycleTaken` | src/reference/memstore.cpp:208-210 | a directory named through snapshot 0 slips past the oracle's cycle check, and the link would close a cycle |
| `Cursors.ReaddirMeaning` | src/core/prfs.cpp:384-410 | readdir lists the links of the view, or the sealed snapshots at which the base existed |
| `Cursors.RestMember` | src/core/prfs.cpp:412-465 | what lies beyond a cursor: exactly the entries whose name does, bytes for links and numbers for snapshots |
| `Cursors.RestRises` | src/core/prfs.cpp:412-465 | in rising order |
| `Cursors.RestResumes` | src/core/prfs.cpp:412-465 | resuming at any entry's name gives exactly the entries behind it, in either kind of directory |
| `Cursors.PagesProgressIff` | src/core/prfs.cpp:443-464 | a page before eof moves the cursor exactly when max is at least 1; max 0 starts over |
| `Paging.ScanRises` | src/core/prfs.cpp:412-465 | over a scan with any changes between calls the names returned strictly increase, snapshots by number |
| `Paging.ScanSound` | src/core/prfs.cpp:412-465 | each entry returned was listed, with that node, when its page was asked for |
| `Paging.ScanComplete` | src/core/prfs.cpp:412-465 | a name listed at every call is returned by a scan that reaches eof |
| `Paging.StableNamesReturned` | src/core/prfs.cpp:450-456 | from the start, such a name is returned exactly when it is not the empty name of an ordinary directory, and no name is returned twice |
| `Paging.SnapshotsReturned` | src/core/prfs.cpp:415-436 | a finished scan of a snapshot directory returns every snapshot listed when it began, whatever snapshots are taken meanwhile |
| `Paging.UnchangedScan` | src/core/prfs.cpp:412-465 | on an unchanging directory of either kind pages of any sizes add up to what lies beyond the cursor |
| `Paging.UnchangedScanFinishes` | src/core/prfs.cpp:412-465 | and enough calls reach eof |
| `Paging.PagesAreReaddirIff` | src/core/prfs.cpp:384-465 | paging from the start equals readdir exactly when it is a snapshot directory or holds no empty name |
| `LockRanges.OverlapIsShare` | plugins/nfsv4/nfsv4.cpp:597-601 | on sane ranges `overlaps` means a shared byte, both ways |
| `LockRanges.ComparesRightIff` | plugins/nfsv4/nfsv4.cpp:597-601 | a range compares right with every sane one exactly when it is sane, or empty at either end of the file |
| `LeaseTables.StepSafe` | plugins/nfsv4/nfsv4.cpp:1451-1591 | every operation keeps the tables safe: exclusion, unique records, confirmed owners, disjoint keys below the counter |
| `LeaseTables.RunSafe` | plugins/nfsv4/nfsv4.cpp:1277-1935 | every table of every run is safe |
| `LeaseTables.LocksSafe` | plugins/nfsv4/nfsv4.cpp:1492-1519 | a granted lock keeps different owners apart |
| `LeaseTables.BytesExcluded` | plugins/nfsv4/nfsv4.cpp:1492-1503 | in a safe table two owners never hold one byte of a file, either of them for writing |
| `LeaseTables.TestIsLock` | plugins/nfsv4/nfsv4.cpp:1523-1553 | for a confirmed owner LOCKT answers what LOCK would |
| `LeaseTables.HeldBlocks` | plugins/nfsv4/nfsv4.cpp:1492-1503 | a held range blocks every clashing request of any other owner |
| `LeaseTables.StepHoldsIff` | plugins/nfsv4/nfsv4.cpp:1555-1591 | an event keeps a held range exactly when it is no unlock that touches it, no release of its owner, no restart of its client |
| `LeaseTables.GrantHoldsIff` | plugins/nfsv4/nfsv4.cpp:1492-1591 | from a granted LOCK on, over any run, its range is held and blocks every clashing request of others throughout exactly as long as no event gives it up |
| `LeaseTables.StepConfirmedIff` | plugins/nfsv4/nfsv4.cpp:1892-1923 | a lease is confirmed after an event exactly when it was and no other instance of its client confirmed, or it is confirmed now |
| `LeaseTables.LeaseLastsIff` | plugins/nfsv4/nfsv4.cpp:1927-1935 | over any run a confirmed lease renews throughout exactly as long as no other instance of its client confirms |
| `LeaseTables.UnlockFrees` | plugins/nfsv4/nfsv4.cpp:1567-1571 | an unlock removes exactly the owner's ranges that overlap the one named, whole |
| `LeaseTables.OneConfirmed` | plugins/nfsv4/nfsv4.cpp:1903-1918 | a client has at most one confirmed lease |
| `LeaseTables.RestartPurges` | plugins/nfsv4/nfsv4.cpp:1903-1918 | confirming a restarted client removes its earlier lease with every open and lock of it |
| `Shares.UpgradeKeepsIff` | plugins/nfsv4/nfsv4.cpp:1361-1364 | an upgrade keeps every share reservation exactly when the bits asked for would pass the check it skips |
| `Shares.NarrowingPasses` | plugins/nfsv4/nfsv4.cpp:1431-1447 | a downgrade that only gives bits up keeps every reservation |
| `Shares.StepSharesIff` | plugins/nfsv4/nfsv4.cpp:1352-1447 | one operation keeps every reservation exactly when, being an upgrade or a downgrade, it would pass the check of a new open |
| `Shares.RunSharesIff` | plugins/nfsv4/nfsv4.cpp:1352-1447 | up to any table of a run all reservations are honoured exactly when every upgrade and downgrade before it would pass that check |
| `Shares.ShareMayBreak` | plugins/nfsv4/nfsv4.cpp:1361-1364 | a run that ends with an upgrade, and one with a downgrade, granted over another open's reservation |
| `LeaseLaws.StepOpensIff` | plugins/nfsv4/nfsv4.cpp:1352-1447 | an open (stateid, owner, file) is there after an operation exactly when it was, and this is neither its CLOSE nor its client's restart, or an OPEN started it: of a confirmed client, with no open of its own there and no share denied |
| `LeaseLaws.OpenWhileIff` | plugins/nfsv4/nfsv4.cpp:1352-1447 | over a run an open stays throughout exactly as long as no event ends it |
| `LeaseLaws.GrantedOpenIff` | plugins/nfsv4/nfsv4.cpp:1352-1447 | from a granted OPEN on, its stateid names an open of that owner and file throughout exactly as long as no event ends it |
| `LeaseLaws.OpenAnswers` | plugins/nfsv4/nfsv4.cpp:1352-1382 | OPEN's answers in their order, and the open that the answer names |
| `LeaseLaws.StartedOpen` | plugins/nfsv4/nfsv4.cpp:1374-1376 | a new open has the bits asked for and seqid 1 |
| `LeaseLaws.OpenFields` | plugins/nfsv4/nfsv4.cpp:1361-1447 | an open that stays: another OPEN of its owner adds bits, a downgrade sets them, these two and OPEN_CONFIRM count its seqid up modulo 2^32, and nothing else touches it |
| `LeaseLaws.OwnersMove` | plugins/nfsv4/nfsv4.cpp:1414-1429 | an owner is known exactly from the OPEN_CONFIRM of one of its opens on |
| `LeaseLaws.StateidAnswers` | plugins/nfsv4/nfsv4.cpp:1397-1447 | CLOSE, OPEN_DOWNGRADE and LOCKU refuse exactly stateids that name nothing, and change nothing then |
| `LeaseLaws.StateidNotReused` | plugins/nfsv4/nfsv4.cpp:1374 | a stateid given out and gone names nothing ever after |
| `LeaseLaws.StepHeldIff` | plugins/nfsv4/nfsv4.cpp:1451-1591 | a range is held after an operation exactly when it was and is not given up, or a LOCK took it that no other owner's range forbids |
| `LeaseLaws.LockAnswers` | plugins/nfsv4/nfsv4.cpp:1466-1518 | LOCK's answers in their order, and which record takes the range |
| `LeaseLaws.LockTaken` | plugins/nfsv4/nfsv4.cpp:1513-1518 | the range goes behind those the record held, its seqid up by one, everything else untouched |
| `LeaseLaws.DeniedIff` | plugins/nfsv4/nfsv4.cpp:1492-1503 | on sane ranges DENIED exactly when another owner holds a byte of the range and one of the two writes |
| `LeaseLaws.StepLocksIff` | plugins/nfsv4/nfsv4.cpp:1451-1591 | a lock record is there after an operation exactly when it was, its owner not released and its client not restarted, or a LOCK made it |
| `LeaseLaws.KeptJoins` | plugins/nfsv4/nfsv4.cpp:1567-1571 | unlocking goes range by range and keeps their order |
| `LeaseLaws.ClientidAnswers` | plugins/nfsv4/nfsv4.cpp:1847-1887 | SETCLIENTID names the one record of that client instance, with its verifier; an unknown instance gets the next number, unconfirmed |
| `LeaseLaws.ConfirmAnswers` | plugins/nfsv4/nfsv4.cpp:1892-1923 | SETCLIENTID_CONFIRM is refused exactly for a number without a record, or another verifier |
| `LeaseLaws.ClientStaysIff` | plugins/nfsv4/nfsv4.cpp:1847-1923 | a client's record stays, unchanged but for its callback, exactly until another instance of it confirms |
| `LeaseLaws.CountersMove` | plugins/nfsv4/nfsv4.cpp:1374 | stateid and client counters go up by one exactly when a number is given out |
| `LeaseLaws.ClientidNotReused` | plugins/nfsv4/nfsv4.cpp:1875 | a client number whose record is gone never names a client again |
| `LeaseServer.LeaseServer.SetClientid` | plugins/nfsv4/nfsv4.cpp:1847-1887 | reuses the record of the same instance, else mints one; tables stay safe |
| `LeaseServer.LeaseServer.SetClientidConfirm` | plugins/nfsv4/nfsv4.cpp:1892-1923 | confirms, purging the client's other confirmed leases; tables stay safe |
| `LeaseServer.LeaseServer.OpenFile` | plugins/nfsv4/nfsv4.cpp:1352-1382 | upgrade, refusal or new open, and whether the owner must confirm |
| `LeaseServer.LeaseServer.Close` | plugins/nfsv4/nfsv4.cpp:1397-1412 | only the open named goes, and its locks stay; see `LeaseLaws.StepOpensIff` |
| `LeaseServer.LeaseServer.OpenConfirm` | plugins/nfsv4/nfsv4.cpp:1414-1429 | records the owner as confirmed |
| `LeaseServer.LeaseServer.OpenDowngrade` | plugins/nfsv4/nfsv4.cpp:1431-1447 | stores the given bits as they are |
| `LeaseServer.LeaseServer.CheckStateid` | plugins/nfsv4/nfsv4.cpp:1026-1045 | I/O is authorised only by an open or lock of that file held by a confirmed client, or a special stateid |
| `LeaseServer.LeaseServer.FindBlocker` | plugins/nfsv4/nfsv4.cpp:1492-1503 | a blocking range, with the other owner who holds it, exactly when there is one |
| `LeaseServer.LeaseServer.Lock` | plugins/nfsv4/nfsv4.cpp:1451-1520 | DENIED exactly when another owner's range clashes, else the range is added to the owner's one record |
| `LeaseServer.LeaseServer.Lockt` | plugins/nfsv4/nfsv4.cpp:1523-1553 | the same verdict, changing nothing |
| `LeaseServer.LeaseServer.Unlock` | plugins/nfsv4/nfsv4.cpp:1555-1575 | whole overlapping ranges go |
| `LeaseServer.LeaseServer.ReleaseLockowner` | plugins/nfsv4/nfsv4.cpp:1580-1591 | every record of the owner goes |
| `ReaddirBridge.Bridge.RememberCookie` | plugins/nfsv3/nfsv3.cpp:863-869 | the cache stays bounded and maps a cookie only to a name with that hash |
| `ReaddirBridge.Bridge.ResumeName` | plugins/nfsv3/nfsv3.cpp:875-896 | the cached name, or else the first entry with the cookie, or none |
| `ReaddirBridge.Bridge.PageDir` | plugins/nfsv3/nfsv3.cpp:903-954 | the longest run of what remains that fits the budget; eof exactly when that is all of it; the cache learns only names the directory lists |
| `ReplyLaws.ReplyMaximal` | plugins/nfsv3/nfsv3.cpp:905-954 | a reply takes entries from the front of what is left while 128 bytes and they fit, and no fewer; eof exactly when it takes them all |
| `ReplyLaws.RemainingMeans` | plugins/nfsv3/nfsv3.cpp:916-936 | both dots at cookie 0, `..` at 1, neither from 2 on |
| `ReplyLaws.DotDotIsContainer` | plugins/nfsv3/nfsv3.cpp:922-928 | `..` is the container of the lowest id, in the same view, when there is one, and else the directory itself |
| `ReplyLaws.CookieMeaning` | plugins/nfsv3/nfsv3.cpp:464-471 | a cookie is the hash with its top bit set: never that of a dot, and equal exactly for hashes equal but for that bit |
| `ReplyLaws.PaddedWithZeros` | plugins/nfsv3/nfsv3.cpp:251-257 | strings are padded with zeros up to a whole word and no further |
| `ReaddirSession.ScanFindsIff` | plugins/nfsv3/nfsv3.cpp:883-896 | a scan resolves an entry's cookie to it exactly when no earlier entry has the same cookie |
| `ReaddirSession.ClearingHarmless` | plugins/nfsv3/nfsv3.cpp:860-896 | losing the cache never moves the resume point of a present entry, when cookies tell the names in play apart |
| `ReaddirSession.ResumesAt` | plugins/nfsv3/nfsv3.cpp:875-896 | a name's cookie resumes at that name exactly as long as the server remembers it or the directory lists it |
| `ReaddirSession.SessionFinishesIff` | plugins/nfsv3/nfsv3.cpp:903-954 | with one budget throughout a session hears a first part of the listing, and all of it exactly when every entry fits a reply by itself |
| `ReaddirSession.SessionListsAll` | plugins/nfsv3/nfsv3.cpp:903-954 | a session on an unchanging directory lists ".", ".." and, once and in order, every entry but one of the empty name, whatever becomes of the cache |
| `ReaddirSession.SessionMeaning` | plugins/nfsv3/nfsv3.cpp:903-954 | on a directory that changes between replies: names rise and none comes twice, each entry stood at its reply, BAD_COOKIE exactly for an entry forgotten and removed, and a name listed throughout is heard by eof |
| `LiveSession.Listen` | plugins/nfsv3/nfsv3.cpp:854-954 | the same for a running bridge and store, with calls, other clients' requests and restarts before each reply |
| `LiveSession.ListDirectory` | plugins/nfsv3/nfsv3.cpp:854-954 | while the store does not change the running bridge lists the whole directory, whatever else it serves meanwhile |
| `Xdr.Writer.PutU32` | plugins/nfsv3/nfsv3.cpp:231-236 | four bytes, most significant first |
| `Xdr.Writer.PutStr` | plugins/nfsv3/nfsv3.cpp:251-257 | length, bytes, zeros to a word boundary |
| `Xdr.ReadU32` | plugins/nfsv3/nfsv3.cpp:136-144 | reads back what was written |
| `Xdr.ReadU64` | plugins/nfsv3/nfsv3.cpp:146-150 | reads back what was written |
| `Xdr.ReadStrIff` | plugins/nfsv3/nfsv3.cpp:163-173 | reads back what was written exactly up to a length of 2^32 - 4, where the 32-bit rounding wraps |
| `ReaddirReply.EncodeFattr` | plugins/nfsv3/nfsv3.cpp:327-352 | 84 bytes, field by field |
| `ReaddirReply.NfsReaddir` | plugins/nfsv3/nfsv3.cpp:956-1050 | the whole READDIR or READDIRPLUS result, error cases included |
| `ReaddirReply.ResultFits` | plugins/nfsv3/nfsv3.cpp:956-1050 | never longer than 108 bytes or the client's count, with 20 bytes to spare when it holds entries |
| `ReaddirReply.NamesReadable` | plugins/nfsv3/nfsv3.cpp:956-1050 | no reply to a 32-bit count holds a name too long to be read back |
| `ReaddirParse.BodyParses` | plugins/nfsv3/nfsv3.cpp:990-996 | the entry list reads back as the entries it was written from, with the attributes and handles of READDIRPLUS |
| `ReaddirParse.ResultParsesIff` | plugins/nfsv3/nfsv3.cpp:956-1050 | the whole result reads back as status, attributes, entries and eof, exactly unless the handle is stale, whose reply lacks the attribute flag |
| `Content.AlphabetSpread` | src/content/content.cpp:49-54 | K values give K different bytes, in order, from 0 to 255 |
| `ContentLaws.AlphabetFloor` | src/content/content.cpp:49-54 | a byte counts modulo K, and its letter is 255 times that over K - 1, rounded down |
| `ContentLaws.DuplicatesShare` | src/content/content.cpp:60-69 | blocks of one index drawn from one slot of the corpus read the same in every file, whatever its seed and size |
| `ContentLaws.NoDuplicatesNoCorpus` | src/content/content.cpp:60-69 | without duplicates a file's bytes depend on its own hole and data hashes only |
| `ContentLaws.FilesDiffer` | src/content/content.cpp:60-69 | blocks that are no duplicates can differ from file to file |
| `ContentLaws.SlotsDifferByIndex` | src/content/content.cpp:80-85 | one slot can read differently under another block index |
| `ContentLaws.PercentagesMean` | src/content/content.cpp:56-69 | no holes and no duplicates at 0 percent, all from 100 on, never fewer at a higher percentage |
| `ContentLaws.RemaindersCounted` | src/content/content.cpp:56-63 | of the hundred remainders of the hash, as many make a hole or a duplicate as the percentage says |
| `ContentLaws.WordsLaid` | src/content/content.cpp:77-90 | with the full alphabet, four bytes of a block are one word of the generator, little-endian, under the counter of block and call and the key of the block's source |
| `ContentLaws.CountMeaning` | src/content/content.cpp:134-153 | a read finds the bytes asked for that lie below the size |
| `Content.GenBlock` | src/content/content.cpp:70-91 | the block's bytes, each a function of configuration, seed and position |
| `Content.Read` | src/content/content.cpp:134-153 | the count, the bytes of the infinite file at the offset, and nothing written beyond |
| `Content.CountRightIff` | src/content/content.cpp:134-153 | the 64-bit count is right exactly when offset plus length does not wrap, or nothing is asked for |
| `Content.FillEndsIff` | src/content/content.cpp:82-90 | the loop's wrapping 32-bit counter reaches the end of a block exactly up to 2^32 - 16 bytes |
| `Content.CopyEndRightIff` | src/content/content.cpp:147-149 | the 64-bit end of a copy out of a block is right exactly when the block's own end does not wrap |
| `Content.WrappingRead` | src/content/content.cpp:134-153 | the longest read from offset 5 of a ten-byte file finds 5 bytes and would claim 2^64 - 1 |
| `Content.PartitionConcat` | src/content/content.cpp:134-153 | however a range is cut up, the pieces concatenate to the one-shot read |
| `Content.OverlapAgrees` | src/content/content.cpp:134-153 | two reads covering an offset return the same byte for it |
| `Content.AllocatedBlocks` | src/content/content.cpp:155-170 | what the 64-bit loop computes, for every size, from the number of offsets whose block is not a hole |
| `Content.AllocatedRightIff` | src/content/content.cpp:155-170 | that is the ceiling over 512 exactly when neither the block count nor the rounding wraps, or nothing is allocated |
| `Content.AllocationBounds` | src/content/content.cpp:155-170 | monotone in the size, and at most the size in blocks |
| `Content.HolesReadZero` | src/content/content.cpp:56-76 | an offset in a hole reads as zero |
| `Content.UnallocatedIsZero` | src/content/content.cpp:155-170 | a file that allocates nothing reads as zeros |

## Left out

- Reopening an existing store, LMDB, transactions and their commit: the engine applies writes at once, and no error path has written by then.
- The byte form of node records, the labels and times of snapshots and the stored content policy: records are kept as values in the node table.
- 32-bit wrap-around of `nlink` and of attributes: counts are unbounded; the oracle's decrement below zero is modelled and shown not to happen.
- Wrap-around of node ids, snapshot numbers, stateids and clientids: creation and snapshots require room in the counter; NFSv4 counters are unbounded.
- Accessors that only pick a field (`target`, `content`, `rdev`, `contentSeed`, `snapshots`, `snapInfo`): easy members.
- `PrfsStore.PrfsStore.Move`: modelled as the two public calls one after the other, one transaction in the source; the result is the same because the second cannot fail.
- `Engine.MemCursor.constructor`: a cursor works on the map as it stood when it was opened, which is how the store uses cursors.
- `MemStore.MemStore.Link`: on the calls of which the two verdicts differ, the tables are given but no view of them; `MemStore.LinkVerdictsIff` says which calls these are.
- `MemStore.MemStore.Move`: on the calls of which the two verdicts differ only the oracle's verdict is given; `MemStore.MoveVerdictsIff` says which calls these are.
- `MemStore.MemStore.SetPayload`: on the calls of which the two verdicts differ, the node table is given but no view of it; `MemStore.PayloadIff` says which calls these are.
- `MemStore.MemStore.SetAttr`: on an id that is neither a node's nor a snapshot directory's the table is given, and that `nodeById` then finds it, but no view; see `Refinement.TellApart`.
- `Refinement.Differential`: for calls on which the two sources agree; on the others they differ, as `Refinement.TellApart` shows.
- Distinctness that rests on hashing (frozen-view fileids, confirm verifiers, write seeds): the hashes are parameters; the sessions ask that no two names listed or remembered share a cookie.
- `Xdr.Writer.PutStr`: on a word-aligned stream, as every caller has it.
- RPC framing, credentials, the other NFS procedures, COMPOUND and the NFSv4 attribute encoding: no state of their own; NFSv4 READDIR repeats the cookie scheme modelled for NFSv3.
- `LeaseServer.LeaseServer.OpenFile`: starts where the file is known; the name lookup and creation before it are the store's operations.
- `LeaseServer.LeaseServer.Lock`: one atomic step, while the source takes the lease lock and the state lock one after the other.
- POSIX splitting of a partly unlocked range, and release of locks at CLOSE: the source does neither.
- The alphabet size from floating-point entropy: a parameter K up to 256.
- Random123 generators and the 64-bit mixing hash: parameters of the content model.
- `Content.GenBlock`: on blocks that are holes or have up to 2^32 - 16 bytes; on any other the source's loop does not end, as `Content.FillEndsIff` says.
- `Content.Read`: for reads whose end and last block's end stay within 64 bits and whose blocks can be generated; `Content.CountRightIff`, `Content.CopyEndRightIff` and `Content.FillEndsIff` say what goes wrong on the others.
- `Xdr.ReadStrIff`: bytes that a string longer than its stream would take from beyond it are not modelled.
- `ReaddirReply.NfsReaddir`: begins with the arguments decoded.
- `ReaddirReply.EncodeFattr`: the bytes a node occupies, a function of handle and attributes, are a parameter.
- The content policy's serialized form, and the di, rng and provider registries: easy members or glue.
- Sockets, threads, plugins, command line, Lua bindings, performance tools: input, output and glue.
