# Verified models of the Samba 4 client, replication and logon code

This project models the parts of the Samba 4 tree that are algorithms rather than
plumbing, and proves what they are for. Wire calls, the remote file server and the
local files are objects of the model whose methods may do anything that a server
may do: fail, answer short, page as they like. A flag (`reliable`, `fullReads`,
`fullWrites`) marks the better-behaved servers that some results are about; every
other result holds for all of them.

| modules | what they cover |
|---|---|
| `Bytes`, `RemoteFile` | a remote file as a byte string; the one-shot read and write that the transfer loops amount to |
| `DdIo`, `DdCopy` | cifsdd: one buffer filled in `ibs` reads and drained in `obs` writes |
| `SmbFileIo` | chunked reads and writes of libcli |
| `TextTranslation`, `TextTransfer` | smbclient's get and put with CR/LF translation |
| `CStrings`, `Options`, `ListQueue`, `ClientList`, `DirectoryTree`, `DirectoryWalk` | smbclient's recursive listing: the packed string queue, the paged search, the walk |
| `DelTree` | recursive deletion of a remote tree |
| `DosPath`, `PathMeaning` | in-place cleaning of DOS paths, and when it gives the path that is meant |
| `Replication`, `Promotion`, `PromotionRuns` | becoming a domain controller: list splicing, the callback state machine, and its whole runs |
| `LogonIdentity` | a logon identity, its NETLOGON/PAC record (section 2.5 of MS-PAC) and the way back |
| `NtlmCheck`, `NtlmClients` | the NTLM acceptance decision and its session keys (sections 3.3.1 and 3.3.2 of MS-NLMP), and what it means for a client that knows a hash |

Where the code and what it promises part:

- The emptiness test of the listing queue reads byte 0 of the buffer, not the head
  (client/client.c:484-487). It is right exactly when the string last laid down at
  byte 0 is not empty, which `ListQueue.After` computes from the operations; with an
  empty mask a waiting entry is lost (`ListQueue.Execute`, `ListQueue.EmptyStringIsLost`).
- Chunked download translation leaves one stray CR for every chunk boundary between
  a CR and its LF (`TextTranslation.ChunkedDownload`); for fixed-size reads
  `TextTransfer.PutThenGet` gives the exact condition on the text, and
  `TextTransfer.SplitPair` a text that does not meet it.
- The byte limit of cifsdd is a 64-bit product and wraps; it is looked at only after
  an output block has been read, so that a count of zero copies something, and input
  blocks smaller than the output block overshoot. `DdCopy.CopyFiles` and
  `DdCopy.CountMet` say what is read for all block sizes and counts, with full-size
  transfers, and exactly when that is what was asked for; `DdCopy.OddCopies` are runs
  where it is not, and `DdCopy.CountDefault` is the case of the defaults, which
  overflow as well.
- `smbcli_deltree` clears the read-only attribute of everything inside the tree but
  not of its top, so a read-only top is emptied and stays (`DelTree.DelTree`). Its
  comment promises the number of files deleted; files that the wildcard deletion
  removes are not counted, so that the number is sure to be right only for a tree
  without writable files below its top, and with complete wildcard deletions right
  for no other (`DelTree.DelTree`, `DelTree.Miscount`).
- `dos_clean_name` turns a path that climbs above the root into the empty string. It
  does not remove all double separators and all `.` components: three separators in a
  row become two, one of two `.` side by side stays, and what is still there counts
  as a level for `..`. `PathMeaning.CleanNameMeets` is the exact condition;
  `PathMeaning.TripleBecomesDouble`, `PathMeaning.DotIsALevel` and
  `PathMeaning.DotStays` are paths that do not meet it. A `..` at the very end is cut
  off and not resolved (`PathMeaning.FinalDotDot`).
- auth/auth_sam_reply.c:55 assigns `bad_password_count` to itself, so that the field
  never leaves its zero; session keys of an unusual size and all-zero keys come back
  empty (`LogonIdentity.IdentityRoundTrip`, `LogonIdentity.KeyRoundTrip`).
- A promotion that has done everything ends with the status "not implemented"
  (libnet/libnet_become_dc.c:1935); the model keeps it and uses it as the mark of a
  complete run. A pull reply without any object makes the code follow a null pointer
  (libnet/libnet_become_dc.c:1664); the model ends the run there with a status of
  its own.
- The comment at client/client.c:549-555 wants the queue head copied before the
  search; the code keeps a pointer. The model copies, and `DirectoryWalk.Walker.ListOne`
  says when the buffer is reallocated under that pointer, which leaves it stale unless
  the block happens to stay in place: exactly when the masks that the search queues do
  not fit; `DirectoryWalk.HeadMoves` is such a search.

## Model

| member | source | states |
|---|---|---|
| `RemoteFile.WriteAtBytes` | libcli/clireadwrite.c:105-126 | one write changes exactly the bytes it covers, pads a gap with zeros and keeps every other byte |
| `RemoteFile.WriteAtCompose` | libcli/clireadwrite.c:105-126 | two adjacent writes are one write of the concatenation |
| `RemoteFile.ReadAtCompose` | libcli/clireadwrite.c:54-74 | two adjacent reads are one read, if the first was not cut short |
| `RemoteFile.ReadAtSplit` | client/cifsddio.c:413-494 | a read can be taken apart at any point that it reached |
| `RemoteFile.ReadBack` | libcli/clireadwrite.c:28-129 | reading where data was written gives the data |
| `SmbFileIo.FirstBlock` | libcli/clireadwrite.c:47-48 | the block size that a packet size leaves, in 32-bit arithmetic: at most 65535, and zero if and only if the packet is as large as the overhead |
| `SmbFileIo.NextBlock` | libcli/clireadwrite.c:50-53 | a request never exceeds what is left, and is empty only if nothing is left or the block size is zero; a negative block size counts as huge |
| `SmbFileIo.Read` | libcli/clireadwrite.c:28-77 | the buffer holds a prefix of the file from the offset, nothing beyond `size` is touched, no request is larger than the packet allows, and with a server that is short only at the end the chunked read is one read; -1 only for a failing server |
| `SmbFileIo.Write` | libcli/clireadwrite.c:87-129 | in every outcome the file is the old one with a prefix of the buffer written at the offset; success means all of it, however often the server stalls before it goes on; no request is larger than the packet allows |
| `SmbFileIo.SmbWrite` | libcli/clireadwrite.c:134-166 | the same with at least one request, for every packet size; the result is the bytes written, all of them if the server does not stall |
| `SmbFileIo.WriteThenRead` | libcli/clireadwrite.c:28-129 | what is written under one packet size is read back under any other, for every offset and file |
| `DdIo.InputHandle.Read` | client/cifsddio.c:159-195 | the offset advances by what was stored; no bytes and no error only at the end of the file |
| `DdIo.OutputHandle.Write` | client/cifsddio.c:197-226 | the offset advances by what was written, and the file changes exactly there |
| `DdIo.BlocksAre` | client/cifsddio.c:378-404 | the number of blocks that hold `n` bytes, at least one, is known by its two inequalities |
| `DdIo.GainingStep` | client/cifsddio.c:378-404 | full-size reads gain whole blocks, each begun before there was enough, or all that is there |
| `DdIo.FillBlock` | client/cifsddio.c:367-407 | the buffer gains exactly the bytes that the input lost, whatever short reads occur; stops at `needSize`, at the end of file or on error; stays within `needSize + blockSize - 1`; with full-size reads exactly how much it gains; statistics stay consistent |
| `DdIo.WriteCounted` | client/cifsddio.c:423-467 | one write with the zero-byte error and its statistics |
| `DdIo.WriteFullBlocks` | client/cifsddio.c:441-467 | writes a prefix of the rest of the buffer until less than a block is left, under any short writes; with full-size writes the rest modulo the block size is left |
| `DdIo.ShiftToHead` | client/cifsddio.c:475-482 | the remainder is at the head of the buffer, also when the regions overlap |
| `DdIo.FlushBlock` | client/cifsddio.c:413-494 | the output gains exactly the bytes that left the buffer and the rest is kept in order at its head; less than a block remains, with full-size writes exactly how much; "flushed more than buffered" does not happen; an empty buffer is an error |
| `DdIo.CountAccounts` | client/cifsddio.c:393-403 | each transfer keeps `full*bs + partial <= bytes <= full*bs + partial*(bs-1)` |
| `DdCopy.FillConserves` | client/cifsddio.c:378-404 | written bytes ++ pending bytes = consumed input is kept by every fill |
| `DdCopy.FlushConserves` | client/cifsddio.c:441-491 | the same is kept by every flush of any prefix |
| `DdCopy.Refill` | client/cifsdd.c:476-486 | a fill from any loop head keeps the stream conserved and needs at most `obs + ibs - 1` bytes of buffer, also when it fails |
| `DdCopy.Drain` | client/cifsdd.c:493-504 | a flush keeps the stream conserved and leaves less than `obs` bytes; after an error the file still holds a prefix of the input |
| `DdCopy.DrainAll` | client/cifsdd.c:464-474 | the flush at end of file empties the buffer and ends |
| `DdCopy.WithinLimitStep` | client/cifsdd.c:488-491 | one fill overshoots the byte limit by less than `obs + ibs` |
| `DdCopy.ReachBeyond` | client/cifsdd.c:476-491 | the number of output blocks at which a copy stops is the least for which the input blocks that it takes reach the limit |
| `DdCopy.NextReach` | client/cifsddio.c:378-404 | a fill from any loop head reads exactly up to the input blocks that the next output block takes |
| `DdCopy.FullRound` | client/cifsdd.c:476-504 | a round with full-size transfers stays on whole blocks below the limit, or stops exactly where the closed form says |
| `DdCopy.OnTheWayStep` | client/cifsdd.c:476-504 | the same for every round, also one that the end of the file cuts short |
| `DdCopy.LastBlock` | client/cifsdd.c:488-491 | a limit of whole input blocks is read exactly if and only if some output block ends within the last of them |
| `DdCopy.MaxReadIsCount` | client/cifsdd.c:488-491 | for all block sizes: an endless file is read to `ibs * count` bytes if and only if the count is not zero, the product is below 2^64, and some output block ends within the last input block |
| `DdCopy.CountMet` | client/cifsdd.c:488-491 | for every file: what is read is the minimum of the file and `ibs * count` if and only if that holds, or the file ends before it makes a difference |
| `DdCopy.ExactWhenDivisible` | client/cifsdd.c:488-491 | input blocks of whole output blocks meet the condition on the last block |
| `DdCopy.CountZero` | client/cifsdd.c:488-491 | a count of zero reads what the first output block takes |
| `DdCopy.CountDefault` | client/cifsdd.c:541-545 | the defaults overflow, and still copy every file of up to 2^64 - 4096 bytes whole |
| `DdCopy.CopyWhole` | client/cifsdd.c:401-510 | the output of a whole run with full-size transfers, for every file, both block sizes and count, and exactly when it is what the count asks for |
| `DdCopy.OddCopies` | client/cifsdd.c:401-510 | runs on any file over 4096 bytes that copy 4096 bytes: a count whose limit wraps to 0, a count of 0, and one block of 512 with output blocks of 4096 |
| `DdCopy.CopyingMeans` | client/cifsdd.c:448-505 | what the loop invariant gives at every loop head: output is a prefix of consumed input, `out + data_size = in`, `data_size < obs`, limits and statistics |
| `DdCopy.CopyRound` | client/cifsdd.c:476-504 | one round keeps the invariant, and consumes input or reaches the end |
| `DdCopy.CopyLoop` | client/cifsdd.c:448-505 | the same for the main loop, from any state in which its invariant holds |
| `DdCopy.CopyFiles` | client/cifsdd.c:401-510 | over whole runs with any short reads and writes, errors and interrupts: the output is a prefix of the consumed input and nothing else; a completed run has copied all of it and has read all there is or the limit; a run is interrupted if and only if an interrupt is pending when the loop is entered for the last time, and none was pending before; an interrupted run is behind by less than `obs`, and one that is interrupted at once has done nothing; the bound on what is read; with full-size transfers exactly what is read for all block sizes and counts, and exactly when that is what the count asks for; the statistics; it ends on every input |
| `TextTranslation.ToCrLfConcat` | client/client.c:127-150 | upload translation can be done piece by piece |
| `TextTranslation.UploadAt` | client/client.c:127-150 | every LF of an upload, wherever it stands, becomes CR LF |
| `TextTranslation.UploadKeeps` | client/client.c:127-150 | text without LF is uploaded as it is |
| `TextTranslation.DownloadAt` | client/client.c:99-121 | every CR LF of a download becomes LF, wherever it stands |
| `TextTranslation.DownloadKeeps` | client/client.c:99-121 | text without CR LF is downloaded as it is |
| `TextTranslation.DownloadInvertsUpload` | client/client.c:99-150 | unchunked download translation inverts upload translation on every byte string |
| `TextTranslation.DownloadTwoPieces` | client/client.c:99-121 | two pieces translate like the whole unless the boundary splits a CR LF, and then one byte too many comes out |
| `TextTranslation.ChunkedDownload` | client/client.c:734-746 | a chunked download has one extra byte per split pair, and equals the whole-file translation if and only if there is none |
| `TextTranslation.TextRoundTrip` | client/client.c:99-150 | uploaded text comes back unchanged if and only if no download chunk splits a CR LF |
| `TextTranslation.CutFlattens` | client/client.c:734-746 | fixed-size reads cut the file without loss and without empty chunks |
| `TextTranslation.CutSplits` | client/client.c:734-746 | for fixed-size reads no pair is split if and only if no multiple of the read size lies between a CR and its LF |
| `TextTransfer.LocalInput.Getc` | lib/util/xfile.c:307-324 | the bytes of the file in order, then -1; the end flag rises with the first -1 |
| `TextTransfer.ReadFile` | client/client.c:127-150 | the buffer holds the translation of exactly the bytes taken from the file and is never overrun; progress for every size of at least 2 |
| `TextTransfer.ReadTranslated` | client/client.c:135-149 | the same for the translating loop |
| `TextTransfer.WriteTranslated` | client/client.c:107-121 | the byte loop appends a prefix of the translation, all of it if it returns `n` |
| `TextTransfer.WriteFile` | client/client.c:99-121 | the same for both modes |
| `TextTransfer.Put` | client/client.c:1125-1147 | the remote file is one write of the whole translated rest of the local file; on failure, of a prefix of it |
| `TextTransfer.Get` | client/client.c:734-753 | success if and only if the chunks concatenate to the whole remote file, and then their translations were appended in order; with full reads the chunks are the fixed-size cut |
| `TextTransfer.PutThenGet` | client/client.c:734-1147 | text uploaded and downloaded again is unchanged if and only if no multiple of the read size lies between a CR and its LF of the uploaded text |
| `TextTransfer.SplitPair` | client/client.c:734-1147 | the run where an empty line, read back byte by byte, comes back with a stray CR |
| `ListQueue.PackSnoc` | client/client.c:455-463 | appending a terminated string to the packed bytes appends an entry |
| `ListQueue.PackInjective` | client/client.c:436-482 | the packed bytes determine the entries |
| `ListQueue.SafeStrcpy` | lib/util/util_str.c:97-133 | copies the string and terminator, cut to the maximum; nothing else changes |
| `ListQueue.Doubled` | client/client.c:440-453 | the old contents followed by zeros |
| `ListQueue.Queue.constructor` | client/client.c:396-408 | an empty queue |
| `ListQueue.Queue.Adjust` | client/client.c:410-434 | rewinding and sliding keep the entries; afterwards the start lies in the first half; the string at byte 0 is replaced by the head exactly if the queue slides |
| `ListQueue.Grown` | client/client.c:440-453 | doubling gives room for the new end and never more than twice what is needed |
| `ListQueue.Queue.Enlarge` | client/client.c:440-453 | the size is that of the doubling and the contents are kept; the buffer is replaced if and only if the new end does not fit; ends |
| `ListQueue.Queue.Add` | client/client.c:436-466 | the entry is appended whole, under any growth; the head stays in place if and only if it fits; the whole new layout |
| `ListQueue.Queue.Head` | client/client.c:468-471 | the first entry, wherever it lies in the buffer |
| `ListQueue.Queue.RemoveHead` | client/client.c:473-482 | drops the first entry; no effect on an empty queue; the whole new layout, with the string that lies at byte 0 from now on |
| `ListQueue.Queue.IsEmpty` | client/client.c:484-487 | true if and only if the queue is empty or the string at byte 0 is the empty string |
| `ListQueue.AnchorOfStrings` | client/client.c:388-487 | over every sequence of operations that adds no empty string, the string at byte 0 of a queue with entries is not empty |
| `ListQueue.Execute` | client/client.c:388-487 | over every sequence of operations: the entries are those of a FIFO, and the result of the emptiness test is a function of the operations alone; it is right if no empty string is added |
| `ListQueue.EmptyStringIsLost` | client/client.c:484-487 | a queue that holds one empty string reports that it is empty |
| `ListQueue.EmptyStringIsFound` | client/client.c:484-487 | an empty string that comes to the head without a slide is not lost |
| `ClientList.SearchState.Callback` | libcli/clilist.c:76-99 | appends the entry and remembers its name and id for resuming |
| `ClientList.SearchState.Deliver` | libcli/clilist.c:233-257 | a page is appended in order; the resume keys are those of its last entry |
| `ClientList.ListNew` | libcli/clilist.c:101-200 | for every way to split the search into pages, each entry is passed on once, in server order, and the count is returned; -1 passes on nothing |
| `ClientList.ListOld` | libcli/clilist.c:259-341 | the same for the core search, which resumes by id |
| `ClientList.List` | libcli/clilist.c:348-354 | the same for every dialect; a search that fails at any page gives -1 and passes on nothing |
| `DirectoryTree.DirPart` | client/client.c:507-509 | position after the last backslash, 0 if there is none |
| `DirectoryTree.VisitIsBreadthFirst` | client/client.c:542-578 | the order of the work queue is level by level |
| `DirectoryTree.VisitIsComplete` | client/client.c:542-578 | the walk visits exactly the directories of the tree, as a multiset, compared with structural recursion |
| `DirectoryTree.TreeTotalSplits` | client/client.c:492-519 | the total of a tree is that of its own entries and of its subdirectories |
| `DirectoryTree.AcceptedSnoc` | client/client.c:313-334 | one more entry is acted on if and only if it is a directory and directories are wanted, or a file that passes name, age and archive selection |
| `DirectoryTree.VisitTotal` | client/client.c:358-363 | the sum over the walk is the sum by structural recursion on the tree |
| `DirectoryTree.AcceptedPermutes` | client/client.c:492-519 | the entries acted on depend only on which directories are visited, not on the order |
| `DirectoryTree.PreorderDistinct` | client/client.c:503-513 | in a tree with file-system names every directory has its own mask |
| `DirectoryTree.VisitsOnce` | client/client.c:542-578 | no mask is searched twice |
| `DirectoryTree.SubDirsAre` | client/client.c:496-513 | what is queued for a listing: the contents of every listed directory whose name is neither `.` nor `..` |
| `DirectoryTree.ComesFrom` | client/client.c:542-578 | every directory visited after the first was listed in one visited before |
| `DirectoryTree.GoesTo` | client/client.c:542-578 | every directory listed in a visited one is visited later |
| `DirectoryTree.VisitStrip` | client/client.c:501-502 | the dot entries make no difference to the walk |
| `DirectoryTree.ServesPruned` | client/client.c:547-557 | a server some of whose searches fail serves the tree without what is inside the directories concerned |
| `DirectoryTree.PruneNothing` | client/client.c:547-557 | without failing searches that is the whole tree |
| `DirectoryTree.PruneWellNamed` | client/client.c:547-557 | pruning keeps names apart |
| `DirectoryTree.ServerExists` | client/client.c:525-590 | every tree with file-system names is served by some search, so that the listing results speak of all of them |
| `DirectoryWalk.Walker.Helper` | client/client.c:492-519 | acts on an entry once if and only if it is accepted, written out; queues exactly the directories other than `.` and `..`, with the mask of their contents written out |
| `DirectoryWalk.Walker.Found` | client/client.c:557 | a search passes on all it finds, or nothing if it fails at any page |
| `DirectoryWalk.Walker.ListOne` | client/client.c:547-557 | one search acts on all accepted entries in order and queues all subdirectories behind the others; the head, which the code refers to by a pointer, stays in place if and only if the new masks fit the buffer |
| `DirectoryWalk.HeadMoves` | client/client.c:556-557 | the run where a directory with a name of 1024 bytes makes the buffer move away from under the head |
| `DirectoryWalk.Walker.VisitHead` | client/client.c:547-559 | one round: the head is listed and dropped, its directories are at the end of the queue |
| `DirectoryWalk.Walker.Walk` | client/client.c:542-578 | the loop over the packed queue ends on every finite tree and searches exactly the masks of the abstract walk |
| `DirectoryWalk.Walker.DoList` | client/client.c:525-590 | for any set of failing searches, on the tree that is left: breadth-first order; each directory once; every search but the first is for a listed directory other than `.` and `..`, and every such directory is searched; leaving out the dot entries changes no search; the function on each accepted entry exactly once; `dir_total` is the sum of the accepted sizes |
| `DirectoryWalk.WalkMeans` | client/client.c:525-590 | the same, of the abstract walk, in terms of the tree alone |
| `DelTree.ThroughAChild` | libcli/clideltree.c:56-62 | everything below a directory lies in the tree of one of its entries |
| `DelTree.SiblingsApart` | libcli/clideltree.c:44-46 | the trees of different entries do not meet |
| `DelTree.DeletedStep` | libcli/clideltree.c:35-78 | deleting the trees of entries one after the other deletes their union and nothing else |
| `DelTree.ContentsDeleted` | libcli/clideltree.c:56-62 | once every listed entry is dealt with nothing outside the directory has changed, and with a reliable server nothing is left in it |
| `DelTree.DeleteContents` | libcli/clideltree.c:56-62 | the wildcard deletion followed by the listing removes all that lies below a directory and nothing else, over any paging |
| `DelTree.DeleteEntries` | libcli/clideltree.c:56-62 | the listed entries one after the other: their trees go and nothing else; a failure leaves one of them behind |
| `DelTree.DeleteDirectory` | libcli/clideltree.c:54-69 | the directory and its tree are gone on success; a read-only one stays, emptied |
| `DelTree.DeleteFile` | libcli/clideltree.c:70-75 | the file is gone on success, nothing else changes |
| `DelTree.DeleteEntry` | libcli/clideltree.c:48-76 | exactly the tree of the entry is removed by a reliable server, read-only entries included; counts balance |
| `DelTree.DeleteFn` | libcli/clideltree.c:35-78 | the same for a listed entry; dot entries change nothing |
| `DelTree.BooksClosed` | libcli/clideltree.c:64-76 | every path that went is counted or was swept by wildcard, or a failure is on record |
| `DelTree.ClearedWritable` | libcli/clideltree.c:48-53 | clearing a read-only file makes it the one more writable file that its deletion then takes away |
| `DelTree.NotSwept` | libcli/clideltree.c:56-62 | what a complete wildcard deletion leaves for the listing is a directory or read-only |
| `DelTree.TreeRemoved` | libcli/clideltree.c:84-121 | what goes with a tree: its paths, and among them its writable files |
| `DelTree.AllCounted` | libcli/clideltree.c:84-121 | all of a tree is counted if and only if no writable file lies below its top |
| `DelTree.DelTree` | libcli/clideltree.c:84-121 | nothing outside the tree is ever touched, written out; 0 if and only if the path does not exist, -1 if and only if it is still there afterwards; a positive result means that the whole tree is gone and lies between the number of its directories and read-only files and the number of its paths; it is the latter if no writable file lies below the top; if wildcard deletions are complete it is the former, and right if and only if no writable file lies below the top; with a reliable server the tree goes if and only if the top is not read-only |
| `DelTree.Miscount` | libcli/clideltree.c:84-121 | the run on a directory with one writable file: both paths go, the result is 1 |
| `DosPath.FindComponent` | client/client.c:84 | on an absolute path `strstr` finds the first component of the given name |
| `DosPath.CutStep` | client/client.c:84-88 | one round takes away a component and the `..` behind it |
| `DosPath.CutAtRoot` | client/client.c:84-88 | a leading `..` wipes out the path |
| `DosPath.ResolveStep` | client/client.c:84-88 | cancelling a component against the `..` behind it does not change stack-based resolution |
| `DosPath.ReduceResolves` | client/client.c:84-88 | the loop is stack-based resolution, or the empty string above the root |
| `DosPath.ReplaceThins` | lib/util/util_str.c:371-403 | on paths, substituting a separator for `\c\` drops the first `c` of a run, keeps the second, and so on |
| `DosPath.TrimLast` | lib/util/util_str.c:40-74 | trimming takes away a last component `..`, and no other |
| `DosPath.TrimmedIsRepeated` | lib/util/util_str.c:40-74 | what trimming takes away is the suffix over and over, until the string does not end in it |
| `DosPath.EveryAbsolutePath` | client/client.c:75-93 | every string that starts with a separator is a list of components and a rest behind the last separator |
| `DosPath.CleanAbsolute` | client/client.c:75-93 | what the cleaned name is, for every absolute path: thinned empty components, stack-based resolution with the remaining ones as levels, thinned `.` components, and the rest, except that a rest `..` is cut off; the empty string if the path so read climbs above the root |
| `DosPath.CleanRelative` | client/client.c:75-93 | what precedes the first separator of a relative path stays, and the rest is cleaned as an absolute path; so every string is covered |
| `DosPath.CleanNameIs` | client/client.c:75-93 | the same for a path that ends in a separator |
| `PathMeaning.ThinLeaves` | client/client.c:81-92 | a substitution leaves one of the components that it is to remove if and only if two of them are side by side |
| `PathMeaning.JunkIsALevel` | client/client.c:84-88 | an empty or `.` component that is still there takes a `..` of its own |
| `PathMeaning.DotsStay` | client/client.c:84-88 | if no `.` is taken for the level that a `..` leaves, the resolution is that without them |
| `PathMeaning.CleanNameMeets` | client/client.c:75-93 | for every absolute path that ends in a separator: the cleaned name is the resolution of its proper components if and only if the path climbs above the root anyway, or there are no three separators in a row, every `.` survives the resolution, and no two of them are then side by side |
| `PathMeaning.CleanFileMeets` | client/client.c:75-93 | the same for a path with a name behind its last separator |
| `PathMeaning.FinalDotDot` | client/client.c:90 | a `..` behind the last separator is resolved if and only if there is nothing to leave |
| `PathMeaning.CleanNameResolves` | client/client.c:75-93 | for absolute paths that end in a separator, without empty or `.` component, the cleaned name is the stack-based resolution; it is empty if and only if the path climbs above the root |
| `PathMeaning.TripleBecomesDouble` | client/client.c:81-82 | three separators become two |
| `PathMeaning.DotIsALevel` | client/client.c:84-92 | a `.` in front of a `..` is taken for the level that it leaves, whatever the name in front |
| `PathMeaning.DotStays` | client/client.c:92 | of two `.` side by side one stays |
| `DosPath.Strstr` | client/client.c:84 | the position of the first occurrence at or after a position, or none |
| `DosPath.Strrchr` | client/client.c:86 | the position of the last occurrence, or none |
| `DosPath.CutInPlace` | client/client.c:84-88 | one round on the character array amounts to the cut on strings |
| `DosPath.ReduceInPlace` | client/client.c:84-88 | the loop on the array ends on every string with the reduced string |
| `DosPath.TrimInPlace` | lib/util/util_str.c:40-74 | repeated trimming of a suffix, in place |
| `DosPath.SubstituteAll` | lib/util/util_str.c:371-403 | an insert that is not longer than the pattern is substituted everywhere, if the string was within its limit before |
| `DosPath.SubstituteFits` | lib/util/util_str.c:371-403 | the result and its terminator stay within the limit; with limit 0 the string does not grow |
| `DosPath.SubstituteInPlace` | lib/util/util_str.c:371-403 | left-to-right substitution, in place, with its length limit, for every pattern and insert |
| `DosPath.DosCleanName` | client/client.c:75-93 | on every C string the array ends up with the cleaned name; ends on every string |
| `Replication.LinkedConcat` | libnet/libnet_become_dc.c:1658-1665 | joining two disjoint linked lists gives the linked list of the concatenation |
| `Replication.Link` | libnet/libnet_become_dc.c:1660-1663 | pointing the last link of a list at another list joins them |
| `Replication.Partition.PullSend` | libnet/libnet_become_dc.c:1545-1602 | the request carries the watermark of the reply before it |
| `Replication.Partition.Tail` | libnet/libnet_become_dc.c:1664-1665 | the last item of the reply list |
| `Replication.Partition.Splice` | libnet/libnet_become_dc.c:1658-1665 | the heap list is the old one followed by the reply list, and `last_object` is its tail |
| `Replication.Partition.PullRecv` | libnet/libnet_become_dc.c:1604-1673 | which replies are acceptable, written out; such a reply is spliced in and its watermark taken over; a refused one changes nothing, and one without objects is the null dereference; the list stays the concatenation of all replies, each request the watermark of the reply before it |
| `Replication.HistoryStep` | libnet/libnet_become_dc.c:1604-1673 | one more reply extends concatenation and watermark history |
| `Replication.PullOnce` | libnet/libnet_become_dc.c:1698-1725 | against a server that answers from the watermark with at least one object, a round extends the list by exactly the next objects |
| `Replication.PullAll` | libnet/libnet_become_dc.c:1677-1725 | the loop ends with the whole naming context, without gap or duplicate, in order |
| `Promotion.ChainBehindUpdateRefs` | libnet/libnet_become_dc.c:636-1936 | behind every update-refs call lie, in this order, server DN and name check, server object modified, directory entry, schema pulled, configuration pulled, account ready, domain pulled |
| `Promotion.ChainBehindConfig` | libnet/libnet_become_dc.c:636-1775 | the part of that chain behind the pulled configuration, all about one and the same server DN |
| `Promotion.NoWriteBeforeNameCheck` | libnet/libnet_become_dc.c:636-888 | every change to the directory comes after the check for a name collision |
| `Promotion.NoRequestAfterPulled` | libnet/libnet_become_dc.c:1718-1830 | a partition is not asked for again once it has been pulled |
| `Promotion.BecomeDc.ServerObject1` | libnet/libnet_become_dc.c:636-689 | the status of every answer: a collision if and only if the object refers to another computer, and then nothing has happened; success if and only if the object is absent, or ours and named; the log in each case |
| `Promotion.BecomeDc.ServerObject2` | libnet/libnet_become_dc.c:691-734 | looks up the back link only if no object is known; status, DN and log in each case; writes nothing |
| `Promotion.BecomeDc.ServerObjectAdd` | libnet/libnet_become_dc.c:736-783 | creates the object only if none is known; afterwards its DN is known; the log in each case |
| `Promotion.BecomeDc.ServerObjectModify` | libnet/libnet_become_dc.c:785-833 | modifies the object with the known DN once, and once more if the reference exists |
| `Promotion.BecomeDc.ServerObjects` | libnet/libnet_become_dc.c:875-885 | the status and the log of the four steps, and the DN of the server object |
| `Promotion.Ldap1OkIs` | libnet/libnet_become_dc.c:841-888 | the status of the sequence is success if and only if everything went well that has to, and a collision if and only if the name is taken |
| `Promotion.FirstFailureAt` | libnet/libnet_become_dc.c:848-872 | the status of a sequence of lookups is that of the first that fails |
| `Promotion.LookUp` | libnet/libnet_become_dc.c:848-872 | the nine lookups stop at the first that fails, with its status |
| `Promotion.BecomeDc.ConnectLdap1` | libnet/libnet_become_dc.c:841-888 | succeeds if and only if all its steps can; status and log in every case; the first lookup that fails ends it with its status, before anything is written; on success the server object has a DN and was modified; a collision leaves the directory untouched |
| `Promotion.BecomeDc.OnCldap` | libnet/libnet_become_dc.c:142-166 | goes on to the first pipe if and only if the answer and all LDAP steps are good |
| `Promotion.BecomeDc.OnConnect` | libnet/libnet_become_dc.c:919-1543 | each pipe leads to its own next step; the third one sends the first request for the schema, with a zero watermark |
| `Promotion.BecomeDc.OnBind` | libnet/libnet_become_dc.c:1027-1529 | the first bind adds the entry of the known server DN, the second opens the third pipe |
| `Promotion.BecomeDc.OnAddEntry` | libnet/libnet_become_dc.c:1421-1491 | goes on to the second pipe, or ends |
| `Promotion.BecomeDc.SendPull` | libnet/libnet_become_dc.c:1677-1796 | the request carries the partition's watermark; the other partitions are as they were |
| `Promotion.BecomeDc.Receive` | libnet/libnet_become_dc.c:1604-1673 | only the partition being pulled changes; the three heap lists stay disjoint |
| `Promotion.BecomeDc.OnPull` | libnet/libnet_become_dc.c:1698-1832 | only the partition being pulled gains the objects and the reply, and only if it is acceptable; exactly what is added to the log; asks again with the new watermark if and only if more is to come; else the next partition, the account or the references |
| `Promotion.BecomeDc.SchemaPulled` | libnet/libnet_become_dc.c:1718-1725 | configuration is requested from a zero watermark |
| `Promotion.BecomeDc.ConfigPulled` | libnet/libnet_become_dc.c:1768-1775 | the domain is requested if and only if the account could be changed and moved; exactly what is added to the log |
| `Promotion.BecomeDc.DomainPulled` | libnet/libnet_become_dc.c:1824-1832 | the first update-refs call, for the schema |
| `Promotion.BecomeDc.ModifyComputer` | libnet/libnet_become_dc.c:1938-1978 | a modification if and only if the flags are not yet right |
| `Promotion.BecomeDc.MoveComputer` | libnet/libnet_become_dc.c:1980-2034 | a rename if and only if the place is not yet right; the DN is updated |
| `Promotion.BecomeDc.ConnectLdap2` | libnet/libnet_become_dc.c:2036-2050 | succeeds if and only if flags and place are or can be made right; on success the log has the modification if and only if the flags were not right, then the move if and only if the place was not, then the ready account; what it has on each failure |
| `Promotion.BecomeDc.ChangeAccount` | libnet/libnet_become_dc.c:1768-2047 | the same behind the complete configuration, with everything ready for the first request for the domain |
| `Promotion.BecomeDc.OnRefs` | libnet/libnet_become_dc.c:1871-1936 | schema, configuration, domain, then the end |
| `PromotionRuns.StepRank` | libnet/libnet_become_dc.c:142-2050 | an answer changes nothing, moves on by exactly one stage or ends with an error |
| `PromotionRuns.OnlyForward` | libnet/libnet_become_dc.c:142-2050 | over whole runs no stage comes back, and an ended promotion stays as it is |
| `PromotionRuns.NeverOk` | libnet/libnet_become_dc.c:142-2050 | over whole runs, no promotion ends with success: it fails, or it gets to the last callback |
| `PromotionRuns.ThroughEveryStage` | libnet/libnet_become_dc.c:142-2050 | over whole runs, a stage is reached only through all stages before it |
| `PromotionRuns.StepAdvances` | libnet/libnet_become_dc.c:142-2050 | a good answer that was waited for never fails the promotion, and moves it on by one stage unless more of a partition is to come |
| `PromotionRuns.StageCounts` | libnet/libnet_become_dc.c:142-2050 | over whole runs without failure, the promotion is as many stages on as it got advancing answers, and complete if and only if these are thirteen |
| `PromotionRuns.Deliver` | libnet/libnet_become_dc.c:142-2050 | an answer of any kind, expected or not, takes the promotion where the step relation says; it adds its chunk to the replies of the partition being pulled if it is acceptable, and to no other; exactly what it adds to the log |
| `Promotion.RequestsSkip` | libnet/libnet_become_dc.c:1545-1602 | only request events matter to the requests of a log |
| `PromotionRuns.Run` | libnet/libnet_become_dc.c:142-2050 | every sequence of answers gives a trace of the step relation and a log in the required order; each list is the concatenation of the objects of the answers accepted while its partition was being pulled; the requests in the log start from a zero watermark and continue with the watermarks of those answers; a run that reaches the last callback has sent the last update-refs call; no run reports success; the log is exactly that of the answers |
| `PromotionRuns.AccountAsRead` | libnet/libnet_become_dc.c:597-2050 | from the first LDAP connection to the second, the account is as it was read |
| `PromotionRuns.AccountOnRecord` | libnet/libnet_become_dc.c:1938-2050 | in every run whose account is ready, between the complete configuration and that there is a modification if and only if the flags read at the beginning were not right, and a move if and only if the place was not |
| `PromotionRuns.PullFrom` | libnet/libnet_become_dc.c:1698-1832 | against a server that answers from the watermark, a partition is pulled whole and the others stay as they are |
| `PromotionRuns.Promote` | libnet/libnet_become_dc.c:142-2050 | with good answers and three such servers the promotion completes, each list is the whole naming context in order, and the log without its requests is the list of all steps, written out |
| `LogonIdentity.ConvertBase` | auth/auth_sam_reply.c:29-108 | every field of the record: the account SID is domain SID plus RID, the groups of the domain in order with their attributes, keys of wire size or zeros |
| `LogonIdentity.ConvertSam3` | auth/auth_sam_reply.c:110-150 | the base record, the other groups in order, and the flag for extra SIDs |
| `LogonIdentity.MakeServerInfo` | auth/auth_util.c:235-366 | the fields of the identity at every level: account, primary group and groups are the domain with the RIDs of the record, keys that are not all zero; a missing record and an unknown level are errors; extra SIDs at level 3 only |
| `LogonIdentity.RebuiltSid` | libcli/security/dom_sid.c:196-260 | a SID is rebuilt from domain and last RID if and only if it is the domain plus one RID |
| `LogonIdentity.PartitionIsComplete` | auth/auth_sam_reply.c:66-146 | groups of the domain and other groups are together exactly the groups |
| `LogonIdentity.GroupsRoundTrip` | auth/auth_util.c:283-320 | the groups come back as the stable partition if and only if each group of the domain is the domain plus one RID |
| `LogonIdentity.RoundTripAt` | auth/auth_util.c:283-320 | the same at any level: other levels bring back the groups of the domain only, and everything else as level 3 |
| `LogonIdentity.ThereAndBack` | auth/auth_util.c:235-366 | an identity sent and received at level 2, 3 or 6: every field that comes back, and exactly when groups and primary group do |
| `LogonIdentity.ExtraSidsFlag` | auth/auth_sam_reply.c:129-146 | the two counts add up; the flag is set if and only if a foreign group exists |
| `LogonIdentity.KeyRoundTrip` | auth/auth_util.c:348-362 | a key survives if and only if it is empty, or of full size and not all zero; any other comes back empty |
| `LogonIdentity.IdentityRoundTrip` | auth/auth_util.c:276-366 | the account SID always comes back, the primary group if and only if it is the account's domain plus one RID; everything else is listed in one equation |
| `LogonIdentity.RoundTripIsIdempotent` | auth/auth_util.c:276-366 | a second round trip changes nothing more |
| `NtlmCheck.CheckV1` | auth/ntlm_check.c:32-79 | passes if and only if there is a hash, the sizes are right and the response is the encrypted challenge, with the key of the hash |
| `NtlmCheck.CheckV2` | auth/ntlm_check.c:86-153 | passes if and only if the first 16 bytes prove the key over challenge and client data |
| `NtlmCheck.SessKeyV2` | auth/ntlm_check.c:160-204 | fails if and only if the shape is wrong or the one-way function fails; the key otherwise |
| `NtlmCheck.HashPasswordCheck` | auth/ntlm_check.c:221-264 | accepted if and only if the deciding pair of hashes agrees; exactly when the name is refused instead |
| `NtlmCheck.TryV2` | auth/ntlm_check.c:344-389 | the first of the three domain variants that passes, with its key |
| `NtlmCheck.LmFieldV2` | auth/ntlm_check.c:465-597 | the first of LMv2 and NT-in-LM paths, its keys, or the refusal |
| `NtlmCheck.DecisionMeans` | auth/ntlm_check.c:339-597 | what the first accepting path says about key sizes, the LM key as head of the user key, missing keys, and the policy |
| `NtlmCheck.NtlmPasswordCheck` | auth/ntlm_check.c:283-598 | in terms of the primitives, exactly which responses are accepted under which policy, and which cleartext passwords; the outcome and keys of the first path, in a fixed order of nine, that is enabled and passes, else the refusal; only by version 2 if version 1 and LANMAN are off; the shapes of the keys; exactly when the name is refused instead of the password, cleartext included |
| `NtlmCheck.CheckResponses` | auth/ntlm_check.c:339-597 | the part about responses to a challenge |
| `NtlmCheck.OrderIsComplete` | auth/ntlm_check.c:339-597 | every path is in that order |
| `NtlmCheck.AcceptedIff` | auth/ntlm_check.c:339-597 | accepted if and only if some path is enabled and passes |
| `NtlmCheck.AcceptsWrittenOut` | auth/ntlm_check.c:339-597 | the same in terms of the cryptographic primitives: which bytes of which field have to be what |
| `NtlmCheck.OnlyV2WhenV1Disabled` | auth/ntlm_check.c:339-597 | with NTLMv1 and LANMAN off, success means that one of the six version 2 checks passed |
| `NtlmCheck.SessionKeyAfterLmV2` | auth/ntlm_check.c:465-540 | after an LMv2 success the session key of the NT field cannot fail |
| `NtlmCheck.KeyShapes` | auth/ntlm_check.c:344-587 | sizes of the keys; the LM key is the head of the user key on all paths but NTLMv1 in the NT field; no user key if and only if the path is NT-in-LM without LANMAN hash or policy |
| `NtlmCheck.WrongNtIsFinal` | auth/ntlm_check.c:391-421 | a wrong 24-byte NT response cannot be made up for by any LM response |
| `NtlmClients.NtlmV1` | auth/ntlm_check.c:391-416 | an NTLMv1 client with the stored hash gets in with the key that it computes itself; if no two hashes answer alike, only such a client does |
| `NtlmClients.LanMan` | auth/ntlm_check.c:433-463 | the same for a LAN Manager client, whose key is the padded head of the hash |
| `NtlmClients.NtlmV2` | auth/ntlm_check.c:344-389 | an NTLMv2 client with the stored hash gets in with its own key, under each of the three domain variants; with any other hash it does not, if no other hash proves the same |
| `NtlmClients.LmV2` | auth/ntlm_check.c:470-560 | the same for an LMv2 client; its key is made from the NT field if that holds a version 2 response, even a wrong one |
| `NtlmClients.NtlmV1InLm` | auth/ntlm_check.c:562-587 | an NTLMv1 response in the LM field gets in, with the keys of a LAN Manager client or none |

## Left out

- auth/auth.c (challenge selection, dispatch over the method list, the timed event): a first-match loop that would only add easy members.
- The cryptographic primitives and character-set conversions: parameters of `NtlmCheck`, any deterministic functions of the right output sizes.
- Memory allocation and its failures, talloc ownership, `DEBUG` output and user messages.
- Opening and closing of files and connections, transfer timing, SIGUSR1 statistics printing, argument parsing of cifsdd; block sizes are positive, as the assertions at client/cifsddio.c:375-376 demand.
- Integer widths other than the 64-bit products of cifsdd (byte limit, skip, seek): unbounded. In particular `2 * MAX(ibs, obs)` does not wrap and `dir_total`, a floating-point number, is a natural number.
- Local file handles of cifsdd (client/cifsddio.c:42-92): the CIFS handles are modelled, and the model's offset-keeping handle behaves alike.
- SmbFileIo.Read: a packet size equal to the request overhead, 67 bytes, is outside its precondition; the block size is then zero and the loop of the code does not end. Requests of 2^31 bytes and more, which a smaller packet size could lead to, are not truncated.
- SmbFileIo.Write: the same packet size is excluded; the server may accept nothing any finite number of times (`stalls`), but not for ever, since the loop of the code does not end then.
- SmbFileIo.SmbWrite: the old-style write of zero bytes, which servers take as a truncation, writes nothing here.
- ListQueue.Queue.Head: gives a copied value, not the pointer into the buffer that the code keeps; the reset queue without a buffer is not modelled.
- DirectoryWalk.Walker.DoList: the applied function is `do_du`; the directory line that is printed between two searches, which edits the queue in place and restores it, is left out. Whether a search fails depends on its mask.
- Mask matching (`mask_match`) is a parameter of the filter; the conversion of search results from the several information levels into one record is left out.
- ClientList.ListNew: the server is taken to resume right after the entry it is given, and names within one search to be distinct.
- ClientList.ListOld: the same with distinct resume ids.
- DelTree.DelTree: paths are compared exactly, a server refuses to remove a read-only directory, and an unlink error other than "not found" has one cause.
- Replication.Partition.PullRecv: the fields that the code overwrites just before it follows a null pointer stay as they were. Decompression and the attribute lists of an object are left out.
- Promotion.BecomeDc.ConnectLdap1: what the first lookups read, apart from the computer object, is left out; DNs are compared as strings.
- Promotion.BecomeDc.OnBind: the contents of bind and add-entry requests are left out; their replies are a success or a failure.
- LogonIdentity.MakeServerInfo: the three record types of the union are one type, of which levels 2 and 6 use the base alone.
- LogonIdentity.ConvertBase: SIDs of which the code takes the last sub-authority have at least one.
- The remaining commands of smbclient, the other authentication back ends, join, password and share calls, and all server sockets.
