# Verified model of the stock server

This project models a small C stock server and proves properties of the model. The server keeps one
table of items (id, stock, price) in memory, answers `show`, `buy`, `sell` and `exit` over TCP with a
pool of worker threads, and publishes the table to disk in numbered generations, at its first start
and at shutdown. `main` recovers, serves and publishes, and may be stopped between any two calls.

## How the model is laid out

| module | what it stands for |
|---|---|
| `Text` | byte strings as the C library prints, scans and splits them |
| `Stock` | records, the finite map a store stands for, and what each request does to it (`Serve`) |
| `Records` | the stock image, the log and the manifest as texts: parse, print, load, replay |
| `Response`, `Visitors`, `Store` | the growing reply buffer, the walk's callbacks, and the heap BST |
| `Names`, `Disk` | directory names and their generation numbers; files, directory entries and what of them is durable |
| `Loader`, `Generations`, `Publish`, `Recover` | loading loops, the generation invariant, publication and startup |
| `Sessions`, `History` | what the requests of many sessions make of a store; whole histories of processes and crashes |
| `Unordered` | where and exactly when the bootstrap fails if directory updates are not ordered |
| `Rio`, `Parser`, `Server` | buffered line input and robust output, request lines, and one client connection |
| `LockedStore` | all workers on one store, one step per lock, find, check, read, write and unlock |
| `Pool` | the accepting thread, the workers, the 64-slot ring, its semaphores and the shutdown pills |
| `WholeServer` | the pool's workers stepping on the shared store: one whole session of the running server |

Code that works in place is a class or a loop here too: the tree nodes, the reply buffer, the line
reader, the ring and the data directory are objects with `modifies` clauses, and each method is
proved against a function on values. The protocols that are about interleaving (`LockedStore`, `Pool`
and both together in `WholeServer`) are step machines; every theorem about them is about every sequence
of steps.

### The file system

`Disk.Fs` holds files and a *trail* of directories: the directory as of the last successful directory
fsync, then its state after each entry change since. A file's contents are durable only after `fsync`
on it. A crash (`Disk.CrashImage`) keeps synced files, replaces the contents of all others by anything,
and keeps entry changes according to a parameter:

- `Unordered`: each name has, independently, any of the values it had in the trail, but one file never
  has two names, because `rename` is atomic. This includes the loss of any subset of the changes.
- `Ordered`: a prefix of the changes survives, as on a journaling file system.

Every system call may fail, and the process may end inside it (`Halted`); both are excluded only where a
contract says `reliable`. All safety results hold for both orders. Only bootstrap re-entry needs
`Ordered`. For `Unordered` it is false: a start unlinks the marker before it syncs the directory, and that
unlink can survive a crash alone. There are two causes. A start that clears an interrupted bootstrap
unlinks the artifacts first, and their removal may be lost (`Unordered.BreaksBootstrap` goes from a first
directory to such a crash). A start that finds the marker beside a manifest whose rename is not yet durable
unlinks the marker too, and the rename may be lost (`Unordered.RenamedBootstrapIsRisk` gives the input).
`Unordered.NeverStarts` says that no later start succeeds then. `Unordered.StartAtRiskExactly` is the exact
condition on the directory before the start, if no crash could have spoilt it already: it is at risk if and only if the marker is there and, when a
manifest is too, the directory was without one at some point since its last fsync, and when none is, it
has held an artifact since then. A start without the risk leaves no directory that a crash could spoil,
wherever it stops (`Recover.RecoverStockStore`). Right after a power loss only the first cause can be, and
the condition says that marker and artifact are there and no manifest.

### Main results

1. Any history of starts, publications, I/O failures and crashes: the durable generation never goes
   down, and what any manifest names, durable or visible, reads back as exactly the store that a line of
   the sessions made of the init file, each session starting from what the one before it in the line
   published. Every session whose process reported success is in that line, so success is durable, and
   none is whose process stopped before its publication
   (`History.AnyHistory`, `History.ReadsBackAsServed`, `History.SuccessIsDurable`; `History.RunProcess`
   says what one process adds).
2. A crash during a publication leaves exactly the old or exactly the new store, if the old generation
   was safe when the publication began (`Generations.AtomicPublication`). It was safe if and only if no
   other generation was the visible one since the last directory fsync
   (`History.GenerationSafeExactly`). That is not always so: if the rename of a manifest succeeds and
   the directory fsync after it does not, a restart without power loss serves the new generation and a
   power loss brings the one before it back (`History.RenamedIsNotSafe`).
   `History.PublishCrashRecover` covers all cases.
3. With ordered directory updates, after any number of interrupted starts the next start without faults
   succeeds (`History.NextStartSucceeds`).
4. Any run of clean sessions through the real calls ends with the store of one session with all the
   requests, and stock is conserved (`History.CleanSessions`, `Sessions.StockConserved`).
5. Every interleaving of the workers is the sequential run in lock order of exactly what their clients
   asked, and a full `show` sees one committed table (`LockedStore.EveryRunIsSequential`,
   `LockedStore.ShowSeesOneState`).
6. The ring never overwrites a full cell or reads an empty one and is first-in first-out; nothing
   deadlocks; shutdown ends within a bound, with every accepted connection taken before any pill
   (`Pool.BoundedBuffer`, `Pool.DeadlockFree`, `Pool.ShutdownEnds`, `Pool.GracefulShutdown`). With the
   store on top, and each worker hearing the requests among its connections' own lines, the end of a
   session leaves every connection answered, every worker at rest and the store that serving the requests
   one by one makes (`WholeServer.SessionServed`), and shutdown still ends within a bound, waiting for the
   mutex and walking included (`WholeServer.ShutdownEnds`).
7. A client's bytes determine its replies, however they are cut up on the way, and printed requests are
   answered as the sequential run answers them (`Server.HandleClient`, `Server.PrintedRequestsAreServed`).

### Where the code and its documents differ

`docs/04_persistence_design.md` says that a successful buy or sell is appended to the log before the
reply. The code only changes memory (`src/stock_server.c:536-562`). The model follows the code: nothing
here says that a request answered "success" survives a crash, only that a published generation does.

### Assumptions

- No sell brings a stock above `INT_MAX` (`Stock.DeltaFits`; the code does not check), and the generation
  number stays below `LLONG_MAX`. The histories are stated for all request lists by leaving such sells out
  (`Sessions.Fitting`); they say something about the code where there are none, and then nothing is left
  out (`Sessions.PlayedWhole`, and a clause of `History.ReadsBackAsServed`).
- In histories, a data directory starts as `History.FirstDirectoryIsOurs` describes it, with a durable init
  file, or as any directory that meets `History.Ours`, and only this program writes to it.
  `Recover.RecoverStockStore` itself needs no init file.
- `pthread` calls, semaphores and memory allocation do not fail.

## Model

| member | source | states |
|---|---|---|
| Text.ScanPrinted | src/stock_persistence.c:214-232 | `%d` reading inverts `%d` printing for every int, after any white space and before any text that does not go on with a digit |
| Text.IntTextLength | src/stock_server.c:567-574 | a printed int has at most 11 characters, digits and a minus sign |
| Text.ScanIntReads | src/stock_server.c:579-593 | after any of the six white space characters, any sign and any digits, leading zeros included, are read as their decimal value, up to the first character that is no digit |
| Text.ScanIntOnly | src/stock_server.c:579-593 | and nothing else is read: whatever is read was white space and such a numeral |
| Text.PrintedNumeral | src/stock_server.c:567-574 | a printed int is a numeral of its value, with a sign only if it is negative and no superfluous zeros |
| Text.PieceShape | src/csapp.c:857-879 | a piece has a newline only at its end, and it ends with one, or is full, or is all that is left |
| Text.PieceUnique | src/csapp.c:857-879 | the shape decides the length: no other piece of the stream qualifies |
| Text.PiecesConcat | src/csapp.c:857-879 | the pieces of a stream joined in order are the stream |
| Text.PiecesOfLines | src/csapp.c:857-879 | a stream of lines that fit the buffer is cut into exactly those lines |
| Stock.AscendingUnique | src/stock_store.c:236-255 | a table has only one listing in ascending id order |
| Stock.MapOfDistinct | src/stock_persistence.c:301-316 | the table of rows with distinct ids has exactly these ids, each with its own stock and price |
| Stock.BuyMeans | src/stock_store.c:211-227 | a buy is answered "success" and lowers the one stock if there is at least as much, "not enough left stock" if there is less, "stock not found" if there is no such item, and changes nothing then |
| Stock.SellMeans | src/stock_store.c:211-227 | a sell is answered "success" and raises the one stock, or "stock not found" |
| Stock.ShowOneMeans | src/stock_server.c:515-521 | the item's id, stock and price on a line, or "stock not found" |
| Stock.ShowAllMeans | src/stock_server.c:510-513 | each item of the table on a line of its own, in ascending id order |
| Stock.HypothesesMean | src/stock_server.c:440-466 | what valid requests, fitting sells and valid stores are, in numbers |
| Stock.ServeKeepsGood | src/stock_store.c:211-227 | no request leaves the valid stores or changes an id or a price |
| Records.ServeAllKeepsGood | src/stock_store.c:211-227 | nor does any sequence of requests |
| Records.BlankLines | src/stock_persistence.c:79-89 | lines of white space, and no others, are skipped in all three files |
| Records.RowReads | src/stock_persistence.c:214-232 | three numerals between white space, in the order id, stock, price, are a record; anything but white space after them makes the line malformed |
| Records.RowOnly | src/stock_persistence.c:214-232 | and every line accepted as a record is such a line |
| Records.LogReads | src/stock_persistence.c:240-268 | BUY or SELL and two numerals are a log record; any other word, or anything but white space after them, is malformed |
| Records.ManifestReads | src/stock_persistence.c:276-293 | gen and one positive numeral are a manifest record; anything else on the line is malformed |
| Records.SkippedLines | src/stock_persistence.c:366-372 | blank lines change nothing, wherever they stand |
| Records.ManifestExactly | src/stock_persistence.c:491-520 | a manifest is accepted exactly when all its lines are blank but one, which names the generation |
| Records.FilesAreLines | src/stock_persistence.c:364-388 | files are read in lines of at most 8191 characters |
| Records.ParseRowInvertsPrint | src/stock_persistence.c:214-232 | the printed line of every valid record is parsed back to it |
| Records.LoadInvertsPrint | src/stock_persistence.c:349-403 | loading a printed listing into an empty store never fails and gives back its table |
| Records.LoadAnyOrder | src/stock_persistence.c:301-316 | the printed lines of any rows in any order load, as the table of the rows, exactly when all ids are positive, no stock or price is negative and no id occurs twice; otherwise the image is invalid |
| Records.LoadStopsAtFirstBad | src/stock_persistence.c:349-403 | a load that fails has the effect of exactly the lines before one bad line, which alone fails there with the same status |
| Records.SnapshotRoundTrip | src/stock_persistence.c:707-764 | saving and loading any valid store gives the same table and the same listing, whatever the shape of the tree |
| Records.LoadTextKeepsGood | src/stock_persistence.c:301-316 | whatever the text, a load only ever builds valid stores |
| Records.ManifestRoundTrip | src/stock_persistence.c:473-522 | the manifest written for a generation is read back as that generation |
| Records.ParseManifestInvertsPrint | src/stock_persistence.c:276-293 | the printed manifest line of every positive generation is parsed back to it |
| Records.ParseLogInvertsPrint | src/stock_persistence.c:240-268 | the printed log line of every record is parsed back to it |
| Records.ReplayAgreesWithServing | src/stock_persistence.c:411-465 | for any requests on a valid store, replaying the log of the successful buys and sells succeeds and reaches the store that serving reached |
| Records.ReplayStopsAtFirstBad | src/stock_persistence.c:411-465 | a replay that fails has the effect of exactly the lines before one bad line, which alone fails there with the same status |
| Response.Builder.constructor | src/stock_server.c:617-623 | the buffer starts empty and terminated |
| Response.Builder.EnsureCapacity | src/stock_server.c:701-728 | succeeds exactly when length, addition and NUL fit a size; no size wraps around, doubling ends, nothing in the buffer is lost |
| Response.Builder.Append | src/stock_server.c:639-654 | on success the text is the old text and the new one, terminated; on failure nothing changed |
| Response.Builder.AppendF | src/stock_server.c:659-696 | the same for formatted text; the second formatting always fits |
| Response.AppendAll | src/stock_server.c:617-728 | any run of appends gives the concatenation in order, however often the buffer grew, and fails only when that cannot fit a size |
| Visitors.Visit | src/stock_server.c:567-574 | a visit that succeeds adds exactly the row's printed line, or one to the count; a visit that fails adds nothing |
| Store.PutIsUpdate | src/stock_store.c:115-135 | putting a row into an ascending listing is the map update |
| Store.PutAscends | src/stock_store.c:115-135 | and keeps the listing ascending |
| Store.FindMeans | src/stock_store.c:94-108 | the search returns a node of the tree with the id, or there is no row with it |
| Store.UpsertItem | src/stock_store.c:115-135 | the tree stays an ordered, disjoint, acyclic tree and its listing gains or replaces exactly the one row |
| Store.Walk | src/stock_store.c:236-255 | visits the rows ascending and each once, and stops after the first visit that fails: what was produced is a prefix of the listing, all of it exactly on success |
| Store.StockStore.constructor | src/stock_store.c:142-154 | a new store is empty |
| Store.StockStore.FindNolock | src/stock_store.c:181-190 | succeeds exactly for the ids of the table, with the item's stock and price |
| Store.StockStore.UpsertNolock | src/stock_store.c:198-203 | the table is updated at the one id |
| Store.StockStore.ApplyDeltaNolock | src/stock_store.c:211-227 | one stock changes by the delta, or nothing changes and the status says why |
| Store.StockStore.Count | src/stock_store.c:277-287 | the number of items of the table |
| Names.SuffixOfClassified | src/stock_persistence.c:97-126 | on every string the name test agrees with the classification of names that the disk model uses, which loses nothing of the string |
| Names.SuffixInvertsRender | src/stock_persistence.c:97-146 | the name built for a positive generation decodes to that generation |
| Names.GenOfExactly | src/stock_persistence.c:97-126 | a name carries generation g exactly when it is a snapshot's or log's name with a suffix that is a numeral of value g, from 1 to the largest long long |
| Names.NamesMean | src/stock_persistence.c:6-19 | which names are artifacts, which fit the path buffer, and how the fixed names are spelled |
| Names.GenerationPathFits | src/stock_persistence.c:134-146 | a generation's path always fits its buffer |
| Disk.AnySubsetMayRemain | src/stock_persistence.c:172-206 | unordered crashes cover the loss of any subset of the entry changes since the directory fsync |
| Disk.WrittenMayBeLost | src/stock_persistence.c:751-756 | until its fsync a crash may leave anything in a written file |
| Disk.OpenedMayBeLost | src/stock_persistence.c:733-738 | and anything in an existing file that was opened for writing |
| Disk.ChangesMayBeLost | src/stock_persistence.c:172-206 | a creation, an unlink and a rename may each be lost or kept until the directory's fsync |
| Disk.ImageWf | src/stock_persistence.c:172-206 | a crash leaves a file system again, in which every entry is one that its name had |
| Loader.ApplyStockRecord | src/stock_persistence.c:301-316 | refuses bad values and duplicate ids and adds all other records |
| Loader.LoadStockFile | src/stock_persistence.c:349-403 | effect and status are those of the file's whole text, unless a read failed |
| Loader.ApplyAofRecord | src/stock_persistence.c:324-341 | validates before it changes anything, then changes one stock or nothing |
| Loader.ReplayAof | src/stock_persistence.c:411-465 | effect and status are those of the log's whole text, unless a read failed |
| Loader.ReadManifestGeneration | src/stock_persistence.c:473-522 | the status and generation of the manifest's whole text; not found only when there is no manifest |
| Generations.QuietKeeps | src/stock_persistence.c:726-803 | creating, writing or unlinking a file that no manifest names keeps the invariant and all that is durable |
| Generations.BootableMeans | src/stock_persistence.c:571-602 | a directory is a legal bootstrap state when it has a manifest or the marker, or no temporary manifest and no name that carries a generation |
| Generations.SyncKeeps | src/stock_persistence.c:172-206 | so does a directory fsync, after which only one generation is named |
| Generations.RenameKeeps | src/stock_persistence.c:842-852 | so does the rename of a synced manifest for a complete generation that is not older |
| Generations.CrashKeeps | src/stock_persistence.c:811-968 | so does every crash in both orders; the manifest that is left was the manifest at some point since the last directory fsync, and the durable generation did not go down |
| Generations.SoundReadsBack | src/stock_persistence.c:681-698 | a manifest that meets the invariant reads back as exactly the store that was published for it |
| Generations.AtomicPublication | src/stock_persistence.c:916-968 | every crash while generation g+1 is published over g leaves a directory that reads back, without error, as exactly the old store or exactly the new one, and with no manifest only if nothing was published before |
| Publish.Create | src/stock_persistence.c:733-738 | a file is opened for writing only when no manifest, visible or durable, names it |
| Publish.Discard | src/stock_persistence.c:745-761 | a writer that fails leaves no file behind, unless the unlink failed too |
| Publish.FinishFile | src/stock_persistence.c:740-761 | on success the file holds the printed text and is synced; wherever it fails nothing that a manifest names was touched, and the file is gone unless its unlink failed |
| Publish.SaveSnapshotFile | src/stock_persistence.c:726-764 | on success the snapshot is durable, entry and contents, and lists the store |
| Publish.CreateEmptyAofFile | src/stock_persistence.c:772-803 | on success the empty log is durable |
| Publish.WriteManifestFile | src/stock_persistence.c:811-853 | the manifest names what it named or the new generation, at every point; on success only the new one; a failure is reported only if a crash may still bring the old one back |
| Publish.DoomedUnnamed | src/stock_persistence.c:861-908 | what cleanup removes is never a file of the current generation or the manifest |
| Publish.CleanupOldGenerationFiles | src/stock_persistence.c:861-908 | keeps the invariant and every name that carries the current generation or none; on success no temporary manifest is left and no name that carries another generation |
| Publish.NextIsFree | src/stock_persistence.c:932-944 | no manifest, visible or durable, names the next generation, so its files may be written |
| Publish.MaterializeStoreGeneration | src/stock_persistence.c:916-968 | wherever it stops, the invariant holds with the new store booked and the manifest names the old or the next generation; on success exactly the next; a failure is reported only if a crash may still bring the old one back; without faults, and if all names are short enough, no temporary manifest and no name of another generation is left |
| Recover.CreateBootstrapMarker | src/stock_persistence.c:530-545 | in a directory without artifacts, keeps it a legal bootstrap state wherever it stops |
| Recover.RemoveBootstrapMarker | src/stock_persistence.c:553-563 | the same when a manifest exists or no artifact is left |
| Recover.EnsureBootstrapRecoveryState | src/stock_persistence.c:571-602 | accepts exactly the directories without a temporary manifest and without any name that carries a generation |
| Recover.PrepareBootstrap | src/stock_persistence.c:618-642 | without faults, and with all names short enough for their path buffer, succeeds exactly on a legal bootstrap state, and leaves no artifact; any other directory is refused and untouched; it stops only in the middle of the unlinks, before or after their fsync |
| Recover.InitLoadMeans | src/stock_persistence.c:644-658 | a first start takes what the init file shows, and fails without one |
| Recover.RecoverStockStore | src/stock_persistence.c:611-699 | ends with the published store, or with the init file's store published as generation 1; without faults, and with all names short enough, fails only without a manifest, for a missing or invalid init file or an illegal bootstrap state; an illegal state is refused under all faults and left as it is; a start without the risk of StartAtRiskExactly leaves no exposed directory wherever it stops; after success the marker is gone, if there was no manifest or no fault |
| Sessions.StockConserved | src/stock_store.c:211-227 | after any requests each stock is the starting one plus the sells answered "success" minus the buys answered "success", and within 0 and INT_MAX |
| Sessions.ConversationIsRequests | src/stock_server.c:337-377 | whatever bytes a client sends, its effect on the store is that of the requests understood among its lines up to the first exit, and they are valid |
| Sessions.FittingAll | src/main.c:55 | a session in which no sell passes INT_MAX carries out all of its requests |
| Sessions.RequestsInValid | src/stock_server.c:440-466 | whatever a line says, a request understood in it is valid |
| Sessions.ConverseIsTranscript | src/stock_server.c:337-377 | a client served alone is sent the transcript of the replies to the requests among its lines |
| Sessions.PlayedWhole | src/main.c:37-61 | a line in which no sell passes INT_MAX carries out all requests of its sessions |
| Sessions.ServeSession | src/main.c:55 | the live tree ends with what the session's requests, in order, make of the store |
| Sessions.PlayedAll | src/main.c:37-61 | playing every session in order is one session with all the requests |
| Unordered.InterruptedIsReached | src/stock_persistence.c:650-663 | a first start that loses power while it writes its snapshot leaves marker and snapshot |
| Unordered.BreaksBootstrap | src/stock_persistence.c:618-636 | from there, cleanup, the marker's unlink and an unordered crash leave a directory that is no legal bootstrap state |
| Unordered.NeverStarts | src/stock_persistence.c:637-642 | no start on such a directory ever succeeds, whatever faults and power losses there are |
| Unordered.BootstrapExactly | src/stock_persistence.c:571-602 | every unordered crash of a directory leaves a legal bootstrap state if and only if, since the last directory fsync, the manifest was always there, or the marker was, or no artifact ever was |
| Unordered.UnsyncedManifestIsRisk | src/stock_persistence.c:672-679 | unlinking the marker beside a manifest whose rename is not yet durable can leave a directory that is refused |
| Unordered.RenamedBootstrapIsRisk | src/stock_persistence.c:672-679 | a first publication that renamed its manifest and did not get to the directory fsync is such a directory, for every init file and store |
| Unordered.StartAtRiskExactly | src/stock_persistence.c:618-679 | for every sound directory that no crash can spoil before the start: the start can be cut short so that every later start is refused if and only if the marker is there and, with a manifest, there was a moment without one since the last directory fsync, or, without, an artifact was there since then |
| History.FirstDirectoryIsOurs | src/stock_persistence.c:644-648 | a directory with only an init file meets all that the histories require |
| History.StartUp | src/main.c:37-43 | ends with the store booked for the generation it found, or with the init file's, published and recorded as generation 1 |
| History.PublishOnShutdown | src/main.c:61-67 | books and records the store that the session made of the one found, wherever it stops |
| History.RunProcess | src/main.c:26-71 | one process, stopping anywhere, adds to the record exactly: nothing, the first generation, or the next one with what its requests made of the store it found; it publishes exactly when the start and the server returned OK, and otherwise returns their failure; all that any manifest names stays told by the record |
| History.CrashOurs | src/stock_persistence.c:916-968 | every crash keeps the record true of what is left |
| History.AnyHistory | src/main.c:26-71 | so does any history of processes, each with given requests and server status, and of power losses where they are asked for; the durable generation never goes down; if the init file is valid, the directory found is a legal bootstrap state and all names are short enough, processes that meet no fault and whose server returns OK succeed |
| History.ReadsBackAsServed | src/main.c:37-61 | after any history a manifest reads back as the init file's store after the requests of its line of sessions (all of them, if no sell among them passes INT_MAX): same ids and prices, each stock moved by exactly their successful sells and buys; no successful session is missing and none is there that stopped before its publication |
| History.SuccessIsDurable | src/main.c:61-70 | once a process reported success, every later crash leaves a manifest and a store whose line contains its session |
| History.NextStart | src/stock_persistence.c:611-699 | on a legal bootstrap state, with a valid init file and all names short enough, a start without faults ends with the store of the line of the generation found, or without a manifest with exactly the init file's |
| History.NextStartSucceeds | src/stock_persistence.c:611-699 | with ordered directory updates, a valid init file and all names short enough, after any history the next start without faults succeeds |
| History.CleanSessions | src/main.c:37-61 | from a first directory with a valid init file, and if no sell passes INT_MAX, n rounds of recover, serve and materialize, with power losses between them, and a last start end with the store of one session with all the requests; each stock is the initial one plus successful sells minus successful buys |
| History.PublishedSurvives | src/stock_persistence.c:956-967 | after a successful publication every crash leaves a directory that reads back as the published store |
| History.AnyPointSurvives | src/stock_persistence.c:847-850 | each generation that was visible since the last directory fsync can be what a crash brings back |
| History.GenerationSafeExactly | src/stock_persistence.c:842-852 | every crash keeps the visible generation if and only if it was the only one visible since the last directory fsync |
| History.RenamedIsNotSafe | src/stock_persistence.c:842-852 | after a rename without its directory fsync the new generation is what a reader gets, and a crash brings the old one back |
| History.SecondPublicationIsNotSafe | src/stock_persistence.c:842-852 | such a directory exists for every two stores: generation 1 published, 2 renamed |
| History.PublishCrashRecover | src/stock_persistence.c:611-968 | a publication over any sound directory with any fault at any step, a crash in either order and a start without faults: the new store or one that was named since the last directory fsync before, the new one if the publication had returned success; with no manifest left, the init file's |
| Rio.WriteN | src/csapp.c:761-778 | short and interrupted writes send the whole text in order; an error, after a beginning of it |
| Rio.Reader.constructor | src/csapp.c:823-828 | nothing of the stream is lost |
| Rio.Reader.Refill | src/csapp.c:795-806 | short and interrupted reads neither lose nor reorder bytes, and end |
| Rio.Reader.Read | src/csapp.c:791-816 | the next bytes of the stream; 0 only at its end; a read error loses nothing |
| Rio.Reader.ReadLine | src/csapp.c:857-879 | whatever the sizes of the reads, exactly the piece an unbuffered reader takes, terminated; an error is returned only if the descriptor failed, and then costs at most the part of the line already read |
| Parser.TokensOfLay | src/stock_server.c:399-409 | the tokens of a line are the words it was laid out from |
| Parser.LayOfTokens | src/stock_server.c:399-409 | and every line is its tokens with blanks around and between them |
| Parser.NextToken | src/stock_server.c:399-409 | one step of the token loop takes the first token of the rest |
| Parser.SplitTokens | src/stock_server.c:398-409 | the loop collects all tokens, or reports a fifth one |
| Parser.ParseRequest | src/stock_server.c:382-466 | the struct asks, once validated, for exactly the request that the grammar gives the line's tokens, and is refused exactly when it gives none |
| Parser.IntWord | src/stock_server.c:579-593 | the token of a printed int is parsed back to it |
| Parser.OneToken | src/stock_server.c:399-409 | what holds no blank, tab, carriage return or newline is one token |
| Parser.ParseIntExactly | src/stock_server.c:579-593 | a token is an int exactly when it is a numeral, perhaps after white space that separates no tokens, with a value from INT_MIN to INT_MAX |
| Parser.GrammarExactly | src/stock_server.c:382-466 | a line is understood as a request if and only if it is words that spell it, laid out with blanks: show, show int, buy int posint, sell int posint, exit |
| Parser.GrammarWrittenOut | src/stock_server.c:382-466 | for each request, the lines that are understood as it, character by character: the word, the ints, and blanks, tabs, carriage returns and newlines around and between them |
| Parser.PrintedWithSeparators | src/stock_server.c:382-466 | a printed request with any of these four characters around and between its words is understood |
| Parser.ParseInvertsPrint | src/stock_server.c:382-466 | the printed form of every valid request, with any blanks in one line buffer, is understood as that request |
| Server.ListingFits | src/stock_server.c:500-531 | the listing of a valid store always fits a reply buffer |
| Server.HandleShow | src/stock_server.c:500-531 | the listing, the one row, or not found, of the table as it is |
| Server.HandleBuySell | src/stock_server.c:536-562 | table and status of the sequential request |
| Server.ExecuteRequest | src/stock_server.c:471-495 | table and reply of the sequential request |
| Server.AnswerLine | src/stock_server.c:347-374 | table and reply are those of the request the line spells, or the table is unchanged and the reply is the invalid-command line; last exactly for exit |
| Server.AnswerMeans | src/stock_server.c:352-367 | a line that is understood is served, any other is answered "invalid command" |
| Server.ConverseMeans | src/stock_server.c:346-374 | a conversation goes line by line up to its first exit, which is answered "success", and what comes after it makes no difference |
| Server.HandleClient | src/stock_server.c:337-377 | however the bytes arrive, the replies sent and the table left are those of the conversation that the stream spells, up to the first exit; a failing read or write ends the process with a beginning of those replies sent |
| Server.ConverseFrom | src/stock_server.c:337-377 | from any line on, the conversation goes the way of the sequential run |
| Server.PrintedRequestsAreServed | src/stock_server.c:337-377 | valid requests printed one to a line are answered, over any connection, with the replies of the sequential run |
| LockedStore.WorkAgrees | src/stock_server.c:500-562 | every step inside the critical section stays on the way from the committed table to what the whole request makes of it |
| LockedStore.StepRefines | src/stock_server.c:500-562 | each step of the workers is invisible to the atomic machine or is the whole of the request that the worker is on |
| LockedStore.InvKept | src/stock_server.c:500-562 | mutual exclusion, memory, log, what was asked and what was delivered are kept by every step |
| LockedStore.EveryRunIsSequential | src/stock_server.c:500-562 | every interleaving gives the replies and, when nobody is inside, the table of the sequential run in lock order; the log holds for each worker exactly what its clients sent, in order, but for the request under way, and they got exactly its replies, in order |
| LockedStore.ShowSeesOneState | src/stock_server.c:510-513 | a full show lists one committed table although its walk takes many steps |
| LockedStore.StocksNeverNegative | src/stock_store.c:211-227 | in every reachable state, half-done requests included, no stock is negative and ids and prices are the initial ones |
| LockedStore.SomeWorkerCanRun | src/stock_server.c:500-562 | some worker can always go on; the one inside gets closer to its unlock with each step |
| LockedStore.StepShrinks | src/stock_server.c:500-562 | every step of a worker but the writing of a reply brings its request closer to the end, within a bound given by the number of items |
| Pool.StoresIntoFreeCell | src/stock_server.c:203-211 | the cell about to be filled holds no value still to be taken |
| Pool.LoadsOldest | src/stock_server.c:216-228 | the cell about to be read holds the oldest value not taken |
| Pool.AcceptedIsGot | src/stock_server.c:127-151 | every descriptor that accept returns in the accept loop goes on to the queue, in that order |
| Pool.InvKept | src/stock_server.c:166-329 | semaphores plus threads on their way account for all 64 cells, indexes follow the counts, pills come last, live workers are pills queued plus pills to come: kept by every step of every thread |
| Pool.BoundedBuffer | src/stock_server.c:166-228 | over every run: one thread in the ring at most, slots, items and threads on their way account for all 64 cells, no full cell overwritten, no empty cell read, first in first out |
| Pool.GracefulShutdown | src/stock_server.c:269-278 | when stop_workers has returned: every descriptor that accept returned was taken once, in that order and before any pill; every worker took one pill and has exited; the queue is as at the start |
| Pool.DeadlockFree | src/stock_server.c:203-278 | every reachable state in which stop_workers has not returned has a thread that can go on |
| Pool.ShutdownShrinks | src/stock_server.c:269-329 | once the accept loop is over every step of any thread uses up part of a bound |
| Pool.ShutdownEnds | src/stock_server.c:269-329 | so under every schedule the shutdown takes at most that many steps, and it stops only where stop_workers has returned |
| WholeServer.InvKept | src/stock_server.c:315-377 | pool and store keep their invariants together, and who has no connection is in no request |
| WholeServer.HeardKept | src/stock_server.c:315-377 | what a worker has heard and will hear stays the requests among the lines of the connections it took, one connection after the other |
| WholeServer.AllServed | src/stock_server.c:315-377 | at the end every accepted connection has got the replies logged for exactly the requests among its own lines, in one piece and in order |
| WholeServer.SessionServed | src/stock_server.c:86-158 | when run_server_stub's stop_workers has returned, the pool is closed, nobody is in the store, every connection that accept returned was served, all replies are the sequential ones in lock order, and the store is what those requests make of the one it began with |
| WholeServer.DeadlockFree | src/stock_server.c:315-562 | semaphores and mutex together never block everybody |
| WholeServer.ShutdownShrinks | src/stock_server.c:269-562 | once the accept loop is over every step of any thread, in the pool or in the store, uses up part of a bound |
| WholeServer.ShutdownEnds | src/stock_server.c:269-562 | so under every schedule the server stops within the bound, and only where stop_workers has returned |
| Pool.ConnQueue.constructor | src/stock_server.c:166-188 | the ring starts empty |
| Pool.ConnQueue.Insert | src/stock_server.c:203-211 | in place, appends to the queue's contents |
| Pool.ConnQueue.Remove | src/stock_server.c:216-228 | in place, takes the head of the queue's contents |

## Left out

- Sockets, `accept`, `getnameinfo` and signals: a connection is a stream of bytes, acceptance is a step that may happen at any time, and the shutdown flag may be seen at any time.
- The rest of `src/csapp.c`, `src/echo.c`, `src/multiclient.c`, `src/stockclient.c`: thin wrappers and test clients.
- Status names, usage text, traces and messages on stderr: single-branch facts.
- Failing mutex, semaphore and allocation calls: assumed not to fail; a failing Rio call ends the process, as in the code.
- Durable logging before a reply, rollback and temporary stores during recovery: described under docs/ but not in the code.
- Out-of-range numerals in files: `scanf` leaves them undefined; the model takes them as malformed. In requests they are refused, as in the code.
- Output of a stream before it is flushed: the contents of a file are unspecified from its opening to its flush, which covers every partial write; what `fclose` itself writes on a failure path is not modelled, because the file is unlinked next.
- `readdir` while names change: a scan sees the names present when it starts.
- Concurrent scheduling inside `Server`: its methods run one connection alone; `LockedStore`, `Pool` and `WholeServer` carry the interleavings.
- LockedStore.EveryRunIsSequential: sums are unbounded there; the range of int is the business of `Stock.RequestFits`.
- LockedStore.StocksNeverNegative: for the same reason it bounds a stock from below only.
- Sessions.ServeSession: leaves out the sells that would pass `INT_MAX` (and requests that are not valid, which never reach the store), because the code's sum is undefined there.
- Pool.ShutdownEnds: counts a request as one step; `WholeServer.ShutdownEnds` counts the steps inside it. Both assume that every connection's stream is finite.
- WholeServer.SessionServed: lines that are not understood are no steps there, since they do not touch the store; `WholeServer.SentTo` puts their message between the replies.
- Pool.ConnQueue.Insert: the blocking on `slots` is its precondition here and is modelled step by step in the pool machine; likewise for `Remove` and `items`.
- Server.PrintedRequestsAreServed: leaves out `exit`, after which the conversation is over (`Server.HandleClient`).
- Disk.PowerLoss: histories are proved against its contract, which admits every crash image; its body picks only ordered ones.
