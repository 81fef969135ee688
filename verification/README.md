# Verified models of GunyahPkg drivers

Models, in Dafny, of the parts of the GunyahPkg firmware that carry state, loops and
arithmetic, with proofs about whole runs:

* **Virtio Filesystem driver.** The pathname canonicaliser as the driver writes it, a state
  machine that edits its output in place, proved equal to a walk over components
  (`PathCanon`, `PathAppend`). The scatter-gather engine and complete FUSE exchanges
  (`ScatterGather`, `FuseExchange`). The directory cache against the plain filtered stream
  (`DirCache`). The open/close/delete/rename protocol, which has to balance lookups with
  forgets and opens with releases (`FuseSession`), and the server's directory tree that open
  files refer to by pathname (`Namespace`). Attributes and GetInfo/SetInfo (`FileInfo`,
  `SetInfo`), and chunked reads and writes (`ChunkedIo`).
* **Restricted DMA.** The bitmap page allocator in its two copies (`DmaPool`) and the
  bounce-buffer IOMMU on top of it (`IoMmu`).
* **Virtio GPU.** Block transfers (`GopBlt`) and mode switching with rollback (`GopMode`).
* **Virtio keyboard.** The receive ring with its 16-bit indices (`KeyboardRing`).
* **PCI and SCSI.** Buffer access to configuration space (`PciBuffer`), and enumeration,
  request encoding and residual accounting (`Scsi`).

`dafny verify dfyconfig.toml` checks everything.

## How the environment is modelled

Devices, the file server and the host are nondeterministic methods next to the driver code.
They may fail at any time, and a request that reports a failure has had no effect. What they
do is counted and logged in ghost fields that only they change (`failures`, `refusals`,
`unmapFailures`, `mappings`, `flushLog`, `chunks`, `shown`), and it is over these that the theorems say when the
driver succeeds. The file server never hands out the root's node from a lookup, mkdir or
create, opens a node only as what it is, sends whole directory records and separates directory entries by distinct cookies.
That its directories form a tree is a precondition of the theorems that need it, and shown to
be kept. The keyboard device uses buffers in the order in which they were published.
Calls into VirtioLib, boot services and the time library are abstract operations or parameters.

## Where the code falls short of a simpler claim

* The 32-bit product of a display resolution wraps: `GopMode.BackingCoversExactly` gives the
  exact condition, `GopMode.BackingCanBeEmpty` an input. A display
  size reported by the host is not checked against it.
* Renaming refuses when it would break other open pathnames, but only for directories:
  `FuseSession.CoherentExactly` gives the exact condition for every call, on all files,
  `FuseSession.RenameUnderSecondHandle` a case that is not refused.
* The last descriptor of a chain is marked as such only in a response list:
  `ScatterGather.ChainEndsWithResponse`.
* 16-bit ring indices select the right slot only for queue sizes that divide 65536:
  `KeyboardRing.WrapExactly`. With any other size the ring works up to the first wrap and no
  further: `KeyboardRing.ReachExactly`.
* Creation and modification time are set through one field: `FileInfo.BothTimesExactly` gives the
  exact condition under which both come out as requested.
* The page count of a bounce buffer is one too many for requests of more than 2^64 - 4096 bytes:
  `IoMmu.BouncePagesAreLeast`.
* A residual larger than the request wraps the reported length: `Scsi.ResidualExact` gives the
  exact condition, `Scsi.ResidualWraps` an input.
* A refill that meets a malformed directory record returns before the rest of the chunk has
  been forgotten: `DirCache.Directory.BalancedExactly` gives the exact condition,
  `DirCache.TwoRecordsLost` an input.
* Unmapping after a partial write by the device overwrites the rest of the host buffer with old
  bytes of the pool: `IoMmu.DeviceOnlyExactly` gives the exact condition,
  `IoMmu.PartialWriteKeepsStaleByte` an input.

## Model

| member | source | states |
|---|---|---|
| PathCanon.ParserStripSlash | GunyahPkg/Drivers/GunyahVirtioFsDxe/Helpers.c:1264-1278 | The output of a directory loses its trailing slash, except for the root; the position stays in the buffer. |
| PathCanon.ParserRewindDot | GunyahPkg/Drivers/GunyahVirtioFsDxe/Helpers.c:1323-1334 | A dot component is taken back: what is left is the directory it was read in. |
| PathCanon.ParserRewindDotDot | GunyahPkg/Drivers/GunyahVirtioFsDxe/Helpers.c:1366-1402 | Moving the write position back over a dot-dot leaves exactly the pathname of the parent directory and the escape flag as it was; at the root it leaves the root and sets the flag. The place is found without looking at components. |
| PathCanon.ParserStep | GunyahPkg/Drivers/GunyahVirtioFsDxe/Helpers.c:1570-1687 | One turn of the six-state machine keeps its output equal to the directory stack plus the component being read, for every state and character. |
| PathCanon.Sanitize | GunyahPkg/Drivers/GunyahVirtioFsDxe/Helpers.c:1566-1687 | The whole in-place run computes the pathname of the component-stack walk over the split input, and RootEscape is set exactly if a dot-dot met an empty stack; no write leaves the buffer. |
| PathCanon.SplitIsInverseOfJoin | GunyahPkg/Drivers/GunyahVirtioFsDxe/Helpers.c:1409-1420 | The specification's split is the inverse of joining with slashes and leaves no slash in any part. |
| PathCanon.SplitRender | GunyahPkg/Drivers/GunyahVirtioFsDxe/Helpers.c:1409-1420 | A canonical pathname splits back into its component stack. |
| PathCanon.RenderInjective | GunyahPkg/Drivers/GunyahVirtioFsDxe/Helpers.c:1409-1420 | Different component stacks have different canonical pathnames. |
| PathCanon.WalkEscape | GunyahPkg/Drivers/GunyahVirtioFsDxe/Helpers.c:1422-1423 | Where a walk ends does not depend on earlier escapes; they only accumulate. |
| PathCanon.WalkIsSurviving | GunyahPkg/Drivers/GunyahVirtioFsDxe/Helpers.c:1366-1402 | Reference definition, read from right to left: the walk keeps exactly the names that no later dot-dot takes back, and has escaped if and only if more dot-dots than names are left over at the front. |
| PathAppend.Transliterate | GunyahPkg/Drivers/GunyahVirtioFsDxe/Helpers.c:1508-1519 | Succeeds exactly on printable ASCII without slashes, and turns each backslash into a slash. |
| PathAppend.AppendPath | GunyahPkg/Drivers/GunyahVirtioFsDxe/Helpers.c:1463-1717 | For every canonical base and every UEFI pathname: the canonical pathname of the component walk, its escape flag, and the refusals for empty, overlong, unsupported and too long results, each on exactly its inputs. |
| PathAppend.AppendIsCanonical | GunyahPkg/Drivers/GunyahVirtioFsDxe/Helpers.c:1409-1420 | Every accepted append yields a stack of valid components, so results can be bases again. |
| PathAppend.EscapeExact | GunyahPkg/Drivers/GunyahVirtioFsDxe/Helpers.c:1422-1423 | The escape flag is set if and only if some prefix of the components has a dot-dot on an empty stack. |
| PathAppend.AppendComposes | GunyahPkg/Drivers/GunyahVirtioFsDxe/Helpers.c:1463-1717 | Appending r1 and then a relative r2 is the same as appending r1 and r2 joined, with the escape flags or-ed. |
| PathAppend.AppendIsIdempotent | GunyahPkg/Drivers/GunyahVirtioFsDxe/Helpers.c:1463-1717 | A result that is appended again as an absolute pathname comes back unchanged, without an escape. |
| PathAppend.AppendIsSurviving | GunyahPkg/Drivers/GunyahVirtioFsDxe/Helpers.c:1463-1717 | The result of every accepted append is the names of base and pathname that no later dot-dot takes back, counted from the end. |
| PathAppend.AppendOne | GunyahPkg/Drivers/GunyahVirtioFsDxe/Helpers.c:1463-1717 | Appending one name adds it, appending dot-dot drops the last name, and at the root stays there and escapes. |
| PathAppend.DotDotTakesBack | GunyahPkg/Drivers/GunyahVirtioFsDxe/Helpers.c:1366-1402 | A name followed by dot-dot changes nothing, behind every pathname. |
| PathAppend.DotStays | GunyahPkg/Drivers/GunyahVirtioFsDxe/Helpers.c:1323-1334 | Neither does a dot or a trailing backslash. |
| PathAppend.GetBasename | GunyahPkg/Drivers/GunyahVirtioFsDxe/Helpers.c:1882-1917 | The text behind the last slash is the last component (empty for the root); the size includes the terminator and is reported when the buffer is too small. |
| PathAppend.ComposeRenameDestination | GunyahPkg/Drivers/GunyahVirtioFsDxe/Helpers.c:1977-2122 | String surgery on the source pathname agrees with appending to the parent's component stack, including the move-into-directory form, absolute names and the root. |
| PathAppend.RenameToBasename | GunyahPkg/Drivers/GunyahVirtioFsDxe/Helpers.c:1977-2122 | The file's own basename is the destination where it already is. |
| PathAppend.MoveIntoDirectory | GunyahPkg/Drivers/GunyahVirtioFsDxe/Helpers.c:2029-2058 | A name with a trailing backslash denotes the directory it names followed by the old basename, whatever dots it contains. |
| PathAppend.LiesBelowExact | GunyahPkg/Drivers/GunyahVirtioFsDxe/SimpleFsSetInfo.c:235-262 | The strncmp-and-boundary test holds if and only if one component list is a prefix of the other. |
| ScatterGather.ValidateList | GunyahPkg/Drivers/GunyahVirtioFsDxe/Helpers.c:457-546 | Success exactly for lists that are non-empty, fit the queue, have no empty vector and total at most 2^32 - 1 bytes; which of the two errors is returned is decided exactly too. |
| ScatterGather.MapList | GunyahPkg/Drivers/GunyahVirtioFsDxe/Helpers.c:627-652 | Vectors are mapped in order up to the first failure; each carries the address that the device gave for its own buffer, size and direction; the device has exactly the new mappings live, and which vectors they belong to is known on both exits. |
| ScatterGather.UnmapList | GunyahPkg/Drivers/GunyahVirtioFsDxe/Helpers.c:765-810 | Each live mapping is given back to the device once, last vector first; after success an error is reported if and only if the device failed an unmapping, and an earlier error is never hidden. |
| ScatterGather.DistributeResponse | GunyahPkg/Drivers/GunyahVirtioFsDxe/Helpers.c:720-754 | Each response vector gets the part of the count that falls into its byte range, and the remainder ends at zero. |
| ScatterGather.FillsAddUp | GunyahPkg/Drivers/GunyahVirtioFsDxe/Helpers.c:720-754 | The Transferred fields of the response add up to the device's count. |
| ScatterGather.FillsAreGreedy | GunyahPkg/Drivers/GunyahVirtioFsDxe/Helpers.c:720-754 | A vector receives data only after all the vectors before it are full. |
| ScatterGather.ChainEndsWithResponse | GunyahPkg/Drivers/GunyahVirtioFsDxe/Helpers.c:657-686 | The descriptor chain is terminated exactly when the exchange has a response; device-writable descriptors are exactly those behind the request; each has its vector's address and length. |
| FuseExchange.Transfer | GunyahPkg/Drivers/GunyahVirtioFsDxe/Helpers.c:657-754 | One chain reaches the device, with a descriptor per vector that has the vector's address, length and direction; the result is success exactly if the device reports success and its byte count fits the response; an overlong count is a device error, and the mappings are untouched. |
| FuseExchange.Submit | GunyahPkg/Drivers/GunyahVirtioFsDxe/Helpers.c:597-813 | On every path the device's live mappings are those of before, and its unmap log grows by the reverse of what its map log grew by; a chain is submitted once if every vector was mapped and not at all otherwise, and its descriptors point at what the device mapped for the caller's buffers, in order, each with the buffer's size and direction; success is equivalent to all mapped, a successful flush, an acceptable count and no failed unmapping, all as the device's logs have it. |
| FuseExchange.CheckResponse | GunyahPkg/Drivers/GunyahVirtioFsDxe/Helpers.c:932-1034 | Success and the errno exit are characterised exactly: complete header, length equal to the sum of transfers, matching id, zero error, full fixed buffers. |
| FuseExchange.HeaderRoundTrip | GunyahPkg/Drivers/GunyahVirtioFsDxe/Helpers.c:985-1010 | Reading a response header is the inverse of encoding it in little-endian order, a negative error included, whatever follows it. |
| FuseExchange.TailIsRemainder | GunyahPkg/Drivers/GunyahVirtioFsDxe/Helpers.c:1012-1033 | After a successful check the variable part is the header's length minus the fixed buffers, and fits its buffer and UINT32. |
| FuseExchange.Session.NewRequest | GunyahPkg/Drivers/GunyahVirtioFsDxe/Helpers.c:849-876 | No request number is handed out twice in a session; running out is an error, not a wrap. |
| FuseExchange.Session.ReadFileOrDir | GunyahPkg/Drivers/GunyahVirtioFsDxe/FuseRead.c:88-205 | Success if and only if the exchange reached the device, the device's answer is a complete, error-free reply to this request's fresh id that fits, and no unmapping failed; then the caller's buffer starts with exactly the reply's bytes behind the header, never more than asked for; no mapping stays live. |
| DirCache.Directory.RankIsPosition | GunyahPkg/Drivers/GunyahVirtioFsDxe/SimpleFsRead.c:66-298 | The convertible entries from any stream position on are a suffix of the plain filtered list. |
| DirCache.Directory.Populate | GunyahPkg/Drivers/GunyahVirtioFsDxe/SimpleFsRead.c:37-61 | The byte loop over the name and the attribute conversion compute exactly the entry that the record stands for, or fail exactly if there is none. |
| DirCache.Directory.ConvertExactly | GunyahPkg/Drivers/GunyahVirtioFsDxe/Helpers.c:2279-2327 | A record becomes an entry if and only if its name has a valid length within the limit and only printable ASCII characters, none of them a slash or backslash, and its attributes can be expressed; the entry then has the record's name, a size that holds it and its terminator, and size, times, type and read-only bit of the record's attributes. |
| DirCache.Directory.ConvertibleLists | GunyahPkg/Drivers/GunyahVirtioFsDxe/SimpleFsRead.c:66-298 | The filtered list, up to any stream position, is made of the entries of exactly the listable records before that position, in stream order, each once. |
| DirCache.Directory.ConsumeChunk | GunyahPkg/Drivers/GunyahVirtioFsDxe/SimpleFsRead.c:165-268 | For every chunk: success exactly for well-formed names and no trailing bytes; records are cached in order while there is room; what stays unforgotten are exactly the records from the first malformed one on. |
| DirCache.Directory.RefillFileInfoCache | GunyahPkg/Drivers/GunyahVirtioFsDxe/SimpleFsRead.c:66-298 | For every chunking by the server: a refill keeps what the caller has not seen yet, caches only entries that listable records stand for, is empty only if nothing is left, changes nothing on failure, and ends; unless a request or an allocation fails it fails exactly if the last chunk is malformed; the references left behind are those of each chunk received from its first malformed record on, so none for well-formed names on any exit. |
| DirCache.Directory.BalancedExactly | GunyahPkg/Drivers/GunyahVirtioFsDxe/SimpleFsRead.c:165-268 | Refills are balanced for every chunking by the server if and only if, in the longest chunk that can begin latest, no record from the first malformed one on carries a node; a chunk fits into the driver's buffer and begins before the new cache is full. |
| DirCache.Directory.LosesAtMost | GunyahPkg/Drivers/GunyahVirtioFsDxe/SimpleFsRead.c:96-104 | No chunk that a refill can meet, at any position and of any length the buffer allows, loses more than the longest one that begins latest. |
| DirCache.TwoRecordsLost | GunyahPkg/Drivers/GunyahVirtioFsDxe/SimpleFsRead.c:175-214 | Failing input: two records, the first with a name beyond the limit, and neither node is forgotten. |
| DirCache.Directory.Read | GunyahPkg/Drivers/GunyahVirtioFsDxe/SimpleFsRead.c:303-363 | One call delivers the next unseen entry, or reports its size and keeps it, or reports the end exactly when nothing is left; what is delivered is the entry of a listable record of the directory; errors keep the sequence, and there are none if no request fails and names are well-formed; lookups are balanced up to malformed records. |
| DirCache.Directory.ReadMany | GunyahPkg/Drivers/GunyahVirtioFsDxe/SimpleFsRead.c:303-363 | Over any number of calls with any buffer sizes the convertible entries come in order, none twice, and the end only after the last one; if no request fails and names are well-formed, they all come, and the end, as soon as more of the buffers than there are entries can take any of them. |
| DirCache.Directory.Rewind | GunyahPkg/Drivers/GunyahVirtioFsDxe/SimpleFsSetPosition.c:28-46 | A rewind to zero makes the complete list unread again; any other position is refused and loses nothing. |
| DirCache.Directory.ReadFromStart | GunyahPkg/Drivers/GunyahVirtioFsDxe/SimpleFsRead.c:303-363 | Stated on the server's records: a rewind and any number of calls deliver the entries of exactly the listable records up to some position, in order, each once; the end is reported only behind the last record, and is reached if no request fails, names are well-formed and there are more large enough buffers than records. |
| DirCache.Directory.constructor | GunyahPkg/Drivers/GunyahVirtioFsDxe/SimpleFsOpen.c:534-559 | A directory that has just been opened has all its convertible entries unread. |
| Namespace.RemoveExact | GunyahPkg/Drivers/GunyahVirtioFsDxe/SimpleFsDelete.c:63-84 | Removing an entry cuts off the pathnames through it and no others. |
| Namespace.RenameExact | GunyahPkg/Drivers/GunyahVirtioFsDxe/SimpleFsSetInfo.c:296-305 | A rename on the server breaks the pathnames at and below the source and no others. |
| Namespace.SubtreeMoves | GunyahPkg/Drivers/GunyahVirtioFsDxe/SimpleFsSetInfo.c:296-315 | Everything at and below the source is found under the destination. |
| Namespace.MovedIntoItself | GunyahPkg/Drivers/GunyahVirtioFsDxe/SimpleFsSetInfo.c:296-315 | An entry that the server moves below itself is cut off: its new pathname leads nowhere. |
| Namespace.FewerEntries | GunyahPkg/Drivers/GunyahVirtioFsDxe/SimpleFsDelete.c:63-84 | Removing entries keeps one pathname per directory. |
| Namespace.AddKeepsTree | GunyahPkg/Drivers/GunyahVirtioFsDxe/SimpleFsOpen.c:482-521 | Creating a file or directory with a fresh node keeps one pathname per directory. |
| Namespace.MoveKeepsTree | GunyahPkg/Drivers/GunyahVirtioFsDxe/SimpleFsSetInfo.c:296-315 | So does moving an entry that is not moved into itself. |
| FuseSession.RenameUnderSecondHandle | GunyahPkg/Drivers/GunyahVirtioFsDxe/SimpleFsSetInfo.c:235-262 | Counterexample: two handles on one regular file, both open for writing; no check of Rename refuses, and the other handle is left with a pathname that leads nowhere. |
| FuseSession.NextName | GunyahPkg/Drivers/GunyahVirtioFsDxe/Helpers.c:1777-1790 | Scanning for the next slash of a canonical pathname yields its components one by one. |
| FuseSession.FileSystem.LookupMostSpecificParentDir | GunyahPkg/Drivers/GunyahVirtioFsDxe/Helpers.c:1760-1854 | The returned node is the one the parent's pathname resolves to through directories, and is the only reference that remains; on failure none remains; unless the server refuses a request, it fails only where there is no such chain of directories. |
| FuseSession.FileSystem.OpenVolume | GunyahPkg/Drivers/GunyahVirtioFsDxe/SimpleFsOpenVolume.c:21-101 | One more root handle, or nothing if the server refuses. |
| FuseSession.FileSystem.OpenRootDirectory | GunyahPkg/Drivers/GunyahVirtioFsDxe/SimpleFsOpen.c:38-87 | Unless the server refuses, the root is opened, for writing if and only if it is not read-only; a failure opens nothing. |
| FuseSession.FileSystem.OpenExistent | GunyahPkg/Drivers/GunyahVirtioFsDxe/SimpleFsOpen.c:137-207 | One reference and one handle on success, none on failure; NotFound exactly if the entry does not exist; unless the server refuses, success exactly if the node's type is known and writing is allowed. |
| FuseSession.FileSystem.CreateDirectory | GunyahPkg/Drivers/GunyahVirtioFsDxe/SimpleFsOpen.c:232-264 | A directory that cannot be opened leaves no reference behind, and is gone again unless the server refuses to remove it; existing entries are never disturbed. |
| FuseSession.CheckRequest | GunyahPkg/Drivers/GunyahVirtioFsDxe/SimpleFsOpen.c:338-392 | A request is accepted if and only if the mode is read, read-write or read-write-create and, for create, the attributes are known and not read-only; a directory is asked for if and only if the caller's attributes say so. |
| FuseSession.FileSystem.Open | GunyahPkg/Drivers/GunyahVirtioFsDxe/SimpleFsOpen.c:308-576 | The new file's pathname is the appended one and leads to the file's node; whether it is open for writing is the caller's mode bit; an entry that was not there before is a directory if and only if the caller's attributes say so, is the only change to the tree, and is made only if the mode asks for creation; a bad mode, bad attributes, a relative name on a regular file, a bad pathname and a root escape are refused without changing anything; unless the server refuses a request, the open succeeds if and only if directories lead to the entry and it may be opened, or be created where that was asked for; a failed open adds no file; the balance is kept. |
| FuseSession.FileSystem.Close | GunyahPkg/Drivers/GunyahVirtioFsDxe/SimpleFsClose.c:14-80 | Always succeeds, takes the file off the list, and gives its reference back once, and its handle, on the node and of the type it was opened with. |
| FuseSession.FileSystem.Delete | GunyahPkg/Drivers/GunyahVirtioFsDxe/SimpleFsDelete.c:14-116 | Always closes; success if and only if the entry at the file's pathname was removed, otherwise a warning and an unchanged tree; unless the server refuses, that is if and only if the file is open for writing and directories lead to an entry there; the balance is kept. |
| FuseSession.AnotherFileBelow | GunyahPkg/Drivers/GunyahVirtioFsDxe/SimpleFsSetInfo.c:235-262 | The check over all open files refuses exactly if another one is at or below the directory. |
| FuseSession.FileSystem.Rename | GunyahPkg/Drivers/GunyahVirtioFsDxe/SimpleFsSetInfo.c:172-337 | Refusals as the destination demands; the file's own place is success without a request; otherwise success means that the server moved exactly that entry to a free place and the pathname followed; unless the server refuses, it moves if and only if the file is open for writing, no other file is open at or below it if it is a directory, the entry exists and the new place is free; both parents are forgotten. |
| FuseSession.FileSystem.ReadChunk | GunyahPkg/Drivers/GunyahVirtioFsDxe/SimpleFsRead.c:165-256 | A directory chunk gives back every reference that came with it, except exactly those from its first malformed record on, in which case it is a protocol error. |
| FuseSession.FileSystem.Stop | GunyahPkg/Drivers/GunyahVirtioFsDxe/DriverBinding.c:155-213 | Stopping is allowed only when no file is open; then no handle is held, and the server counts only lost forgets and, of every chunk it ever sent, the nodes from the first malformed record on. |
| FuseSession.FileSystem.Run | GunyahPkg/Drivers/GunyahVirtioFsDxe/SimpleFsOpen.c:308-576 | Over every run of calls and every server behaviour: lookups granted minus forgets sent equal the open files on each node other than the root plus, of every chunk the server ever sent, the nodes from its first malformed record on; open handles equal the open files' handles, each on its file's node, of its type and access; each state of the run follows from the one before by what its call may do; every open pathname leads to its node in every state if and only if every call that removed or moved an entry was for a file that was the only one open at or below its place, and was not moved into itself; if the server refuses nothing, every call opens, removes or moves if and only if that is possible in its state. |
| FuseSession.CoherentExactly | GunyahPkg/Drivers/GunyahVirtioFsDxe/SimpleFsSetInfo.c:172-337 | For every call: from a state where the server's directories are a tree and every open pathname leads to its node, the call leads to such a state if and only if what it removed or moved was the only open file at or below its place and was not moved into itself. |
| FuseSession.RunCoherentExactly | GunyahPkg/Drivers/GunyahVirtioFsDxe/SimpleFsSetInfo.c:172-337 | The same for every run: all its states are such if and only if all its calls were of that kind. |
| DirCache.NothingLost | GunyahPkg/Drivers/GunyahVirtioFsDxe/SimpleFsRead.c:165-256 | Chunks without a malformed record leave no reference behind. |
| FuseSession.RenameKeepsPaths | GunyahPkg/Drivers/GunyahVirtioFsDxe/SimpleFsSetInfo.c:231-262 | After a rename every open file's pathname still leads to its node if and only if no other file was open at or below the source. |
| FuseSession.DeleteKeepsPaths | GunyahPkg/Drivers/GunyahVirtioFsDxe/SimpleFsDelete.c:63-84 | After a removal another open file's pathname is right if and only if it is not at or below the removed one. |
| FuseSession.OpenKeepsPaths | GunyahPkg/Drivers/GunyahVirtioFsDxe/SimpleFsOpen.c:482-521 | Nothing that Open creates disturbs the pathnames of open files. |
| FileInfo.UnmodifiedInfoIsNoUpdate | GunyahPkg/Drivers/GunyahVirtioFsDxe/SimpleFsSetInfo.c:360-461 | Asking for the attributes a file already has results in no request, for every file type and access mode. |
| FileInfo.ModeUpdateTakesEffect | GunyahPkg/Drivers/GunyahVirtioFsDxe/Helpers.c:2518-2585 | After the permission bits that the driver sends, the file reports the requested read-only bit and the same type. |
| FileInfo.ReadAttributes | GunyahPkg/Drivers/GunyahVirtioFsDxe/Helpers.c:2150-2244 | The conversion step by step gives what the specification of GetInfo's fields says, with the times in their order and the attribute word set bit by bit, and fails where it says so. |
| FileInfo.ExpressibleExactly | GunyahPkg/Drivers/GunyahVirtioFsDxe/Helpers.c:2150-2244 | 64-bit attributes can be expressed if and only if they are those of a directory or of a regular file with at most one link, and the allocated size in bytes fits 64 bits; each field then says what the attributes say. |
| FileInfo.GetSizeUpdate | GunyahPkg/Drivers/GunyahVirtioFsDxe/Helpers.c:2350-2368 | A new size is asked for exactly if the file is no directory and the size differs. |
| FileInfo.GetTimeUpdates | GunyahPkg/Drivers/GunyahVirtioFsDxe/Helpers.c:2415-2488 | Times that are zero or unchanged are not asked for; creation and modification time share one field, and asking for both differently is an access error; a time that is not valid is refused. |
| FileInfo.GetModeUpdate | GunyahPkg/Drivers/GunyahVirtioFsDxe/Helpers.c:2519-2585 | The permission bits follow the read-only bit; a change of type or of an unknown attribute is an access error. |
| FileInfo.CollectUpdates | GunyahPkg/Drivers/GunyahVirtioFsDxe/SimpleFsSetInfo.c:360-461 | The three differences are collected into one request, none is sent if there is none, and a file that is not open for writing may be changed in its read-only bit alone. |
| FileInfo.UpdateTakesEffect | GunyahPkg/Drivers/GunyahVirtioFsDxe/SimpleFsSetInfo.c:360-461 | When the server has applied the request, GetInfo reports the requested size, times and read-only bit, the same type and the same physical size, for every file and every request that is sent. |
| FileInfo.BothTimesExactly | GunyahPkg/Drivers/GunyahVirtioFsDxe/Helpers.c:2415-2488 | After a request with both times, GetInfo reports both as requested if and only if they are equal. |
| SetInfo.ValidateInfoStructure | GunyahPkg/Drivers/GunyahVirtioFsDxe/SimpleFsSetInfo.c:56-129 | Success exactly for a buffer whose size field, parity and terminator are right; reading the name then stops within the buffer. |
| SetInfo.GetFileInfo | GunyahPkg/Drivers/GunyahVirtioFsDxe/SimpleFsGetInfo.c:19-77 | The needed size is reported exactly when the buffer is too small; success exactly if it is not, the attributes could be read and they can be expressed, and then they and the basename are delivered. |
| SetInfo.SetFileInfo | GunyahPkg/Drivers/GunyahVirtioFsDxe/SimpleFsSetInfo.c:466-516 | An ill-formed buffer changes nothing; unless the server refuses, the file is moved if and only if the name in the buffer demands it and Rename allows it; once the name is settled, the attribute request is exactly the difference to the current attributes, and none is sent where there is none. |
| SetInfo.ReportedNameIsSame | GunyahPkg/Drivers/GunyahVirtioFsDxe/SimpleFsGetInfo.c:42-66 | The name that GetInfo reports names the file itself, for the root as well. |
| SetInfo.SetUnmodifiedInfo | GunyahPkg/Drivers/GunyahVirtioFsDxe/SimpleFsSetInfo.c:466-516 | SetInfo with the unmodified result of GetInfo renames nothing, sends no FUSE_SETATTR and changes no state, for every open file including the root. |
| ChunkedIo.OverlayComposes | GunyahPkg/Drivers/GunyahVirtioFsDxe/SimpleFsWrite.c:39-67 | Two adjacent writes are one write. |
| ChunkedIo.File.Read | GunyahPkg/Drivers/GunyahVirtioFsDxe/SimpleFsRead.c:368-428 | A chunked read is a prefix of one large read, and all of it if no request fails and the position is not beyond the end; requests are between 1 and MaxWrite bytes; the position advances by what was read; a total failure changes nothing. |
| ChunkedIo.File.Write | GunyahPkg/Drivers/GunyahVirtioFsDxe/SimpleFsWrite.c:11-84 | The file is overlaid with exactly the transferred bytes, success if and only if all of them were, and that if and only if no request fails or makes no progress; the position advances by as much. |
| ChunkedIo.File.SetPosition | GunyahPkg/Drivers/GunyahVirtioFsDxe/SimpleFsSetPosition.c:48-69 | The largest position means the current end of the file, any other is taken literally; an error exactly if the size was needed and could not be had. |
| ChunkedIo.File.WriteSeekRead | GunyahPkg/Drivers/GunyahVirtioFsDxe/SimpleFsRead.c:368-428 | Write, seek back, read: if no request fails, the data comes back. |
| DmaPool.SameBits | GunyahPkg/Drivers/GunyahIoMmuDxe/DmaPool.c:31-56 | A bitmap byte is determined by its eight bits. |
| DmaPool.Pool.FindFreeRun | GunyahPkg/Drivers/GunyahIoMmuDxe/DmaPool.c:61-89 | Finds a run if and only if there is one, and then the lowest. |
| DmaPool.Pool.AllocatePages | GunyahPkg/Drivers/GunyahIoMmuDxe/DmaPool.c:161-186 | Succeeds if and only if that many consecutive pages are free (a request for none takes a page), takes the lowest such run inside the pool, and flips exactly its bits. |
| DmaPool.Pool.FreePages | GunyahPkg/Drivers/GunyahIoMmuDxe/DmaPool.c:188-217 | Clears exactly the pages that the address and count denote, and none if one of them is outside the pool. |
| DmaPool.Pool.LibraryFreePages | GunyahPkg/Library/GunyahVirtioMmioDeviceLib/GunyahDmaPool.c:266-299 | The same, for the variant whose subtraction wraps instead of testing. |
| DmaPool.FreedExactly | GunyahPkg/Drivers/GunyahIoMmuDxe/DmaPool.c:188-217 | A sum that wraps frees nothing: the pages freed are exactly those that address and count denote in unbounded arithmetic, if all of them are in the pool. |
| DmaPool.FreedByLibraryExactly | GunyahPkg/Library/GunyahVirtioMmioDeviceLib/GunyahDmaPool.c:266-299 | The same for the wrapping subtraction, addresses below the pool included. |
| DmaPool.FreesAgree | GunyahPkg/Library/GunyahVirtioMmioDeviceLib/GunyahDmaPool.c:266-299 | For a page-aligned pool below 2^64, the wrapping free clears the same pages as the checking one, for every address and every page count. |
| DmaPool.Pool.AllocateThenFree | GunyahPkg/Drivers/GunyahIoMmuDxe/DmaPool.c:161-217 | Freeing an allocated block restores every byte of the bitmap. |
| IoMmu.TiledInsert | GunyahPkg/Drivers/GunyahIoMmuDxe/GunyahIoMmuDxe.c:104-181 | Taking a free block keeps the set bits the disjoint union of the live blocks. |
| IoMmu.TiledRemove | GunyahPkg/Drivers/GunyahIoMmuDxe/GunyahIoMmuDxe.c:190-229 | So does giving one back. |
| IoMmu.BouncePagesAreLeast | GunyahPkg/Drivers/GunyahIoMmuDxe/GunyahIoMmuDxe.c:152-155 | The pages of a bounce buffer always hold the request, and are the fewest that do if and only if the byte count is at most 2^64 - 4096. |
| IoMmu.IoMmu.Map | GunyahPkg/Drivers/GunyahIoMmuDxe/GunyahIoMmuDxe.c:104-181 | A bounce mapping is made if and only if a free run of its size exists; it gets fresh pages and disturbs no other mapping; it holds a snapshot of the host buffer if the device will read, and the pages' old contents if it will write; a common buffer maps to itself; failure changes nothing. |
| IoMmu.IoMmu.Unmap | GunyahPkg/Drivers/GunyahIoMmuDxe/GunyahIoMmuDxe.c:190-229 | The host buffer receives what the bounce buffer holds, no other memory changes, and exactly the mapping's pages are free again; other mappings hold what they should, unless the caller's buffer overlaps their bounce buffers; no mapping, no effect. |
| IoMmu.IoMmu.AllocateBuffer | GunyahPkg/Drivers/GunyahIoMmuDxe/GunyahIoMmuDxe.c:235-267 | Fresh zeroed pages if and only if a free run exists, and nothing else is written. |
| IoMmu.IoMmu.FreeBuffer | GunyahPkg/Drivers/GunyahIoMmuDxe/GunyahIoMmuDxe.c:272-287 | Exactly the denoted pages are freed; the caller's own buffer leaves the others tiled, and any other request keeps the tiling if and only if it denotes no page in use. |
| IoMmu.IoMmu.DeviceWrite | GunyahPkg/Drivers/GunyahIoMmuDxe/GunyahIoMmuDxe.c:104-229 | What the device writes into its bounce buffer is recorded there and reaches no other mapping. |
| IoMmu.IoMmu.Execute | GunyahPkg/Drivers/GunyahIoMmuDxe/GunyahIoMmuDxe.c:104-287 | Over every run of calls and writes: the set bits are the disjoint union of live bounce and common buffers, every live bounce buffer holds its contents from the start of the run, changed by the device's writes to it and nothing else, and a mapping stays live until it is unmapped, and no longer if its host buffer is outside the pool. |
| IoMmu.ReadBufferKept | GunyahPkg/Drivers/GunyahIoMmuDxe/GunyahIoMmuDxe.c:104-229 | A buffer that the device reads keeps its map-time snapshot through any run. |
| IoMmu.ByteOrigin | GunyahPkg/Drivers/GunyahIoMmuDxe/GunyahIoMmuDxe.c:190-229 | Each byte that comes back is the last one the device wrote there, or else what the pool page held when it was mapped. |
| IoMmu.DeviceOnlyExactly | GunyahPkg/Drivers/GunyahIoMmuDxe/GunyahIoMmuDxe.c:190-229 | The result is the device's alone, whatever the pool page held, if and only if the device wrote every byte. |
| IoMmu.PartialWriteKeepsStaleByte | GunyahPkg/Drivers/GunyahIoMmuDxe/GunyahIoMmuDxe.c:190-229 | Counterexample: after a partial write the host buffer receives an old byte of the pool page. |
| IoMmu.IoMmu.DeviceToHost | GunyahPkg/Drivers/GunyahIoMmuDxe/GunyahIoMmuDxe.c:104-229 | Map for writing, any run, unmap: the host buffer holds the run's device writes over the pool page's old contents, whenever there is room, the run does not unmap it and the host buffer lies outside the pool. |
| IoMmu.IoMmu.PoolComesBack | GunyahPkg/Drivers/GunyahIoMmuDxe/GunyahIoMmuDxe.c:104-287 | With no mapping and no buffer left, every page is free. |
| GopBlt.AtInRow | GunyahPkg/Drivers/GunyahVirtioGpuDxe/Gop.c:646-730 | The flat index of a pixel falls into a row segment if and only if the pixel lies in that row and those columns. |
| GopBlt.CopyRowsDownward | GunyahPkg/Drivers/GunyahVirtioGpuDxe/Gop.c:720-729 | Top-to-bottom copying within one bitmap is a rectangle copy of the original source whenever it is not moving down. |
| GopBlt.CopyRowsUpward | GunyahPkg/Drivers/GunyahVirtioGpuDxe/Gop.c:708-719 | Bottom-to-top copying is a rectangle copy of the original source when moving down within one bitmap, overlapping or not. |
| GopBlt.LoadRows | GunyahPkg/Drivers/GunyahVirtioGpuDxe/Gop.c:676-693 | Every pixel of the rectangle is the one at its byte offset in the caller's buffer, for every Delta, and no other pixel changes; PixelBytes says which bytes these are. |
| GopBlt.StoreRows | GunyahPkg/Drivers/GunyahVirtioGpuDxe/Gop.c:656-675 | Every byte of the caller's buffer that some row covers comes from the last such row, for every Delta, and no other byte changes. |
| GopBlt.RowsApart | GunyahPkg/Drivers/GunyahVirtioGpuDxe/Gop.c:656-675 | If Delta is at least a row's width, each row arrives whole. |
| GopBlt.PixelBytes | GunyahPkg/Drivers/GunyahVirtioGpuDxe/Gop.c:676-693 | Each of a pixel's four bytes is the byte at its place in the buffer. |
| GopBlt.ReadBack | GunyahPkg/Drivers/GunyahVirtioGpuDxe/Gop.c:656-693 | What was loaded from a buffer and is stored to a buffer is the same, byte by byte, for any two buffer positions and strides that keep rows apart. |
| GopBlt.Screen.OnScreenFits | GunyahPkg/Drivers/GunyahVirtioGpuDxe/Gop.c:601-632 | The overflow-proof bounds check accepts exactly the rectangles on the screen, and these stay inside the array. |
| GopBlt.Screen.TransferToHost2d | GunyahPkg/Drivers/GunyahVirtioGpuDxe/Gop.c:738-755 | The host rectangle becomes what guest memory holds from the given offset on; a failed command changes nothing. |
| GopBlt.Screen.Blt | GunyahPkg/Drivers/GunyahVirtioGpuDxe/Gop.c:550-769 | For every accepted operation and every pair of rectangles: the destination is the old source rectangle (or the fill colour), all other pixels are unchanged; unless the host refuses the transfer it agrees on the rectangle and wherever it agreed before, and exactly that rectangle is then flushed; an error exactly if a command was refused. |
| GopBlt.Screen.BltAll | GunyahPkg/Drivers/GunyahVirtioGpuDxe/Gop.c:550-769 | Over any sequence of requests, good ones and bad ones: host and guest agree on every pixel if they did before and the host refuses no transfer. |
| GopBlt.Screen.DrawAndReadBack | GunyahPkg/Drivers/GunyahVirtioGpuDxe/Gop.c:550-769 | Drawing a buffer to the screen and reading the rectangle back gives the caller's bytes, whatever the host does. |
| GopMode.BackingCoversExactly | GunyahPkg/Drivers/GunyahVirtioGpuDxe/Gop.c:416-418 | The pages cover the mode, with less than a page to spare, if and only if the 32-bit product of the resolution does not wrap. |
| GopMode.BackingCanBeEmpty | GunyahPkg/Drivers/GunyahVirtioGpuDxe/Gop.c:416-418 | Counterexample: 65536 x 65536 gets no page. |
| GopMode.Gop.Initialize | GunyahPkg/Drivers/GunyahVirtioGpuDxe/Gop.c:239-299 | The host's display size is added as a mode exactly if it is at least 640 x 480 and not in the table. |
| GopMode.Gop.ModesAreUsable | GunyahPkg/Drivers/GunyahVirtioGpuDxe/Gop.c:150-188 | Every mode on offer is at least 640 x 480, and every table mode gets enough memory. |
| GopMode.Gop.DisplayHasItsMemory | GunyahPkg/Drivers/GunyahVirtioGpuDxe/Gop.c:416-447 | In every reachable state with a display: the block attached to the current resource has enough pages for the mode shown, and less than one to spare, if and only if the resolution's 32-bit product does not wrap. |
| GopMode.Gop.ReleaseResources | GunyahPkg/Drivers/GunyahVirtioGpuDxe/Gop.c:39-140 | Gives up exactly one resource, its attachment and its pages, in an order in which no attached page is freed; hangs if and only if a detach or unref command fails, whatever becomes of disabling the head. |
| GopMode.Gop.SetMode | GunyahPkg/Drivers/GunyahVirtioGpuDxe/Gop.c:345-548 | Commits the new mode, with the resolution of the table or of the host's display, or leaves guest and host as they were; hangs if and only if a detach, an unref or the switch back to the current resource fails; succeeds for every mode on offer if nothing fails; in all reachable states the host holds exactly the current resource, shown, with a block of the mode's pages attached; ids alternate between 1 and 2, and attached pages are never freed. |
| GopMode.Gop.Uninit | GunyahPkg/Drivers/GunyahVirtioGpuDxe/Gop.c:39-140 | Closing leaves nothing on the host and no pages allocated, unless a detach or unref command fails, and the head disabled if no command fails. |
| KeyboardRing.SlotsDiffer | GunyahPkg/Drivers/GunyahVirtioKeyboardDxe/VirtioKeyboard.c:45-53 | Positions less than a ring apart use different slots. |
| KeyboardRing.WrapExactly | GunyahPkg/Drivers/GunyahVirtioKeyboardDxe/VirtioKeyboard.c:57-105 | 16-bit indices select the right slot at every position if and only if the queue size divides 65536. |
| KeyboardRing.ReachExactly | GunyahPkg/Drivers/GunyahVirtioKeyboardDxe/VirtioKeyboard.c:57-105 | For any other queue size they do so up to a position if and only if that position lies before the first wrap. |
| KeyboardRing.RequeuedIsTaken | GunyahPkg/Drivers/GunyahVirtioKeyboardDxe/VirtioKeyboard.c:132-172 | With the whole ring published, the next descriptor to publish is the one just read, across index wraparound. |
| KeyboardRing.Ring.SendBuffer | GunyahPkg/Drivers/GunyahVirtioKeyboardDxe/VirtioKeyboard.c:57-105 | The published descriptor is none that the device still owns, in every interleaving with the device. |
| KeyboardRing.Ring.FillRx | GunyahPkg/Drivers/GunyahVirtioKeyboardDxe/VirtioKeyboard.c:354-369 | Publishes every buffer once, for every queue size. |
| KeyboardRing.Ring.HasBuffer | GunyahPkg/Drivers/GunyahVirtioKeyboardDxe/VirtioKeyboard.c:109-128 | Comparing 16-bit indices tells exactly whether an unread message exists. |
| KeyboardRing.Ring.GetBuffer | GunyahPkg/Drivers/GunyahVirtioKeyboardDxe/VirtioKeyboard.c:132-172 | Delivers the oldest unread message once, in order: the first bytes that the device reported, or none if they do not fit; the descriptor consumed is that of the oldest position, and it is the one re-queued. |
| PciBuffer.SweepTouchesOnce | GunyahPkg/Library/BaseCachingPciExpressLib/PciExpressLib.c:1254-1328 | Cycles that form a sweep stay in the range and do not overlap. |
| PciBuffer.SweepMissesNothing | GunyahPkg/Library/BaseCachingPciExpressLib/PciExpressLib.c:1254-1328 | Every byte of the range belongs to a cycle of the sweep. |
| PciBuffer.ConfigSpace.ReadBuffer | GunyahPkg/Library/BaseCachingPciExpressLib/PciExpressLib.c:1254-1328 | Equals the byte loop, for every start and size, with naturally aligned cycles that touch each byte once in order. |
| PciBuffer.ConfigSpace.WriteBuffer | GunyahPkg/Library/BaseCachingPciExpressLib/PciExpressLib.c:1354-1426 | Equals the byte loop, for every start and size, with naturally aligned cycles that touch each byte once in order. |
| PciBuffer.ConfigSpace.WriteThenRead | GunyahPkg/Library/BaseCachingPciExpressLib/PciExpressLib.c:1254-1426 | On plain memory a read returns what was written. |
| Scsi.GetNextTargetLun | GunyahPkg/Drivers/GunyahVirtioScsiDxe/VirtioScsi.c:716-772 | The successor in lexicographic order, with NotFound exactly at the last unit and InvalidParameter exactly beyond it; the all-ones seed starts at zero. |
| Scsi.Enumerate | GunyahPkg/Drivers/GunyahVirtioScsiDxe/VirtioScsi.c:716-772 | Repeated calls visit every unit once, in order, and end. |
| Scsi.EncodingInjective | GunyahPkg/Drivers/GunyahVirtioScsiDxe/VirtioScsi.c:148-264 | Different accepted units have different LUN bytes. |
| Scsi.SectorsHold | GunyahPkg/Drivers/GunyahVirtioScsiDxe/VirtioScsi.c:232-236 | A length needs the fewest 512-byte sectors that hold it. |
| Scsi.PopulateRequest | GunyahPkg/Drivers/GunyahVirtioScsiDxe/VirtioScsi.c:148-264 | Each status on exactly its inputs; the LUN bytes decode to the unit, the command is copied and padded, both directions together respect the sector limit, and an oversized request comes back with lengths that would be accepted. |
| Scsi.ResidualExact | GunyahPkg/Drivers/GunyahVirtioScsiDxe/VirtioScsi.c:287-382 | The reported lengths stay within the request if and only if the residual does; then they add up to the request minus the residual, and data out counts first. |
| Scsi.ResidualWraps | GunyahPkg/Drivers/GunyahVirtioScsiDxe/VirtioScsi.c:287-382 | Failing input: a residual of one on an empty request is reported as 2^32 - 1 bytes. |
| Scsi.ReportsDiffer | GunyahPkg/Drivers/GunyahVirtioScsiDxe/VirtioScsi.c:287-382 | No two kinds of response are reported alike. |
| Scsi.ParseResponse | GunyahPkg/Drivers/GunyahVirtioScsiDxe/VirtioScsi.c:287-382 | Sense data is cut to what fits and copied, the target status is passed on, lengths account for the residual, and each response maps to its status and adapter status. |

## Left out

- Everything under crosvm: build scripts and command dispatch.
- Memory allocation failures, except in a refill and in the display's backing store, and NULL arguments: they add exits without effects on the modelled state.
- Device bring-up and cleanup ladders (VirtioFsInit, VirtioScsiInit, VirtioGpuInit, VirtioKeyboardInit), driver binding and component names.
- The FUSE request wrappers other than FuseRead.c: the same plumbing, represented by one abstract request each. Flush and fsync requests are not represented, as they change nothing that is modelled.
- VirtioFsErrnoToEfiStatus: a table; only that its results are errors is used.
- Conversion between seconds and EFI_TIME: a parameter, since the library is not part of this model.
- VIRTIO_FS_FUSE_DIRENTPLUS_RESPONSE_SIZE: a table by name length in which zero marks an invalid length. The header that defines it is not part of this model. The sizes of the FUSE headers (40, 16 and 40 bytes) and of the virtio SCSI fields (32 and 96 bytes) are taken from those protocols.
- FuseSession.FileSystem.Run: a directory read is one chunk; caching is in DirCache. Reads and writes of regular files hold no references and are in ChunkedIo.
- FuseSession.FileSystem.Close: open files are positions in a list rather than addresses, and a pathname is kept as its components, rendered to the driver's string wherever the driver uses it.
- FuseSession.FileSystem.Open: the node's type and permission are one record per node instead of raw attributes.
- FuseSession.FileSystem.Delete: that the server refuses to remove a directory that is not empty is not modelled; the theorems about removed pathnames hold either way.
- SetInfo.SetFileInfo: volume labels and EFI_FILE_SYSTEM_INFO are left out; both only compare a label.
- DirCache.Directory.ConsumeChunk: a record that is cut short is shorter than a header, and any single record fits into the buffer.
- ChunkedIo.File.Write: assumes that the server does not claim to have written more than was sent, which FuseWrite.c does not check.
- ChunkedIo.File.Read: file positions do not wrap at 2^64.
- IoMmu.IoMmu.Map: the 64-bit variants of the operations behave like their 32-bit ones and are not told apart; SetAttribute has no effect and is left out. Disjointness is about one allocator: GunyahIoMmuDxe and GunyahVirtioMmioDeviceLib keep a bitmap each.
- IoMmu.IoMmu.Unmap: called for a live mapping, or for NULL or memory without the signature; memory of a mapping that is gone may still carry it.
- KeyboardRing.Ring.FillRx: the queue size is at most 0x8000, the largest that virtio allows.
- DmaPool.Pool.LibraryFreePages: the library's own allocation loop is the same algorithm as DmaPool.c's and is not modelled twice.
- GopMode.Gop.SetMode: the dead loops on a failed destruction step are an outcome of their own, after which nothing is claimed.
- KeyboardRing.Ring.GetBuffer: for a queue size that does not divide 65536, calls behind the first wrap are not covered. The transmit path and the variant without a data buffer are left out, as are notifications to the device.
- PciBuffer.ConfigSpace.ReadBuffer: configuration space is plain memory; registers with side effects are outside the model.
- Scsi.PopulateRequest: the EFI_EXT_SCSI_PASS_THRU entry points around it.
