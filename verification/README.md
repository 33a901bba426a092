# Magisk core algorithms, verified

Magisk patches Android boot images and runs a daemon that overlays module files
on read-only partitions. This project models its self-contained algorithms and
proves what they promise, for every input and every run. Where a promise holds
only under a condition, the condition is proved to be exact.

- **Module overlay** (`FileTree`, `ModuleOverlay`, `ModuleCommit`, `ModuleCollect`, `ModuleReplace`, `ModuleRoots`, `ModuleApply`):
  trees of modules are merged and committed by bind mounts or by rebuilding directories
  in tmpfs. The mounts are imperative steps on two trees, the visible one and the worker
  one, and the choice between the two ways is proved invisible. The overlay is defined on the
  collected tree; where the code shows something else (below `.replace` files, at partition
  roots) the exact condition is proved.
- **Thread pool** (`ThreadPool`): the critical sections are methods; their interleavings,
  with spurious wake-ups and time-outs, are a step relation over all schedules.
- **cpio archives** (`CpioFormat`, `CpioParser`, `CpioRoundTrip`, `CpioArchives`, `CpioLayout`,
  `CpioPaths`, `CpioBackup`, `CpioRestore`, `CpioKeys`, `CpioUndo`, `Utf8`): printing and parsing,
  the two-way merge behind `backup`, and `restore` undoing it.
- **LZ4 block streams** (`Chunker`, `Lz4Stream`, `Lz4RoundTrip`, `Lz4Layout`, `Lz4Codec`, `Lz4Detect`):
  encoder, decoder and format detector over an abstract block codec that inverts itself
  within the LZ4 size bound.
- **SELinux rules** (`Avtab`, `PolicyDb`, `PolicyNodes`, `PolicyMeaning`, `Xperms`, `XpermRules`): rule insertion
  with wildcards over hash chains, what it means for effective permissions, and ioctl ranges.
- **Boot images** (`BootLayout`, `DtbSearch`, `VendorRamdisks`, `BootImage`, `BootRepack`, `BootReadBack`):
  page-aligned sections, unpacking, repacking and reading back.
- **CRC-32** (`Crc32`): the table-driven checksum against a bit-serial register.
- **Deny list** (`DenyList`, `DenyRuns`, `DenyNames`): maps, index and database against one list of rows.
- **Key/value lists** (`KeyValues`) and **mount flag removal** (`FlagPatch`, `FlagWords`).

`Options`, `Bytes` and `Slices` hold shared helpers. A file position that the C++ code
represents by "not found" is the length of the text here. Sets of permissions are sets of
bit positions, 32 or 256 of them. I/O results that a function depends on (whether a database
statement succeeds, which app ids are installed, how much a reader returns, whom a
notification wakes) are parameters or arbitrary choices.

## Model

| member | source | states |
|---|---|---|
| ModuleOverlay.SelectiveCommitIsOverlay | native/src/core/module.rs:266-432 | The view after a selective commit equals the recursive overlay of the collected tree over the real one if and only if no kind clash (file against directory) is reached by a bind mount and every replacement matches. |
| ModuleOverlay.SelectiveCommitIsRebuild | native/src/core/module.rs:286-432 | Deciding directory by directory between single bind mounts and a rebuild is invisible: the selective view equals the fully rebuilt one if and only if no kind clash is reached. |
| ModuleOverlay.RebuildIsOverlay | native/src/core/module.rs:338-432 | Rebuilding a directory gives the overlay of the collected tree, for any real directory, if and only if below each outermost `.replace` file the replacing module's directories hold, entry by entry, all the tree says, without whiteouts or `.replace` files. |
| ModuleReplace.OneModuleReplaces | native/src/core/module.rs:349-368 | A module alone is rebuilt as it says if and only if the directories beside its `.replace` files hold no whiteout and no `.replace` entry. |
| ModuleReplace.LostBelowReplace | native/src/core/module.rs:356-361 | Two modules, one replacing a directory and one adding a file below it: the file is in the collected tree and in the overlay, and the rebuilt directory does not show it. |
| ModuleReplace.EmptyBelowReplace | native/src/core/module.rs:356-361 | Wherever the replacing module has no such directory, what others put there is gone. |
| ModuleOverlay.ClashIsVisible | native/src/core/module.rs:327-329 | A concrete clash: a module file over a real directory leaves the directory visible while the overlay would show the file. |
| ModuleOverlay.EmptyNodeMirrors | native/src/core/module.rs:370-398 | Committing an empty directory node reproduces the real directory exactly. |
| ModuleOverlay.MagiskLinks | native/src/core/module.rs:416-425 | The links Magisk puts into a directory: `supolicy` to its policy tool, every other name to itself. |
| ModuleOverlay.ReplaceFile | native/src/core/module.rs:349-368 | A file named `.replace` empties a directory and is not itself shown; a directory or link of that name does neither. |
| ModuleOverlay.MissingSource | native/src/core/module.rs:47-61 | A file whose source is missing is shown as the empty file it was to be mounted on. |
| ModuleCommit.MountSpace.MountDummy | native/src/core/module.rs:47-61 | Creates a mount point in the worker tree and mounts the source on it; nothing else in the tree changes. |
| ModuleCommit.MountSpace.BindMount | native/src/core/module.rs:39-45 | A bind mount changes exactly the view at its path; one that cannot succeed changes nothing. |
| FileTree.AtPutElsewhere | native/src/core/module.rs:39-61 | An update at one path changes nothing at paths apart from it; every mount and rebuild below is such an update. |
| ModuleCommit.MountSpace.CommitTmpfs | native/src/core/module.rs:338-432 | The step by step rebuild (create, mirror, mount, link, recurse) leaves exactly the rebuilt view at the path in the worker tree. |
| ModuleCommit.MountSpace.CommitReplaced | native/src/core/module.rs:349-368 | With a `.replace` file the worker directory holds the tree's leaves and, for its directories, those of the replacing module mounted whole; RebuildIsOverlay says when that is the overlay. |
| ModuleCommit.MountSpace.CommitMerged | native/src/core/module.rs:370-405 | Without one, mirroring and then committing children in any order gives the rebuilt view. |
| ModuleCommit.MountSpace.MirrorStock | native/src/core/module.rs:371-398 | Every real entry the module does not name is mirrored, directories recursively, links as links. |
| ModuleCommit.MountSpace.Retain | native/src/core/module.rs:289-313 | Which children stay and whether a rebuild is needed; a partition root drops what would need one. |
| ModuleCommit.MountSpace.Commit | native/src/core/module.rs:286-336 | The imperative commit turns the visible tree into the selective view at its path, and every other path keeps its content. |
| ModuleCommit.MountSpace.CommitSelected | native/src/core/module.rs:315-325 | The same for a directory whose children have been retained. |
| ModuleCollect.Collect | native/src/core/module.rs:214-264 | Reading one module directory into the tree computes the left-biased union of the tree and the module. |
| ModuleCollect.CollectModules | native/src/core/module.rs:853-876 | Collecting the modules in order is the left fold of those unions. |
| ModuleCollect.DefinesWhatItHolds | native/src/core/module.rs:214-260 | A module says at each path what its `system` directory holds there (directory, link, whiteout or file to mount), and nothing if it opts out of mounting. |
| ModuleCollect.UnionAt | native/src/core/module.rs:214-264 | At every path the union has the left tree's node if it has one, else the right tree's unless a left leaf is in the way. |
| ModuleCollect.CollectedAt | native/src/core/module.rs:853-876 | For any number and depth of modules: at every path the first module that defines it wins, unless a leaf above blocks the path. |
| ModuleCollect.FirstBlock | native/src/core/module.rs:214-264 | The shortest blocking prefix is itself not blocked, so what blocks a path is really in the tree. |
| ModuleCollect.CollectedSourced | native/src/core/module.rs:214-264 | Every file node of the collected tree names something that is mounted in the module tree. |
| ModuleApply.SplitRoots | native/src/core/module.rs:905-919 | Exactly the secondary partitions that are real directories are taken out of the main tree. |
| ModuleApply.CommitRoots | native/src/core/module.rs:924-934 | Committing partition by partition, in any order, gives each partition its own view and touches no other. |
| ModuleApply.AppliedPartitions | native/src/core/module.rs:905-934 | `/vendor`, `/product` and `/system_ext`, where they are real directories, show what was collected under their name; `/system` shows all the rest, with the others of these names inside it; nothing else changes. |
| ModuleRoots.RootShowsOverlay | native/src/core/module.rs:292-313 | A partition root shows the overlay of its whole collected tree if and only if each child it must drop is there already, the others neither clash nor lose anything below a replacement, and its own `.replace` file would hide nothing. |
| ModuleRoots.NewFileAtRoot | native/src/core/module.rs:303-309 | A new file at the top of a partition clashes with nothing and is not shown. |
| ModuleRoots.RootReplaceIgnored | native/src/core/module.rs:293-296 | A `.replace` file at a root changes nothing. |
| ModuleRoots.RootChildShown | native/src/core/module.rs:292-313 | Name by name, what a partition root shows: new names, links, whiteouts and `.replace` have no effect, no real link is covered, a file covers a file and nothing else. |
| ModuleRoots.CommitHides | native/src/core/module.rs:286-432 | When a selective commit shows the tree as if nothing real had been there. |
| ModuleApply.ApplyModules | native/src/core/module.rs:838-935 | From modules to mounts: every partition shows what committing its root gives, which is the overlay of everything collected for it exactly under the condition of RootShowsOverlay; which partitions there are is said by name, and nothing else changes. |
| ThreadPool.PoolIsSafe | native/src/core/thread.rs:28-95 | In every state of every schedule, with spurious wake-ups and time-outs racing notifications: a pending task has a worker that will look at it, a blocked client has someone on the way, and tasks are taken once and in order. |
| ThreadPool.TasksAreConserved | native/src/core/thread.rs:69-81 | In every state of every schedule the tasks handed in by all calls are those submitted and those clients still hold, each as often, and every client holds the task of its own call. |
| ThreadPool.SubmitsOwnTask | native/src/core/thread.rs:75-81 | A step submits the task of the calling client's own last call, if it finds the slot empty, and nothing otherwise. |
| ThreadPool.ClientMoves | native/src/core/thread.rs:69-81 | The life of a client, both ways: it blocks exactly on a full slot, wakes exactly by a notification or for no reason, and leaves exactly when it finds the slot empty. |
| ThreadPool.StepCounts | native/src/core/thread.rs:38-57 | Every step keeps: the counters count the threads, and the core threads number min(total, core size). |
| ThreadPool.SomeoneIsAttentive | native/src/core/thread.rs:44-53 | The time-out race: if nobody can be notified although threads are idle, a core thread is busy and will come back. |
| ThreadPool.StepKeepsTask | native/src/core/thread.rs:55-95 | Every step keeps a pending task attended. |
| ThreadPool.StepKeepsClients | native/src/core/thread.rs:56-80 | Every step keeps blocked clients behind a full slot or a notified client. |
| ThreadPool.NoCorePoolLosesTask | native/src/core/thread.rs:84-88 | Without a core pool there is a schedule that strands a task with no thread left. |
| ThreadPool.CorePoolIsNecessary | native/src/core/thread.rs:84-88 | No task is ever stranded if and only if the core pool has at least one thread. |
| ThreadPool.NeverStuck | native/src/core/thread.rs:28-95 | While a task or a client waits, some step of the pool itself is possible. |
| ThreadPool.PendingTaskIsTaken | native/src/core/thread.rs:55-66 | Whatever the scheduler does, an attentive worker's second own step cannot come before the pending task is taken. |
| ThreadPool.Perform | native/src/core/thread.rs:37-58 | The critical sections, run on the shared counters and slot, take the step of the model: same counters and slot, and the thread moves as its section tells it (wait, run what was taken, start a core or extra thread). |
| ThreadPool.RunSchedule | native/src/core/thread.rs:28-95 | Any schedule carried out by that code: at its end the counters are the numbers of idle and live threads, up to three of them core threads, the slot holds exactly the task submitted and not taken, every task handed in is taken, in the slot or with its client, and somebody will look at the slot. |
| CpioFormat.X8u | native/src/boot/cpio.rs:826-837 | The accumulator loop returns the value of eight hex digits, fails on any other character, and never leaves 32 bits. |
| CpioFormat.HexRoundTrip | native/src/boot/cpio.rs:826-837 | Reading the hexadecimal digits of a number that fits gives the number. |
| CpioLayout.CaseDoesNotMatter | native/src/boot/cpio.rs:826-837 | Upper and lower case digits have the same value, anywhere in a number. |
| CpioLayout.LetterDigits | native/src/boot/cpio.rs:826-837 | The value of every digit and letter. |
| CpioLayout.OnlyHexDigits | native/src/boot/cpio.rs:826-837 | A number is read if and only if every byte is one of the 22 hexadecimal digits. |
| CpioFormat.Dump | native/src/boot/cpio.rs:269-310 | Writing member by member, with padding computed from file positions, gives the archive layout. |
| CpioFormat.WriteMember | native/src/boot/cpio.rs:274-297 | One member: header, name, NUL, padding, data, padding, and the new position. |
| CpioLayout.MemberLayout | native/src/boot/cpio.rs:274-297 | The byte positions of all thirteen numbers, of the name, its NUL, the data and both paddings in a written member. |
| CpioLayout.TrailerLayout | native/src/boot/cpio.rs:302-309 | The same for the trailer. |
| CpioLayout.ArchiveBegins | native/src/boot/cpio.rs:269-280 | The first name in byte order comes first, with inode 300000. |
| CpioLayout.ArchiveEnds | native/src/boot/cpio.rs:302-309 | Every archive ends with the trailer, whose inode follows those of the entries. |
| CpioParser.LoadFromData | native/src/boot/cpio.rs:223-261 | The loop over positions is the recursive reading of the archive; it advances by at least a header in each round and ends on every input. |
| CpioParser.LoadOne | native/src/boot/cpio.rs:226-258 | One round: header, name, special names, trailer and data, with every error case. |
| CpioParser.ParseMember | native/src/boot/cpio.rs:226-258 | A printed member parses to exactly its entry, wherever in a file it is. |
| CpioRoundTrip.LoadRun | native/src/boot/cpio.rs:223-310 | Reading a run of printed members adds them all, whatever stands before and after. |
| CpioArchives.LoadUndoesDump | native/src/boot/cpio.rs:223-310 | Loading what was dumped gives the same entries. |
| CpioArchives.LoadUndoesDumpIff | native/src/boot/cpio.rs:223-310 | It does so if and only if no name is special to the parser. |
| CpioArchives.LoadedNames | native/src/boot/cpio.rs:234-250 | Whatever bytes are loaded, the resulting names are valid. |
| CpioLayout.NamesInArchives | native/src/boot/cpio.rs:234-250 | Which names an archive can hold: valid text without NUL, but for two directories and the name of the trailer. |
| Utf8.EncodedIsValid | native/src/boot/cpio.rs:234-234 | Every sequence of characters encodes to bytes the reader accepts as text. |
| Utf8.ValidIsEncoded | native/src/boot/cpio.rs:234-234 | All bytes it accepts are the encoding of some characters: no surrogates, overlong forms or values out of range. |
| Utf8.LessIsSmaller | native/src/boot/cpio.rs:637-660 | The order of names in an archive is decided by the first byte that differs. |
| CpioArchives.LoadPair | native/src/boot/cpio.rs:240-249 | Two archives with zeros between them load as the first overridden by the second. |
| CpioArchives.LoadImage | native/src/boot/cpio.rs:240-249 | The same for any number of archives and any padding. |
| CpioPaths.NormPathIdempotent | native/src/boot/cpio.rs:843-849 | Normalising a path gives a normal path, which normalising leaves alone. |
| CpioPaths.SplitJoin | native/src/boot/cpio.rs:843-849 | Splitting a joined path gives its components back. |
| CpioLayout.NormalIsTidy | native/src/boot/cpio.rs:843-849 | The paths normalising leaves alone are those without a slash at an end or two in a row. |
| CpioLayout.NormPathKeeps | native/src/boot/cpio.rs:843-849 | Normalising takes away slashes and nothing else. |
| CpioBackup.Merge | native/src/boot/cpio.rs:616-677 | The two-way merge of the sorted archives backs up exactly the original names that are missing or differ in data, and records exactly the added names, both in order. |
| CpioRestore.WhatIsBackedUp | native/src/boot/cpio.rs:637-660 | Membership in the two results, in terms of the two archives alone. |
| CpioRestore.Cpio.Remove | native/src/boot/cpio.rs:312-328 | Removes the normalised name and, recursively, everything below it. |
| CpioLayout.RemovedNames | native/src/boot/cpio.rs:312-328 | Name by name what removing leaves: everything but the name and, recursively, what begins with it and a slash. |
| CpioRestore.Cpio.BackUp | native/src/boot/cpio.rs:597-694 | The archive after backup: the cleaned archive with the kept originals and the removal list on top. |
| CpioRestore.Cpio.Restore | native/src/boot/cpio.rs:562-595 | The archive after restore, as a function of the one before. |
| CpioKeys.BackedUpUnder | native/src/boot/cpio.rs:661-670 | For all archives: a changed original is kept under `.backup/`, its name and, exactly if it is a regular file by its mode bits and compresses, `.xz`, with the compressed or the original data, unless another changed entry takes that key. |
| CpioKeys.MarkersUnder | native/src/boot/cpio.rs:597-694 | The directory `.backup` is always there, and `.backup/.rmlist` with the added names exactly if there are some. |
| CpioKeys.RestoredFrom | native/src/boot/cpio.rs:562-595 | For an arbitrary archive and name: what restore makes of `.backup/name` and `.backup/name.xz`, by mode bits, when both are there or only one, and for the names of the two marker files. |
| CpioKeys.RestoredOthers | native/src/boot/cpio.rs:562-595 | Every other name stays, with its entry, unless it is `.backup`, stands under it or is on the list (read as text, between zeros, normalised); without a list and anything kept the archive is emptied. |
| CpioUndo.RestoreUndoesBackup | native/src/boot/cpio.rs:562-694 | For all archives, codecs, with or without compression, and with a marker entry added in between: restore after backup yields the original names with the original data, and the original entry wherever data had changed, if and only if no changed entry is kept under a key that collides, every added name can be removed, and there is a difference or nothing to lose. |
| CpioUndo.CompressedIsSafe | native/src/boot/cpio.rs:663-667 | With compression that works, the collisions are spelled out: `n.xz` beside `n`, and two reserved names. |
| CpioUndo.NoDifferenceIsCleared | native/src/boot/cpio.rs:583-586 | For all archives: where backup finds no changed and no added name, restore clears the archive. |
| CpioUndo.RecoveredStored | native/src/boot/cpio.rs:573-579 | Decoding a kept entry gives the original entry, unless it is misread as compressed. |
| CpioUndo.SharedKey | native/src/boot/cpio.rs:663-669 | Two originals share a backup key only as `n` compressed and `n.xz` uncompressed. |
| Chunker.Chunker.AddData | native/src/base/misc.rs:229-253 | Either one full chunk comes out or everything is taken; no byte is lost or reordered, and non-empty data always makes progress. |
| Chunker.Chunker.GetAvailable | native/src/base/misc.rs:255-259 | Hands out exactly the pending bytes. |
| Chunker.Chunker.SetChunkSize | native/src/base/misc.rs:220-227 | Starts over with a new size. |
| Lz4Codec.Encoder.WriteAll | native/src/boot/compress.rs:115-130 | One write: a magic if the 32-bit total is zero, full blocks, pending rest, total modulo 2^32. |
| Lz4Codec.Encoder.Finish | native/src/boot/compress.rs:134-143 | Flushes the last block and, in LG mode, the total. |
| Lz4Codec.EncodeAll | native/src/boot/compress.rs:92-143 | One encoder over any writes produces the encoded stream. |
| Lz4Codec.Decoder.Read | native/src/boot/compress.rs:170-214 | One read through any buffer hands out pending bytes or decodes the next block; end and errors as the stream says. |
| Lz4Codec.Decoder.ReadToEnd | native/src/boot/compress.rs:170-214 | Any sequence of non-empty buffers, with short reads underneath, yields the decoded stream. |
| Lz4Codec.RoundTrip | native/src/boot/compress.rs:92-214 | Encoder and decoder together: the data comes back if and only if the writes are decodable. |
| Lz4RoundTrip.DecodedIsScanned | native/src/boot/compress.rs:170-214 | Decoding the bytes of a stream is scanning its tokens, for every codec that inverts itself. |
| Lz4RoundTrip.DecodeUndoesEncode | native/src/boot/compress.rs:115-214 | For every list of writes in both modes, decoding gives back their concatenation if and only if the writes meet a condition on their lengths: no write is empty while the count stands at zero, except as the last one in LG mode or with further writes after it that are all empty; and without such a write an LG total is not the magic. |
| Lz4RoundTrip.NonEmptyWritesDecode | native/src/boot/compress.rs:115-143 | With non-empty writes only the one LG total is left to exclude. |
| Lz4RoundTrip.Counts | native/src/boot/compress.rs:121-128 | After any writes the encoder holds the total modulo 2^32 and the rest modulo the block size. |
| Lz4Layout.FileBegins | native/src/boot/compress.rs:115-119 | Every file but that of no writes begins with the bytes 02 21 4C 18. |
| Lz4Layout.FileLayout | native/src/boot/compress.rs:92-143 | For all writes that start with data, below 4 GiB: the file is those four bytes, the data in blocks of 8 MiB with each compressed block behind its little-endian size, and in LG mode the size of the data. How the data was cut into writes does not show. |
| Lz4Layout.SizeIsRead | native/src/boot/compress.rs:170-205 | On any input, a size up to 0x808090 is that of a block to decompress, and a larger one, but for the magic, ends the data. |
| Lz4Detect.CheckFmtLg | native/src/boot/bootimg.cpp:315-330 | The walk over block sizes with its wrapping 32-bit offsets, stopped after any number of rounds. |
| Lz4Detect.DetectedMode | native/src/boot/bootimg.cpp:315-330 | On every non-empty encoder output the detector answers LG exactly for LG mode while compressed size plus total stays below 2^32; beyond that it goes on inside the stream at the wrapped offset. |
| Lz4Detect.AnswerStays | native/src/boot/bootimg.cpp:321-327 | An answer does not depend on how many rounds are allowed. |
| Lz4Detect.OneMagic | native/src/boot/compress.rs:116-119 | Below 4 GiB a stream has one magic, in front. |
| PolicyDb.Policy.FindNode | native/src/sepolicy/sepolicy.cpp:153-175 | Finds the node of a key or shows that its chain has none. |
| PolicyDb.Policy.SetRule | native/src/sepolicy/sepolicy.cpp:114-190 | Changes the mask of one key and of no other, keeps one node per key, and keeps the table free of redundant nodes. |
| PolicyNodes.NodeAfter | native/src/sepolicy/sepolicy.cpp:142-190 | The chain after one key is set, bit by bit: no node for the key if its mask would say nothing, otherwise exactly one, with the old bits (all 32 for a missing dontaudit node) and those of the statement set or cleared. |
| PolicyNodes.DontAuditNode | native/src/sepolicy/sepolicy.cpp:142-190 | Dontaudit of one permission where the key had no node leaves exactly one node, whose mask holds the positions 1 to 32 but that one. |
| PolicyDb.Policy.AddRule | native/src/sepolicy/sepolicy.cpp:192-242 | One statement with wildcards changes exactly the keys in its scope: all types when taking away, attributes only when adding, all classes. |
| PolicyDb.Policy.AddRules | native/src/sepolicy/sepolicy.cpp:192-242 | After any run of statements every lookup equals the fold of the statements over an abstract map with defaults. |
| PolicyMeaning.AddGrants | native/src/sepolicy/sepolicy.cpp:219-237 | In terms of effective permissions (a rule on the type or one of its attributes, on both sides): adding grants exactly what the rule speaks of to exactly the pairs it reaches. |
| PolicyNodes.UnruledMeans | native/src/sepolicy/sepolicy.cpp:142-150 | A pair without a node on any of its faces is granted nothing, and every denial of it is audited. |
| PolicyNodes.AllowOne | native/src/sepolicy/sepolicy.cpp:219-241 | One literal `allow` grants its permission to exactly the pairs whose types are the named ones or have them as attributes. |
| PolicyNodes.DontAuditOne | native/src/sepolicy/sepolicy.cpp:219-241 | One literal `dontaudit` silences exactly those pairs. |
| PolicyMeaning.StripRevokes | native/src/sepolicy/sepolicy.cpp:192-229 | Taking away from all types leaves exactly what the rule does not speak of. |
| PolicyMeaning.DontAuditSilences | native/src/sepolicy/sepolicy.cpp:192-242 | The same for dontaudit, whose masks work the other way round. |
| PolicyMeaning.AuditRestores | native/src/sepolicy/sepolicy.cpp:192-242 | And for its inverse, over all types. |
| PolicyMeaning.WildcardReaches | native/src/sepolicy/sepolicy.cpp:105-112 | Going through attributes reaches exactly the types that have one. |
| PolicyMeaning.AllowAll | native/src/sepolicy/sepolicy.cpp:199-204 | `allow * * c p` grants p to every pair of types that each have an attribute; no other class, permission or kind of rule, audit included, changes its meaning. |
| PolicyMeaning.DenyAll | native/src/sepolicy/sepolicy.cpp:193-198 | `deny * * c p` leaves no pair of types with p; no other class, permission or kind of rule, audit included, changes its meaning. |
| PolicyMeaning.DontAuditAll | native/src/sepolicy/sepolicy.cpp:199-204 | `dontaudit * * c p` silences p for pairs of types that each have an attribute. |
| PolicyMeaning.AllowThenDeny | native/src/sepolicy/sepolicy.cpp:219-241 | Allowing one literal permission and denying it restores the table exactly, nodes and order included, if and only if it was absent. |
| Xperms.XpermTable.FindAll | native/src/sepolicy/sepolicy.cpp:320-332 | The table of nodes found for a key is complete. |
| Xperms.XpermTable.AddRange | native/src/sepolicy/sepolicy.cpp:313-407 | One range: the allowed commands become the old ones with the range, or with reset exactly its complement; other keys are untouched; one driver node and one function node per driver. |
| Xperms.XpermTable.Extend | native/src/sepolicy/sepolicy.cpp:362-380 | The adding half, whole drivers when the ends differ in driver. |
| Xperms.XpermTable.Reset | native/src/sepolicy/sepolicy.cpp:334-406 | The complementing half. |
| Xperms.RangeOfNumbers | native/src/sepolicy/sepolicy.cpp:363-379 | A range inside one driver stands for exactly its numbers, a wider one for at least them. |
| XpermRules.XpermPolicy.AddXpermRule | native/src/sepolicy/sepolicy.cpp:296-313 | A statement with wildcards applies to exactly the keys in its scope; old policies are left alone. |
| XpermRules.XpermPolicy.AddXpermRules | native/src/sepolicy/sepolicy.cpp:296-408 | Over any run each command follows the statements about its key, and the node bound holds; old policies are left alone. |
| XpermRules.LastComplementWins | native/src/sepolicy/sepolicy.cpp:334-406 | Of two complements for one key only the later counts. |
| BootLayout.StartNext | native/src/boot/bootimg.hpp:348-357 | From a page boundary, the next section starts at the aligned end of this one. |
| BootLayout.SectionAt | native/src/boot/bootimg.cpp:489-523 | Each section of a padded layout is found at its start, which is a multiple of the page size. |
| DtbSearch.FindDtb | native/src/boot/bootimg.cpp:284-313 | The search returns the first device tree among the places it looks at, and looks at every magic that no rejected one reaches over. |
| DtbSearch.LoneTreeIsFound | native/src/boot/bootimg.cpp:287-298 | A tree with no magic in the 39 bytes before it is looked at. |
| DtbSearch.HiddenBehindMagic | native/src/boot/bootimg.cpp:287-312 | A place that was looked at hides the 39 bytes behind it. |
| DtbSearch.TreeIsBytes | native/src/boot/bootimg.cpp:294-310 | What is taken for a tree, byte by byte: magic, a big-endian total above 72 and a first node within the kernel, and the tag 1 there. |
| BootImage.Walk | native/src/boot/bootimg.cpp:489-523 | The walk fails exactly if the sections do not fit into the mapping, and otherwise gives every start, as the header pages and the pages of the size fields before it, field by field for each of the seven versions. |
| BootImage.OffsetsGrow | native/src/boot/bootimg.cpp:489-523 | Sections do not overlap and lie before the end of the walk. |
| BootImage.CoveredPages | native/src/boot/bootimg.hpp:465-600 | The sections fit into a mapping if and only if the header pages and the pages of all size fields of the version do. |
| BootImage.UnpackedFiles | native/src/boot/bootimg.cpp:633-703 | Which slice of the mapping each unpacked file is, by the starts and size fields of the version. |
| BootImage.Load | native/src/boot/bootimg.cpp:495-534 | An image loads exactly if its sections fit, and its kernel is split before a device tree. |
| BootImage.Unpack | native/src/boot/bootimg.cpp:633-703 | Which files an image is unpacked to; it stops on a table with foreign entries. |
| VendorRamdisks.TableRoundTrip | native/src/boot/bootimg.cpp:466-480 | A written ramdisk table reads back as it was. |
| VendorRamdisks.EntryAt | native/src/boot/bootimg.hpp:333-342 | In any table, entry i is the 108 bytes from 108 i on: three little-endian words, 32 bytes of name, 64 of board id. |
| VendorRamdisks.NameOfFile | native/src/boot/bootimg.cpp:657-662 | The file of an entry is its name up to a NUL and `.cpio`, or `ramdisk.cpio`. |
| VendorRamdisks.UnpackRamdisks | native/src/boot/bootimg.cpp:654-671 | Every entry is written to its file; of entries with one file the last remains. |
| VendorRamdisks.Pack | native/src/boot/bootimg.cpp:821-848 | Ramdisks are written back to back and the entries rewritten to tile them. |
| VendorRamdisks.PackedTiles | native/src/boot/bootimg.cpp:838-847 | The rewritten entries tile the section as long as the ramdisks fit 32 bits together. |
| VendorRamdisks.TiledParts | native/src/boot/bootimg.cpp:828-847 | Each rewritten entry names its ramdisk, the next starts where it ends, and the last ends the section. |
| VendorRamdisks.PackKeepsRamdisks | native/src/boot/bootimg.cpp:654-848 | Every entry keeps its ramdisk if and only if entries that share a file had equal ramdisks. |
| BootRepack.WriteSection | native/src/boot/bootimg.cpp:710-713 | Writing and aligning from the file position puts a section where the layout says. |
| BootRepack.KernelPart | native/src/boot/bootimg.cpp:763-812 | Kernel file or old kernel, followed by the device trees, with the size updated in steps. |
| BootRepack.RamdiskPart | native/src/boot/bootimg.cpp:814-865 | Vendor ramdisks with their table, or the one ramdisk. |
| BootRepack.RecoveryPart | native/src/boot/bootimg.cpp:886-891 | Records the place of the recovery overlay. |
| BootRepack.Restore | native/src/boot/bootimg.cpp:867-898 | A section restored from a file, or left out with the size the header then has. |
| BootRepack.Repack | native/src/boot/bootimg.cpp:715-947 | The whole image and header: every size that is set, kept or lost, all sections aligned in order, padding to the old size. |
| BootRepack.ImageFront | native/src/boot/bootimg.hpp:145-331 | The new header replaces exactly the bytes of the fields of its version, and the rest of the header pages stays. |
| BootReadBack.RepackReadsBack | native/src/boot/bootimg.cpp:489-916 | Walking the new image gives every section exactly as it was put in if and only if the files fit the header (no content without a size field or too long for it, no listed optional section without its file, no table with slack) and the header put over the front spares the sections. The recovery offset then points at its section. |
| BootReadBack.SectionReadsBack | native/src/boot/bootimg.cpp:489-916 | Section by section: as long as those before it keep their pages, a section reads back exactly if it fits and is spared. |
| BootReadBack.RepackUndoesUnpack | native/src/boot/bootimg.cpp:633-916 | An image repacked from the files it was unpacked to reads back as a whole if and only if the old table held nothing but its entries. |
| BootReadBack.SectionsBeforeTable | native/src/boot/bootimg.cpp:633-916 | Slack in the table or not, every section before it keeps its bytes and size. |
| BootReadBack.SectionAfterTable | native/src/boot/bootimg.cpp:906-916 | The section after the table is looked for where it was put exactly if the slack stays within the table's pages, and then keeps its bytes and size. |
| BootReadBack.RepackKeepsRamdisks | native/src/boot/bootimg.cpp:823-910 | For vendor images that read back, the new table tiles its section and keeps every ramdisk exactly if no file was shared by different ones. |
| Crc32.Init | native/src/external/xz-embedded/xz_crc32.c:30-47 | The table holds eight shifts of every byte. |
| Crc32.Compute | native/src/external/xz-embedded/xz_crc32.c:49-59 | The table-driven loop equals the shift register fed bit by bit, for every buffer and start value. |
| Crc32.ShiftsXor | native/src/external/xz-embedded/xz_crc32.c:40-41 | Any number of shifts is linear over exclusive or. |
| Crc32.Lookup | native/src/external/xz-embedded/xz_crc32.c:54-54 | Eight shifts are one lookup of the low byte and a shift of the rest. |
| Crc32.FeedWord | native/src/external/xz-embedded/xz_crc32.c:49-59 | Feeding up to 32 bits one by one is adding them at once and shifting. |
| Crc32.CrcConcat | native/src/external/xz-embedded/xz_crc32.c:49-59 | A buffer may be checked in pieces. |
| Crc32.CheckValue | native/src/external/xz-embedded/xz_crc32.c:30-59 | The checksum of the digits 1 to 9 is the published check value. |
| Crc32.BurstIsNoticed | native/src/external/xz-embedded/xz_crc32.c:30-59 | Two messages that differ only within 32 neighbouring bits never have the same checksum. |
| DenyList.Validate | native/src/core/deny/utils.cpp:133-167 | The character loops accept exactly the well-formed names. |
| DenyNames.AcceptedNames | native/src/core/deny/utils.cpp:133-167 | Character by character: a package needs a dot and only letters, digits, underscores and dots; a process may have colons too; behind the first colon of an isolated process anything goes. |
| DenyNames.ColonProcess | native/src/core/deny/utils.cpp:133-167 | A package's process may have a suffix behind a colon, a package may not. |
| DenyList.Daemon.UpdateAppId | native/src/core/deny/utils.cpp:64-77 | Adds or removes one package under one app id and leaves no empty entry. |
| DenyList.Daemon.Scan | native/src/core/deny/utils.cpp:185-211 | Forgets exactly the packages that are gone, here and in the database, and makes the index the inverse image of the rest. |
| DenyList.Daemon.EnsureData | native/src/core/deny/utils.cpp:218-249 | Loads the rows once, or reports failure and changes nothing. |
| DenyList.Daemon.AddList | native/src/core/deny/utils.cpp:251-276 | Answer, list, index and database after a request to add, database failures included. |
| DenyList.Daemon.RemoveList | native/src/core/deny/utils.cpp:284-320 | The same for a request to remove one process or a package. |
| DenyList.Daemon.IsDenyTarget | native/src/core/deny/utils.cpp:407-431 | The search through the index finds exactly what a search of all rows would; isolated processes match by prefix. |
| DenyNames.TargetMeans | native/src/core/deny/utils.cpp:407-431 | The last five digits of a uid name the app; from 90000 on a listed prefix under the isolated name decides, below it a row of one of the app's packages. |
| DenyNames.ScanKeepsTargets | native/src/core/deny/utils.cpp:185-211 | Forgetting the packages that are gone changes no answer. |
| DenyRuns.Serve | native/src/core/deny/utils.cpp:185-431 | One request keeps daemon and list of rows in agreement. |
| DenyRuns.ServeAll | native/src/core/deny/utils.cpp:185-431 | Over every run with app ids stable between scans and working database: the daemon answers as a plain list of rows, and maps, index and database agree with it. |
| DenyRuns.RemoveUndoesAdd | native/src/core/deny/utils.cpp:251-320 | Removing what was just added restores the list. |
| DenyRuns.AddedIsTarget | native/src/core/deny/utils.cpp:251-276 | An added process of an installed app is found after any further requests that neither remove it nor find its package gone. |
| DenyRuns.QueriesKeep | native/src/core/deny/utils.cpp:407-431 | Queries never change what later requests see. |
| KeyValues.Extract | native/src/init/getinfo.cpp:15-38 | The search loop with its two positions takes text character by character up to a stop, dropping quotes. |
| KeyValues.ParseAll | native/src/init/getinfo.cpp:40-60 | The loop reads every string, unbalanced quotes included, as the recursive reading does, and terminates. |
| KeyValues.ParseUndoesPrint | native/src/init/getinfo.cpp:40-70 | For every sound syntax and every list of pairs and keys without a value, however spaced and quoted, reading the printed line gives the pairs back. |
| KeyValues.CommandLinePair | native/src/init/getinfo.cpp:62-64 | One more `key=value` and a space in front of any command line is one more pair. |
| KeyValues.CommandLineQuoted | native/src/init/getinfo.cpp:62-64 | The same for a value in quotes, which may hold spaces and equals signs. |
| KeyValues.CommandLineKey | native/src/init/getinfo.cpp:62-64 | And for a key without a value. |
| KeyValues.BootConfigLine | native/src/init/getinfo.cpp:65-67 | A line `key = value` of the boot configuration. |
| KeyValues.PartitionEntry | native/src/init/getinfo.cpp:68-70 | An entry `key,value;` of the partition map. |
| KeyValues.AllSound | native/src/init/getinfo.cpp:62-70 | All three syntaxes in use are sound. |
| KeyValues.LeadingDelimiter | native/src/init/getinfo.cpp:48-55 | A delimiter in front is read as a pair of empty strings. |
| FlagPatch.MatchPatterns | native/src/boot/patch.rs:3-35 | The match at the front: optional comma, first pattern that fits, value up to a blank. |
| FlagPatch.RemovePattern | native/src/boot/patch.rs:37-62 | In place: the buffer becomes the recursive filter of its old content followed by zeros, and the size is that of the filter. |
| FlagPatch.FirstIsLongest | native/src/boot/patch.rs:64-88 | The pattern that is taken is the longest one that fits. |
| FlagPatch.UnchangedIff | native/src/boot/patch.rs:37-62 | A buffer stays as it is if and only if nothing in it matches. |
| FlagPatch.FieldByField | native/src/boot/patch.rs:20-30 | Blanks are kept and what stands between two of them is filtered by itself. |
| FlagWords.ValueInList | native/src/boot/patch.rs:3-35 | Of `a,word=x,b` before a blank, for any `a` without a flag and any `x` and `b`, only `a` is left: the comma goes and everything from it to the blank. |
| FlagWords.FlagInList | native/src/boot/patch.rs:3-35 | Of `a,word,b`, for any `a` and `b` without a flag, the word and its comma go, and `a,b` is left. |
| FlagWords.VerifyGoes | native/src/boot/patch.rs:64-80 | The same for `verify` with every byte named. |
| FlagWords.FileEncryptionGoes | native/src/boot/patch.rs:82-88 | And for `fileencryption`. |
| FlagWords.VerityNames | native/src/boot/patch.rs:64-80 | The six verity words, letter by letter. |
| FlagWords.EncryptionNames | native/src/boot/patch.rs:82-88 | The three encryption words. |
| FlagWords.QuietStays | native/src/boot/patch.rs:37-62 | Text in which no word of the list begins stays as it is, whatever follows. |
| FlagPatch.PatchVerity | native/src/boot/patch.rs:64-80 | The verity flags, for every buffer. |
| FlagPatch.PatchEncryption | native/src/boot/patch.rs:82-88 | The encryption flags, for every buffer. |

## Left out

- Attributes of files (owner, mode, context) that commit clones; the model has contents, links and directories only.
- Files Magisk adds to the tree for itself, and module properties.
- ModuleCommit.MountSpace.CommitTmpfs: no module directory may land on a real symbolic link, whose target the model does not resolve.
- ModuleCommit.MountSpace.CommitMerged: the same.
- ModuleCommit.MountSpace.Commit: the same.
- ModuleCommit.MountSpace.CommitSelected: the same.
- ModuleApply.CommitRoots: the same.
- ModuleApply.ApplyModules: the same.
- I/O errors while committing, other than mounts that cannot succeed.
- The branch of the pool loop in which a worker has forked, and failures to start a thread.
- The other cpio commands (add, extract, test, patch), and owner, mode and device fields where data is equal: backup compares data only.
- Xz and LZ4 block compression; they are functions that invert themselves.
- Lz4Codec.Decoder.Read: errors of the underlying reader other than a short stream are not modelled.
- The counter of table entries, and looking up types, classes and permissions by name.
- Type rules, transitions and other policy statements.
- Bytes of the boot image header; the writer is given any function from headers to bytes of the right length, and reading assumes the header that was written.
- BootImage.Unpack: asks that the ramdisk table and the ramdisks it lists are mapped; beyond the mapping the program has nothing to read.
- BootRepack.Repack: asks that the old file is at least as long as its header and that the ramdisk table is mapped.
- BootReadBack.RepackUndoesUnpack: is stated for headers that fit their space and for vendor ramdisks below 4 GiB together; RepackReadsBack covers the rest.
- Compression of sections, MTK and zImage headers, PXA headers, image wrappers, AVB footers and signatures.
- DtbSearch.FindDtb: words that reach past the mapping read as zero.
- Killing processes, switching the deny list on and off, and listing it to a client.
- Device tree patching, payload extraction, resetprop, zygisk and the app.
