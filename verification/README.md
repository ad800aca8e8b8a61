# A verified model of cgofuse's in-memory file system and host layer

This project models, in Dafny, the parts of cgofuse that carry state, and proves what
they keep over all inputs, all runs and all interleavings.

* **The in-memory file system** (`examples/memfs`). `Memfs.dfy` is the program itself: a class
  `Memfs` of heap nodes updated in place, with hard links, an open table, shared backing arrays
  and Go slices with spare capacity (`Slices.dfy`). Every method is proved to do to an abstract
  inode table (`Inodes.dfy`) exactly what a function of `Operations.dfy` says, error branches and
  panics included, and to keep heap and table in agreement. The theorems are then about those
  functions: what a path lookup means (`Paths.dfy`, `Lookups.dfy`), what creating, linking,
  removing (`Namespace.dfy`) and renaming (`Renames.dfy`) do to *every* path, what a file's bytes
  are (`Files.dfy`), and what holds after every sequence of requests (`Runs.dfy`). `Answers.dfy` is
  a second account, written by what paths and handles lead to and not by the code's branches: a
  table of the answer to each request, and the effects of each that succeeds, proved of every
  request in every well-formed state.
* **The dispatch layer** (`fuse/dispatch.go`). `Dispatch.dfy` has the callbacks that pack results
  into fixed C buffers, Create as Mknod and Open, and Rename's choice of Rename3, composed with
  the file system; `HostNumbers.dfy` says which number the library receives when.
* **The host protocols**. `HostLifecycle.dfy` interleaves the Mount thread, the FUSE loop's Init
  and Destroy, the signal goroutine and any number of outside Unmount and Notify calls, one atomic
  step at a time. `HandleTable.dfy` is the handle table of the build without cgo over an allocator
  that reuses addresses; `Loader.dfy` the double-checked loading of the FUSE library.
* **The notifying file system** (`examples/notifyfs`): its event stream against its listing
  (`Notifyfs.dfy`).

## Conventions

* A Go operation ends in an `Outcome`: a returned number, or a panic that carries a `fuse.Error` or
  is a run-time error. `Fuse.RecoverAsErrno` turns it into the number the FUSE library receives
  (`fuse/dispatch.go:58-67`).
* Error numbers are those of `fuse/fsop_nocgo_windows.go`; the other builds take them from the
  platform's C headers.
* `FS.limit` is the longest slice the Go run time can make, less than 2^63. Rounding a size up to
  allocation units is done in 64-bit arithmetic, as in the code. `stat.Nlink` counts modulo 2^32.
* `Inv` is the invariant of the inode table: entries lead from directories to existing nodes under
  legal names, no directory has two entries, the root has none, a directory that has children is
  reached from the root, and every link count is the number of the node's entries.
* The code relies on the kernel never asking for some things: a link to a directory, a link or
  rename under something that is not a directory, a move of the root. `Runs.Admissible` says this
  for one request. That it is exactly what is needed is proved in both directions by the lemmas
  whose names end in `Exactly`: without it the nil-map assignments at `memfs.go:141` and
  `memfs.go:193` panic half way, or the tree is lost.

## Where the code differs from what one might expect

* Renaming a node onto itself, or onto another hard link of it, is refused with EINVAL
  (`Renames.RenameOntoItselfIsRefused`), where POSIX rename() asks for success. The branch at
  `memfs.go:183-185` that would report success is unreachable (`Renames.SameEntryIsGuarded`).
* A write of no bytes extends the file exactly when its offset lies beyond the end and that much
  can be allocated (`Files.EmptyWriteGrowsExactly`).
* A link target that does not fit is cut off without a terminator
  (`Dispatch.ReadlinkTerminatesExactly`).
* The comment on Unmount allows calls between Init and Destroy. Such a call can still go into the C
  layer after Mount has returned (`HostLifecycle.LateUnmount`), because the lock is released before
  the C call. It goes in with a live session exactly when hostDestroy has not cleared the session
  since the call read it (`HostLifecycle.CallIsLiveExactly`, `HostLifecycle.NeverLateExactly`). A
  file system whose Destroy returns only when no call is in flight, and that begins none from then
  until the session is gone, never makes a late call (`HostLifecycle.OrderlyIsNeverLate`). The
  signal goroutine is exposed in the same way, after Destroy (`HostLifecycle.LateSignal`,
  `HostLifecycle.SignalIsLiveExactly`), but never after Mount has returned.
* When the 64-bit tick counter of the notifying file system wraps, its count falls from 5 to 0 with
  a single event. Who follows the events then believes in four files that are gone, until the
  fourth tick after the wrap (`Notifyfs.Notifyfs.Tick`).
* The notifying file system finds a file under its number with leading zeros, a name it does not
  list (`Notifyfs.ParseFormat`).

## Model

| member | source | states |
|---|---|---|
| Paths.ComponentsSpellable | examples/memfs/memfs.go:31-33 | every path string is read as names that are not blank and hold no slash |
| Paths.ComponentsOfSpell | examples/memfs/memfs.go:511-532 | every sequence of such names is what some path string is read as: spelling and splitting undo each other, blank parts skipped |
| Paths.ComponentsJoin | examples/memfs/memfs.go:515-516 | a slash joins the names on its sides, a string without a slash is one name, and an empty one none: how every path string is read |
| Lookups.LookupMeans | examples/memfs/memfs.go:511-532 | the lookup panics exactly when it comes to an overlong name, and otherwise returns the node the path resolves to, its parent and its last name |
| Lookups.GuardedLookupMeans | examples/memfs/memfs.go:511-532 | with an ancestor, the name comes back empty exactly when the path is the root or its walk meets the ancestor; otherwise the answer is that of the plain lookup |
| Memfs.Memfs.LookupNode | examples/memfs/memfs.go:511-532 | the loop over the split path on heap nodes finds what the recursive specification finds, and only nodes of this file system |
| Answers.GetNodeMeans | examples/memfs/memfs.go:606-613 | without a handle the node is what the path resolves to, with one the open node of that number; otherwise ENAMETOOLONG or ENOENT |
| Inodes.DirectoryPathUnique | examples/memfs/memfs.go:511-532 | two paths that resolve to the same directory are the same path |
| Inodes.NoCycles | examples/memfs/memfs.go:179-182 | no walk along at least one entry returns to the node it started from |
| Inodes.LinkedDirectoryHasOnePath | examples/memfs/memfs.go:511-532 | every entry is found from the root, and an entry for a directory by exactly one path |
| Inodes.ResolveAfterDel | examples/memfs/memfs.go:571-571 | deleting one entry cuts off exactly the paths that go through it |
| Inodes.ResolveAfterAdd | examples/memfs/memfs.go:550-550 | adding one entry changes exactly the paths that go through it, to walks from the added node |
| Namespace.EveryNodeIsNamed | examples/memfs/memfs.go:511-532 | for every node a path reaches there is a path string whose lookup finds it |
| Namespace.MakeNodeEffect | examples/memfs/memfs.go:534-554 | a node is made only at a vacant path under an existing directory, with all its fields; every other outcome leaves every node as it was |
| Answers.MakeAnswers | examples/memfs/memfs.go:534-554 | the answer by what the path and its parent resolve to: EEXIST, ENAMETOOLONG, ENOENT, success, or a run-time panic |
| Answers.MknodMakes | examples/memfs/memfs.go:102-106 | a Mknod that succeeds makes an empty node of the mode asked, and touches only its parent's entries |
| Namespace.CreatedResolves | examples/memfs/memfs.go:534-554 | afterwards the new path resolves to the new inode and every other path as before |
| Namespace.MakeNodeKeepsInv | examples/memfs/memfs.go:534-554 | tree and link counts are kept, whatever the outcome |
| Memfs.Memfs.MakeNode | examples/memfs/memfs.go:534-554 | the heap operation agrees with the specification, fresh node and fresh bytes included; earlier nodes stay the same objects, and a new empty node meets the growth bound's premise |
| Memfs.Memfs.Mknod | examples/memfs/memfs.go:102-106 | agrees with the step of runs of the same name, and keeps earlier nodes the same objects |
| Memfs.Memfs.Mkdir | examples/memfs/memfs.go:108-112 | agrees with the step of runs of the same name, and keeps earlier nodes the same objects |
| Answers.MkdirMakes | examples/memfs/memfs.go:108-112 | Mkdir makes an empty directory with exactly the permission bits asked, to which only the new path leads |
| Answers.MkdirThenMknod | examples/memfs/memfs.go:102-112 | below a new directory every good name is vacant, and a Mknod there succeeds |
| Memfs.Memfs.Symlink | examples/memfs/memfs.go:149-153 | agrees with the step of runs of the same name, and keeps earlier nodes the same objects |
| Answers.SymlinkMakes | examples/memfs/memfs.go:149-166 | Symlink makes a link node, open to all, that reads back its target |
| Namespace.RemoveNodeEffect | examples/memfs/memfs.go:556-577 | removal succeeds exactly for an existing, childless node of the asked kind, and then drops one entry and one link; otherwise nothing changes and the answer is never EINVAL |
| Answers.RemoveAnswers | examples/memfs/memfs.go:556-577 | which of ENAMETOOLONG, ENOENT, EISDIR, ENOTDIR, ENOTEMPTY or success is answered, by what the path resolves to |
| Answers.RequestsRemove | examples/memfs/memfs.go:114-124 | Unlink and Rmdir, each for its own kind, drop one entry and one link and nothing else; the paths below resolve to nothing |
| Namespace.RemovedResolves | examples/memfs/memfs.go:556-577 | afterwards exactly the paths that extend the removed one resolve to nothing |
| Namespace.RemoveNodeKeepsInv | examples/memfs/memfs.go:556-577 | tree and link counts are kept, even by removing an empty root |
| Memfs.Memfs.RemoveNode | examples/memfs/memfs.go:556-577 | the heap operation agrees with the specification |
| Memfs.Memfs.Unlink | examples/memfs/memfs.go:114-118 | agrees with the step of runs of the same name |
| Memfs.Memfs.Rmdir | examples/memfs/memfs.go:120-124 | agrees with the step of runs of the same name |
| Namespace.LinkEffect | examples/memfs/memfs.go:126-147 | link succeeds, fails without effect, or under a non-directory panics with the count already raised; exact conditions of each |
| Answers.LinkAnswers | examples/memfs/memfs.go:126-147 | which number or panic is answered, by what source and target resolve to |
| Answers.LinkAdds | examples/memfs/memfs.go:126-147 | a Link that succeeds adds one entry and one link and nothing else |
| Namespace.LinkedResolves | examples/memfs/memfs.go:126-147 | a new entry changes what its own path resolves to and no other path |
| Namespace.LinkKeepsInvExactly | examples/memfs/memfs.go:126-147 | the invariant survives Link if and only if it was not asked to name a directory, nor to link under a non-directory |
| Runs.LinkAllOrNothingExactly | examples/memfs/memfs.go:126-147 | a failing Link changes nothing if and only if it does not go through under a parent that is no directory |
| Memfs.Memfs.Link | examples/memfs/memfs.go:126-147 | the heap operation agrees with the specification, the panic half way included |
| Renames.RenameEffect | examples/memfs/memfs.go:168-195 | a rename reaches its two final map updates or fails without effect; it answers EINVAL exactly when the target has no names or its walk touches the source |
| Answers.RenameAnswers | examples/memfs/memfs.go:168-195 | which number or panic is answered, by what source and target resolve to |
| Answers.RequestsMove | examples/memfs/memfs.go:168-195 | a Rename or Rename3 that succeeds changes two entries, the link count of a replaced node, and nothing else; where every path leads afterwards |
| Renames.SameEntryIsGuarded | examples/memfs/memfs.go:183-185 | past the guard the target is never the source's own entry, so the success branch there is unreachable |
| Renames.RenameOntoItselfIsRefused | examples/memfs/memfs.go:175-182 | renaming a node to its own name or to another of its hard links gives EINVAL and changes nothing |
| Renames.PathsApart | examples/memfs/memfs.go:175-191 | in a rename that goes through neither path is a prefix of the other |
| Renames.NotInSubtree | examples/memfs/memfs.go:175-191 | neither the new nor the old parent lies in the moved subtree |
| Renames.MovedChild | examples/memfs/memfs.go:186-193 | a rename changes exactly its two entries |
| Renames.SubtreeMoves | examples/memfs/memfs.go:168-195 | every walk from the moved node leads where it led before |
| Renames.RenameResolves | examples/memfs/memfs.go:168-195 | for every path: below the target it leads where the source led, below the source nowhere, elsewhere where it did before |
| Renames.RenameKeepsInvExactly | examples/memfs/memfs.go:168-195 | the invariant survives a rename if and only if it was not asked to move the root into a directory nor anything else under a non-directory |
| Renames.MovingTheRoot | examples/memfs/memfs.go:168-195 | moving the root breaks the tree exactly when the new parent is a directory |
| Renames.MovingUnderAFile | examples/memfs/memfs.go:192-193 | moving under a non-directory panics with the source's entry gone and its link count wrong |
| Runs.RenameAllOrNothingExactly | examples/memfs/memfs.go:168-195 | a failing rename changes nothing if and only if it does not move something other than the root under a non-directory |
| Memfs.Memfs.Rename | examples/memfs/memfs.go:168-195 | the heap operation agrees with the specification in every branch |
| Memfs.Memfs.MoveEntry | examples/memfs/memfs.go:192-193 | the last two statements, one parent or two, nil map or not |
| Memfs.Memfs.Rename3 | examples/memfs/memfs3.go:22-56 | the heap operation agrees with the specification in every branch |
| Answers.Rename3Flags | examples/memfs/memfs3.go:22-56 | flags 0 and 1 are the two renames, every other value is refused with EINVAL and without effect |
| Answers.OtherFlagsAreRefused | examples/memfs/memfs3.go:25-28 | the same of the request as it comes, whatever paths it names |
| Runs.Rename3WithoutFlags | examples/memfs/memfs3.go:22-56 | with no flags, the same result and the same state as Rename |
| Runs.NoReplaceRemovesNothing | examples/memfs/memfs3.go:22-56 | with NOREPLACE no link count changes, EEXIST comes only for an existing target and without effect, and every other call is a Rename |
| Memfs.Memfs.constructor | examples/memfs/memfs.go:622-629 | makes the initial state of all runs |
| Answers.InitialIsEmpty | examples/memfs/memfs.go:622-629 | the initial state is one empty directory with mode 0777, and only the root path resolves |
| Runs.InitialInv | examples/memfs/memfs.go:622-629 | the initial state satisfies the invariant |
| Runs.StepKeepsInv | examples/memfs/memfs.go:102-604 | each of the seventeen modelled requests keeps the invariant, given what the kernel sees to |
| Answers.StepAnswers | examples/memfs/memfs.go:102-604 | each of the seventeen requests, in every well-formed state, gives exactly the answer of the table |
| Runs.RunKeepsInv | examples/memfs/memfs.go:102-604 | so does every sequence of them |
| Runs.DirectoriesFormATree | examples/memfs/memfs.go:126-195 | after every run from NewMemfs: no cycles, one path per directory, every entry found from the root, unreachable directories empty, and every link count the number of entries modulo 2^32 |
| Runs.FailureChangesNothing | examples/memfs/memfs.go:102-604 | a request that returns a negative code or panics changes no field of any node |
| Runs.StepKeepsNodes | examples/memfs/memfs.go:534-554 | in one request nodes are never dropped, renumbered or changed in kind, and a new node has a number beyond all earlier ones |
| Runs.RunKeepsNodes | examples/memfs/memfs.go:534-554 | over every run numbers are never reused: an old node keeps its number and kind, and a node made in the run has a number beyond all given out before it |
| Runs.RunKeepsCleanNames | examples/memfs/memfs.go:399-459 | over every run of requests whose names come from C strings no attribute has a NUL in its name |
| Runs.OpenCountIsBalance | examples/memfs/memfs.go:579-604 | over every run a node's open count is the number of opens that returned its handle less the releases of it |
| Runs.OpenReturnsTheNode | examples/memfs/memfs.go:579-595 | an open succeeds exactly for an existing node of the asked kind; the handle is that node's number and leads to it whatever path comes with it |
| Runs.BytesOverRun | examples/memfs/memfs.go:261-362 | over every run a node's bytes are those its own truncations, writes, copies and allocations make, whatever happens to its names |
| Runs.ReadByHandleAfterRun | examples/memfs/memfs.go:276-293 | a read through a handle still open after any run returns, at each offset, the byte last put there or zero, up to the end of the file |
| Runs.WriteThenRead | examples/memfs/memfs.go:276-312 | a write through an open handle that is within the file, or fits, returns its length, and is read back after any run that leaves the handle open and does not change the node's bytes |
| Memfs.Memfs.OpenNode | examples/memfs/memfs.go:579-595 | the heap operation agrees with the specification; the table holds a node exactly while its count is positive |
| Answers.OpenOpens | examples/memfs/memfs.go:579-595 | Open of a node of the kind asked raises its count and returns its number; EISDIR, ENOTDIR, ENOENT or ENAMETOOLONG otherwise, with no handle and no effect |
| Memfs.Memfs.CloseNode | examples/memfs/memfs.go:597-604 | agrees likewise; an unknown handle is a nil node and panics without effect |
| Answers.ReleaseReleases | examples/memfs/memfs.go:597-604 | Release of an open handle succeeds and lowers its count by one; of any other it panics without effect |
| Memfs.Memfs.GetNode | examples/memfs/memfs.go:606-613 | finds by handle or, without one, by path, what the specification finds |
| Memfs.Memfs.Chmod3 | examples/memfs/memfs3.go:58-68 | agrees with the specification, whose case of no handle is Chmod |
| Answers.ChmodStores | examples/memfs/memfs3.go:58-68 | Chmod stores the permission bits asked in the node reached, keeps its kind, and changes nothing else |
| Operations.ChmodBitsMean | examples/memfs/memfs.go:204-204 | the permission bits become those asked for, the kind of the node stays |
| Memfs.Memfs.Readlink | examples/memfs/memfs.go:155-166 | returns the link's bytes, EINVAL for anything else |
| Answers.ReadlinkTells | examples/memfs/memfs.go:155-166 | the bytes of a link, EINVAL for other kinds, and the number where nothing is found |
| Slices.AllocSizeRounds | examples/memfs/memfs.go:36-37 | the 64-bit computation is the size rounded up to 64 KiB, or negative exactly when that does not fit |
| Slices.CopyBytes | examples/memfs/memfs.go:48-48 | Go's copy takes the bytes its source had before, overlap or not |
| Slices.Resize | examples/memfs/memfs.go:35-58 | the result holds the old bytes and zeros up to the new size, with capacity the rounded size; a new array exactly when the capacity differs; without zeroing and with the same capacity the slice is returned as it was; fails, with nothing changed, exactly when the run time cannot allocate |
| Memfs.Memfs.GrowthBound | examples/memfs/memfs.go:35-58 | in every state, a node made without bytes and never cut shorter was given at most ceil(size / 65536) arrays, and its capacity exceeds its length by less than a unit; Mknod, Mkdir and Create make such nodes, and only a shrinking Truncate ends it |
| Memfs.Memfs.GrowNode | examples/memfs/memfs.go:303-306 | grows by zeros when the end lies beyond the size, with a capacity that stays the size rounded up |
| Memfs.Memfs.Truncate | examples/memfs/memfs.go:261-274 | agrees with the specification, size field and bytes of the shared array included; a node stops counting as only grown exactly when it is made shorter |
| Answers.TruncateResizes | examples/memfs/memfs.go:261-274 | a Truncate that fits gives the node reached exactly the size asked, its old bytes and then zeros |
| Memfs.Memfs.Read | examples/memfs/memfs.go:276-293 | the buffer receives exactly the bytes of the file from the offset on and is otherwise kept |
| Answers.ReadTells | examples/memfs/memfs.go:276-293 | count and bytes of every read, and the number where nothing is reached |
| Memfs.Memfs.Write | examples/memfs/memfs.go:295-312 | agrees with the specification, and keeps the capacity of every node the size rounded up where it was |
| Answers.WriteStores | examples/memfs/memfs.go:295-312 | a Write within the file, or that fits, returns the number of its bytes and stores them at its offset, and changes nothing else |
| Memfs.Memfs.CopyFileRange | examples/memfs/memfs.go:314-341 | agrees with the specification, also when source and target are one node and its array is replaced in the middle |
| Memfs.Memfs.Fallocate | examples/memfs/memfs.go:343-362 | agrees with the specification, and keeps the capacity of every node the size rounded up where it was |
| Answers.FallocateExtends | examples/memfs/memfs.go:343-362 | Fallocate returns 0, extends with zeros up to the end asked and never cuts |
| Answers.FallocateRefuses | examples/memfs/memfs.go:350-353 | every mode but 0 is refused with ENOSYS and without effect |
| Files.ResizedBytes | examples/memfs/memfs.go:261-274 | size and byte at every offset after a resize |
| Files.WrittenBytes | examples/memfs/memfs.go:295-312 | size and byte at every offset after a write: its own bytes, the old ones, zeros in a gap |
| Files.WindowBytes | examples/memfs/memfs.go:276-293 | how many bytes a read returns, and which |
| Files.ReadWritten | examples/memfs/memfs.go:276-312 | reading where one has just written returns what was written |
| Files.NoStaleBytes | examples/memfs/memfs.go:35-58 | over every sequence of changes a byte is the one last put at its offset, and zero where nothing has been put since the file was last cut off below it |
| Files.CopyFileRangeBytes | examples/memfs/memfs.go:314-341 | the count is max(0, min(size, source size - offset)); the target range receives the source bytes from before the call; every other byte and node is kept; ENOSPC only without effect |
| Files.EmptyWriteGrowsExactly | examples/memfs/memfs.go:302-307 | a write of no bytes changes the state if and only if its offset lies beyond the end and can be allocated, and fails only when it lies beyond and cannot |
| Memfs.Memfs.Getattr | examples/memfs/memfs.go:250-259 | mode, link count and size of the node found by handle or path; the size field is the number of bytes |
| Answers.GetattrTells | examples/memfs/memfs.go:250-259 | number, mode, link count and size are those of the node that the path or the handle reaches |
| Memfs.Memfs.Readdir | examples/memfs/memfs.go:376-391 | for a filler with any answers: it is offered the two dots whatever it answers, then children, each at most once and with its own stat, in any order: all of them, or those up to the first it does not take |
| Memfs.Memfs.Setxattr | examples/memfs/memfs.go:399-425 | agrees with the specification in every branch |
| Answers.AttributeAnswers | examples/memfs/memfs.go:399-459 | which number Setxattr, Getxattr and Removexattr answer, by node, name and flags |
| Answers.SetxattrSets | examples/memfs/memfs.go:399-425 | a Setxattr that succeeds stores its value under its name and changes nothing else |
| Memfs.Memfs.Getxattr | examples/memfs/memfs.go:427-442 | agrees with the specification in every branch |
| Answers.GetxattrTells | examples/memfs/memfs.go:427-442 | the value of a present name, and the number otherwise |
| Memfs.Memfs.Removexattr | examples/memfs/memfs.go:444-459 | agrees with the specification in every branch |
| Answers.RemovexattrDrops | examples/memfs/memfs.go:444-459 | a Removexattr that succeeds drops that name and changes nothing else |
| Dispatch.SetThenGet | examples/memfs/memfs.go:399-459 | a value set is the value got, other attributes are kept, removing a new attribute restores the whole state, and the CREATE and REPLACE flags demand absence and presence |
| Dispatch.GoString | fuse/host_nocgo_windows.go:265-275 | the loop returns the bytes before the first NUL |
| Dispatch.HostReadlink | fuse/dispatch.go:133-147 | error number and whole buffer for every size, panics included; nothing beyond the size is written |
| Dispatch.OrdinaryReports | fuse/dispatch.go:58-67 | the library receives the returned number, the number a panic carries, or EIO; zero exactly for success, a negative number for every failure |
| Dispatch.LinkBufferBytes | fuse/dispatch.go:138-145 | every byte of the buffer after a readlink |
| HostNumbers.ReadlinkNumbers | fuse/dispatch.go:133-147 | 0, EINVAL, ENOENT or ENAMETOOLONG, by what the path resolves to |
| Dispatch.ReadlinkTerminatesExactly | fuse/dispatch.go:138-145 | the target can be read back from the buffer if and only if it is shorter than the buffer, and what is read otherwise |
| Dispatch.SymlinkThenReadlink | examples/memfs/memfs.go:149-166 | a link reads back the target it was made with |
| Dispatch.HostSetxattr | fuse/dispatch.go:345-354 | sets the value under the bytes of the name before its NUL, so that names have no NUL |
| Dispatch.HostGetxattr | fuse/dispatch.go:356-373 | size query, ERANGE and filled buffer, each exactly when, and the buffer's every byte; the count returned is the length if and only if that is below 2^31 |
| HostNumbers.AttributeNumbers | fuse/dispatch.go:345-373 | the numbers hostSetxattr returns, and hostGetxattr where it fails, by node, name and flags |
| Dispatch.HostListxattr | fuse/dispatch.go:375-399 | the size query gives the bytes all names take; a buffer that large receives every name once with its NUL, and cut at the NULs gives them back; a smaller one gets ERANGE; nothing beyond the size is written; any iteration order |
| Dispatch.Fill | fuse/dispatch.go:382-393 | the filler refuses exactly the name that does not fit, and otherwise extends the packed list by it |
| Dispatch.ListSplitsIntoNames | fuse/dispatch.go:375-399 | after every run from NewMemfs a list that fits is cut at its NULs into exactly the node's names, each once |
| Dispatch.ListedCountExact | fuse/dispatch.go:391-398 | the count returned is the number of bytes if and only if that is below 2^31 |
| Dispatch.FillNames | examples/memfs/memfs.go:461-474 | the same of the loop over the attributes of one node and the filler it calls |
| Dispatch.TotalWithout | fuse/dispatch.go:383-391 | the total of name lengths does not depend on the order of the names |
| Dispatch.UnpackPack | fuse/dispatch.go:382-393 | cutting a packed list at its NULs gives the names back, in order |
| Dispatch.HostCreate | fuse/dispatch.go:538-569 | Mknod, then Open, on the heap, with the handle and error number that reach the library |
| Dispatch.CreateEffect | fuse/dispatch.go:558-567 | Create makes an empty file at a vacant path and opens it once under a number no node had, or fails with every node as before |
| HostNumbers.CreateNumbers | fuse/dispatch.go:538-569 | the number hostCreate returns: EEXIST, ENAMETOOLONG, ENOENT, 0, or EIO under something that is no directory, each exactly when |
| Dispatch.CreateResolves | fuse/dispatch.go:558-567 | afterwards the new path leads to the new handle's node, every other where it did, and the invariant holds |
| Dispatch.HostRename | fuse/dispatch.go:189-205 | Rename3 where there is one, otherwise Rename and EINVAL for any flag |
| HostNumbers.RenameNumbers | fuse/dispatch.go:189-205 | the number hostRename returns with any flags: EINVAL exactly for an unknown flag or a guarded target, EIO exactly for a run-time panic, otherwise that of the rename |
| HostLifecycle.StepKeepsGood | fuse/host.go:65-263 | every step of every thread keeps the protocol's invariant |
| HostLifecycle.RunKeepsGood | fuse/host.go:65-263 | so does every interleaving |
| HostLifecycle.Safety | fuse/host.go:65-263 | in every state of every interleaving: a session is visible only in its own mount and with its mountpoint; nobody in the C layer holds the lock; the C layer gets only pairs of one mount and paths that are not empty; signals go to open channels only; callbacks find their handle; after Mount returns the goroutine has ended, each handle was deleted once and no mountpoint is left |
| HostLifecycle.CallEndsOnlySo | fuse/host.go:232-263 | over every run a call ends only by its own step: out of the C layer, without a session, or as a Notify without a path |
| HostLifecycle.CallGoesIntoC | fuse/host.go:232-263 | in every interleaving a call that has read a session, and names a file if it is to notify, is inside the C layer with what it read before it ends |
| HostLifecycle.SignalAdvances | fuse/host.go:212-218 | what the goroutine does step by step: Unmount on a signal, none when the channel is closed, and done closed in the end |
| HostLifecycle.SignalGoesIntoC | fuse/host.go:212-218 | in every interleaving the goroutine, having read a session after a signal, is inside the C layer with that pair before it ends |
| HostLifecycle.ForwardStep | fuse/host.go:190-226 | while Mount unwinds, a step of Mount, of the goroutine or of the lock's holder is always enabled, and shortens what is left to do |
| HostLifecycle.NoStepBack | fuse/host.go:190-226 | no step of any thread lengthens what is left, every step of Mount or the goroutine shortens it, and a call takes at most three steps with the lock |
| HostLifecycle.UnwindingIsBounded | fuse/host.go:190-226 | in every interleaving Mount and the goroutine take a bounded number of steps until Mount has returned, and outside calls at most three with the lock for each time they take it |
| HostLifecycle.MountReturns | fuse/host.go:190-226 | every run of steps of Mount, the goroutine and the lock's holder is bounded, and one that cannot go on has seen Mount return |
| HostLifecycle.MountCanReturn | fuse/host.go:190-226 | from every such state there is such a run to the return of Mount |
| HostLifecycle.SessionEndsExactly | fuse/host.go:86-101 | over every run a visible session stays visible if and only if hostDestroy does not clear it, and once cleared never comes back |
| HostLifecycle.CallIsLiveExactly | fuse/host.go:232-263 | over every run the session an Unmount or Notify has read is still up if and only if hostDestroy has not cleared it since |
| HostLifecycle.SignalIsLiveExactly | fuse/host.go:212-218 | the goroutine's session is still up if and only if hostDestroy has not got that far, and the goroutine never outlives its Mount |
| HostLifecycle.NeverLateExactly | fuse/host.go:229-263 | in a run no call is ever late if and only if hostDestroy never clears the session while a call is between its unlock and its return |
| HostLifecycle.OrderlyIsNeverLate | fuse/host.go:229-231 | no call is ever late if Destroy returns only with no call in flight and none begins from then until the session is gone |
| HostLifecycle.LateUnmount | fuse/host.go:229-246 | a run, with or without signal goroutine, in which an Unmount begun while mounted goes into the C layer after Mount has returned |
| HostLifecycle.LateSignal | fuse/host.go:212-218 | a run in which the signal goroutine goes into the C layer after Destroy |
| HostLifecycle.FailedMount | fuse/host.go:224-226 | a run in which the C call returns without beginning its loop, and Mount returns |
| HandleTable.StepKeepsGood | fuse/host_nocgo_windows.go:305-328 | every step of New and Del keeps table, sessions and addresses in agreement |
| HandleTable.HandleLeadsToItsHost | fuse/host_nocgo_windows.go:305-328 | in every interleaving, with addresses reused, a handle leads to its own host from the return of New until Del, and an address to a host only then |
| HandleTable.NewThenDel | fuse/host_nocgo_windows.go:310-322 | New and then Del of any free address can be carried out in any state and restore it; in between the handle leads to its host and no other entry differs |
| HandleTable.DeletingFirstIsNeeded | fuse/host_nocgo_windows.go:317-322 | of the two orders of delete and free, handles lead to their hosts in every interleaving if and only if the entry is deleted first, as in the code |
| Loader.StepKeepsGood | fuse/cgofuse_cgo.h:70-94 | every step keeps the invariant, and a published module and its pointers never change |
| Loader.LoadedOnce | fuse/cgofuse_cgo.h:160-235 | in every interleaving whoever gets a module finds all four pointers resolved from it, all get the same one, and only the lock's holder initialises, never after a success |
| Loader.LoadsExactly | fuse/cgofuse_cgo.h:79-94 | a thread with the lock publishes and returns the library it opened if and only if all four functions are found in it, and otherwise none, with the lock released |
| Loader.PublishedIsReturned | fuse/cgofuse_cgo.h:70-94 | a thread that sees a published module returns it, with or without the lock, and resolves nothing |
| Notifyfs.CountSteps | examples/notifyfs/notifyfs.go:33-45 | the count stays within 0 and 10, has period 20, and moves by one each tick, in the stated direction |
| Notifyfs.NextCount | examples/notifyfs/notifyfs.go:116-118 | from one tick to the next the count moves by one, and at the wrap of the counter from 5 to 0 |
| Notifyfs.Notifyfs.Tick | examples/notifyfs/notifyfs.go:113-127 | over any number of ticks, one event each; replaying them gives the files then listed if and only if it is not one of the four ticks 0 to 3 after a wrap of the 64-bit counter; every event is news if and only if the run ends at or before the first wrap |
| Notifyfs.Notifyfs.Readdir | examples/notifyfs/notifyfs.go:100-111 | the two dots, and the decimal names of the numbers from 1 to the count in order, the set the events replay to |
| Notifyfs.ParseExactly | examples/notifyfs/notifyfs.go:53-53 | a string is read as a number if and only if it is that number's decimal after leading zeros |
| Notifyfs.ParseFormat | examples/notifyfs/notifyfs.go:53-55 | parsing undoes formatting, and a string that is read as a number is its listed name if and only if it has no leading zero |
| Notifyfs.Notifyfs.Lookup | examples/notifyfs/notifyfs.go:51-58 | finds a path exactly when it names, but for leading zeros, a file that is listed, and then that file |

## Left out

- Memfs.Memfs.MakeNode: assumes the inode counter stays below 2^64 - 1; its wrap-around is not modelled.
- Memfs.Memfs.Truncate: sizes are not negative, and here and in Read, Write, CopyFileRange and Fallocate the sums of offsets and lengths fit in int64, as the kernel sees to.
- Memfs.Memfs.Read: the caller's buffer is not an array that holds a node's bytes; likewise for Write and the dispatch buffers.
- Memfs.Memfs.Readdir: the stat passed is number, mode, link count and size; likewise in Getattr.
- Memfs.Memfs.Getxattr: values and names are byte sequences, so the array shared with the caller is not modelled.
- Slices.Resize: running out of physical memory, which ends a Go program, is not modelled; `limit` stands for the lengths `make` refuses.
- Notifyfs.Notifyfs.Tick: takes the increment of the counter and the notification as one step.
- Notifyfs.Notifyfs.Lookup: numbers are parsed as 64-bit, and an empty path, which the kernel never sends, is excluded.
- HostLifecycle.MountReturns: nothing makes the scheduler take such steps, and calls that go on taking the lock could hold Mount up; that a C unmount or notify call returns is an assumption.
- HostLifecycle.OrderlyIsNeverLate: whether a Destroy that waits for an Unmount in flight ever returns depends on the C library.
- HostLifecycle.Safety: one Mount of a host at a time, Destroy called once for each Init before the C mount returns, no panic in the file system's own Init and Destroy.
- Dispatch.HostCreate: the variant with OpenEx and CreateEx, and the open flags, which Memfs ignores.
- Loader.LoadedOnce: which libraries are searched in which order, and the exit after a failed load.
- The mutex of Memfs: each operation is one atomic step; Go's deferred unlock runs on every exit, panics included.
- Timestamps, owners, device numbers and flags of nodes, with Chown, Utimens, Chflags, Setcrtime and Setchgtime, which only copy such fields.
- UTF-8: a path is a sequence of characters, each counted as one rune; attribute names, values and link targets are bytes.
- The one-line callbacks of the dispatch layer, C struct layout, the split and join of 64-bit offsets on Windows, capability bits and option parsing.
- The command line that Mount builds, and its search for the mountpoint in the options; the mountpoint is an input.
- The table behind the cgo build's handles, which belongs to the Go run time.
- Weak memory: host and loader steps are sequentially consistent.
- The passthrough and hello examples and the tracing code, which keep no state of their own.
