# Verified model of the SimpelDateisystem inode file system

SimpelDateisystem (sfs) is a FUSE file system that keeps all its metadata in a superblock and a
fixed table of 100 inode records, and writes both to a disk file. This project models that
machine and proves what it keeps and where it stops keeping it: inode allocation, the directory
tree, lookup by name, the disk layout, flushing and mounting, and the division of the disk in
`formatDisk`.

`dafny verify dfyconfig.toml` checks everything.

## How the model is built

The globals `sBlockData` and `inodes` are the fields of the class `FileSystem.Sfs`, the disk file
is a `Block.Disk`; their methods follow the C functions loop by loop and update the arrays in
place. Each method is proved to compute a function on the value `Memory` (superblock and inode
table) or on the disk image, and the theorems are about these functions. A
`fileControlBlock *` is the datatype `Ptr` (`Null`, or `At(k)` for `&inodes[k]`). C integers are
subset types of their x86_64 widths, so every assignment is checked for overflow; storing a mode
or user id into a `short` truncates as C does. Names are C strings shorter than 256, path buffers
have the sizes the original allocates.

| file | what is in it |
|---|---|
| `Types.dfy` | records, constants, integer widths |
| `Paths.dfy` | splitting of paths, C string buffers, `getRelativeParentName` |
| `DirEntries.dfy` | the 30-slot directory array, for any capacity |
| `Inodes.dfy` | lookup, create and remove on values; memory safety |
| `Lookup.dfy` | when lookup by name is right, whatever happened to the directories |
| `Links.dfy` | entries and parent numbers without any guard; create and remove undo each other |
| `Tree.dfy` | the tree, the guards of create and remove, and their exactness |
| `Runs.dfy` | runs of calls, and the map they implement |
| `TruePaths.dfy` | no cycles, the true path of an inode, when lookup respects it |
| `Conservation.dfy` | bitmap and directories count the same inodes |
| `Boot.dfy` | the freshly formatted memory, runs that only create |
| `Attributes.dfy` | the file type that `sfs_getattr` shows |
| `Listing.dfy` | what `sfs_readdir` shows, and when it shows everything |
| `Format.dfy` | the space computation of `formatDisk` in closed form |
| `Layout.dfy` | places of the records on disk, for any sizes |
| `Codec.dfy` | the bytes of the records |
| `Block.dfy` | the disk file: `pread`, `pwrite` and the padded writes |
| `Persistence.dfy` | the flush, format and load loops and what they leave |
| `Remount.dfy` | runs with their flushes, and mounting again |
| `Sessions.dfy` | lifetimes of many sessions: unmounts, crashes and mounts |
| `Witnesses.dfy` | runs from a fresh format that end in each failure |
| `FileSystem.dfy` | the class with the methods of the original |

## Results

* **Every field is accounted for.** What a format, a create and a remove leave in each field of
  the superblock and of each record is stated in any state, as is every byte of the image after a
  flush or a format, the place of every field in the written bytes, and what a load makes of any
  image, cut off or not.
* **Every entry is live.** In every state that any calls on well-formed paths reach from a
  format, with no guard at all, each directory lists every inode at most once and only live ones
  that point back to it; and a create of a fresh pair followed by the remove of the path restores
  the superblock, every directory array and every other record, whatever the parent.
* **Guards are exact.** A create on a well-formed path that goes through keeps the directory tree
  if and only if its parent is live and has a free slot; a remove if and only if it does not take
  a directory with children. These calls are called ready. Every run of ready calls keeps the
  tree, has no parent cycle, and keeps the number of set bitmap entries equal to one plus the
  number of directory entries. Equal names may occur anywhere in the tree.
* **Lookup needs one guard more:** no create may repeat the (name, parent name) pair of a live
  inode. A create keeps lookup right if and only if it meets this guard, so it keeps tree and
  lookup together if and only if it meets both. The guard is stronger than it should be: a new
  name in a directory may repeat a pair from elsewhere, and then one of the two inodes is no
  longer found.
* **Lookup is a map.** `findFileOrDir` scans records without reading the bitmap, and removed
  inodes keep their names. It still behaves as a map from pairs to inode numbers over every run
  in which no create repeats a live pair: parents may be stale, directories full, and removed
  directories may have had entries. Removes need no guard. A successful create takes the least
  number the map does not use. The map outlives mounts of an image whose last slot started out
  blank: a mount only forgets the pair of the last inode.
* **Lookup knows two names only.** Where lookup is right, the true path of a live inode leads back
  to it, but so does every path with the same last two names. A path spells the inode that lookup
  returns if and only if, going down the path, the directory found for each prefix has an entry
  with the next name. All lookups that find a live inode are right if and only if every live
  inode lies directly in the root.
* **Removal in the directory array is exact** in every state that any calls reach, guarded or not,
  because the capacity is even and the last slot is filled last.
* **Listings** hand out exactly the names before the first empty slot. They show every child of
  every directory, all along a run that keeps the tree, if and only if each remove takes out the
  last entry of its directory or an entry of a full one.
* **Remounting** brings back the superblock and every record but the last inode's, over any
  number of sessions with any calls on any paths, whether a session ends in the flush of
  `sfs_destroy` or just stops. The last inode is never written; if its slot starts out blank,
  the tree comes back after a session of ready calls if and only if the last inode is free at its
  end. A format of any disk of zeros with at least two inodes gives such a blank slot.
* **`formatDisk`** gives a disk exactly as many inodes as it affords, in closed form; the static
  table is large enough if and only if the disk has at most 310303944 bytes. Since `sfs_init`
  only formats empty images, such a file system has no inodes and never takes a file. The space
  counters fit an `int` if and only if the disk has at most 2133101648 bytes.
* **The failures are reachable.** From a fresh format: a record that becomes its own parent, a
  file whose directory is gone, a path that leads into another directory, a new file whose path
  leads to its parent, a file that an earlier removal hides from the listing, a full directory
  (whose listing would leave the array) with an inode that no directory lists, and a tree that a
  remount destroys.

Where the code and its evident intent disagree, the model follows the code: a removed path is
still found (`Lookup.RemovedPathIsStillFound`), removing it again succeeds and changes nothing
(`Links.RemoveStaleIsNoOp`), adding to a full directory reports success without linking
(`FileSystem.Sfs.AddToDirentry`), `sfs_mkdir` always reports success
(`FileSystem.Sfs.SfsMkdir`), the root is never shown as a directory
(`Attributes.RootShowsNoKind`), and a removal cuts the listing of a directory that is not full off
at the hole it leaves (`DirEntries.RemoveTruncates`, `Listing.RemoveKeepsListingIff`).

## Model

| member | source | states |
|---|---|---|
| Tree.CreateKeepsLinksIff | src/DateiSteuerBlock.c:211-276 | for every well-formed path, create keeps the tree exactly when it does not go through or the parent found is live with a free slot, whatever names exist |
| Tree.CreateKeepsTreeIff | src/DateiSteuerBlock.c:211-276 | it keeps tree and lookup together exactly when in addition no live inode has the pair |
| Tree.RemoveKeepsLinksIff | src/DateiSteuerBlock.c:279-303 | for every well-formed path, remove keeps the tree exactly when it does not take a live directory with entries |
| Tree.RemoveKeepsTreeIff | src/DateiSteuerBlock.c:279-303 | the same for tree and lookup together |
| Runs.StepKeepsLinksIff | src/sfs.c:272-296 | one sfs_create, sfs_mkdir, sfs_unlink or sfs_rmdir call keeps the tree exactly when it is ready |
| Runs.StepKeepsTreeIff | src/sfs.c:272-296 | it keeps tree and lookup together exactly when it is ready and creates no live pair a second time |
| Runs.RunKeepsLinks | src/DateiSteuerBlock.c:115-303 | every run of ready calls keeps the tree: live parents, each child in exactly one slot, entries live and pointing back, free inodes empty, no cycle |
| Runs.AllAllowedIff | src/DateiSteuerBlock.c:211-303 | the runs that meet the guards of tree and lookup are the runs of ready calls whose creates repeat no live pair |
| Runs.RunKeepsTree | src/DateiSteuerBlock.c:115-360 | such runs keep the tree with unique pairs, every live inode before the stale records of its pair |
| Boot.ReachableStates | src/DateiSteuerBlock.c:387-442 | the tree and the conservation law hold in every state that ready calls reach from a format, and lookup is right if no create repeats a live pair |
| Boot.EveryStateIsBack | src/DateiSteuerBlock.c:387-442 | in every state any calls on well-formed paths reach from a format, each entry is live, points back and occurs once in its directory |
| Links.CreateOutcome | src/DateiSteuerBlock.c:211-276 | in any state: which inode a create takes; the names, numbers, low 16 bits of mode and user, and time in its record; size and blocks as before; every other record unchanged but for the slots of the parent |
| Links.RemoveOutcome | src/DateiSteuerBlock.c:279-303 | in any state: a remove changes one bit and the slots of one record, or nothing when nothing is found |
| Links.UnlinkSlots | src/DateiSteuerBlock.c:144-208 | the slots after a removal: the first entry with the number goes, in a full array the last entry takes its place, and a missing number changes nothing |
| Runs.StepIs | src/sfs.c:272-441 | which create or remove each call comes down to, with its result; mkdir creates for the modes 493 and 4294934948, as 0x4000 and 0x8000, and does nothing for any other |
| Runs.MkdirMakesDirectory | src/sfs.c:429-438 | mkdir of mode 493 for a fresh pair, a free number and a found parent makes a live inode of mode 0x4000 below it that the path finds |
| Links.CreateKeepsBack | src/DateiSteuerBlock.c:211-276 | no create breaks that, with a stale or full parent or a taken pair |
| Links.RemoveKeepsBack | src/DateiSteuerBlock.c:279-303 | no remove breaks that, of directories with entries too |
| Runs.RunKeepsBack | src/DateiSteuerBlock.c:115-303 | no run breaks that |
| Tree.StaleParentBreaks | src/DateiSteuerBlock.c:230-262 | linking below a removed record always breaks the tree, also when the record is the one being reused |
| Tree.FullParentBreaks | src/DateiSteuerBlock.c:123-137 | a create below a full directory takes an inode that no directory lists, and breaks the tree |
| Lookup.FindReturnsLive | src/DateiSteuerBlock.c:324-360 | lookup of a path answers with a live inode exactly when that inode has the path's pair, although stale records carry pairs too; this needs nothing of the directories |
| Lookup.CreateKeepsLookupIff | src/DateiSteuerBlock.c:211-276 | a create keeps lookup right exactly when it does not go through or no live inode has the pair; stale and full parents included |
| Lookup.RemoveKeepsLookup | src/DateiSteuerBlock.c:279-303 | every remove keeps lookup right, of directories with entries too |
| Lookup.CreatedIsFound | src/DateiSteuerBlock.c:211-360 | after a create of a fresh pair the path is found as the new inode, in any memory whose indices lie in the table |
| Lookup.OthersStillFound | src/DateiSteuerBlock.c:211-360 | after a create of a fresh pair every other path that led to a live inode still leads there, if lookup was right |
| Lookup.RemovedPathIsStillFound | src/DateiSteuerBlock.c:279-303 | after a successful remove the path still leads to the same record, now free, in any memory whose indices lie in the table |
| Links.RemoveStaleIsNoOp | src/DateiSteuerBlock.c:174-208 | in every reachable state, removing a path only a stale record answers to reports success and changes nothing |
| Runs.FindRefinesMap | src/DateiSteuerBlock.c:324-360 | lookup returns the number bound to the pair in the map of live pairs, and nothing live if it is unbound |
| Runs.CreateBinds | src/DateiSteuerBlock.c:211-276 | a create of a fresh pair binds it to the least unused number and leaves all other bindings; it goes through exactly when there is one and a parent record is found, live or not |
| Runs.RemoveUnbinds | src/DateiSteuerBlock.c:279-303 | every remove unbinds exactly the path's pair |
| Runs.StepKeepsLookupIff | src/sfs.c:272-296 | one call keeps lookup right exactly when it does not create a live pair a second time |
| Runs.StepBinds | src/sfs.c:272-296 | one call changes the map of live pairs as its result says, and a new inode gets the least unused number |
| Runs.RunIsMap | src/DateiSteuerBlock.c:211-360 | over every run whose creates repeat no live pair, removes unguarded, the table behaves as a plain map in which each create that goes through binds the least unused number |
| Runs.RunThenFind | src/DateiSteuerBlock.c:211-360 | after such a run a lookup returns the number the plain map has for the pair, or nothing live |
| Runs.CreateRefinesMap | src/DateiSteuerBlock.c:211-276 | on a tree the map alone decides an allowed create: it goes through exactly when the parent pair is bound or the root and a number is unused |
| Runs.RunRefinesMap | src/DateiSteuerBlock.c:211-360 | over every run that keeps tree and lookup the map alone decides which creates go through |
| Links.RemoveUndoesCreate | src/DateiSteuerBlock.c:115-303 | in every reachable state, create of a fresh pair then remove restores the superblock, every directory array slot for slot and every other record, whatever the parent |
| Runs.RemovalIsAlwaysExact | src/DateiSteuerBlock.c:144-172 | in every state any calls reach, the double-stepping scan ends at the capacity and a removal takes exactly the chosen entry |
| TruePaths.RunHasNoCycles | src/DateiSteuerBlock.c:106-113 | after every run of ready calls, following parent numbers from any live inode reaches the root in fewer steps than the table has records |
| TruePaths.LookupOfTruePath | src/DateiSteuerBlock.c:324-360 | in a tree every live inode but the root has exactly one true path, and lookup of it returns the inode if lookup is right |
| TruePaths.LookupForgetsAncestors | src/DateiSteuerBlock.c:32-90 | every other path with the same last two names leads to the inode too, although it spells none |
| TruePaths.LookupIsTrueIff | src/DateiSteuerBlock.c:324-360 | a path spells the inode that lookup returns, and spells any inode at all, exactly when the directory found for each proper prefix has an entry with the next name |
| TruePaths.LookupsAreTrueIff | src/DateiSteuerBlock.c:324-360 | every lookup that finds a live inode is right exactly when all live inodes lie directly in the root |
| TruePaths.MisleadingPath | src/DateiSteuerBlock.c:324-360 | every live inode that is not directly in the root is also found by a path that does not spell it |
| TruePaths.CreateExtendsTree | src/DateiSteuerBlock.c:211-276 | a create with a ready parent keeps every true path, and where lookup is right creating below a true path makes the path true |
| TruePaths.SameNamesElsewhere | src/DateiSteuerBlock.c:324-360 | creating a path nothing spells in a directory with room, with a pair that is live elsewhere: the tree stays right, lookup does not, and the path leads to the lower of the two numbers |
| TruePaths.RemoveKeepsOtherPaths | src/DateiSteuerBlock.c:279-303 | removing an empty inode keeps the true path of every other one |
| Conservation.CreateConserves | src/DateiSteuerBlock.c:115-262 | a create with a ready parent adds one set bit and one directory entry if it goes through, and changes nothing otherwise |
| Conservation.RemoveConserves | src/DateiSteuerBlock.c:144-286 | removing a live inode takes one bit and one entry, any other remove takes none |
| Conservation.RunConserves | src/DateiSteuerBlock.c:211-303 | set bits equal one plus the entries of live directories after every run of ready calls |
| Inodes.FindFrom | src/DateiSteuerBlock.c:332-356 | the scan returns the first matching record from a position on, and null only if none matches |
| Inodes.FindIsFirst | src/DateiSteuerBlock.c:324-360 | for any path but "/": lookup answers k exactly when record k is the first with the name and, if the path has a slash, the parent name |
| Inodes.OnlySlashFindsRoot | src/DateiSteuerBlock.c:324-331 | the root record answers to "/" and to no other path |
| Inodes.FirstFree | src/DateiSteuerBlock.c:213-217 | the scan stops at the lowest number whose bitmap entry is not 1 |
| Inodes.CreateKeepsSane | src/DateiSteuerBlock.c:211-276 | create keeps every index in the table and every array's last slot last, for any path whose name fits |
| Inodes.RemoveKeepsSane | src/DateiSteuerBlock.c:279-303 | remove keeps the same for any path but the root's |
| Inodes.RemovalTarget | src/DateiSteuerBlock.c:279-288 | the parent pointer of whatever a remove finds lies in the table, except for the root |
| DirEntries.DoubleStepExact | src/DateiSteuerBlock.c:144-155 | under the last-slot invariant the double-stepping scan ends at the capacity exactly when the capacity is even or the last slot is free |
| DirEntries.AddKeeps | src/DateiSteuerBlock.c:115-142 | adding keeps the invariant and adds exactly the child if there is room |
| DirEntries.AddedSlot | src/DateiSteuerBlock.c:123-137 | the child goes to the first empty slot, and a full array stays |
| DirEntries.RemoveKeeps | src/DateiSteuerBlock.c:144-172 | removing keeps the invariant and the entries lose exactly the chosen one, for any even capacity |
| DirEntries.RemoveUndoesAdd | src/DateiSteuerBlock.c:115-172 | removing what was just added restores every slot |
| DirEntries.ListedIsEverythingIff | src/sfs.c:523-533 | the walk to the first empty slot sees every entry exactly when there is no hole before one |
| DirEntries.AddAppends | src/DateiSteuerBlock.c:123-129 | an addition appends to the listing |
| DirEntries.RemoveTruncates | src/DateiSteuerBlock.c:157-164 | a removal from a directory that is not full cuts the listing off at the removed entry; from a full one it puts the last entry in its place |
| DirEntries.RemoveKeepsNoHolesIff | src/DateiSteuerBlock.c:144-172 | for any array add and remove produce: no hole is left exactly when the array was full, or no entry comes after the removed one and no hole before it |
| Listing.NamesAreEntries | src/sfs.c:523-533 | in any state the names handed out are exactly those of the entries before the first empty slot, in order |
| Listing.ListingIsSound | src/sfs.c:517-536 | in every reachable state, every listed name is that of a live inode with the directory as parent |
| Listing.ListingHasNoRepeats | src/sfs.c:517-536 | no inode is listed twice in any reachable state, and no name where tree and lookup are right |
| Listing.ListingIsCompleteIff | src/sfs.c:517-536 | in a tree every live child has its place among the names handed out exactly when no entry comes after an empty slot |
| Listing.NamesAreCompleteIff | src/sfs.c:517-536 | where lookup is right too, the name of every live child is handed out exactly then |
| Listing.RemoveKeepsListingIff | src/DateiSteuerBlock.c:279-303 | after a remove of a live inode its directory has no holes, and shows every child if the remove keeps the tree, exactly when the directory was full or the entry was the last with no hole before it |
| Listing.LastEntryLeavesNoHole | src/DateiSteuerBlock.c:157-164 | where there are no holes that guard is: full, or the last entry |
| Listing.StepKeepsListingsIff | src/sfs.c:272-296 | a ready call keeps all listings complete exactly when it is no remove from the middle of a directory that is not full |
| Listing.RunKeepsListingsIff | src/sfs.c:517-536 | along every run of ready calls all directories show every child at all times exactly when each remove meets that guard |
| Listing.ListingsFromFormat | src/sfs.c:517-536 | the same for runs from a fresh format |
| Listing.ListingGrowsInOrder | src/sfs.c:517-536 | while nothing leaves a directory its listing is the earlier one followed by the new children in order of creation |
| Listing.NamesGrowInOrder | src/sfs.c:517-536 | and the names handed out are the earlier ones followed by the last components of the created paths |
| Paths.LastSlash | src/DateiSteuerBlock.c:39-40 | the position of the last slash, as strrchr finds it |
| Paths.SplittingAnyPath | src/DateiSteuerBlock.c:32-90 | name and parent name of any text, well formed or not, by its last two slashes |
| Paths.PathSplitting | src/DateiSteuerBlock.c:32-90 | for k components the name is the last, the parent path is all but the last, and the parent name is "/" for k = 1 and component k - 1 otherwise |
| Paths.WellFormedIffJoined | src/DateiSteuerBlock.c:32-35 | a path is well formed exactly when it is one or more components joined by slashes |
| Paths.SplitRebuilds | src/DateiSteuerBlock.c:221-233 | parent path, slash and name rebuild the path |
| Paths.GetRelativeParentName | src/DateiSteuerBlock.c:36-90 | the buffer version returns the parent name; all copies fit and stay terminated |
| Paths.CopyPrefix | src/DateiSteuerBlock.c:41-56 | a prefix copied through a zeroed buffer of the path's length is read back whole |
| Paths.CopyFrom | src/DateiSteuerBlock.c:57-63 | the text after the parent's last slash is copied whole into its buffer |
| Boot.FormatFields | src/DateiSteuerBlock.c:387-476 | every field of the superblock, both bitmaps and the root's record after a format of any memory, and all other records unchanged |
| Boot.FormattedFields | src/DateiSteuerBlock.c:387-476 | the same from zeroed memory: magic number 666, 15 data blocks an inode, only bit 0 set, root mode 0x41ED, all other records zero |
| Boot.FormattedIsTree | src/DateiSteuerBlock.c:414-429 | a freshly formatted file system satisfies the whole invariant |
| Boot.FirstCreate | src/DateiSteuerBlock.c:211-276 | right after a format with at least two inodes any one-component path can be created, as inode 1 and the only entry of the root |
| Boot.CreateOnlyRun | src/DateiSteuerBlock.c:211-276 | runs without a remove hand out the next numbers in order, keep the live inodes a prefix of the table and parents before children |
| Boot.FormattedIsPrefix | src/DateiSteuerBlock.c:414-429 | after a format only the root is live |
| Boot.EmptyFileSystemStaysEmpty | src/sfs.c:74-82 | a file system formatted on an empty image never changes under any calls |
| Format.RoundsIsGreatestAffordable | src/DateiSteuerBlock.c:399-412 | for any space and allocation the loop makes n rounds where n is the greatest number the space affords, stated as an equivalence for every number |
| Format.TableSufficesIff | src/sfs.c:60 | the inodes fit the table of 100 exactly for disks of at most 310303944 bytes; one byte more gives 101 |
| Format.CountersFitIff | src/DateiSteuerBlock.c:399-412 | the largest space counter of the loop fits an int exactly for disks of at most 2133101648 bytes |
| Format.RegionsFit | src/DateiSteuerBlock.c:387-412 | data blocks and inode region fit the disk, whatever its size |
| Format.EmptyDiskGetsNoInodes | src/sfs.c:77-82 | a disk gets no inode exactly when it is not larger than the superblock and one allocation |
| Layout.WalkFromRoot | src/DateiSteuerBlock.c:482-497 | the block and slot counters of later flush and load reach block i / P, slot i mod P at record i |
| Layout.WalkFromFirstChild | src/DateiSteuerBlock.c:447-474 | the first-time flush agrees with them exactly when a block holds at least two records |
| Layout.InsideBlock | src/block.c:123-139 | a record lies inside its block and after the superblock's blocks |
| Layout.Disjoint | src/block.c:77-139 | distinct records never share a byte |
| Codec.FcbInverts | src/knoten.h:30-45 | an inode record, directory pointers as addresses included, is read back from its written bytes |
| Codec.FcbLayout | src/knoten.h:30-45 | where each field of a record lies in its 840 bytes, padding included |
| Codec.FcbSlotLayout | src/knoten.h:44 | where each directory slot lies, and the address it holds |
| Codec.NameLayout | src/knoten.h:32-37 | a name field holds the characters and then zeros |
| Codec.FcbOfLayout | src/knoten.h:30-45 | what any 840 bytes mean, field by field |
| Codec.FcbOfSlotLayout | src/knoten.h:44 | which eight bytes each directory slot is read from |
| Codec.PtrLayout | src/knoten.h:44 | which eight bytes are NULL and which are the address of record k |
| Codec.SuperblockInverts | src/knoten.h:15-27 | the superblock read from its written bytes is the superblock |
| Codec.SuperblockFields | src/knoten.h:15-27 | where each field of the superblock lies in its 11744 bytes |
| Codec.SuperblockOfLayout | src/knoten.h:15-27 | what any 11744 bytes mean, field by field |
| Codec.SignedInverts | src/knoten.h:15-45 | two's complement little-endian numbers of any width read back |
| Codec.UnsignedInverts | src/knoten.h:15-45 | the bytes of a number read from any bytes are those bytes |
| Codec.LittleEndianDigits | src/knoten.h:15-45 | byte k of a written number is its digit k in base 256 |
| Block.WrittenBytes | src/block.c:104-139 | every byte after a write: written, as before, or zero in a gap behind the old end |
| Block.ReadBytes | src/block.c:59-88 | a read takes the bytes from its offset on, as many as there are |
| Block.WrittenIsRead | src/block.c:123-139 | what a write puts on the image a read brings back |
| Block.WrittenElsewhere | src/block.c:123-139 | a write leaves every range alone that it does not overlap |
| Block.PaddingIsOverwritten | src/block.c:104-139 | writing padding first makes no difference to the image |
| Block.Disk.BlockWritePadded | src/block.c:123-139 | the image gets the record at block times block size plus offset and nothing else changes |
| Block.Disk.SBlockWritePadded | src/block.c:104-120 | the image gets the given number of bytes at its start |
| Block.Disk.SBlockRead | src/block.c:59-70 | returns how much of the buffer the image covers; that much comes from the start of the image and the rest stays, but an empty read leaves only zeros |
| Block.Disk.InodeRead | src/block.c:77-88 | returns how much of the record the image covers at block times block size plus offset; that much of the memory comes from there and the rest stays, but an empty read zeroes a whole block of memory |
| Persistence.SlotPlace | src/DateiSteuerBlock.c:447-497 | all loops place record i at (start + i / P) blocks plus (i mod P) records |
| Persistence.FlushPersists | src/DateiSteuerBlock.c:478-502 | after a flush the image holds the superblock and every record but the last inode's |
| Persistence.FlushBytes | src/DateiSteuerBlock.c:478-502 | length of the image after a flush and every byte outside the records: superblock, the memory behind it up to the end of its blocks, and otherwise what was there, or zero |
| Persistence.FlushSkipsLast | src/DateiSteuerBlock.c:484-487 | a flush never writes the last inode's slot |
| Persistence.FormatPersists | src/DateiSteuerBlock.c:431-477 | after a format from zeroed memory the image holds the memory in the same way |
| Persistence.FormatBytes | src/DateiSteuerBlock.c:431-477 | the same after a format of any memory: superblock with uncleared bits, root record, free records, and everything else as it was |
| Persistence.LoadsEvery | src/sfs.c:100-147 | what the load makes of any image: the bytes of each slot over the old record, blank records from the first slot behind the end of the image on, data bits by type and size, nothing else changed |
| Persistence.FoundIsOverlaid | src/sfs.c:73-88 | the superblock a mount finds on any image |
| Persistence.RegularMode | src/sfs.c:121 | which stored modes count as regular files |
| Persistence.LoadRestores | src/sfs.c:84-147 | with or without data, the load brings back the superblock, up to data bits that follow from the records, and every record before the last; the records behind it stay unless an empty read clears them |
| Persistence.ClearedTableIs | src/block.c:80-83 | an empty read for record i blanks records i to i + 3, clears 736 bytes of the next one, and changes no other |
| Persistence.ClearedWindow | src/block.c:80-83 | clearing a block of memory from record i on is clearing, record by record, what the block covers of it |
| Persistence.LoadBlanksLast | src/sfs.c:100-147 | from a blank last slot the last record comes back blank and the superblock unchanged |
| Remount.CallOutcome | src/DateiSteuerBlock.c:264-290 | memory and image after each call: flushed when an inode was made or found, both untouched otherwise |
| Remount.CallKeepsFaithful | src/DateiSteuerBlock.c:264-290 | every call leaves the image holding the memory |
| Remount.RunKeepsLastSlot | src/DateiSteuerBlock.c:484-497 | no run of calls changes the bytes of the last inode's slot |
| Remount.RemountRoundTrip | src/sfs.c:77-147 | after any run of calls on any paths from a format, the next mount finds the same superblock and records, all but the last inode's |
| Remount.RemountKeepsTreeIff | src/sfs.c:77-147 | with a blank last slot a tree survives the remount exactly when the last inode is free |
| Sessions.MountKeepsTreeAndLookupIff | src/sfs.c:77-147 | the same for tree and lookup together |
| Sessions.MountKeepsBackIff | src/sfs.c:77-147 | with a blank last slot, after a mount every entry is live and points back exactly when no directory lists the last inode |
| Sessions.FreshDiskIsSteady | src/sfs.c:60-82 | formatting any disk of zeros with at least two inodes that fit the table leaves a blank last slot |
| Sessions.MountIsSteady | src/sfs.c:77-147 | mounting an image that holds a memory, last slot blank, gives a memory which the image holds again |
| Sessions.SessionsComeBack | src/sfs.c:77-147 | over any number of sessions from a format of an image whose last slot is blank, each with any calls on any paths and ending with or without a flush, the next mount finds the same superblock and records, all but the last inode's |
| Sessions.SessionsSurviveIff | src/DateiSteuerBlock.c:444-502 | from such a format, after any number of sessions of ready calls that the tree survived, it survives another session of ready calls exactly when the last inode is free at its end |
| Sessions.UnmountPersists | src/sfs.c:165-168 | after the flush of sfs_destroy any image holds the memory |
| Sessions.UnmountIsSteady | src/sfs.c:165-168 | the flush of sfs_destroy leaves the image holding the memory, last slot blank |
| Sessions.MountKeepsLookup | src/sfs.c:77-147 | a mount keeps lookup right and forgets nothing of the map of live pairs but the pair of the last inode, live or not |
| Sessions.LookupSurvivesMount | src/sfs.c:77-147 | every live inode but the last is live after a mount, and a path finds it exactly when it has the pair the inode had before |
| Sessions.SessionsAreMap | src/sfs.c:64-168 | over any number of sessions whose creates repeat no live pair the table behaves as a plain map that calls bind and unbind and mounts trim |
| Sessions.LifetimeIsMap | src/sfs.c:64-168 | from the format of an image whose last slot is blank, lookup at the end of such a lifetime answers from that map |
| Witnesses.RecordAdoptsItself | src/DateiSteuerBlock.c:230-262 | create /a, remove /a, create /a/b: the new file takes the removed record and is its own parent and entry |
| Witnesses.ParentRemovedFirst | src/DateiSteuerBlock.c:279-303 | create /a, create /a/b, remove /a: the file stays live and is found, but its parent is free |
| Witnesses.FoundInTheWrongPlace | src/DateiSteuerBlock.c:332-356 | create /a, create /a/b, create /x: /x is empty, yet /x/a/b leads to the file of /a |
| Witnesses.SameNamesTwice | src/DateiSteuerBlock.c:32-90 | create /a, /a/a and /a/a/a, no path twice and all parents ready: the tree is right, and the path of the third leads to the second |
| Witnesses.HoleHidesFile | src/sfs.c:523-533 | create /a, create /x, remove /a, all allowed: afterwards /x is live and found, and the root lists nothing |
| Witnesses.FullDirectory | src/DateiSteuerBlock.c:123-137 | thirty files fill the root, and a thirty-first: its create returns the inode, and no directory lists it |
| Witnesses.LastInodeIsLost | src/DateiSteuerBlock.c:484-487 | an image of zeros formatted for two inodes, create /a, mount again: inode 1 is taken, its record is blank, and the tree is broken |
| FileSystem.Sfs.FindFileOrDir | src/DateiSteuerBlock.c:324-360 | the scan computes the specified lookup |
| FileSystem.Sfs.AddToDirentry | src/DateiSteuerBlock.c:115-142 | puts the child into the first empty slot of the parent, or changes nothing, and reports success either way |
| FileSystem.Sfs.IndexedRemoveFromDirentry | src/DateiSteuerBlock.c:144-172 | moves the last slot's entry down in place and clears the last slot |
| FileSystem.Sfs.RemoveFromDirentry | src/DateiSteuerBlock.c:174-208 | removes the first entry with the child's number, if any, and reports success either way |
| FileSystem.Sfs.CreateInode | src/DateiSteuerBlock.c:211-276 | memory and result are those of the specified create, and the image is flushed exactly on success |
| FileSystem.Sfs.FillIn | src/DateiSteuerBlock.c:243-262 | the field updates of a creation, in the order of the original, install the record |
| FileSystem.Sfs.RemoveInode | src/DateiSteuerBlock.c:279-303 | memory and result are those of the specified remove, and the image is flushed exactly on success |
| FileSystem.Sfs.FlushAllInodesToDisk | src/DateiSteuerBlock.c:478-502 | the loop writes the image of the specified flush |
| FileSystem.Sfs.FlushFirstTime | src/DateiSteuerBlock.c:446-476 | clears the bits 1 to numInodes - 2 and writes these records from slot 1 on |
| FileSystem.Sfs.AllocateSpace | src/DateiSteuerBlock.c:389-412 | the loop ends with the closed-form inode count and 15 data blocks each, for every disk on which no counter overflows an int |
| FileSystem.Sfs.FormatDisk | src/DateiSteuerBlock.c:387-442 | memory and image are those of the specified format |
| FileSystem.Sfs.SfsInit | src/sfs.c:64-156 | an empty image is formatted with no inodes, any other is loaded |
| FileSystem.Sfs.LoadInodes | src/sfs.c:100-147 | the load loop computes the specified load |
| FileSystem.Sfs.StoreRecord | src/sfs.c:107-131 | stores a record that was read and its data bit |
| FileSystem.Sfs.StoreCleared | src/block.c:80-83 | what an empty read clears, record by record up to the end of the table |
| FileSystem.Sfs.WalkDirectory | src/sfs.c:523-533 | the walk emits the names of the entries before the first empty slot |
| Attributes.CreatedKind | src/sfs.c:235-238 | a create shows as a file exactly for mode 0100644 and as a directory exactly for 0755 and 040000, up to multiples of 2^16, and else without a type |
| Attributes.RootShowsNoKind | src/sfs.c:196-238 | the root is shown without a type, because its mode is none of the three |
| FileSystem.Sfs.SfsGetattr | src/sfs.c:176-258 | result and every field of the buffer: too long a path, "/.Trash", nothing found, and a record |
| FileSystem.Sfs.SfsReaddir | src/sfs.c:503-540 | emits ".", ".." and the listed names, or fails when the path is not found |
| FileSystem.Sfs.SfsCreate | src/sfs.c:272-282 | takes the create step of a run, disk image included; returns 0 when an inode was made, and minus whatever errno held when none was |
| FileSystem.Sfs.SfsMkdir | src/sfs.c:429-441 | takes the mkdir step of a run and always returns 0 |
| FileSystem.Sfs.SfsRemove | src/sfs.c:285-296 | takes the remove step of a run and fails exactly when nothing is found |
| FileSystem.Sfs.SfsDestroy | src/sfs.c:165-168 | flushes the memory to the image as it is |

## Left out

- Logging, FUSE plumbing, option handling, `main`, `sfs_open`, `sfs_release`, `sfs_opendir` and `sfs_releasedir`: output, foreign interface, or a plain lookup.
- FileSystem.Sfs.SfsGetattr: the group comes in as a parameter and `errno` is not kept; a missing buffer is not modelled, since FUSE always passes one.
- `sfs_read`, `sfs_write` and data blocks: not implemented in the original; the model keeps `fileSize` and `dbmap` because mounting reads them.
- `getFreeInodeNum`, `showInodeNames`, `block_read`, `block_write`: unused.
- Failing `malloc`, `pread` and `pwrite`: allocation and the disk never fail; short and empty reads are modelled.
- The address in a written directory pointer: pointers are written as addresses, with the table at an arbitrary address that is the same in every process. A process whose table lies elsewhere would read wild pointers.
- Bytes behind the terminating NUL of a name field: the model writes zeros there, `strcpy` leaves old bytes.
- The 544 bytes that a flush copies from behind the superblock are a parameter of each call (`beyond`); the bytes `sfs_init` finds in its uninitialised buffer are the parameter `stack`.
- FileSystem.Sfs.LoadInodes: the block that an empty read clears ends with the table; for record numbers above 95 the original goes on clearing whatever lies behind it.
- FileSystem.Sfs.AllocateSpace: requires a disk of at most 2133101648 bytes; on a larger one a counter of the original overflows an `int`, which C leaves undefined.
- FileSystem.Sfs.FormatDisk: starts from zeroed inode and block counters, as its one caller does, and is limited to disks whose inodes fit the table, because on a larger one the original writes past it; the inode count is solved for every disk size in `Format`.
- FileSystem.Sfs.SfsInit: requires that a loaded superblock names at most 100 inodes and a non-negative start block; the original does not check and would leave its table.
- FileSystem.Sfs.SfsReaddir: requires a directory with a free slot; with 30 entries (`Witnesses.FullDirectory` reaches them) the original walks past the array.
- FileSystem.Sfs.RemoveInode: requires a path other than "/"; the root's parent number is -1 and the original would form a pointer before the table.
- FileSystem.Sfs.SfsRemove: requires a path other than "/", for the same reason.
- Superblocks whose magic number differs are loaded like any other, as in the original; converting them is not implemented there.
- Concurrency: the mount script runs the file system single-threaded.
