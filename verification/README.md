# Verification of the Nextcore EFI boot crate's algorithms

This project models, in Dafny 4.11, the parts of the EFI boot crate whose behaviour is decided
by the crate itself, and proves what they are relied on for. `dafny verify dfyconfig.toml`
checks everything.

**Translation tables** (`Granules`, `TableEntries`, `TableTrees`, `TableWalk`, `MmuTables`,
`MmuRuns`). `MmuTables.Tables` is the probes' table builder: a byte buffer holding a radix tree
with two roots, written in place, and a bump allocator for table pages. A ghost tree (index
prefixes to pages, full keys to descriptors) is tied to the bytes by `TableWalk.Represents`.
`TableWalk.WalkVa` is the VMSAv8-64 stage 1 walk (Arm DDI 0487, chapter D8), which looks at bytes
only; it is proved to agree with the finite map of what was last mapped, after any sequence of
calls, failed ones included, for 4 KiB and 16 KiB granules. Pages in use are counted exactly, and
each failure is characterised.

**Hierarchical permissions** (`HierarchyTables`, `HierarchyRuns`, `HierarchyAttributes`,
`HierarchyPermissions`). The builder that also ORs APTable and XNTable bits into table descriptors
that other addresses may share. Apart from those bits it does just what the plain builder does:
same pages, same leaves, same failures, over any run. What a walk collects is exactly what the
calls asked for. As permissions: EL1 execution apart, which the permission matrix gives where EL0
loses its write, a call only takes from other addresses, and an address regains an access only by
being mapped anew; it is proved with which leaves it does.

**Firmware memory maps** (`MemoryMaps`, `MapChecks`). Both coverage checks add up intersections
and then move a cursor. They are proved to accept exactly the unordered descriptor lists that hold
every address of the range once, by exchanging the sum over descriptors with the sum over
addresses; the number of rounds they allow is shown to be enough, or not.

**Device paths, names, volumes** (`Units`, `DevicePaths`, `ImagePaths`, `Names`, `Volumes`,
`Directories`, `VolumeSelection`). Paths are specified by their node lists. The validator, the
streaming reader over firmware memory, the byte-prefix test for descendants and the file path
built below a volume are proved against that. The streaming reader is given only the bytes that
firmware has to make readable, so that its index checks rule out reading further. Escaped names are
read back by an independent reader. Directory reading is modelled with its shared metadata budget,
over arbitrary firmware answers, and succeeds under an exact condition on those answers.

**Trace observers** (`FetchTrace`, `MemoryWatches`, `ObservedMemory`). Each observer's counters,
arrays and rings are proved to be functions of the whole history, and the functions are given
their meaning by separate lemmas; `Counting` counts places with a property.

**Image placement** (`LoadedKernel`). Zeroing and copying produce the image the plan describes,
and the readback, with its aligned-word comparison, succeeds exactly when every byte is right.

**The DeviceTree probe** (`DeviceTree`, `A64`, `DtProgram`, `DtRuns`, `DtCases`). The flattened
tree's encoder and the strict decoder of `tools/verify_dt_ledger_ovmf.py` are inverse to each other
for any list of properties. The generated program is run on a small machine (Arm DDI 0487, section
C6.2) that translates every access by walking the tables `MmuTables` builds; the outcome is
determined for every case, every RAM contents and every value offset the generator takes.

Conventions. Rust's and Python's unsigned integers are naturals with their ranges written out;
checked and saturating arithmetic is explicit. `|` and `&` on words are defined bit by bit in
`Bits`. A page's byte offset is written `PageOffset(g, page)`, which is page times granule. Rust
slices that are only read are sequences; buffers that are written are arrays or fields. Firmware
answers, and everything that comes from other crates, are parameters. The constructor of a table
builder asks for a granule of 4096 or 16384, a zeroed buffer, and for the buffer to end below 2^48
so that its pages have 48-bit addresses; the crate's callers always provide this.

Where the code does not do what one would expect, the model follows the code:

- A hierarchical `map` call that runs out of pages keeps the attribute bits it has added on its
  way down. It changes no translation (`CallKeepsTranslations`), but unlike the plain builder's
  failed calls it can change the walks of other addresses, and their permissions
  (`FailedCallMarks`). The walks it changes are exactly those that had not yet collected its marks
  on the tables they share with it (`CallLeavesWalk`); the permissions, exactly where one of the
  bits added matters to the leaf (`CallLeavesPermissions`).
- Mapping an address again replaces its leaf and with it the AP field, so a later call can give
  back an access (`RemapGrants`). `MappedPermissionsGained` says exactly when.
- `validate_map` accepts maps of up to 4096 descriptors but rejects a flawless one whose range is
  cut into 4096 pieces (`FullMapIsRejected`); below that it is exact.
- The DeviceTree program generator's guard lets the value lie beyond a 4 KiB page
  (`SourcesInTree`, `GuardAllowsNextPage`); with 16 KiB pages it cannot.
- The two size rejections of `image_path` are unreachable: its only error is an invalid path.
- The comment before `name_units` describes the escaping, which `name` does.

## Model
| member | source | states |
|---|---|---|
| Bytes.ReadAfterWrite | src/mmu_probe.rs:207-212 | an entry written is read back, and no number stored clear of it changes |
| Bytes.ReadSpells | src/mmu_probe.rs:207-209 | reading yields v exactly when the eight bytes are v's base-256 digits, lowest first |
| Bytes.WriteSpells | src/mmu_probe.rs:210-212 | after writing v byte k holds v / 256^k % 256, and no byte outside the eight changes |
| Granules.IndexIsRemainder | src/mmu_probe.rs:214-221 | the masked shift of an address is an entry number of one table page |
| Granules.IndexFields4K | src/mmu_probe.rs:214-221 | with 4 KiB pages the index of level 3 is the low nine bits of the page number, and each level above takes the next nine |
| Granules.IndexFields16K | src/mmu_probe.rs:214-221 | with 16 KiB pages the same with eleven bits each, down from level 1 |
| Granules.SameKey | src/mmu_probe.rs:213-221 | two addresses pass the same entries exactly when they agree on bit 63 and on the page number the index bits spell out |
| TableEntries.FreshTableEntry | src/mmu_probe.rs:237 | OR-ing the descriptor type into a page address yields that page's table descriptor, without attributes |
| TableEntries.NextTableAddress | src/mmu_probe.rs:240 | the address mask recovers the page address from any table descriptor, whatever its attribute bits |
| TableEntries.NextTableAddressMasked | src/hierarchy_probe.rs:60-61 | the same for the granule's own mask |
| TableEntries.OrAttributes | src/hierarchy_probe.rs:57-58 | OR-ing attribute bits changes the attribute field of a descriptor and nothing else |
| TableTrees.AddTableStored | src/mmu_probe.rs:230-238 | linking a fresh page in one entry stores the tree with that one table more; every other entry keeps its meaning and the unused pages stay blank |
| TableTrees.SetLeafStored | src/mmu_probe.rs:226-229 | writing a last-level entry stores the tree with exactly that key's descriptor changed |
| TableTrees.SetAttributesStored | src/hierarchy_probe.rs:57-59 | rewriting a table descriptor with more attributes changes one table's attributes and no translation |
| TableWalk.ZeroBufferIsEmpty | src/mmu_probe.rs:201-205 | a zeroed buffer represents the tree of the two roots with nothing mapped |
| TableWalk.WalkIsLookup | src/mmu_probe.rs:213-244 | the architecture's walk over the bytes ends where the tree says, collects the attributes on the tree's path, and finds the descriptor the tree holds for the address's key |
| TableWalk.EntriesSpelled | src/mmu_probe.rs:207-241 | every entry of every table page as bytes, lowest first: 0, or 0x3000_0000 + page * granule + 3 with the attribute bits from bit 59 on, and in a last-level page the descriptor mapped |
| TableWalk.WalkIsSpelled | src/mmu_probe.rs:226-229 | the walk of a mapped address ends at eight bytes that spell its descriptor, lowest first |
| TableWalk.WriteTable | src/mmu_probe.rs:231-238 | the builder's allocating write keeps bytes and tree in step |
| TableWalk.WriteLeaf | src/mmu_probe.rs:226-229 | the builder's leaf write keeps bytes and tree in step |
| MmuTables.Tables.constructor | src/mmu_probe.rs:201-205 | a builder over a zeroed buffer starts with the empty run and next = 2 |
| MmuTables.Tables.Read | src/mmu_probe.rs:207-209 | the number whose digits the eight bytes at the offset are, lowest first |
| MmuTables.Tables.Write | src/mmu_probe.rs:210-212 | byte k of the eight is value / 256^k % 256 afterwards, and no other byte changes |
| MmuTables.Tables.NextTable | src/mmu_probe.rs:230-241 | one level: follows or allocates the next table, or fails exactly when the pool is used up, leaving the tree the specification predicts |
| MmuTables.Tables.Map | src/mmu_probe.rs:213-244 | after any call the buffer represents the tree of all calls so far, the result is the specified one, and after a successful call the address is walked to eight bytes that spell its descriptor, lowest first |
| MmuTables.AllocatedUpToReach | src/mmu_probe.rs:220-242 | the tables existing on an address's path are exactly a prefix of it |
| MmuRuns.RunHoldsLastMapped | src/mmu_probe.rs:213-244 | after any run the tree holds for every key the descriptor of the last successful call with that key, and 0 if there was none; failed calls change no translation |
| MmuRuns.EveryWalkIsLastMapped | src/mmu_probe.rs:207-244 | the same of the bytes: walking any address finds the descriptor last mapped under its key |
| MmuRuns.MappedWalksEndAtLeaf | src/mmu_probe.rs:226-229 | a mapped address is walked to level 3, even if descriptor 0 was mapped |
| MmuRuns.FirstCallBytes | src/mmu_probe.rs:213-244 | the memory after a first successful call in literal bytes: the entry on the path in table n is 0x3000_0003 + (n + 1) * granule, in the last table the descriptor, each lowest byte first, at the place the address's index bits give |
| MmuRuns.PageAccounting | src/mmu_probe.rs:231-238 | while no call has run out of pages, the pages in use are the two roots plus one for each distinct intermediate table some mapped address needs; once one has, the pool is empty for good |
| MmuRuns.MissingIsCount | src/mmu_probe.rs:220-242 | the pages a call allocates are the tables on its path that do not exist |
| MmuRuns.MapFails | src/mmu_probe.rs:223-235 | a call reports OUT_OF_RESOURCES exactly when the tables it lacks outnumber the pages left, BAD_BUFFER_SIZE exactly when its root entry is outside the buffer, and never anything else |
| MmuRuns.RootsFit | src/mmu_probe.rs:223-225 | with two whole granules the root entry is always inside the buffer |
| HierarchyTables.MarkedDescriptor | src/hierarchy_probe.rs:57-58 | the two conditional ORs add exactly the level's mark to the descriptor's attributes and leave its address alone |
| HierarchyTables.Tables.Write | src/hierarchy_probe.rs:59 | byte k of the eight is value / 256^k % 256 afterwards, and no other byte changes |
| HierarchyTables.Tables.NextTable | src/hierarchy_probe.rs:51-61 | one level: marks the existing or fresh table descriptor and goes to its page |
| HierarchyTables.Tables.Map | src/hierarchy_probe.rs:38-64 | after any call the buffer represents the tree of all calls so far, attributes included, the result is the specified one, and after a successful call the address is walked to eight bytes that spell its leaf, lowest first |
| HierarchyRuns.RunsAlike | src/hierarchy_probe.rs:38-64 | over any run, failed calls included, this builder and the plain one have the same tables in the same pages, the same leaves, and the same calls succeed or fail with the same status |
| HierarchyRuns.RunHoldsLastLeaf | src/hierarchy_probe.rs:47-50 | after any run the tree holds for every key the leaf of the last successful call with that key, and 0 if there was none |
| HierarchyRuns.EveryWalkIsLastLeaf | src/hierarchy_probe.rs:38-64 | the same of the bytes: walking any address finds the leaf last mapped under its key |
| HierarchyRuns.CallFails | src/hierarchy_probe.rs:46-56 | a call reports OUT_OF_RESOURCES exactly when the tables it lacks outnumber the pages left, BAD_BUFFER_SIZE exactly when its root entry is outside the buffer, and never anything else |
| HierarchyRuns.PagesInUse | src/hierarchy_probe.rs:52-56 | while no call has run out of pages, the pages in use are the two roots plus one for each distinct table the mapped addresses need |
| HierarchyAttributes.MarksCoverBoth | src/hierarchy_probe.rs:42-43 | for every choice both fields are placed at some level of the path |
| HierarchyAttributes.CallMarksTables | src/hierarchy_probe.rs:42-58 | which table descriptor a successful call adds what to: 4 * (parent % 8) and xn % 32 in bits 63:59 of the first and second (choice % 3 == 0), second and third (1), or third and first (2) at 4 KiB; first and second (even) or second and first (odd) at 16 KiB; nothing to any other |
| HierarchyAttributes.FreshPathTables | src/hierarchy_probe.rs:42-58 | on a path no earlier call went down the tables carry just these attributes |
| HierarchyAttributes.CallCollects | src/hierarchy_probe.rs:38-64 | after a successful call the walk of its address ends at the returned entry with the given leaf, and has collected what it collected before plus the requested bits |
| HierarchyAttributes.FreshPathCollects | src/hierarchy_probe.rs:38-64 | on a path no earlier call went down the walk collects exactly the requested bits |
| HierarchyAttributes.RunGains | src/hierarchy_probe.rs:57-58 | later calls, failed ones included, keep every table's page and only add to its attributes |
| HierarchyAttributes.CollectedGrows | src/hierarchy_probe.rs:57-58 | the attributes collected for a mapped address never lose a bit |
| HierarchyAttributes.CallKeepsTranslations | src/hierarchy_probe.rs:44-62 | a failed call leaves the descriptor of every key unchanged, and any other call that of every key but its own |
| HierarchyAttributes.CallMarks | src/hierarchy_probe.rs:44-62 | after any call, failed or not, a mapped address collects what it collected before and exactly the call's marks on the tables the two share (none if the call stops at its root entry) |
| HierarchyAttributes.CallLeavesWalk | src/hierarchy_probe.rs:44-62 | a call that fails or maps another key leaves the walk of a mapped address as it was if and only if that walk had already collected the call's marks on the shared tables; otherwise only those bits are added |
| HierarchyPermissions.FailedCallMarks | src/hierarchy_probe.rs:52-59 | such marks occur: with the pool used up by a mapping of address 0, a call for 0x40000000 fails and leaves its bits on the shared table; address 0, if its leaf is usable, loses permissions unless AP = 2, and EL1's writes if it had them |
| HierarchyPermissions.MatrixMeaning | src/hierarchy_probe.rs:69-71 | the matrix is: writing needs AP[2] and APTable[1] clear, EL0 needs AP[1] set and APTable[0] clear, EL1 may execute just what EL0 may not write |
| HierarchyPermissions.PermitsRule | src/hierarchy_probe.rs:93-98 | what the probe's tests of matrix bits decide: EL1 always reads and writes where AP[2] and APTable[1] are clear, EL0 reads where AP[1] is set and APTable[0] clear and writes only for AP 1 under clear APTable, and execution needs its execute-never bit clear, for EL1 also that EL0 may not write |
| HierarchyPermissions.PermissionsShrink | src/hierarchy_probe.rs:93-98 | more attribute bits never grant a data access or EL0 execution, and grant EL1 execution only where they take EL0's write away |
| HierarchyAttributes.MappedWalkStays | src/hierarchy_probe.rs:38-64 | along any run a mapped address keeps its leaf entry's place and its walk only gains attribute bits |
| HierarchyPermissions.ProbeLeafFields | src/hierarchy_probe.rs:88-89 | the probe's leaves have the AP field ORed in, are usable and have no execute-never bit |
| HierarchyPermissions.ExecuteNeverFields | src/hierarchy_probe.rs:88-89 | bits 53 and 54 added to such a leaf would bar EL1 and EL0 from executing |
| HierarchyPermissions.MappedPermissionsGained | src/hierarchy_probe.rs:84-98 | between any two points of a run, a mapped address gains a data access exactly when the leaf last mapped under its key is usable and the earlier one was not, or denied by its AP field an access that the new field gives and the collected bits leave open; EL0 execution exactly when it is permitted now and the earlier leaf itself denied it; EL1 execution likewise, or where EL0's write ruled it out before |
| HierarchyPermissions.MappedPermissionsShrink | src/hierarchy_probe.rs:84-98 | while the leaf's permission fields are the same, in particular while no later successful call maps the address's key, data accesses and EL0 execution are only lost, and EL1 execution is gained only where EL0 loses its write |
| HierarchyPermissions.RemapGrants | src/hierarchy_probe.rs:47-50 | the condition is needed: mapping address 0 again with a leaf of AP 1 in place of AP 2 (0x443 for 0x483) succeeds and gives EL1 its writes and EL0 its reads |
| HierarchyPermissions.PermissionsUnchanged | src/hierarchy_probe.rs:93-98 | bits gained leave every permission as it was if and only if none of them matters to the leaf: APTable[1] to a writable one, APTable[0] to one EL0 may access, an execute-never bit to one without its own |
| HierarchyPermissions.CallLeavesPermissions | src/hierarchy_probe.rs:44-62 | a call that fails or maps another key leaves the permissions of a mapped address as they were if and only if none of the marks it adds matters to the leaf; in any case permissions only shrink |
| MemoryMaps.HoldersUnique | src/loaded_kernel_collection.rs:114-117 | an address in descriptor i is held once exactly when no other descriptor holds it |
| MemoryMaps.IntersectsMeans | src/loaded_kernel_collection.rs:104-106 | a descriptor meets the range exactly when it holds one of its addresses |
| MemoryMaps.IntersectingCount | src/loaded_kernel_collection.rs:106-111 | the intersections counted are the number of descriptors that meet the range |
| MemoryMaps.TotalOfCovered | src/loaded_kernel_collection.rs:114-117 | over a gap-free range the intersection lengths add up to the range exactly when no address is held twice |
| MemoryMaps.MoveCovers | src/loaded_kernel_collection.rs:123-134 | a cursor move leaves no gap, and a move that fails stands at an address no descriptor holds |
| MemoryMaps.MoveFinishesOne | src/loaded_kernel_collection.rs:118-134 | on a tiled range each move finishes exactly one descriptor, so as many rounds as descriptors meet the range suffice |
| MapChecks.EntryInBuffer | src/loaded_kernel_collection.rs:73-84 | every descriptor counted lies inside the filled part of the buffer |
| MapChecks.EntriesAreSpelled | src/loaded_kernel_collection.rs:73-84 | the buffer holds a list exactly when, every stride bytes, bytes 0 to 3 spell the type, 8 to 15 the start and 24 to 31 the page count, lowest first, whatever is in between |
| MapChecks.MapBuffer.Refresh | src/loaded_kernel_collection.rs:37-72 | a map is kept exactly when the firmware succeeded and its version, stride and size are acceptable; a failure keeps the old extent |
| MapChecks.SumOverlaps | src/loaded_kernel_collection.rs:89-113 | the sum and number of intersections, unless some descriptor overflows, is misaligned or has the wrong type where it meets the range |
| MapChecks.Advance | src/loaded_kernel_collection.rs:123-130 | the furthest end among the descriptors that hold the cursor |
| MapChecks.Walk | src/loaded_kernel_collection.rs:118-140 | reaching the end means the range is gap-free, and a tiling is walked to the end exactly when the rounds allow |
| MapChecks.CheckCoverage | src/loaded_kernel_collection.rs:85-141 | Ok(n) exactly when no descriptor overflows, all are aligned, every address of the range is in exactly one descriptor, those that meet it have the expected type, and n of them do |
| MapChecks.MapBuffer.Coverage | src/loaded_kernel_collection.rs:85-141 | the same of the one list that the buffer's bytes spell |
| MapChecks.ValidateMap | src/arm_pages.rs:84-138 | Ok exactly for acceptable metadata and a tiling by the owner's type in which fewer than 4096 descriptors meet the range |
| MapChecks.FullMapIsRejected | src/arm_pages.rs:121-137 | a flawless tiling in 4096 descriptors, within the accepted map size, is rejected |
| MapChecks.AllocateKind | src/arm_pages.rs:23-73 | succeeds exactly with an allocation in order: the pages asked for, the range used starting at the first multiple of 16 KiB and ending inside them, at the fixed address if there is one, and tiled by the firmware's map; otherwise the specified error |
| MapChecks.PlacedIsAllocated | src/arm_pages.rs:35-73 | the specification's success means just that, for every start from which rounding up does not overflow |
| MapChecks.ExtraPagesSuffice | src/arm_pages.rs:35-65 | the three extra pages make the rounded range fit exactly when the start is granule-aligned or at least a page beyond a boundary, so for every page-aligned start |
| MapChecks.FixedPlaceSuffices | src/arm_pages.rs:35-65 | at a valid fixed address no extra pages are needed |
| DevicePaths.ParseUnique | src/apfs_observation.rs:28-48 | node lists are self-delimiting: a byte string splits into nodes and what follows them in at most one way |
| DevicePaths.BytePrefixIsNodePrefix | src/apfs_observation.rs:55 | a node list is a byte prefix of another exactly when it is a node prefix |
| DevicePaths.PathBody | src/apfs_observation.rs:24-50 | accepts exactly the encodings of 1 to 63 nodes in at most 2048 bytes, and returns the bytes of the nodes |
| DevicePaths.PathsArePrefixFree | src/apfs_observation.rs:36-44 | no accepted path is a proper prefix of another |
| DevicePaths.Descendant | src/apfs_observation.rs:52-56 | on accepted paths, true exactly when the parent's node list is a strict prefix of the child's |
| DevicePaths.BelowIsStrictOrder | src/apfs_observation.rs:52-56 | the descendant relation is irreflexive, asymmetric and transitive |
| DevicePaths.DevicePath | src/apfs_filesystems.rs:97-130 | returns the one accepted path the readable memory starts with, if there is one, and looks only at bytes that must be readable: after any nodes one more header, and the node it announces when its length is acceptable; VOLUME_CORRUPTED exactly when an end node of acceptable length is reached, otherwise BAD_BUFFER_SIZE |
| DevicePaths.PathIsReadable | src/apfs_filesystems.rs:105-123 | for an accepted path its own bytes are enough: nothing after its end node is looked at |
| DevicePaths.EnoughIsReadable | src/apfs_filesystems.rs:105-123 | no more is asked to be readable than 2048 bytes, and nothing after 64 nodes |
| ImagePaths.ImagePath | src/apfs_observation.rs:60-98 | succeeds exactly for an accepted volume path and a proper absolute file path, and appends one file node to the volume's nodes; the size errors never occur |
| ImagePaths.FilePathOk | src/apfs_observation.rs:63-77 | the checks decide exactly: absolute, at most 1024 units, no control character, slash or character beyond 0xffff, and no stretch between two backslashes, or after the last, that is empty, "." or ".." |
| ImagePaths.FileNodeBytes | src/apfs_observation.rs:90-96 | the node byte by byte: 4, 4, its length, the units low byte first, two zeros |
| ImagePaths.SurrogatePair | src/apfs_observation.rs:64-78 | a character beyond 0xffff counts as the two surrogates that hold it |
| ImagePaths.FilePathRoundTrip | src/apfs_observation.rs:74-95 | the appended node is a valid node that spells exactly the file's path |
| ImagePaths.ImagePathIsBelow | src/apfs_observation.rs:60-98 | the result is an accepted path, strictly below the volume, exactly when it has at most 2048 bytes and 63 nodes |
| ImagePaths.ImagePathInjective | src/apfs_observation.rs:60-98 | different volumes or file paths never give the same result |
| Units.DecodeUtf16 | src/apfs_observation.rs:133-134 | pairwise decoding succeeds exactly when every high surrogate is followed by a low one and every low one preceded by a high one |
| Names.NameUnits | src/apfs_observation.rs:116-139 | Ok exactly for terminated well-formed UTF-16 of at most 255 units, in a component non-empty and free of control units and separators |
| Names.Name | src/apfs_observation.rs:141-153 | the escape of exactly such a name |
| Names.EscapeForms | src/apfs_observation.rs:144-150 | quotation mark and backslash get a backslash, every other printable ASCII unit stands for itself, every other unit is spelled \u and its four lower-case hexadecimal digits |
| Names.WriteEscaped | src/apfs_observation.rs:144-150 | what is written for a unit is that form |
| Names.QuotedRoundTrip | src/apfs_observation.rs:141-153 | an independent reader of quoted text recovers the units of an escaped name and stops at its closing quote |
| Names.EscapeInjective | src/apfs_observation.rs:141-153 | escaped names are equal exactly when the units are |
| Names.EscapeIsPrintable | src/apfs_observation.rs:144-150 | only printable ASCII is emitted |
| Names.DotsSurviveEscaping | src/apfs_observation.rs:175 | an escaped name is "." or ".." exactly when the units are |
| Names.EscapedDescription | src/exit_data.rs:65-84 | the escaped text before the first zero unit, its length, and whether there is one |
| Names.ExitDataReport | src/exit_data.rs:31-57 | for exit data of any size, when the text ends within the prefix read, text, terminator and trailing bytes add up to the declared size |
| Volumes.AttributeBits | src/apfs_observation.rs:167-168 | the attributes accepted are those with no bit set but 0, 1, 2, 4 and 5, and bit 4 marks a directory |
| Volumes.ParseEntry | src/apfs_observation.rs:165-184 | Ok exactly for records with a proper size field, name and attributes, with the fields they hold; the error says which is improper |
| Volumes.ParseVolumeInfo | src/apfs_observation.rs:196-212 | Ok exactly for records with a proper size field, label and geometry, with the fields they hold; the error says which is improper |
| Volumes.Budget.Capacity | src/apfs_observation.rs:221-227 | what is granted holds the smallest record, is at most the largest, and is covered by the budget; it is refused only when the smallest record no longer fits |
| Volumes.Budget.Response | src/apfs_observation.rs:228-238 | bytes stay the sum of the accepted responses and within 1 MiB; with a granted capacity the limit is never what fails |
| Volumes.Budget.Record | src/apfs_observation.rs:239-245 | entries stay within 512, and a volume within 128 |
| Directories.Charge | src/apfs_filesystems.rs:148-172 | an answer is handed out, and its size charged, exactly when a smallest record would have fitted, the firmware succeeded and the data keep to the record size and the budget; the error says which |
| Directories.Volume.Keep | src/apfs_filesystems.rs:254-263 | kept names stay pairwise distinct, dot entries are left out, and exactly a repeated name fails |
| Directories.NamedIsClash | src/apfs_filesystems.rs:254-257 | the check on escaped names fails exactly when an earlier record carries the same name in the firmware's units and it is no dot name |
| Directories.Volume.TakeRecord | src/apfs_filesystems.rs:251-263 | a non-empty answer is taken as a record exactly within the limits, when it decodes and its name is new |
| Directories.Volume.Enumerate | src/apfs_filesystems.rs:244-264 | the loop ends, and succeeds exactly when some number of answers can be taken as records and the next is the end; then reads = records + 1, records = kept + dot entries, and exactly the answers' sizes were charged |
| Directories.Volume.Observe | src/apfs_filesystems.rs:213-279 | succeeds exactly when information, and if asked for root entry and directory, can be read on what is left of the budget; the limits hold whatever the firmware answers |
| Directories.EndIsUnique | src/apfs_filesystems.rs:244-264 | a directory can be read to at most one end |
| Directories.KeptAndDots | src/apfs_filesystems.rs:253-263 | every decoded record is either kept or a dot entry |
| Directories.KeptInOrder | src/apfs_filesystems.rs:254-263 | records are kept in the order they were read |
| Directories.KeptNamesDiffer | src/apfs_filesystems.rs:255 | comparing escaped names is comparing the firmware's names |
| Directories.Collect | src/apfs_filesystems.rs:281-299 | succeeds exactly when all volumes can be read one after the other on the shared budget, which then equals the sum of all their responses and of all their records |
| VolumeSelection.PathsBelowMembers | src/apfs_filesystems.rs:315-317 | the candidate paths are exactly the handles' paths strictly below the controller |
| VolumeSelection.PathsBelowInOrder | src/apfs_filesystems.rs:307-328 | they come in the order of the handles |
| VolumeSelection.Candidates | src/apfs_filesystems.rs:301-333 | succeeds exactly within the handle and volume limits, with no unexpected firmware error, no repeated path and at least one candidate, and returns all of them in order; which error is reported when just one of these fails |
| VolumeSelection.MatchesAre | src/apfs_filesystems.rs:350-368 | the matches are exactly the candidates with the wanted label |
| VolumeSelection.MatchesCount | src/apfs_filesystems.rs:369-373 | the number of matches tells these three cases apart |
| VolumeSelection.Select | src/apfs_filesystems.rs:337-374 | for an acceptable label, when every candidate can be observed: path p exactly when one candidate has the label and p is its path, NOT_FOUND exactly when none has it, NO_MAPPING exactly when two have it; otherwise the selection fails |
| VolumeSelection.FreshBudgetSuffices | src/apfs_filesystems.rs:344-367 | on a fresh budget every candidate can be observed exactly when the firmware answered each time with proper volume information |
| FetchTrace.EdgesAreTransitions | src/mapped_trace.rs:241-252 | the edges are exactly the non-sequential transitions of the history, in order |
| FetchTrace.DeparturesAre | src/mapped_trace.rs:190-194 | visits and fallthroughs are the numbers of places in the history reached from the address, and of those four bytes on |
| FetchTrace.FollowingIsSuffix | src/mapped_trace.rs:195-213 | the followed edges are the contiguous stretch that starts at the first edge leaving the watched address |
| FetchTrace.DeparturesSplit | src/mapped_trace.rs:190-202 | visits minus fallthroughs is the number of edges that leave the watched address |
| FetchTrace.FetchWatch.Record | src/mapped_trace.rs:190-214 | visits, fallthroughs, first taken edge and the first 16 followed edges stay those of the history |
| FetchTrace.FetchFlow.Push | src/mapped_trace.rs:247-251 | the two arrays keep the first 32 and the last 16 edges |
| FetchTrace.FetchFlow.Record | src/mapped_trace.rs:235-255 | counters, previous address, arrays and watch stay functions of the whole fetch history |
| FetchTrace.FetchFlow.Report | src/mapped_trace.rs:547-570 | prints the first min(32, n) edges, and when there are more than 32 precisely the last 16 in order |
| MemoryWatches.FirstCrossingIsFirst | src/mapped_trace.rs:146-155 | the recorded crossing is the first upward crossing of the threshold between successive successful loads |
| MemoryWatches.ReachingMeansCrossing | src/mapped_trace.rs:143-155 | starting below the threshold, once a later successful address reaches it a crossing has been recorded |
| MemoryWatches.DirectionsAddUp | src/mapped_trace.rs:156-169 | successful is 0 or 1 + forward + backward + repeated |
| MemoryWatches.RequestsCount | src/mapped_trace.rs:136-139 | requests is the number of places in the history with that operation and program counter |
| MemoryWatches.SuccessesCount | src/mapped_trace.rs:140-142 | the successes are as many as such places answered with OK |
| MemoryWatches.SuccessesInOrder | src/mapped_trace.rs:140-142 | each of those is a success, after the successes of the history before it |
| MemoryWatches.ForwardCounts | src/mapped_trace.rs:156-157 | forward is the number of successes whose address is above the one before |
| MemoryWatches.BackwardCounts | src/mapped_trace.rs:158-159 | backward, of those below |
| MemoryWatches.RepeatedCounts | src/mapped_trace.rs:160-162 | repeated, of those at the same address |
| MemoryWatches.ValueChangesCounts | src/mapped_trace.rs:163-167 | valueChanges is the number of successes whose first value differs from the one before, or whose second does when two were asked for |
| MemoryWatches.LoadWatch.NoteCrossing | src/mapped_trace.rs:146-155 | the threshold fields stay the record of the first crossing |
| MemoryWatches.LoadWatch.RecordSuccess | src/mapped_trace.rs:143-172 | all counters and last values stay those of the successful loads |
| MemoryWatches.LoadWatch.Record | src/mapped_trace.rs:135-173 | every field stays a function of the whole request history |
| MemoryWatches.StoreWatch.Record | src/mapped_trace.rs:82-105 | every field stays a function of the whole request history |
| ObservedMemory.EntriesInOrder | src/memory_observation.rs:42-57 | entry i describes request i and carries the saturated number i + 1 |
| ObservedMemory.LastIsSuffix | src/memory_observation.rs:59-62 | what is kept is the end of the list, 64 entries long or all of it |
| ObservedMemory.Observer.Execute | src/memory_observation.rs:42-57 | replies are those the bare service gives to the same requests, and the ring keeps the latest, past saturation of the total too |
| ObservedMemory.Observer.LastEntries | src/memory_observation.rs:59-62 | exactly the last min(64, n) requests, oldest first |
| ObservedMemory.TraceRing.Record | src/mapped_trace.rs:345-358 | the ring indexed by the running total keeps the latest 64 entries |
| ObservedMemory.TraceRing.Report | src/mapped_trace.rs:573-590 | prints the same list as the observer's ring for the same history |
| LoadedKernel.ImageMeaning | src/loaded_kernel.rs:123-134 | for sorted disjoint segments the image is the file inside every file range and zero outside all of them |
| LoadedKernel.VerifyMemory | src/loaded_kernel.rs:211-243 | for every alignment split the prefix, word and suffix comparison is byte-wise comparison |
| LoadedKernel.SegmentDecides | src/loaded_kernel.rs:138-154 | gap, payload and tail of a segment decide whether memory is right up to the segment's end |
| LoadedKernel.Readback | src/loaded_kernel.rs:136-157 | for any memory contents the readback passes exactly when every byte, arena included, is the image's |
| LoadedKernel.Fill | src/loaded_kernel.rs:125-134 | zeroing and copying leave exactly the image in memory |
| LoadedKernel.LoadAt | src/loaded_kernel.rs:52-159 | the exact result for every plan, address and firmware answer; on success memory is the image, on failure it is untouched |
| DeviceTree.SizeWordFields | src/dt_probe.rs:142 | size and flag are recovered from the word by the decoder's mask and shift |
| DeviceTree.PropertyLaidOut | src/dt_probe.rs:138-145 | an encoded property byte by byte: the name in 32 bytes, the size in four, lowest first, with the flag in the top bit, the value, and zeros up to the next multiple of four and no further |
| DeviceTree.LayoutIsUnique | src/dt_probe.rs:138-145 | that layout leaves no choice |
| DeviceTree.AppendProperty | src/dt_probe.rs:138-145 | appends exactly the property so laid out, wherever the previous one ended |
| DeviceTree.Encode | src/dt_probe.rs:146-154 | the tree of any list of properties with distinct names: count, no children, and each property laid out after the other |
| DeviceTree.LayoutIsTree | src/dt_probe.rs:146-154 | the encoding of a list is the one byte string with that layout, and its properties start where the encoding puts them |
| DeviceTree.ValueInTree | src/dt_probe.rs:137-155 | every value starts at a multiple of four and is found there |
| DeviceTree.PropertyAtSound | tools/verify_dt_ledger_ovmf.py:34-44 | a property that is accepted is the encoder's bytes for it, to the last padding byte, and the cursor moves less than four bytes past the value |
| DeviceTree.PropertyAtComplete | tools/verify_dt_ledger_ovmf.py:34-44 | whatever follows it, a property the encoder wrote is read back |
| DeviceTree.Decode | tools/verify_dt_ledger_ovmf.py:28-47 | accepts exactly the byte strings laid out as a tree of distinct names, and recovers every name, value, flag and value offset |
| DeviceTree.TreeInjective | src/dt_probe.rs:137-155 | different property lists have different trees |
| DeviceTree.AuthoredSource | src/dt_probe.rs:137-155 | the authored source is the tree of its two properties |
| DeviceTree.AuthoredSize | src/dt_probe.rs:137-155 | the authored tree ends less than four bytes after its value, so at 100 bytes for the 16-byte aperture |
| DeviceTree.AuthoredBytes | src/dt_probe.rs:137-155 | its bytes: the two names, the sizes with the flag, one zero byte, and the value from 84 on |
| DeviceTree.DecodeAuthored | tools/verify_dt_ledger_ovmf.py:28-51 | the checker accepts exactly the authored tree around some value, and finds that value at offset 84 |
| A64.DecodeEncoding | src/dt_probe.rs:178-201 | each instruction form is recovered from its 32-bit encoding |
| A64.RangeMeans | src/dt_probe.rs:305-306 | addresses are translated whose bits above the programmed size, 48 or 47 bits, are all the same |
| DtProgram.GeneratedWords | src/dt_probe.rs:192-199 | OR-ing the immediates into the fixed words gives the intended instructions |
| DtProgram.Instructions | src/dt_probe.rs:178-201 | for every accepted offset the sixteen words of the program, otherwise COMPROMISED_DATA |
| DtProgram.CheckerProgram | tools/verify_dt_ledger_ovmf.py:53-58 | the checker's own generator yields the same bytes for every offset the probe accepts |
| DtRuns.CodeStays | src/dt_probe.rs:178-201 | writing the output never changes the program |
| DtRuns.CopyRun | src/dt_probe.rs:181-194 | after n loads that translate the machine has copied n words in 1 + 2n instructions |
| DtRuns.Runs | src/dt_probe.rs:178-201 | wherever code, tree and output lie, the program copies word after word until a load fails to translate, and otherwise halts after sixteen |
| DtRuns.OutputIs | src/dt_probe.rs:278-285 | copied word by word or at once, the output is header, 16 value bytes and marker, and nothing else changes |
| DtCases.FewCallsSucceed | src/dt_probe.rs:286-303 | in sixteen granules of tables no four mappings run out of pages |
| DtCases.BuildTables | src/dt_probe.rs:286-303 | the case's four mappings all return Ok on the zeroed table buffer, which then represents them |
| DtCases.PreparedStarts | src/dt_probe.rs:257-259 | any RAM with the program copied into its page, and any other registers, are a start of the case |
| DtCases.KeysArePages | src/dt_probe.rs:238-244 | addresses of a case share a translation exactly when they lie in the same page |
| DtCases.WordInPage | src/dt_probe.rs:286-303 | every word of a mapped page is translated to where it lies in RAM |
| DtCases.NoWordInPage | src/dt_probe.rs:286-303 | no access to any other page, nor to the tree's page mapped to 0, succeeds |
| DtCases.CaseRuns | src/dt_probe.rs:278-429 | for every case, RAM contents and accepted value offset, the final machine: as many words copied as lie in mapped pages, then halt or fault |
| DtCases.ValidCase | src/dt_probe.rs:278-285 | with the value inside the tree's page, exactly header, value and marker are written, X3 is kept and sixteen instructions retire |
| DtCases.InvalidCase | src/dt_probe.rs:386-429 | with the tree's leaf 0, one instruction retires and the load at the tree's address faults with nothing changed |
| DtCases.SourcesInTree | src/dt_probe.rs:179 | the words copied all come from the tree's page exactly when the value ends inside it |
| DtCases.GuardAllowsNextPage | src/dt_probe.rs:179 | with 4 KiB pages the accepted offset 4096 copies the first bytes of the stack page as the value |
| DtCases.TreeCase | src/dt_probe.rs:278-285 | with the authored tree in place the output is its header, the value the decoder finds at offset 84, and the marker |

## Left out
- LoadedKernel.LoadAt: the pages returned to the firmware on a failed load or on drop; the parser, whose guarantees (segments sorted by memory offset, disjoint, in bounds, no larger in the file than in memory) are a precondition, and its size limit, which is a parameter.
- LoadedKernel.Readback: memory is read as it was written; volatile access to faulty RAM is any other contents, for which the contract also speaks.
- MapChecks.AllocateKind: zeroing of the accepted range, and release of the pages when a check fails.
- MapChecks.MapBuffer.Refresh: the map key; the descriptor layout is that of section 7.2.3 of UEFI 2.10.
- FetchTrace.FetchFlow.Record: fewer than 2^64-1 fetches, since the counters saturate there; likewise for the load and store watches and for the trace's ring.
- Directories.Volume.Observe: opening and closing of protocol and root directory and their status codes; of a failure it is stated when it happens, not which of the reasons is reported.
- VolumeSelection.Select: the report lines, and failures of closing a volume, which end the selection like any other observation error.
- ImagePaths.ImagePath: failure to allocate the result; allocation failures are left out everywhere.
- DtProgram.Instructions: wrap-around of the value offset near 2^64.
- DtCases.CaseRuns: the JIT, the memory service's caches and epochs, the ledger's reservation and commit protocol and the exception registers; exceptions end the model's run.
- A64: only the five instruction forms of the program, aligned word accesses and the stage 1 controls the probe sets.
- Materialising the template tree (runtime_dt) lives in another crate; the tree in memory is taken as given.
- Pages::new and Pages::release_inner of the staging collection: thin wrappers around firmware calls.
- The other copies of the table builder in dt_probe.rs, dynamic_probe.rs and asid_probe.rs are the same code and modelled once.
- The remaining probes, picker, console, recovery, watchdog, framebuffer and HAL code, and the process side of the tools: firmware calls or presentation around what is modelled here.
- Assembly, CPU mode switches and pointer validity claims of unsafe blocks.
