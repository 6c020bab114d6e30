# Proofs about the UIOX boot chain

UIOX starts through a freestanding boot loader, a firmware layer and a first
user process. Most of that code drives hardware, but the parts that decide
what gets booted are algorithms over memory. This project models those parts
in Dafny and proves what they are for:

- the read-only UNFS client: mounting, path resolution, directory search,
  inode location, the two-level extent map, file read-out, and CRC-32C;
- the flattened-device-tree walker and the three readers built on it (boot
  arguments, SoC peripherals, memory regions);
- streaming SHA-256 and the image check that uses it;
- the service supervisor of process 1;
- the two ELF64 loaders, compared with each other;
- PCIe BAR assignment over all devices, the bump allocator, and division and
  decimal printing without a divide instruction.

Code that works by updating state is modelled by classes and methods over
arrays (the scratch block buffer, the hash context, the app table, the BAR
cursor, physical memory). Each such method is specified by a function of its
inputs or of the old state, and the lemmas then prove what the source promises
about that function. No lemma relies on automatic induction: those it would
apply to carry `{:induction false}`. `dafny verify dfyconfig.toml` checks the
whole project.

## Files

| file | content |
|---|---|
| `Bits.dfy`, `Bytes.dfy`, `Packed.dfy`, `Memory.dfy`, `MemoryMap.dfy`, `Options.dfy` | bit masks as arithmetic, byte order, packed structures, block copies, memory regions, optional values |
| `Division.dfy`, `Decimal.dfy` | shift-and-subtract division, decimal printing |
| `Crc32c.dfy`, `Sha256.dfy`, `Sha256Known.dfy` | checksums and digests, and the digest of a known message |
| `UnfsFormat.dfy`, `UnfsExtents.dfy`, `UnfsDir.dfy`, `UnfsPath.dfy` | on-disk layout, extent map, directory block, path splitting |
| `UnfsClient.dfy`, `UnfsTheorems.dfy`, `UnfsVolumes.dfy` | the client with its scratch buffer, what its results mean, whole directories and partly readable volumes |
| `UnfsLayout.dfy` | volumes written field by field and read back |
| `FdtFormat.dfy`, `FdtWalk.dfy` | structure-block tokens, the walker against trees |
| `FdtChosen.dfy`, `FdtSoc.dfy`, `FdtSocRules.dfy`, `FdtSocWinners.dfy`, `FdtMemory.dfy` | the three readers, and which device gives each address |
| `UiosModel.dfy`, `UiosSafety.dfy` | the supervisor as a transition system, safety over all runs |
| `UiosRounds.dfy`, `UiosSteps.dfy`, `UiosSupervisor.dfy` | its passes, what a pass does to every app, and the imperative code |
| `UiosLaunch.dfy`, `UiosReturn.dfy` | which apps can start at all, and when it returns |
| `ElfLoad.dfy`, `ElfLayout.dfy`, `PcieBars.dfy`, `BumpAlloc.dfy` | loaders with the headers they read, and allocators |

## What the code does and its comments do not say

The model follows the code; an item that names a member is proved there.

- Division of a 64-bit number by a 32-bit one drops remainder bits. It is
  exact if and only if two remainders fit 16 bits, which every divisor up to
  65536 and every dividend below 2^32 satisfies. The decimal printer divides
  by 10^9, so it prints 2^32 as `0` (`Decimal.FirstWrongValue`).
- A path component longer than 255 bytes is not refused: it is split and the
  pieces are looked up one after the other (`UnfsPath.PiecesAreComponents`,
  `UnfsPath.LongNameIsSplit`).
- A directory record whose inode number is 2^31 or more hides later records of
  its name in the block but is never found, because its number comes back
  negative
  (`UnfsVolumes.DirFindInRecords`, `UnfsVolumes.LargeNumberNeverFound`).
- An overflow extent block that cannot be read counts as having no extents. A
  successful read then delivers the volume's bytes, whatever that block holds,
  if and only if the inline extents decide every block read
  (`UnfsVolumes.DeliversVolumeIff`, `UnfsVolumes.UnreadableOverflowReadsZeros`).
- The range each on-disk CRC covers includes the stored checksum field, so
  "accepted" means exactly the comparison the code makes.
- `01_uBoot/include/uiox_boot_unfs.h:274` says that a lookup returns an inode number; the
  code returns a status and copies the inode.
- The comment on `uios_run` says it never returns. Every unfinished execution
  can still return within two iterations (`UiosReturn.ReturnStaysPossible`), and
  a service can be left down by that although its policy would revive it if and
  only if it can be launched and its policy is not run-once
  (`UiosReturn.LeftDownIff`, with the shortest case in
  `UiosReturn.LastExitIsNotRevived`).
- The "no dependency" constant is -1 and the field is eight bits, so the
  comparison is never true; 255 passes as an index outside the table instead.
- The boot loader's ELF loader skips a segment that has no file bytes, so its
  BSS is not zeroed; the other loader zeroes it (`ElfLoad.LoadersAgreeIff`,
  `ElfLoad.LoadersDiffer`).
- A reserved range that starts below the chosen memory region and reaches into
  it is not skipped (`BumpAlloc.ReservedAvoidedIff`, `BumpAlloc.ReservedMissed`).
- The bump allocator's limit test compares a sum modulo 2^64. It passes a block
  that does not fit if and only if the block's end wraps to at most the limit
  (`BumpAlloc.TestPassesIff`, `BumpAlloc.WrappedEndPasses`).

## Model

| member | source | states |
|---|---|---|
| Crc32c.UnfsCrc32c | 01_uBoot/src/uiox_boot_unfs.c:69-79 | the in-place loop computes the CRC of that stretch of the buffer |
| Crc32c.BranchFree | 01_uBoot/src/uiox_boot_unfs.c:76 | the mask expression is the conditional polynomial step |
| Crc32c.StepsLinear | 01_uBoot/src/uiox_boot_unfs.c:75-76 | any number of bit steps is linear over exclusive or |
| Crc32c.StepsInjective | 01_uBoot/src/uiox_boot_unfs.c:75-76 | no number of bit steps takes a nonzero register to zero |
| Crc32c.TableStep | 01_uBoot/src/uiox_boot_unfs.c:48-67 | the table-driven byte step equals the bit loop, for every register and byte |
| Crc32c.RunConcat | 01_uBoot/src/uiox_boot_unfs.c:69-79 | the register after a concatenation is the second part run from the first part's register |
| Crc32c.PackedRun | 01_uBoot/src/uiox_boot_unfs.c:74-76 | up to 32 message bits fed one at a time equal adding them as one word and shifting as often |
| Crc32c.RunIsBitSerial | 01_uBoot/src/uiox_boot_unfs.c:69-79 | the byte loop is the bit-serial shift register fed with the message's bits, lowest first |
| Crc32c.BurstDetected | 01_uBoot/src/uiox_boot_unfs.c:69-79 | two different messages of equal length that differ only inside some 32 consecutive bits, at any bit position, have different checksums |
| Crc32c.OddErrorsDetected | 01_uBoot/src/uiox_boot_unfs.c:69-79 | any odd number of flipped bits, wherever they are, changes the checksum |
| Crc32c.CheckValue | 01_uBoot/src/uiox_boot_unfs.c:69-79 | the checksum of the digits 1 to 9 is the standard's check value E3069283 |
| UnfsDir.DirScanBlock | 01_uBoot/src/uiox_boot_unfs.c:195-216 | the loop ends for every block content and returns the signed inode number of the scan |
| UnfsDir.ScanLayout | 01_uBoot/src/uiox_boot_unfs.c:195-216 | on records laid out back to back, the scan finds the first live one of that name at a scannable offset, and nothing otherwise |
| UnfsDir.EncodedFields | 01_uBoot/include/uiox_boot_unfs.h:232-238 | an encoded record is read back: its length, its inode number, and a match exactly when it is live and has that name |
| UnfsExtents.UniqueCover | 01_uBoot/src/uiox_boot_unfs.c:221-255 | with disjoint extents the answer is that of the one extent covering the block |
| UnfsExtents.SomeCover | 01_uBoot/src/uiox_boot_unfs.c:221-255 | even with overlapping extents, a covered block gets the answer of some extent that covers it |
| UnfsExtents.OrderIndependent | 01_uBoot/src/uiox_boot_unfs.c:221-255 | any permutation of disjoint extents maps every block alike |
| UnfsExtents.InlineOrderIndependent | 01_uBoot/src/uiox_boot_unfs.c:225-234 | permuting the four inline slots of an inode moves no file block |
| UnfsExtents.MapInjective | 01_uBoot/src/uiox_boot_unfs.c:221-255 | with disjoint physical ranges, two blocks holding data never share a device block |
| UnfsPath.PiecesAreComponents | 01_uBoot/src/uiox_boot_unfs.c:305-314 | the names looked up are the path's components if and only if no component exceeds 255 bytes |
| UnfsPath.LongNameIsSplit | 01_uBoot/src/uiox_boot_unfs.c:307-314 | every name of 256 bytes is one component and is looked up as two names, of 255 bytes and of one |
| UnfsPath.ComponentsJoin | 01_uBoot/src/uiox_boot_unfs.c:305-314 | the components of two paths joined by a slash are those of the first, then those of the second |
| UnfsPath.ExtraSlashes | 01_uBoot/src/uiox_boot_unfs.c:301-314 | leading, doubled and trailing slashes change no component |
| UnfsPath.OneComponent | 01_uBoot/src/uiox_boot_unfs.c:305-314 | bytes without a slash are one component, or none if there are none |
| UnfsClient.Client.ReadBlockInto | 01_uBoot/src/uiox_boot_unfs.c:86-90 | a block read succeeds exactly when the device has the block, and then the buffer holds it |
| UnfsClient.Client.Mounting | 01_uBoot/src/uiox_boot_unfs.c:135-180 | mounting succeeds exactly when superblock and kept group descriptors are acceptable, else it reports the first failure and stays unmounted |
| UnfsClient.Client.ReadSuper | 01_uBoot/src/uiox_boot_unfs.c:142-157 | the superblock is taken with its magic, sizes and checksum checked in that order |
| UnfsClient.Client.ReadGroups | 01_uBoot/src/uiox_boot_unfs.c:159-176 | at most 16 descriptors are taken, each only if its checksum is accepted |
| UnfsClient.Client.ReadInode | 01_uBoot/src/uiox_boot_unfs.c:93-130 | through the scratch buffer, the result is the abstract inode table's entry or its error |
| UnfsClient.Client.ExtentLookup | 01_uBoot/src/uiox_boot_unfs.c:221-255 | the two-level search, whatever it leaves in the scratch buffer, returns the abstract map's block |
| UnfsClient.Client.TreeLookup | 01_uBoot/src/uiox_boot_unfs.c:236-254 | the overflow block is searched up to its first empty entry; unreadable counts as empty |
| UnfsClient.Client.DirLookup | 01_uBoot/src/uiox_boot_unfs.c:260-284 | the search over all blocks of a directory equals the abstract directory's answer, errors included |
| UnfsClient.Client.Lookup | 01_uBoot/src/uiox_boot_unfs.c:289-331 | the walk over the path resolves it in the abstract file system, or reports the first error |
| UnfsClient.Client.ReadFile | 01_uBoot/src/uiox_boot_unfs.c:339-388 | on success exactly the first min(size, limit) bytes of the abstract file are in memory; on a failed block exactly the bytes before it; nothing else in memory changes |
| UnfsClient.Client.CopyBlock | 01_uBoot/src/uiox_boot_unfs.c:364-380 | one step delivers that part of the logical block, zeros for a hole, and leaves memory alone if the block is unreadable |
| UnfsClient.BlockDelivered | 01_uBoot/src/uiox_boot_unfs.c:358-384 | the bytes of the next block extend the abstract file's contents |
| UnfsClient.ScanBound | 01_uBoot/src/uiox_boot_unfs.c:195-216 | a scan result is always a C int, so a positive one is an inode number below 2^31 |
| UnfsTheorems.ResolveFoldsComponents | 01_uBoot/src/uiox_boot_unfs.c:289-331 | resolving a path is the left fold of directory lookup over its components from the root inode, when no name exceeds 255 bytes |
| UnfsTheorems.SlashesDoNotMatter | 01_uBoot/src/uiox_boot_unfs.c:301-314 | doubled and trailing slashes resolve to the same inode or the same error |
| UnfsTheorems.WalkCompose | 01_uBoot/src/uiox_boot_unfs.c:305-324 | a longer path is resolved from where the shorter one ended, and its error is kept |
| UnfsTheorems.WalkGenuine | 01_uBoot/src/uiox_boot_unfs.c:118-127 | every directory passed and the inode returned are byte-exact copies of 256-byte device records that passed the checksum comparison |
| UnfsTheorems.WalkSteps | 01_uBoot/src/uiox_boot_unfs.c:305-324 | no name is looked up behind an error; otherwise the inode numbered by the first name's directory entry is where the rest goes on |
| UnfsTheorems.DirFindSearches | 01_uBoot/src/uiox_boot_unfs.c:260-284 | only directories are searched, and exactly over the blocks that hold a byte of them |
| UnfsTheorems.UnreadableExactly | 01_uBoot/src/uiox_boot_unfs.c:271-277 | a search ends in an I/O error if and only if some block cannot be read and every earlier one was a hole or had no positive hit |
| UnfsTheorems.FoundExactly | 01_uBoot/src/uiox_boot_unfs.c:271-282 | a search returns a number if and only if some readable block has a hit for it and every earlier block was a hole or had none |
| UnfsTheorems.AbsentExactly | 01_uBoot/src/uiox_boot_unfs.c:271-283 | "no entry" is reported if and only if every block is a hole or is readable without a positive hit |
| UnfsTheorems.SlotRoundTrip | 01_uBoot/src/uiox_boot_unfs.c:97-110 | an inode number is recovered from its group, block and slot, which stay in range |
| UnfsTheorems.SlotOnto | 01_uBoot/src/uiox_boot_unfs.c:97-110 | every slot below the group size is some number's slot |
| UnfsTheorems.SlotBySubtraction | 01_uBoot/src/uiox_boot_unfs.c:99-103 | the ARM32 shift-and-subtract path finds the slot that native division finds |
| UnfsTheorems.RecordsDisjoint | 01_uBoot/src/uiox_boot_unfs.c:97-119 | with disjoint tables, distinct inode numbers have distinct slots and table blocks |
| UnfsTheorems.InodeAtExactly | 01_uBoot/src/uiox_boot_unfs.c:97-130 | number g * ipg + 16 * b + i + 1 gives bytes 256 * i to 256 * i + 255 of block b of group g's inode table, if and only if that block is readable and the record passes its checksum; otherwise the error says which |
| UnfsTheorems.InodeAtRefused | 01_uBoot/src/uiox_boot_unfs.c:95-108 | a number is refused if and only if it is zero, above the inode count, or of a group that is not kept |
| UnfsTheorems.RecordsIndependent | 01_uBoot/src/uiox_boot_unfs.c:93-130 | with disjoint tables, overwriting one number's record on the device changes what no other number gives |
| UnfsTheorems.RecordReplaced | 01_uBoot/src/uiox_boot_unfs.c:93-130 | overwriting a number's record by an acceptable one makes the number give that one |
| UnfsTheorems.ReadPrefix | 01_uBoot/src/uiox_boot_unfs.c:351-354 | the bytes under a smaller limit are a prefix of those under a larger one, and readable whenever those are |
| UnfsTheorems.ByteOfExtent | 01_uBoot/src/uiox_boot_unfs.c:221-255 | byte o of a block covered by a data extent is byte o of the device block that extent assigns |
| UnfsTheorems.ByteOfHole | 01_uBoot/src/uiox_boot_unfs.c:366-369 | a block covered by no extent or only by holes reads as zeros |
| UnfsTheorems.ByteOfBlock | 01_uBoot/src/uiox_boot_unfs.c:221-255 | if block l lies in the interval of one usable data extent and of no other, byte 4096 * l + o of the file is byte o of device block physical + (l - logical) |
| UnfsTheorems.ZeroBlock | 01_uBoot/src/uiox_boot_unfs.c:364-380 | a block that lies in the interval of no usable extent, or of holes only, reads as zeros |
| UnfsTheorems.ReadableBlocks | 01_uBoot/src/uiox_boot_unfs.c:358-384 | the first n bytes can be read if and only if each of their blocks is a hole or a readable device block |
| UnfsLayout.InodeRoundTrip | 01_uBoot/include/uiox_boot_unfs.h:175-229 | an inode written field by field is read back: type, size, the inline extents in use in order, overflow block, checksum test |
| UnfsLayout.TreeRoundTrip | 01_uBoot/src/uiox_boot_unfs.c:242-253 | a written overflow block gives its entries up to the first of length zero, up to 341 |
| UnfsLayout.SuperRoundTrip | 01_uBoot/include/uiox_boot_unfs.h:130-157 | a superblock written field by field is read back: magic, sizes, counts, checksum test |
| UnfsLayout.GroupRoundTrip | 01_uBoot/include/uiox_boot_unfs.h:163-172 | so is a group descriptor: inode table and checksum test |
| UnfsLayout.MountsWritten | 01_uBoot/src/uiox_boot_unfs.c:135-180 | a written volume mounts if and only if its magic, sizes and all checksums are right, and then with the counts and inode tables written |
| UnfsLayout.MountErrors | 01_uBoot/src/uiox_boot_unfs.c:135-180 | a volume that does not mount reports the first thing that is wrong with it |
| UnfsVolumes.DirFindInRecords | 01_uBoot/src/uiox_boot_unfs.c:195-284 | over blocks that hold record lists, a search returns k if and only if the first block that gives a number gives k: its first live record of that name has number k below 2^31; "no entry" if and only if no block gives one |
| UnfsVolumes.LargeNumberNeverFound | 01_uBoot/src/uiox_boot_unfs.c:204-212 | a directory whose only record is live, readable and of that name, and "no entry" |
| UnfsVolumes.DeliversVolumeIff | 01_uBoot/src/uiox_boot_unfs.c:225-254 | when part of a volume can be read, a successful read equals the whole volume's file for every content of the rest if and only if there is no overflow block, or it can be read, or the inline extents decide every block |
| UnfsVolumes.UnreadableOverflowReadsZeros | 01_uBoot/src/uiox_boot_unfs.c:236-240 | a regular file whose read succeeds with a zero where the volume may hold another byte |
| FdtFormat.TokenOfItem | 01_uBoot/src/uiox_boot_dt.c:43-61 | a token written in the standard's form is read back, with the position after its padding |
| FdtFormat.DecodeItems | 01_uBoot/src/uiox_boot_dt.c:42-62 | decoding what was written gives back exactly the tokens, NOPs included |
| FdtFormat.DecodeBlock | 01_uBoot/src/uiox_boot_dt.c:42-62 | a structure block closed by an end token decodes to its tokens, without a read outside the blob |
| FdtFormat.TokensSpelled | 01_uBoot/src/uiox_boot_dt.c:42-62 | the bytes of a node, of its end, of a NOP and of the end token, as the standard writes them |
| FdtFormat.PropertySpelled | 01_uBoot/src/uiox_boot_dt.c:51-57 | the bytes of a property: length, name offset, value, padding |
| FdtFormat.OthersEnd | 01_uBoot/src/uiox_boot_dt.c:61-63 | any other token ends the block |
| FdtFormat.CutOffIsFault | 01_uBoot/src/uiox_boot_dt.c:42-57 | a token, name or property cut off by the end of the blob is a fault and reports nothing |
| FdtWalk.DtWalk | 01_uBoot/src/uiox_boot_dt.c:34-63 | the loop ends on every blob, and leaves the state that delivering the decoded tokens to the callbacks in order gives |
| FdtWalk.WalkStep | 01_uBoot/src/uiox_boot_dt.c:42-62 | one turn of the loop is one step of the delivery: node, property at one depth more, end, NOP, stop |
| FdtWalk.NopsSilent | 01_uBoot/src/uiox_boot_dt.c:60 | NOPs inserted anywhere change no report |
| FdtWalk.TreeReported | 01_uBoot/src/uiox_boot_dt.c:43-61 | the tokens of a tree report it in pre-order and return to the depth they started at |
| FdtWalk.WalkReportsTree | 01_uBoot/src/uiox_boot_dt.c:34-63 | for every tree, flattened with any NOPs, and for all callbacks, the walk delivers exactly the pre-order reports, up to the first refusal |
| FdtWalk.StopCuts | 01_uBoot/src/uiox_boot_dt.c:48-56 | a nonzero callback cuts the reports to a prefix that ends with the refused one |
| FdtWalk.NameAt | 01_uBoot/src/uiox_boot_dt.c:38-54 | a property's name is the string at its offset in the strings block, up to the NUL |
| FdtSoc.BootDtSoc | 01_uBoot/src/uiox_boot_dt.c:237-252 | the result on any blob: bad magic, or what committing the last pending device after the walk gives |
| FdtSoc.DeviceTree | 01_uBoot/src/uiox_boot_dt.c:199-235 | inside soc, delaying each commit to the next node equals committing every device of the subtree with its own properties |
| FdtSoc.TopTree | 01_uBoot/src/uiox_boot_dt.c:199-235 | a child of the root contributes its devices if it is named soc and nothing otherwise |
| FdtSoc.SocIsFold | 01_uBoot/src/uiox_boot_dt.c:134-252 | for every tree the extraction is the fold of the commit over the devices below soc, in pre-order |
| FdtSocRules.SocCommitsDevices | 01_uBoot/src/uiox_boot_dt.c:134-252 | the extracted map is the list of those devices committed one after the other |
| FdtSocRules.VirtioFirst | 01_uBoot/src/uiox_boot_dt.c:161-172 | the VirtIO base, stride and interrupt are those of the first transport with an address; without one the base is zero |
| FdtSocRules.StorageFirst | 01_uBoot/src/uiox_boot_dt.c:173-196 | the boot storage is the first storage node with an address |
| FdtSocRules.UartLast | 01_uBoot/src/uiox_boot_dt.c:136-154 | the console is the last PL011 node, if there is one |
| FdtSocRules.UartFirst | 01_uBoot/src/uiox_boot_dt.c:136-154 | without a PL011 it is the first NS16550 or SiFive UART, and without any it is absent |
| FdtSocRules.GicDistributor | 01_uBoot/src/uiox_boot_dt.c:145-148 | the distributor is the first GIC node with an address |
| FdtSocRules.GicCpuInterface | 01_uBoot/src/uiox_boot_dt.c:145-148 | the CPU interface is the last GIC node after that one, or none |
| FdtSocWinners.ClassExactly | 01_uBoot/src/uiox_boot_dt.c:134-197 | no two of the ten compatible prefixes go together, so each decides its class alone |
| FdtSocWinners.LastsNamed | 01_uBoot/src/uiox_boot_dt.c:139-160 | VIC, timer with its interrupt, PLIC and CLINT are those of the last device with an address whose string starts with `arm,pl190`, `arm,sp804`, `riscv,plic`, `sifive,clint`; zero without one |
| FdtSocWinners.FirstsNamed | 01_uBoot/src/uiox_boot_dt.c:161-196 | VirtIO transport and boot storage are those of the first device starting with `virtio,mmio` and `uiox,`; base zero without one |
| FdtSocWinners.ConsoleNamed | 01_uBoot/src/uiox_boot_dt.c:136-154 | the console is the last `arm,pl011`, without one the first `ns16550` or `sifive,uart`, and otherwise absent |
| FdtSocWinners.GicNamed | 01_uBoot/src/uiox_boot_dt.c:145-148 | the distributor is the first `arm,gic`, the CPU interface the last one if that is another |
| FdtSocWinners.SourcedExactly | 01_uBoot/src/uiox_boot_dt.c:134-197 | the map counts as found if and only if some device with an address has one of the ten prefixes |
| FdtSocWinners.NothingKnown | 01_uBoot/src/uiox_boot_dt.c:134-197 | without such a device every field stays clear |
| FdtSocWinners.DevicesNamed | 01_uBoot/src/uiox_boot_dt.c:199-213 | the devices are all nodes below children of the root named soc, each before its subnodes, starting from one cell each and from no address, string or interrupt |
| FdtSocWinners.LastDecides | 01_uBoot/src/uiox_boot_dt.c:224-235 | of a device's properties the last `reg`, the last that starts with c and the last that starts with in decide; without one the value stays clear |
| FdtSocWinners.CellsDecide | 01_uBoot/src/uiox_boot_dt.c:218-223 | the last four-byte property of soc that starts with #a, or with #s, sets the cell count; without one it is kept |
| FdtSocWinners.ShortReg | 01_uBoot/src/uiox_boot_dt.c:116-126 | a reg value too short for the cell counts gives zeros |
| FdtSocRules.RegRoundTrip | 01_uBoot/src/uiox_boot_dt.c:116-126 | a reg value written with the cell counts in force is read back, whatever follows its first entry |
| FdtSocRules.SaneTreeIsAnswered | 01_uBoot/src/uiox_boot_dt.c:116-126 | with at least one address cell and no wrap of the length test, also without size cells, every base is read from inside its value and the tree gets an answer |
| FdtChosen.BootDtChosen | 01_uBoot/src/uiox_boot_dt.c:94-103 | the result and the whole output buffer on any blob and any buffer size |
| FdtChosen.ChosenTakesFirst | 01_uBoot/src/uiox_boot_dt.c:66-103 | for every tree, the first bootargs of a chosen child of the root is copied, cut to the buffer and terminated; no other node's is |
| FdtChosen.WrittenExactly | 01_uBoot/src/uiox_boot_dt.c:85-87 | the buffer holds the value cut to one byte less than its size, then a NUL, then what it held before |
| FdtChosen.ChosenNames | 01_uBoot/src/uiox_boot_dt.c:66-92 | only children of the root named exactly chosen, and in them only properties named exactly bootargs |
| FdtMemory.ParseMemory | 01_uBoot/src/uiox_boot_mem.c:93-160 | on any blob, with the structure block at any offset, the token loop ends with the map folded from the decoded tokens, or a bad magic |
| FdtMemory.TakePairs | 01_uBoot/src/uiox_boot_mem.c:137-146 | the pair loop adds the whole pairs of a reg value until the table is full |
| FdtMemory.MemTree | 01_uBoot/src/uiox_boot_mem.c:109-157 | the tokens of a tree add the reg pairs of its memory nodes in pre-order and leave the flag clear |
| FdtMemory.TableIsPrefix | 01_uBoot/src/uiox_boot_mem.c:138-146 | an initially empty table ends as the first 32 regions offered, with their total modulo 2^64 |
| FdtMemory.MemoryIsCollected | 01_uBoot/src/uiox_boot_mem.c:93-160 | for every tree the map holds the first 32 regions of its memory nodes and their total size |
| FdtMemory.MemoryNodes | 01_uBoot/src/uiox_boot_mem.c:112-136 | the regions of a tree are the reg pairs of nodes whose name starts with memory, each before those of its subnodes |
| FdtMemory.MemoryProps | 01_uBoot/src/uiox_boot_mem.c:125-136 | of such a node exactly the properties named reg, in order |
| FdtMemory.PairsRoundTrip | 01_uBoot/src/uiox_boot_mem.c:137-146 | the pairs of a value written as base and size cells are the regions written; a shorter rest is ignored |
| Sha256.MacrosRotate | 01_uBoot/src/uiox_boot_verify.c:37-43 | the shift-and-or macros are the standard's rotations |
| Sha256.PaddingIsLeast | 01_uBoot/src/uiox_boot_verify.c:94-108 | the padding is the shortest that leaves eight bytes of the last block |
| Sha256.Context.constructor | 01_uBoot/src/uiox_boot_verify.c:74-79 | a new context has absorbed the empty message |
| Sha256.Context.Expand | 01_uBoot/src/uiox_boot_verify.c:45-56 | the array holds the standard's 64 schedule words |
| Sha256.Context.Transform | 01_uBoot/src/uiox_boot_verify.c:45-72 | the state is compressed with the buffered block |
| Sha256.Context.RunRounds | 01_uBoot/src/uiox_boot_verify.c:57-66 | the loop takes the working variables through the standard's 64 rounds |
| Sha256.Context.Update | 01_uBoot/src/uiox_boot_verify.c:81-92 | the absorbed message grows by the data; state, tail and bit count stay those of the whole message |
| Sha256.Context.Final | 01_uBoot/src/uiox_boot_verify.c:94-117 | the digest is that of RFC 6234 for everything absorbed, whichever padding branch is taken |
| Sha256.LastBlock | 01_uBoot/src/uiox_boot_verify.c:94-108 | both padding branches complete the standard's padded message |
| Sha256.DigestOfPieces | 01_uBoot/src/uiox_boot_verify.c:74-117 | the digest of a message given in pieces is that of their concatenation, however it is cut |
| Sha256.Context.AppendLength | 01_uBoot/src/uiox_boot_verify.c:103-107 | the last eight bytes become the bit count, most significant first |
| Sha256.OneShot | 01_uBoot/src/uiox_boot_verify.c:119-125 | the one-call form yields the digest of its data |
| Sha256Known.KnownAnswer | 01_uBoot/src/uiox_boot_verify.c:13-125 | the digest of `abc` is the standard's ba7816bf 8f01cfea 414140de 5dae2223 b00361a3 96177a9c b410ff61 f20015ad |
| Sha256.VerifyImage | 01_uBoot/src/uiox_boot_verify.c:131-169 | an image is accepted exactly when every header field and the digest match; which check failed is reported |
| UiosSafety.TicksCountPolls | 50_UIX/20_uios/uix_uios.c:80-162 | in every run a running app's tick counter is its alive polls since its latest fork |
| UiosSafety.DependencyCausality | 50_UIX/20_uios/uix_uios.c:55-65 | in every run, when an app is launched its prerequisite is running and has survived two alive polls since its latest fork |
| UiosSafety.EndlessNeverLaunched | 50_UIX/20_uios/uix_uios.c:55-97 | an app whose chain of prerequisites is cyclic or leads into a cycle stays idle in every run |
| UiosSafety.ChildrenAreTable | 50_UIX/20_uios/uix_uios.c:80-162 | in every run the live children are exactly the table's positive pids, each in one entry |
| UiosSafety.ForksAreRestarts | 50_UIX/20_uios/uix_uios.c:80-133 | in every run fork attempts are the counted restarts, and one more once the app has left idle |
| UiosSafety.RunOnceForkedOnce | 50_UIX/20_uios/uix_uios.c:120-133 | a run-once app is forked at most once |
| UiosSafety.CleanExitIsFinal | 50_UIX/20_uios/uix_uios.c:120-144 | an app restarted on crashes only, once reaped with status 0, is never forked again |
| UiosRounds.RoundsRun | 50_UIX/20_uios/uix_uios.c:103-162 | every execution of the reaper loop is a run of the transition system, so the safety results hold of it |
| UiosRounds.PassRuns | 50_UIX/20_uios/uix_uios.c:111-151 | one pass over the table takes only steps the transition system allows |
| UiosRounds.LaunchRuns | 50_UIX/20_uios/uix_uios.c:80-97 | so does one launch pass |
| UiosRounds.DeadPass | 50_UIX/20_uios/uix_uios.c:111-154 | a pass that counts nothing alive and nothing to start leaves no process, and only blocked apps idle |
| UiosRounds.ReturnsQuiescent | 50_UIX/20_uios/uix_uios.c:153-155 | the loop returns only with no process and nothing left to start |
| UiosSteps.PassSteps | 50_UIX/20_uios/uix_uios.c:111-151 | in every pass an app that is gone is revived exactly once if it is restart-always, or restart-on-crash with a nonzero exit code, and otherwise left; a live app is polled once, an idle one left |
| UiosSteps.RoundsStep | 50_UIX/20_uios/uix_uios.c:103-162 | so in every iteration of every execution, from the state the iterations before it left |
| UiosSteps.LaunchSteps | 50_UIX/20_uios/uix_uios.c:80-97 | a launch pass tries exactly the idle apps whose prerequisite was ready when it began or is not in the table, each once |
| UiosSteps.ExitCodeIsLatest | 50_UIX/20_uios/uix_uios.c:135-150 | in every run an app's exit code is the status of its latest reap |
| UiosReturn.UnrevivedIffTouched | 50_UIX/20_uios/uix_uios.c:111-155 | on return, an app that its policy would revive is down if and only if the last pass took a step for it |
| UiosReturn.ReadyAppStarts | 50_UIX/20_uios/uix_uios.c:55-158 | in every iteration, an idle app whose prerequisite runs, has its two ticks and does not end in the pass leaves idle, and the loop does not return |
| UiosReturn.Collapse | 50_UIX/20_uios/uix_uios.c:103-162 | from any state, two iterations in which every app crashes and every fork fails end in a return, with every running app down |
| UiosReturn.ReturnStaysPossible | 50_UIX/20_uios/uix_uios.c:99-155 | every unfinished execution can be continued to one that returns, and every table has an execution that returns |
| UiosReturn.LeftDownIff | 50_UIX/20_uios/uix_uios.c:120-155 | for every table and app: some execution returns with the app down although its policy would revive it, if and only if its chain of prerequisites ends and its policy is not run-once |
| UiosReturn.RunsOnIff | 50_UIX/20_uios/uix_uios.c:103-162 | some execution passes n iterations without returning, for any n, if and only if some app needs no prerequisite |
| UiosReturn.LastExitIsNotRevived | 50_UIX/20_uios/uix_uios.c:120-155 | the shortest such return: one launch and one exit with status 0 of a restart-always app |
| UiosSupervisor.Supervisor.constructor | 50_UIX/20_uios/uix_uios.c:67-76 | every app starts idle with clear counters |
| UiosSupervisor.Supervisor.StartApp | 50_UIX/20_uios/uix_uios.c:29-46 | a failed fork gives 0, a successful one a pid in no table entry |
| UiosSupervisor.Supervisor.LaunchApps | 50_UIX/20_uios/uix_uios.c:80-97 | the loop performs one launch pass over the table, in table order |
| UiosSupervisor.Supervisor.LaunchSlot | 50_UIX/20_uios/uix_uios.c:90-96 | an eligible app takes one launch step, with the pid the fork gave and its ticks cleared only on success |
| UiosSupervisor.Supervisor.ReviveSlot | 50_UIX/20_uios/uix_uios.c:120-133 | the restart branch takes one revive step and counts it alive exactly when the fork worked |
| UiosSupervisor.Supervisor.PollSlot | 50_UIX/20_uios/uix_uios.c:135-150 | the poll branch takes one step for the answer: reaped, alive or lost |
| UiosSupervisor.Supervisor.ReapPass | 50_UIX/20_uios/uix_uios.c:107-151 | one pass over the table, with counters that are positive exactly when something is alive or eligible |
| UiosSupervisor.Supervisor.Supervise | 50_UIX/20_uios/uix_uios.c:103-162 | whatever the kernel answers, the loop is an execution as specified, and returns only when quiescent |
| UiosSupervisor.Supervisor.Shutdown | 50_UIX/20_uios/uix_uios.c:166-192 | for any answers of wait, every live app ends stopped, and all other apps are kept |
| UiosSupervisor.ShutdownCollects | 50_UIX/20_uios/uix_uios.c:178-190 | a stopped app has pid 0 and the status of the attempt that reaps it, out of a hundred and before any error; without one it keeps its exit code |
| UiosLaunch.EndsWithinTable | 50_UIX/20_uios/uix_uios.c:55-65 | a chain of prerequisites that leaves the table does so within ten links |
| UiosLaunch.Executes | 50_UIX/20_uios/uix_uios.c:103-162 | if some app needs no prerequisite and nothing ever exits, there is an execution of any length |
| UiosLaunch.Reached | 50_UIX/20_uios/uix_uios.c:55-162 | in it an app k links from the end of its chain is running within 3k passes |
| UiosLaunch.LaunchableIffChainEnds | 50_UIX/20_uios/uix_uios.c:55-162 | an app is launched in some execution if and only if its chain of prerequisites leaves the table |
| ElfLoad.BootElf64Load | 01_uBoot/src/uiox_boot_handoff.c:13-70 | the outcome, the entry and the whole memory for every file, from one with a bad magic on: refusals, and the segments up to the first that exceeds the file |
| ElfLoad.LoadKernelElf | 10_BSP/src/uiox_bsp_main.c:231-265 | the same for the loader that checks the magic only and also zeroes segments without file bytes |
| ElfLoad.WriteSegment | 01_uBoot/src/uiox_boot_handoff.c:48-59 | file bytes then zeros, and every other byte kept |
| ElfLoad.OthersUnchanged | 01_uBoot/src/uiox_boot_handoff.c:32-65 | memory outside all written segments keeps its bytes |
| ElfLoad.SegmentInPlace | 01_uBoot/src/uiox_boot_handoff.c:32-65 | with disjoint segments, each is in place at the end: its file bytes, then zeros to its memory size |
| ElfLayout.HeaderRoundTrip | 01_uBoot/include/uiox_boot_handoff.h:34-49 | a file header written field by field is read back: entry, place, size and number of program headers; the file is known by its first six bytes |
| ElfLayout.SegmentRoundTrip | 01_uBoot/include/uiox_boot_handoff.h:51-60 | a program header written field by field is read back: type, offset, physical address, two sizes |
| ElfLayout.ImageInPlace | 01_uBoot/src/uiox_boot_handoff.c:32-65 | byte by byte: with disjoint segments, each holds its file bytes and then zeros, and every other byte of memory is kept |
| ElfLayout.BootDoneIff | 01_uBoot/src/uiox_boot_handoff.c:32-47 | loading succeeds if and only if every segment of type 1 with file bytes ends within the file |
| ElfLoad.LoadersAgreeIff | 10_BSP/src/uiox_bsp_main.c:231-265 | on a common image with 56-byte headers and disjoint segments in range, both loaders succeed, with the header's entry by their contracts, and leave the same memory, whatever it held before, if and only if no segment has memory but no file bytes |
| ElfLoad.LoadersDiffer | 10_BSP/src/uiox_bsp_main.c:248-261 | an image of 120 bytes that both loaders take and that leaves different memory behind |
| PcieBars.Controller.AssignBars | 02_FwHal/src/uiox_fw_pcie.c:113-148 | the device is settled: every visited register that answers is recorded, those wanted hold their addresses, the cursor is behind them, and skipped registers and other devices are kept |
| PcieBars.AssignSettles | 02_FwHal/src/uiox_fw_pcie.c:117-146 | visiting the registers one by one settles the device from any register on |
| PcieBars.Controller.AssignAll | 02_FwHal/src/uiox_fw_main.c:193-196 | each device is settled from where the ones before it left the cursor; with power-of-two sizes and a window of twice their sum, the final records are laid out as below |
| PcieBars.AllLaid | 02_FwHal/src/uiox_fw_main.c:193-196 | in the final records, the ranges of any two registers in use, of any two devices, are disjoint, inside the window, and each a multiple of its size |
| PcieBars.NothingCut | 02_FwHal/src/uiox_fw_pcie.c:141-143 | with a window that ends at or below 4 GiB, the 32-bit write of an address cuts nothing off |
| PcieBars.CursorConcat | 02_FwHal/src/uiox_fw_main.c:193-196 | placing two lists in turn is placing their concatenation |
| PcieBars.Stretch | 02_FwHal/src/uiox_fw_main.c:193-196 | a device's addresses are its stretch of the one list of all addresses |
| PcieBars.Placement | 02_FwHal/src/uiox_fw_pcie.c:136-144 | over all devices: naturally aligned, increasing without overlap, and at most twice the sizes consumed |
| PcieBars.WindowHolds | 02_FwHal/src/uiox_fw_main.c:193-196 | all memory registers lie in the window, disjoint, when it is twice as large as their sizes |
| PcieBars.SizeOfMask | 02_FwHal/src/uiox_fw_pcie.c:129-130 | a read-back that keeps exactly its upper bits decodes to a power of two |
| PcieBars.RegisterBits | 02_FwHal/src/uiox_fw_pcie.c:127-130 | bit 0 is the kind, bits 1 and 2 the width, and the size is 2^32 less the remaining address bits |
| PcieBars.InUseExactly | 02_FwHal/src/uiox_fw_pcie.c:125-136 | a register is placed if and only if it is visited, its bit 0 reads 0 and an address bit reads 1 |
| PcieBars.VisitedExactly | 02_FwHal/src/uiox_fw_pcie.c:117-146 | every register is visited but the upper half of a visited 64-bit one |
| BumpAlloc.Allocator.Alloc | 01_uBoot/src/uiox_boot_mem.c:246-253 | the least aligned block that fits is granted and zeroed, apart from all earlier ones; none is granted exactly when none fits, and then nothing changes |
| BumpAlloc.AllocInit | 01_uBoot/src/uiox_boot_mem.c:221-244 | the arena comes from the first usable region large enough, in 64-bit arithmetic, and there is none exactly when no region is |
| BumpAlloc.LeastSuitable | 01_uBoot/src/uiox_boot_mem.c:248-250 | the rounded-up cursor is the least suitable address, and fits if any does |
| BumpAlloc.LargeEnoughExactly | 01_uBoot/src/uiox_boot_mem.c:229-230 | a region is taken if it is usable and 256 KiB larger than the reserved size |
| BumpAlloc.ArenaBaseExactly | 01_uBoot/src/uiox_boot_mem.c:232-237 | below 4 GiB, the arena starts at the first page boundary behind a reserved range that starts in the region, and at the region's base otherwise |
| BumpAlloc.TestPassesIff | 01_uBoot/src/uiox_boot_mem.c:249 | the limit test passes if and only if the block fits or its end wraps to at most the limit, and in the second case it does not fit |
| BumpAlloc.WrappedEndPasses | 01_uBoot/src/uiox_boot_mem.c:249 | such a block, at the start of an arena of one page |
| BumpAlloc.ReservedAvoidedIff | 01_uBoot/src/uiox_boot_mem.c:232-240 | the arena avoids the reserved range if and only if that range does not start below the region and reach into it |
| BumpAlloc.ReservedMissed | 01_uBoot/src/uiox_boot_mem.c:232-240 | a reserved range that starts below its region and that the arena meets |
| BumpAlloc.GrantsAvoidReserved | 01_uBoot/src/uiox_boot_mem.c:221-253 | then no byte of any granted block is reserved or shared with another block |
| Bits.AlignUpLeast | 01_uBoot/include/uiox_boot_types.h:124-126 | the mask expression gives the least multiple of a power of two not below the value |
| Memory.CopyBytes | 01_uBoot/src/uiox_boot_mem.c:20-26 | the source bytes are in place and all other memory is kept |
| Memory.ZeroBytes | 01_uBoot/src/uiox_boot_mem.c:13-18 | the range is zero and all other memory is kept |
| Division.Udiv32 | 01_uBoot/src/uiox_boot_console.c:28-49 | the shift-and-subtract loop is exact for all words, without losing a bit |
| Division.Div64U32 | 01_uBoot/src/uiox_boot_console.c:57-82 | quotient and remainder divide the dividend less exactly the part that the 16-bit shifts drop |
| Division.NothingLostIffExact | 01_uBoot/src/uiox_boot_console.c:69-75 | nothing is dropped if and only if both intermediate remainders fit 16 bits |
| Division.ExactDivision | 02_FwHal/src/uiox_fw_main.c:469-484 | the 64-bit result is the true quotient and remainder if and only if that test on the inputs holds |
| Division.ExactFamilies | 01_uBoot/src/uiox_boot_console.c:57-82 | it holds for every divisor up to 65536 and every dividend below 2^32 |
| Decimal.FmtDec | 01_uBoot/src/uiox_boot_console.c:137-200 | the digits sent out are the canonical numeral of the value if and only if both divisions by 10^9 are exact |
| Decimal.NumeralIffExact | 01_uBoot/src/uiox_boot_console.c:145-154 | a wrong division is always visible: it never yields the right numeral by accident |
| Decimal.ValueOfNumeral | 01_uBoot/src/uiox_boot_console.c:137-200 | reading a numeral back gives the number |
| Decimal.Canonical | 01_uBoot/src/uiox_boot_console.c:137-200 | a numeral has at least one digit, digits only, and no leading zero but for 0 |
| Decimal.SmallPrints | 01_uBoot/src/uiox_boot_console.c:137-200 | every 32-bit value prints correctly |
| Decimal.FirstWrongValue | 01_uBoot/src/uiox_boot_console.c:137-200 | 2^32, the first value above those, prints as 0 |
| Decimal.EmitGroups | 01_uBoot/src/uiox_boot_console.c:156-199 | three groups of nine digits, padded and reversed, are the numeral of the number they make up |
| Decimal.PutGroup | 01_uBoot/src/uiox_boot_console.c:159-168 | the digit loop appends a number's digits, least significant first, at least one |
| Decimal.GroupDigits | 01_uBoot/src/uiox_boot_console.c:170-196 | below a nonzero high part the low digits are printed in full, zeros included |

## Left out

- UnfsClient.Client.ReadBlockInto: what a failed read leaves in the buffer is not specified, and the device is a fixed partial map from block number to 4096 bytes.
- UnfsClient.Client.ReadFile: the caller's memory from the load address up must hold the clipped size and be apart from the scratch buffer; the inode is passed by value.
- UnfsClient.Client.ReadInode: an inodes-per-group of zero, which the native division does not survive, gives the answer of the shift-and-subtract form used on ARM32.
- UnfsTheorems.ByteOfBlock: the same bounds as for the next item, and no other usable extent contains the block; with several, `UnfsExtents.SomeCover` says what is read.
- UnfsTheorems.ByteOfExtent: block numbers are those below 2^32 and the extent does not wrap; beyond that the code wraps and `FileByte` follows it.
- UnfsTheorems.DirFindSearches: directories of fewer than 2^32 blocks; for larger ones the code cuts the number of blocks to 32 bits, and `UnfsClient.DirBlocks` follows it.
- UnfsTheorems.ReadableBlocks: the first 2^44 bytes; behind them the code cuts block numbers to 32 bits.
- FdtWalk.DtWalk: callbacks are functions from a context value to a new one, since function pointers to methods that update state cannot be expressed; addresses stay below 4 GiB, where the code's 32-bit mask works; a read outside the blob ends the walk as a fault, and so does a property whose length runs past the blob, even if no callback would read the value or its rounded length wraps to zero; a property name that runs past the blob ends there.
- FdtMemory.ParseMemory: the blob stays below 4 GiB, where the code's 32-bit mask works, and a property that runs past the blob is a fault as in the walk.
- FdtChosen.BootDtChosen: the buffer is not specified when a read leaves the blob.
- FdtSoc.BootDtSoc: the bytes behind a property value are not modelled. A size read from there leaves the stride unspecified and nothing else; a base read from there, which takes zero address cells or a wrapped length test, makes the result unsafe.
- FdtSoc.SocIsFold: the same two cases.
- UiosSupervisor.Supervisor.Supervise: the loop is cut after a number of iterations given by the caller, since the source's loop need not end; scheduling, yields and signals have no effect on the table.
- UiosSafety.ChildrenAreTable: a negative answer of wait is taken to mean that the child no longer exists.
- UiosLaunch.LaunchableIffChainEnds: for tables of the source's fixed size of ten apps.
- ElfLoad.BootElf64Load: what the code reads is there (the magic; then the class bytes; then the header and the program headers), addresses do not wrap and the file is apart from the destination memory; the code checks none of these.
- ElfLoad.LoadKernelElf: if the magic is right, the program headers and the segments' file bytes lie in the file, which this loader does not check.
- PcieBars.Controller.AssignBars: the value read back from each register after writing ones is given data; the write of the address back to the device is the recorded `bar` value.
- PcieBars.Placement: sizes are powers of two and the cursor does not wrap 64 bits. The model records the 64-bit address; what the code writes to the device is that address cut to 32 bits.
- BumpAlloc.Allocator.Alloc: alignments are powers of two, rounding the top up does not wrap, and no wrapped end passes the limit test; the contract says nothing of the block the code would then hand out, of which `BumpAlloc.TestPassesIff` says that it does not fit.
- BumpAlloc.ArenaBaseExactly: behind 4 GiB the code's 32-bit mask cuts the address; `BumpAlloc.ArenaBase` follows it.
- BumpAlloc.LargeEnoughExactly: the sum of the reserved size and 256 KiB does not wrap 64 bits.
- Sha256.Context.Final: the context is spent afterwards; reuse without a new init is not modelled.
- Null pointer arguments and their error returns.
- `unfs_unmount` (one flag), `uiox_boot_dt_apply` (a sequence of the modelled calls), `fmt_hex`, `printf` and `flat_load`: they would only add easy members.
- The fallback memory probe, the x86 memory map, and boot-stage sequencing.
- Device enumeration on the PCIe bus and device enabling: results of hardware reads.
- MMIO drivers, cache maintenance, console output inside modelled functions.
- Making and checking a file system (host-side file I/O), the system call router and the math header.
