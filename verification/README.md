# FatFs, the FAT reader and the USB endpoint engine of the boot loader, verified

A Dafny model of three parts of the boot loader and proofs of what they keep:

* `bootloader/fatfs/ff.c`, the FAT12/16/32 file system, from the sector window up to
  `f_read`, `f_write`, `f_lseek` and `f_truncate`, in the shipped configuration (512-byte
  sectors, one volume, short names, a private buffer per file). Fast seek and long names are
  switched off there; they have modules of their own.
* `bootloader/usb/usb_drv.c`, the transfer state machine of one endpoint with its FIFO banks.
* `bootloader/fat/fat.c`, the wildcard matcher and the second, read-only file cursor.

`dafny verify dfyconfig.toml` checks the whole project.

## How it is built

| module | file | what it holds |
|---|---|---|
| Bits | Bits.dfy | 32-bit wrap-around, masks and powers of two as the C code uses them |
| FatTable | FatTable.dfy | the packed table: 12-, 16- and 28-bit entries in a byte sequence |
| BlockDevice | BlockDevice.dfy | the card as an array of sectors; runs of sectors, splices of bytes |
| Allocator | Allocator.dfy | allocation, release and truncation on a table; chains; whole volumes; the free count |
| Volume | Volume.dfy | class `FATFS`: one-sector write-back window, FAT mirroring, `get_fat`, `put_fat`, the allocator on disk |
| Layout | Layout.dfy | which sector and cluster a byte of a chain lies in |
| FileBytes | FileBytes.dfy | the bytes of a file seen through its own dirty sector buffer |
| File | File.dfy | class `FIL`: `f_write`, `f_read`, `f_lseek`, `f_truncate` |
| Files | Files.dfy | several files on one volume |
| Session | Session.dfy | any run of calls on an open file |
| World | World.dfy | any interleaving of calls on several open files and directories of a volume |
| DirTable | DirTable.dfy | a directory as a table of slots and as a map from names to slots |
| Directory | Directory.dfy | class `DIR`: the directory calls on the disk, and runs of them |
| Mount | Mount.dfy | the geometry check of mounting, with 32-bit wrap-around |
| Wildcard | Wildcard.dfy | the wildcard matcher |
| FatCursor | FatCursor.dfy | classes `Reader` and `Handle`: the second file reader |
| Packets, Usb | Packets.dfy, Usb.dfy | packets and endings of transfers; class `Endpoint` |
| FastSeek | FastSeek.dfy | link maps and the seek that uses them |
| Lfn | Lfn.dfy | long names written and read back |

The boundaries between the FAT types are those of `ff.c:102-104` (4086 and 65526 clusters), one
more than the section "FAT Type Determination" of Microsoft's FAT32 File System Specification gives.

Objects whose fields the C code updates are classes: `Disk`, `FATFS`, `FIL`, `DIR`, `Reader`,
`Handle`, `Endpoint`. `FATFS` has two ghost fields: `img`, the logical device (the disk with
the dirty window laid over its sector and over the mirror of it), and `fat`, the table that
`img` encodes. Every method is stated in terms of these, so the window is invisible above
`move_window`. A `FIL` is stated in terms of `Content()`, a byte sequence, and `chain`, the list
of its clusters; a `DIR` in terms of `Slots()`; an `Endpoint` in terms of the packets the host
has, those in the banks, and a record of how each accepted transfer ended.

A volume is given by the cluster lists of its files and directories, empty ones included.
`Allocator.Partition` says that they are chains, have no cluster in common, and are all that is in
the table: no cycle, no cross link, no leak. Every call on a file or a directory keeps it, and says
which entries and sectors it may have changed (`Layout.Changes`, `File.OnlyOwn`,
`Directory.OnlyTable`); nothing in front of the FAT copies is ever among them.

## Where the code falls short

Each of these is a lemma or a method with the exact condition beside it.

* `f_truncate` does not write back or drop a dirty buffer. The file object stays valid exactly
  when, before the call, the buffer is clean, there is nothing to cut, or the sector in the
  buffer lies in a cluster that is kept (`File.FIL.Truncate`). `Files.TruncateLosesBuffer` is a
  run after which the object still means to write its buffer to a cluster it has freed, and
  `Files.WriteBackHits` says what that write does to the file that has the cluster then.
  `World.Run` stops in front of a truncation that would leave a file a buffer not its own.
* `f_write` writes nothing and returns FR_OK if the size of the file and the length of the data
  make 4 GB or more, an overwrite inside the file included (`File.FIL.Write`).
* `create_chain` counts a recorded free count of 0 down to 0xFFFFFFFF, "unknown", when the count,
  which mounting takes from the disk, is lower than the true one. The difference between the two
  is kept exactly as long as the count bears each operation (`Allocator.RunKeepsCount`,
  `Allocator.LowCountIsLost`); a count that is not too low always does (`Allocator.HighCountBears`).
* `chk_mounted` computes the layout in 32 bits. On a device that holds the volume a record
  announces, an accepted record gives a usable geometry behind the start of the volume exactly when
  the system area lies in the volume and the clusters can be numbered in 28 bits
  (`Mount.MountIsSound`). Three accepted records that fail it: one with 2^28 table
  entries, so that the end mark is the number of a cluster (`Mount.BigVolumeAccepted`); a FAT area
  that wraps and fits no device (`Mount.WrappedFatAccepted`); and one that wraps around to a sector
  in front of the volume and is consistent there (`Mount.FatBeforeVolume`).
* Nor does mounting look at the root cluster of a FAT32 volume. If it is not 0 and no
  cluster, the first slots of the root directory are taken from the sectors of the device from
  number 0 on
  (`Directory.DIR.Sdi`).
* `f_getfree` scans FAT16 and FAT32 tables from entry 0; its count is the number
  of free clusters exactly when both are nonzero (`Allocator.ZerosCountFree`).
* `szWildMatch8` wants a character for the second of two trailing stars: it agrees with the
  meaning of the pattern on every string exactly when the pattern does not end in two stars
  (`Wildcard.MatcherIsRight`; `Wildcard.TwoStarsDiffer` is a pattern and a string on which it does
  not). Two adjacent stars elsewhere do no harm.
* `fat_read` counts in 16 bits. It reports more bytes than it moves exactly when 64 KiB or more
  are asked for and left (`FatCursor.ReadReportsTruly`); a negative length asks for everything.
* `fat_seek` adds in signed 32 bits. It leads to the sum cut to the file exactly when the sum is
  below 2 GB; the end of a file of 2 GB or more leads to offset 0 (`FatCursor.TargetIsClamped`).
* `pick_lfn` puts a second terminator behind the one stored in the entries, so names of 254 and
  255 characters are written but not read back; all shorter ones are (`Lfn.WriteThenRead`). For
  an entry with order 0 its index starts at -13: it stores in front of the buffer exactly then
  (`Lfn.PickLfn`), and `dir_read` gets there with any such entry that starts a name (`Lfn.DirRead`).
* A FIFO reset does not touch `dFlag`. The first packet after it, of any length, is delivered once
  exactly when the flag named, before the reset, the bank with which the hardware goes on, and twice
  otherwise, the second time to the same transfer or to the next one (`Usb.FirstPacketAfterReset`).
  If the hardware goes on with bank 0, one packet taken before a CLEAR_FEATURE is enough
  (`Usb.DeliversTwice`).
* A SETUP packet ends a transmit transfer and leaves its packet in the FIFO
  (`Usb.SetupLeavesPacket`). The next transfer on that endpoint then takes the acknowledgement of
  the old packet for its own and is reported complete with as many packets waiting as waited before
  it; all of its bytes have arrived exactly when the FIFO was empty before (`Usb.Transmit`,
  `Usb.OnePacketBehind`).
* CLEAR_FEATURE on an endpoint with a pending transfer ends it without its callback; nothing
  else does (`Usb.Perform`, `Usb.Run`).
* CREATE_LINKMAP fails on a file whose last cluster holds its own successor as the end mark
  (`FastSeek.CreateLinkMap`, `FastSeek.EndMayFollow`).

## Model

| member | source | states |
|---|---|---|
| Bits.MaskIsMod | bootloader/fatfs/ff.c:2045 | masking with a power of two minus one, as in every sector-in-cluster computation, is the remainder |
| Bits.SingleBitTest | bootloader/fatfs/ff.c:1740 | the test `b & (b - 1)` accepts exactly the powers of two |
| Bits.BitwiseOperators | bootloader/fatfs/ff.c:2045 | the operators `&`, `\|` and `& ~` act on every bit by itself |
| FatTable.LoadOfStoreSame | bootloader/fatfs/ff.c:489-585 | an entry reads back as the value stored, cut to the width of the entry, for 12-, 16- and 28-bit entries at any place |
| FatTable.LoadOfStoreOther | bootloader/fatfs/ff.c:548-575 | storing an entry changes no other entry, even where two 12-bit entries share a byte |
| FatTable.StoreKeepsReserved32 | bootloader/fatfs/ff.c:569-575 | the top four bits of a FAT32 entry survive a store |
| FatTable.LoadByBytes | bootloader/fatfs/ff.c:502-518 | an entry in the arithmetic of its bytes: which bytes and half bytes it takes, low ones first |
| BlockDevice.Disk.Read | bootloader/fatfs/ff.c:433-436 | a read of count sectors puts their bytes at the given place and nowhere else |
| BlockDevice.ReadsBack | bootloader/fatfs/ff.c:420-436 | what is written to a run of sectors is read back from it, and no other sector changes |
| BlockDevice.OverwriteByBytes | bootloader/fatfs/ff.c:2165-2185 | a write byte by byte: 512 bytes of the data to each sector of the run, every other byte of the device as before |
| BlockDevice.SpliceByBytes | bootloader/fatfs/ff.c:2199-2209 | a replacement of bytes, byte by byte, with the new length |
| Allocator.ScanFindsFirst | bootloader/fatfs/ff.c:657-669 | the circular scan gives the first free cluster behind its start, 0 exactly when no entry is free, 1 only if an entry holds 1 |
| Allocator.CreateChainOutcome | bootloader/fatfs/ff.c:635-684 | on a well-formed volume a cluster given out was free, and 0 comes back only if none is |
| Allocator.ClusterTaken | bootloader/fatfs/ff.c:640-684 | which cluster is given out: the free one that comes first behind the end of the chain, or behind the cluster taken last for a new chain, round the end of the table; and every field of the new state, in numbers |
| Allocator.NewOutcome | bootloader/fatfs/ff.c:635-684 | a new chain of one cluster, ended by an end mark |
| Allocator.ExtendOutcome | bootloader/fatfs/ff.c:648-684 | inside a chain the next cluster, at its end the chain longer by a formerly free cluster |
| Allocator.Release | bootloader/fatfs/ff.c:604-624 | the release loop terminates on any table, cyclic ones included; every entry becomes zero or stays |
| Allocator.ReleaseClearsReachable | bootloader/fatfs/ff.c:594-626 | on any table without an entry 1 in the way, exactly the clusters reachable from the argument become zero |
| Allocator.ReleaseChain | bootloader/fatfs/ff.c:594-626 | on a chain exactly its clusters become zero and every other entry stays |
| Allocator.ChainReleased | bootloader/fatfs/ff.c:594-626 | the whole state after the removal of a chain: its entries zero, the count longer by the chain or unknown, the hint untouched |
| Allocator.ChainIsDistinct | bootloader/fatfs/ff.c:594-626 | a linked list of clusters that ends in an end mark visits none twice |
| Allocator.CutChain | bootloader/fatfs/ff.c:2741-2748 | truncation behind a cluster leaves the head of the chain as a chain and frees the tail, and nothing else changes |
| Allocator.ReplaceChain | bootloader/fatfs/ff.c:648-684 | a volume whose one chain is replaced by one that takes only free clusters stays without cross links and leaks |
| Allocator.AddChain | bootloader/fatfs/ff.c:640-684 | the same for a chain that is new |
| Allocator.DropChain | bootloader/fatfs/ff.c:594-626 | the same for a chain that is removed |
| Allocator.ReplaceList | bootloader/fatfs/ff.c:594-684 | on a volume of files that may be empty, the list of one may become any that takes only free clusters and gives the others back: the lists stay chains, apart and all that is in the table |
| Allocator.GrowthKeeps | bootloader/fatfs/ff.c:2135-2210 | a write, a seek or a directory that grows, also the first cluster of an empty file, keeps the volume so |
| Allocator.CutListKeeps | bootloader/fatfs/ff.c:2741-2748 | so does a truncation behind a cluster |
| Allocator.DropListKeeps | bootloader/fatfs/ff.c:2736-2738 | and one at the start of the file |
| Allocator.PartitionIsWellFormed | bootloader/fatfs/ff.c:594-684 | without the empty ones, these lists make the volume well formed |
| Allocator.StepKeeps | bootloader/fatfs/ff.c:594-684 | every operation of the allocator keeps chains acyclic, ended, apart and all that is in the table |
| Allocator.RunKeeps | bootloader/fatfs/ff.c:594-684 | the same over every run of operations |
| Allocator.TakeCounts | bootloader/fatfs/ff.c:671-682 | an allocation keeps the recorded count minus the true one exactly if the recorded count is not 0; a count of 0 becomes unknown |
| Allocator.LowCountIsLost | bootloader/fatfs/ff.c:676-680 | a table with one free cluster and a recorded count of 0 loses its count in one allocation |
| Allocator.ReleaseKeepsCount | bootloader/fatfs/ff.c:616-619 | the release of a chain keeps the difference exactly if count and length stay below 0xFFFFFFFF; else the count becomes unknown |
| Allocator.CutKeepsCount | bootloader/fatfs/ff.c:2741-2748 | so does a truncation, with the clusters it releases |
| Allocator.StepKeepsCount | bootloader/fatfs/ff.c:594-684 | every operation keeps the difference exactly if the count bears it, which its state before the call decides |
| Allocator.RunKeepsCount | bootloader/fatfs/ff.c:594-684 | over every run, and from any difference, the recorded count minus the true one is the same at the end exactly if the count bears every operation; else the count is unknown |
| Allocator.HighCountBears | bootloader/fatfs/ff.c:594-684 | a recorded count that is not too low, nor near 2^32, bears every run |
| Allocator.ZerosCountFree | bootloader/fatfs/ff.c:2681-2698 | counting zero entries from entry 0 on gives the number of free clusters exactly if entries 0 and 1 are nonzero |
| Allocator.FreeCounts | bootloader/fatfs/ff.c:2672-2679 | the free count is the number of clusters whose entry is 0 |
| Volume.StoreInTable | bootloader/fatfs/ff.c:532-585 | a store into the table bytes is an update of one entry of the table |
| Volume.FATFS.constructor | bootloader/fatfs/ff.c:1795-1799 | the state after mounting is valid whatever the disk holds: nothing in the window, the table of the first FAT copy, and a note of where the second copy repeats it |
| Volume.FATFS.WriteBack | bootloader/fatfs/ff.c:419-431 | writing the window back makes the disk equal to the logical device, mirror copy included |
| Volume.FATFS.MoveWindow | bootloader/fatfs/ff.c:408-441 | the window holds the requested sector of the logical device, which does not change |
| Volume.FATFS.CopiesAgree | bootloader/fatfs/ff.c:419-431 | on the disk the FAT copies agree in every sector in which they did at mount time but the one dirty in the window |
| Volume.TwinsAre | bootloader/fatfs/ff.c:425-430 | the sectors taken for mirrored are exactly those of the first FAT copy that the second one repeats |
| Volume.FatCopies | bootloader/fatfs/ff.c:425-430 | the copies lie one behind the other |
| Volume.FATFS.LogicalSector | bootloader/fatfs/ff.c:408-441 | the logical device sector by sector: the disk, but for a dirty window at its sector and, from the first of two copies, at the mirror of it |
| Volume.FATFS.GetFat | bootloader/fatfs/ff.c:489-524 | the entry of the logical table, or 1 for a number that is no cluster; nothing logical changes |
| Volume.EntryPlace | bootloader/fatfs/ff.c:489-518 | the table is, entry by entry, what the bytes of the first FAT copy say |
| Volume.LoadPlace12 | bootloader/fatfs/ff.c:502-508 | for 12-bit entries, the byte and the half byte of which sectors, also across two |
| Volume.LoadPlace16 | bootloader/fatfs/ff.c:510-513 | for 16-bit entries, the two bytes of which sector |
| Volume.LoadPlace32 | bootloader/fatfs/ff.c:515-518 | for FAT32 entries, the four bytes of which sector, the top four bits left out |
| Volume.FATFS.GetFat12 | bootloader/fatfs/ff.c:502-508 | a 12-bit entry whose bytes may lie in two sectors, read through the window |
| Volume.FATFS.PutFat | bootloader/fatfs/ff.c:532-585 | the logical table changes in one entry, to the value cut to the width, and nothing outside the FAT copies changes |
| Volume.FATFS.PutFat12 | bootloader/fatfs/ff.c:548-560 | a 12-bit entry written through the window, in two steps when it straddles sectors |
| Volume.FATFS.PutFat32 | bootloader/fatfs/ff.c:569-575 | a FAT32 entry written with its top four bits kept |
| Volume.FATFS.CreateChain | bootloader/fatfs/ff.c:635-684 | the allocator on the disk does what it does on the table |
| Volume.FATFS.EndMark | bootloader/fatfs/ff.c:671 | the end mark in the table has all bits of an entry set |
| Volume.FATFS.ScanFree | bootloader/fatfs/ff.c:657-669 | the scan loop through the window gives the scan of the table |
| Volume.FATFS.RemoveChain | bootloader/fatfs/ff.c:594-626 | removal on the disk is removal on the table, and it terminates whatever the table holds |
| Volume.FATFS.GetFree | bootloader/fatfs/ff.c:2650-2704 | the recorded count if there is a plausible one, else the count of a scan, which it records; it fails exactly if the scan of a 12-bit table meets an entry 1 |
| Volume.FATFS.StreamZeros | bootloader/fatfs/ff.c:2680-2698 | the sector-by-sector scan of a 16- or 32-bit table counts the zero entries of the table |
| Volume.FATFS.CountFree12 | bootloader/fatfs/ff.c:2672-2679 | the entry-by-entry scan of a 12-bit table counts the free clusters unless it meets an entry 1 |
| Volume.FATFS.ZeroCluster | bootloader/fatfs/ff.c:788-800 | a new directory cluster is zero in every sector and nothing else changes |
| Layout.ClustersApart | bootloader/fatfs/ff.c:694-702 | clusters lie inside the volume behind the FAT copies, and two of them have no sector in common |
| Layout.ClusterPlace | bootloader/fatfs/ff.c:694-702 | cluster 2 lies at the start of the data, and every other one right behind the cluster before it |
| Layout.SectorPlace | bootloader/fatfs/ff.c:2059-2062 | the sector number k of a file in arithmetic: data start, cluster of the chain, sector in it |
| Layout.ClusterCleared | bootloader/fatfs/ff.c:788-800 | which bytes of the device a cleared cluster sets to zero |
| Layout.SectorOfIndex | bootloader/fatfs/ff.c:2059-2062 | sector k of a file is sector k mod csize of cluster k div csize of its chain |
| Layout.SectorsDistinct | bootloader/fatfs/ff.c:694-702 | the sectors of a file are all different |
| Layout.SectorsDisjoint | bootloader/fatfs/ff.c:694-702 | files without a common cluster have no common sector |
| Layout.UnsignedInRun | bootloader/fatfs/ff.c:2067-2068 | the unsigned comparison `dsect - sect < cc` asks whether the buffered sector lies in the run |
| Layout.AlignDown | bootloader/fatfs/ff.c:2461 | the rounding with the complement of bcs - 1 gives the start of the cluster |
| FileBytes.DirectWriteSplices | bootloader/fatfs/ff.c:2165-2185 | whole sectors written past the buffer replace exactly these bytes of the file |
| FileBytes.PutSplices | bootloader/fatfs/ff.c:2199-2209 | bytes put into the dirty buffer replace exactly these bytes of the file |
| FileBytes.GetRun | bootloader/fatfs/ff.c:2060-2070 | sectors read past the buffer and patched with a dirty buffer are the bytes of the file |
| File.FIL.constructor | bootloader/fatfs/ff.c:1996-2001 | an opened file is valid, at its start, with a clean buffer |
| File.FIL.BytePlace | bootloader/fatfs/ff.c:2035-2090 | byte i of the content is byte i mod 512 of sector i div 512 of the file on the logical device, or in the buffer if that is dirty for it |
| File.FIL.Write | bootloader/fatfs/ff.c:2111-2216 | the content from the pointer on is replaced by what was written: all of it unless the volume is full, and nothing if size and length make 4 GB; after an internal error what was written before it is in the clusters while the size is not updated; only the file's own and free clusters change |
| File.FIL.WriteCluster | bootloader/fatfs/ff.c:2139-2151 | the cluster of the pointer: followed, stretched or started |
| File.FIL.WriteDirect | bootloader/fatfs/ff.c:2165-2185 | whole sectors go past the buffer, which is refreshed if it holds one of them |
| File.FIL.WritePartial | bootloader/fatfs/ff.c:2186-2209 | part of a sector goes through the buffer, which becomes dirty |
| File.FIL.Read | bootloader/fatfs/ff.c:2018-2098 | exactly the bytes from the pointer to the smaller of the request and the end of the file, by whichever path; the content stays |
| File.FIL.ReadDirect | bootloader/fatfs/ff.c:2056-2071 | whole sectors read past the buffer show its dirty sector |
| File.FIL.Seek | bootloader/fatfs/ff.c:2443-2520 | reading, the target cut to the size; writing, the target or the end of the chain of a full volume; the old bytes stay, after an internal error too |
| File.FIL.SeekStart | bootloader/fatfs/ff.c:2459-2475 | the walk starts at the current cluster if the target lies there or behind, else at the first |
| File.FIL.SeekWalk | bootloader/fatfs/ff.c:2476-2492 | the walk ends at the cluster of the target, or at the last one of a full volume |
| File.FIL.SeekFinish | bootloader/fatfs/ff.c:2493-2516 | the sector of the pointer is in the buffer, the size grows to the pointer |
| File.FIL.Truncate | bootloader/fatfs/ff.c:2715-2760 | the bytes below the pointer and their clusters stay, the other clusters are freed, the abort flag stays; valid afterwards exactly if, before, the buffer is clean, nothing is cut, or the sector in the buffer lies in a kept cluster |
| File.FIL.KeptBeside | bootloader/fatfs/ff.c:2111-2216 | what a write or a seek of one file may do does not show in a file with other clusters |
| Files.CursorByDivision | bootloader/fatfs/ff.c:2456-2516 | with a nonzero pointer the current cluster is number (fptr - 1) div the cluster size of the chain, and inside a sector the buffer is that sector |
| File.FIL.KeptBesideCut | bootloader/fatfs/ff.c:2715-2760 | nor does what a truncation does |
| Files.WriteBeside | bootloader/fatfs/ff.c:2111-2216 | f_write on one open file leaves the bytes of another alone; that one stays valid exactly if its clean buffer still holds its sector, which a buffer of its own sectors does |
| Files.SeekBeside | bootloader/fatfs/ff.c:2443-2520 | the same for f_lseek |
| Files.TruncateBeside | bootloader/fatfs/ff.c:2715-2760 | the same for f_truncate |
| Files.TruncateLosesBuffer | bootloader/fatfs/ff.c:2731-2749 | write a byte, seek to 0, truncate: the object keeps a dirty buffer for a cluster that is free |
| Files.WriteBackHits | bootloader/fatfs/ff.c:2155-2161 | once another file has that cluster, the write-back of the buffer replaces the bytes of a sector of that file |
| Session.BufferSurvives | bootloader/fatfs/ff.c:2731-2749 | walking the kept clusters tells before f_truncate whether the buffer survives it |
| Session.Perform | bootloader/fatfs/ff.c:2018-2760 | one call on an open file, whatever its access mode, answers as a byte sequence and a position do: short writes and moves only on a full volume, nothing written at 4 GB, refusals without effect; it keeps the volume, and changes nothing but the file's own entries and sectors |
| Session.Run | bootloader/fatfs/ff.c:2018-2760 | so does every run of calls, up to a truncation whose buffer does not survive it |
| World.OwnersApart | bootloader/fatfs/ff.c:694-702 | files and directories without a common cluster have no common sector, the static root included |
| World.FileStays | bootloader/fatfs/ff.c:2018-2760 | a call on one object of a volume shows in no other file: it stays usable, with its bytes and its position |
| World.TableStays | bootloader/fatfs/ff.c:998-1256 | nor in any other directory |
| World.CallFile | bootloader/fatfs/ff.c:2018-2760 | a call on one of several open files answers as its byte sequence alone would; all other files and directories show what they showed |
| World.CallTable | bootloader/fatfs/ff.c:998-1256 | the same for a call on one of several directories |
| World.Run | bootloader/fatfs/ff.c:998-2760 | any interleaving of calls on open files and directories of one volume, up to a truncation that would leave a file a foreign buffer: each answers as its own byte sequence or table, and the volume stays without cross links and leaks |
| DirTable.FindIsFirst | bootloader/fatfs/ff.c:998-1050 | a lookup finds the first matching slot before the end mark, and fails only at an end mark or at the end of the table |
| DirTable.FindIsSlot | bootloader/fatfs/ff.c:998-1050 | with unique names a lookup finds a slot exactly if the slot holds the name |
| DirTable.DirOkMeans | bootloader/fatfs/ff.c:998-1050 | what is asked of a table, in its bytes: zero slots last, and no two entries without the volume bit of one name |
| DirTable.FoundByBytes | bootloader/fatfs/ff.c:1035-1046 | a lookup finds exactly the slot with the eleven bytes of the name and bit 3 of the attribute byte clear, files and subdirectories alike |
| DirTable.FoundHasName | bootloader/fatfs/ff.c:1035-1046 | on any table nothing with the volume bit is found, and no zero slot or earlier such slot lies in front of what is found |
| DirTable.BlankByBytes | bootloader/fatfs/ff.c:1190-1196 | the slot for a new entry is the first that begins with 0 or 0xE5 |
| DirTable.EntryBytes | bootloader/fatfs/ff.c:1200-1212 | every byte of a new entry and of a deleted one |
| DirTable.RegisterAddsOne | bootloader/fatfs/ff.c:1185-1212 | a new entry is found at its slot, all other lookups stay, the table stays zero-terminated |
| DirTable.RemoveDropsOne | bootloader/fatfs/ff.c:1245-1256 | a deleted entry is gone, all other lookups stay, the table stays zero-terminated |
| DirTable.StretchKeepsFind | bootloader/fatfs/ff.c:788-800 | zero slots added at the end change no lookup |
| DirTable.KeysAreFound | bootloader/fatfs/ff.c:998-1050 | lookups succeed on exactly the names the table holds |
| DirTable.ListingByBytes | bootloader/fatfs/ff.c:1035-1046 | the map gives a name the slot that has its bytes and no volume bit |
| DirTable.RegisterInto | bootloader/fatfs/ff.c:1185-1212 | a new name gets the first blank slot, in a stretched table too, and every other lookup stays |
| DirTable.ApplyIsMap | bootloader/fatfs/ff.c:1185-1256 | registering adds one name with its slot to the map unless the table is full and cannot grow, removing takes one away; every other name keeps its slot |
| DirTable.RunIsMap | bootloader/fatfs/ff.c:1185-1256 | the same over every run |
| Directory.DIR.Sdi | bootloader/fatfs/ff.c:711-750 | goes to the slot with the number; fails exactly behind the end of the table or for a start cluster out of range; a FAT32 root without a cluster shows the sectors from number 0 on |
| Directory.DIR.SlotPlace | bootloader/fatfs/ff.c:711-750 | byte j of slot i is byte i mod 16 * 32 + j of sector i div 16 of the table, which is that of its clusters or of the static root |
| Directory.DIR.SlotNumber | bootloader/fatfs/ff.c:711-750 | how many slots there are: sixteen a sector, at most 65536 |
| Directory.DIR.FollowTable | bootloader/fatfs/ff.c:734-745 | the walk over the clusters of a table reaches the sector of the slot |
| Directory.DIR.Next | bootloader/fatfs/ff.c:759-817 | goes to the next slot; at the end it reports so or appends a cluster of zero slots; an internal error means an entry 1 before the call and changes nothing; nothing outside the table changes |
| Directory.DIR.FindEntry | bootloader/fatfs/ff.c:998-1050 | goes to the slot that the lookup on the table gives |
| Directory.DIR.RegisterEntry | bootloader/fatfs/ff.c:1185-1212 | the first blank slot, if need be in a new cluster, becomes the new entry; all other slots, and everything outside the table, stay |
| Directory.DIR.RemoveEntry | bootloader/fatfs/ff.c:1245-1256 | the slot is marked deleted; all other slots stay |
| Directory.DIR.Create | bootloader/fatfs/ff.c:998-1212 | looking a name up and registering it if absent is one operation on the table and on the map, on the disk: the new name at the first blank slot, every other at its own; an internal error means an entry 1 before the call; nothing outside the table changes but free clusters it takes |
| Directory.DIR.Unlink | bootloader/fatfs/ff.c:998-1256 | looking a name up and removing it takes exactly that name out of the map |
| Directory.Call | bootloader/fatfs/ff.c:998-1256 | on a volume without cross links and leaks every call is answered, never with an internal error, and the volume stays so |
| Directory.Run | bootloader/fatfs/ff.c:998-1256 | on such a volume every run of creations and removals is answered to its end and leaves the directory the map the run gives, and the volume what it was but for clusters the directory took |
| Directory.StepIsSeek | bootloader/fatfs/ff.c:711-817 | a step from slot i and a seek to slot i + 1 succeed together and give the same index, cluster, sector and place |
| Mount.MountIsSound | bootloader/fatfs/ff.c:1726-1775 | on a device that holds the announced volume, an accepted record gives a usable geometry behind the start of the volume exactly if the system area lies in the volume and the clusters can be numbered in 28 bits |
| Mount.MountsExactly | bootloader/fatfs/ff.c:1726-1775 | a record is accepted exactly if its fields say so: every test of the source, in numbers (`Acceptable`) |
| Mount.ClusterSizes | bootloader/fatfs/ff.c:1739-1740 | the accepted cluster sizes are 1, 2, 4 up to 128 |
| Mount.GeometryByFields | bootloader/fatfs/ff.c:1726-1775 | the geometry of every accepted record, field by field and in numbers (`LaidOut`), with sums of 32 bits: FAT12 exactly up to 4085 clusters, FAT32 exactly from 65526 |
| Mount.FittingByFields | bootloader/fatfs/ff.c:1746-1751 | which records have their system area in the volume and clusters numbered in 28 bits |
| Mount.FittingGeometry | bootloader/fatfs/ff.c:1726-1775 | the geometry of those, without wrap-around (`LaidOutPlainly`) |
| Mount.NothingWrapped | bootloader/fatfs/ff.c:1726-1775 | if the FATs lie behind the start of the volume and in front of the data, no sum of the computation wrapped |
| Mount.MountedVolume | bootloader/fatfs/ff.c:498-518 | on every such volume each byte of every entry lies in the first FAT copy, and clusters lie apart behind it inside the volume |
| Mount.BigVolumeAccepted | bootloader/fatfs/ff.c:1751-1760 | a record with 2^28 entries is accepted, and the end mark is a cluster number there |
| Mount.WrappedFatAccepted | bootloader/fatfs/ff.c:1730-1748 | a record whose FAT area wraps at 32 bits is accepted and fits no device |
| Mount.FatBeforeVolume | bootloader/fatfs/ff.c:1730-1775 | another one is accepted with a consistent geometry whose FAT lies in front of the volume |
| Mount.FloppyMounts | bootloader/fatfs/ff.c:1726-1775 | a 1.44 MB diskette is accepted as FAT12 with 2847 clusters and is usable |
| Wildcard.Try | bootloader/fat/fat.c:323-346 | the inner loop consumes pattern and string up to a star, a mismatch or the end |
| Wildcard.FirstPlaceSuffices | bootloader/fat/fat.c:333-351 | behind a star any match can be had with the next piece at its first place, so only the last star needs another try |
| Wildcard.WildMatch | bootloader/fat/fat.c:319-351 | the goto loop terminates and decides the recursive reading that the code gives a pattern, which is the meaning of the pattern unless that ends in two stars |
| Wildcard.SingleCharacters | bootloader/fat/fat.c:333-341 | a literal stands for itself and the other case of the letter, `?` for everything but a dot, `*` for any string, the empty pattern for the empty string |
| Wildcard.PartsInOrder | bootloader/fat/fat.c:319-351 | two patterns one behind the other stand for the strings that split into one of each |
| Wildcard.CaseDoesNotMatter | bootloader/fat/fat.c:339 | pattern and string may each change the case of letters; neither meaning nor verdict changes |
| Wildcard.MatcherMeaning | bootloader/fat/fat.c:319-351 | that reading, for a pattern with trailing stars split off: the meaning of the pattern with at most one of them, a character for them with more |
| Wildcard.MatcherIsRight | bootloader/fat/fat.c:319-351 | the matcher is right on every string exactly if the pattern does not end in two stars |
| Wildcard.TwoStarsDiffer | bootloader/fat/fat.c:319-351 | a pattern with two trailing stars and a string on which it is wrong |
| FatCursor.Reader.ReadSector | bootloader/fat/fat.c:77-88 | the cache holds the sector afterwards |
| FatCursor.Reader.NextCluster | bootloader/fat/fat.c:117-177 | the link of the cluster on the card, 0 for an end mark |
| FatCursor.ReaderVolumes | bootloader/fat/fat.c:63-177 | the usable volumes the second reader is modelled on: FAT16 or FAT32, clusters below 64 KiB, no cluster number among the end marks, sector numbers below its empty-cache mark |
| FatCursor.LinkPlace | bootloader/fat/fat.c:117-177 | which bytes of which sector of the card the link of a cluster is |
| FatCursor.ReaderClusterPlace | bootloader/fat/fat.c:99-105 | clusters lie from the start of the data on in order; 0 stands for the root directory |
| FatCursor.Handle.constructor | bootloader/fat/fat.c:729-815 | an opened file is at its start with its first cluster current |
| FatCursor.Handle.BytePlace | bootloader/fat/fat.c:989-1000 | byte i of the content is byte i mod 512 of sector i div 512 of the file |
| FatCursor.BlockOfOffset | bootloader/fat/fat.c:989-994 | the sector computed from the current cluster is the one that holds the offset |
| FatCursor.Handle.Read | bootloader/fat/fat.c:962-1023 | the bytes of the file from the offset on, as many as a 16-bit count of the clipped request says; the current cluster is right again unless the file ends |
| FatCursor.ReadReportsTruly | bootloader/fat/fat.c:979-985 | the report equals the bytes moved exactly for requests below 64 KiB or files with less left |
| FatCursor.Handle.Seek | bootloader/fat/fat.c:1099-1163 | for sums below 2 GB, SeekSet leads to the offset, SeekCur to the position plus the offset, SeekEnd to the end plus the offset, each cut to the file; the current cluster is the one of the target unless it is the end of the file |
| FatCursor.Handle.FollowChain | bootloader/fat/fat.c:1139-1160 | t links lead to cluster t of the chain; keeping the cluster at a link of 0 happens only behind the last one |
| FatCursor.TargetIsClamped | bootloader/fat/fat.c:1118-1131 | the target is the sum cut to the file exactly if the sum is below 2 GB; from 2 GB to 4 GB it is 0 |
| FatCursor.Session | bootloader/fat/fat.c:962-1163 | every run of seeks and reads reads what the same run reads from the byte sequence |
| FatCursor.ReadingsStep | bootloader/fat/fat.c:979-1131 | what a call does in the run on the byte sequence, in numbers: where a seek from each origin leads, which bytes a read gives |
| Packets.SplitHoldsAll | bootloader/usb/usb_drv.c:497-530 | the packets of a transfer are its bytes in order |
| Packets.SplitSizes | bootloader/usb/usb_drv.c:636-640 | all packets but the last are full; on the control endpoint the last one is short |
| Packets.SplitCount | bootloader/usb/usb_drv.c:636-640 | the number of packets from the length |
| Packets.GoingOn | bootloader/usb/usb_drv.c:653-677 | after an acknowledgement that does not end the transfer the next packet is given out and the one behind it prepared |
| Packets.GoingEnd | bootloader/usb/usb_drv.c:635-651 | the test for the end succeeds only when all packets are given out |
| Packets.OneCallEach | bootloader/usb/usb_drv.c:305-325 | a transfer that ended with its callback has one invocation, any other none |
| Usb.PacketTaken | bootloader/usb/usb_drv.c:434-450 | in step, the flag releases the oldest packet and names the next one |
| Usb.Endpoint.EndOfTransfer | bootloader/usb/usb_drv.c:305-325 | a pending transfer ends once, with the callback told the bytes moved and the bytes left |
| Usb.Endpoint.WritePayload | bootloader/usb/usb_drv.c:462-481 | up to a packet of the transfer moves into the bank |
| Usb.Endpoint.StartWrite | bootloader/usb/usb_drv.c:497-530 | refused unless idle, and then nothing changes; else moved + buffered + remaining is the length |
| Usb.Endpoint.TxComplete | bootloader/usb/usb_drv.c:627-680 | the sum stays the length; the transfer goes on, or ends with every packet given out, everything counted as transferred, and as many packets waiting as before it |
| Usb.Endpoint.StartRead | bootloader/usb/usb_drv.c:579-605 | refused unless idle, and then nothing changes; else the transfer starts empty |
| Usb.Endpoint.GetPayload | bootloader/usb/usb_drv.c:543-563 | the packet goes behind the bytes already there as far as there is room, the rest is counted |
| Usb.Endpoint.ReleaseOldest | bootloader/usb/usb_drv.c:434-450 | in step, the bank released is that of the oldest packet, and the driver stays in step |
| Usb.Endpoint.RxReady | bootloader/usb/usb_drv.c:682-737 | transferred + remaining is the length, transferred + buffered what was received, the buffer its head; ends with a short packet or a full buffer; otherwise acknowledges, discards or leaves the packet |
| Usb.Endpoint.SetupReceived | bootloader/usb/usb_drv.c:739-753 | a pending transfer ends as a success |
| Usb.Endpoint.Halt | bootloader/usb/usb_drv.c:848-862 | a pending transfer is aborted with its callback |
| Usb.Endpoint.Unhalt | bootloader/usb/usb_drv.c:829-843 | a pending transfer is dropped without its callback; the FIFO is empty, the flag stays, and the driver is in step if the flag names the bank the hardware goes on with |
| Usb.Endpoint.Configure | bootloader/usb/usb_drv.c:334-380 | a pending transfer ends as reset; the same for FIFO and flag |
| Usb.Endpoint.Disable | bootloader/usb/usb_drv.c:899-905 | a pending transfer ends as reset |
| Usb.Transmit | bootloader/usb/usb_drv.c:497-680 | for every length and whatever packets wait in the FIFO, the host gets these and then the packets of the transfer, and as many wait when the callback is told the length as waited before; on an empty FIFO, and on no other, exactly the bytes in order have arrived, in length / 8 + 1 packets on the control endpoint and max(1, length / 64 rounded up) on a bulk endpoint |
| Usb.SetupLeavesPacket | bootloader/usb/usb_drv.c:739-753 | a run in which a SETUP packet ends a transfer whose packet the host has not taken |
| Usb.OnePacketBehind | bootloader/usb/usb_drv.c:497-753 | the next transfer is reported complete when the host has the old packet and not the new one |
| Usb.Receive | bootloader/usb/usb_drv.c:579-737 | for all packets waiting in the banks and sent later, and every interleaving of host and handler, the buffer gets their bytes in order up to its room, and the transfer ends with the first packet that is short or fills it |
| Usb.FirstPacketAfterReset | bootloader/usb/usb_drv.c:334-450 | after either FIFO reset a packet of any length, read into buffers of any size, is delivered once exactly if the flag named, before the reset, the bank the hardware goes on with; else it is delivered twice, to the same transfer or to the next |
| Usb.DeliversTwice | bootloader/usb/usb_drv.c:434-843 | a run that gets there: one packet taken, CLEAR_FEATURE, hardware back at bank 0 |
| Usb.Perform | bootloader/usb/usb_drv.c:305-906 | an event ends at most one transfer, without its callback only if it is CLEAR_FEATURE on a pending one |
| Usb.Run | bootloader/usb/usb_drv.c:305-906 | over any interleaving of events no callback is invoked twice, and exactly once for every ended transfer that has one and was not dropped; without a FIFO reset packets are taken in the order of arrival; without a SETUP packet a bulk endpoint keeps no packet of an earlier transfer |
| FastSeek.EncodesSnoc | bootloader/fatfs/ff.c:2395-2410 | a further fragment is a further pair of the run-length encoding |
| FastSeek.EncodesByDecoding | bootloader/fatfs/ff.c:2395-2410 | an encoding is exactly a list of pairs that decodes to the chain, none empty and none that continues the one before |
| FastSeek.FragmentsAreStarts | bootloader/fatfs/ff.c:2395-2410 | the number of fragments is that of the places of the chain where a run starts |
| FastSeek.Fragment | bootloader/fatfs/ff.c:2400-2407 | the inner loop finds a maximal run of consecutive clusters, or the end mark that looks like one more |
| FastSeek.EndMayFollow | bootloader/fatfs/ff.c:2400-2407 | a chain whose end mark is the successor of its last cluster |
| FastSeek.CreateLinkMap | bootloader/fatfs/ff.c:2388-2413 | the table is the run-length encoding of the chain, inside its declared size of at least 2; it succeeds exactly if the fragments fit and the end mark is not the successor of the last cluster |
| FastSeek.Lookup | bootloader/fatfs/ff.c:2421-2428 | the lookup gives cluster number c of the chain if the map reaches it, and fails otherwise |
| FastSeek.Seek | bootloader/fatfs/ff.c:2415-2441 | the state that walking the chain gives: valid, at the target, with the same content; fails exactly if the map does not reach the target |
| Lfn.CharsApart | bootloader/fatfs/ff.c:827 | the thirteen characters of an entry overlap neither each other nor the other fields |
| Lfn.CharPlace | bootloader/fatfs/ff.c:827 | where the thirteen characters lie: five from byte 1, six from byte 14, two from byte 28, low byte first |
| Lfn.PartByBytes | bootloader/fatfs/ff.c:894-924 | every byte that matters of entry number ord of a name |
| Lfn.FitLfn | bootloader/fatfs/ff.c:894-924 | entry number ord holds its thirteen characters of the name, terminator and filler behind it, and marks the last part |
| Lfn.PickLfn | bootloader/fatfs/ff.c:861-890 | the characters of a part go to their place; the last part fails exactly for names of 254 and 255 characters; the index is signed, and characters go in front of the buffer exactly for an entry with order 0 |
| Lfn.SumSfn | bootloader/fatfs/ff.c:978-988 | the sum of the eleven bytes of a short name |
| Lfn.ChecksumRotates | bootloader/fatfs/ff.c:978-988 | a further byte rotates the sum right by one bit and is added without carry |
| Lfn.Register | bootloader/fatfs/ff.c:1152-1199 | the parts of the name, last one first, and behind them the short entry: the eleven bytes of the name, the two NT flags, zeros |
| Lfn.KindsByBytes | bootloader/fatfs/ff.c:1078-1084 | which entries `dir_read` passes over, and which have no order, in their first byte and attribute byte |
| Lfn.DirRead | bootloader/fatfs/ff.c:1059-1109 | the first entry with data from an index on, or none; for a registered name, in any table, its long name is read exactly if it is readable; memory in front of the buffer is written only for entries with order 0, and for each one that starts a name |
| Lfn.WriteThenRead | bootloader/fatfs/ff.c:1059-1199 | a long name written and read back is the same, for every length up to 253, multiples of 13 included, and for none above, whatever else the table holds |

## Left out

- Disk failures: reads and writes of sectors succeed, so the 0xFFFFFFFF and FR_DISK_ERR paths are not modelled.
- Time stamps, attributes other than the volume bit, FSInfo and `f_sync`, path parsing and the `f_open` family, `f_rename`, `f_chmod`, `f_utime`, `f_mkfs`, `f_forward`, the string functions, several volumes and reentrancy.
- `cmp_lfn`, `gen_numname` and the search for a run of blank entries in the long-name `dir_register`.
- `fat_write`, `fat_blockread` and the directory search of `fat.c`; volumes of the read-only cursor are FAT16 or FAT32 with clusters below 64 KiB.
- `usb_bot.c`, register programming, suspend and resume, SETUP decoding and the descriptor tables.
- The interrupt masks of the endpoints: a handler step may come whenever its flag is set.
- The handler runs as one step: the host takes no packet between TXPKTRDY and the clearing of TXCOMP.
- File.FIL.Seek: the bytes between the old and the new end of a file are those of the clusters, as in the source, and not described.
- World.Run: the files and directories are those opened before the run; opening a file and freeing the clusters of a removed one are not among its calls.
- Usb.Endpoint.EndOfTransfer: the callback is recorded, not run; a callback that starts a transfer is a later step, so one that does so while its endpoint is being halted, disabled or configured is not modelled.
- Usb.Transmit: a packet half written to a bank by an earlier transfer does not occur; a control endpoint never has one (Usb.Endpoint.Valid), and a bulk endpoint only after a SETUP packet, which hosts send to control endpoints.
- Lfn.DirRead: an entry with order 0 that does not start a name is stored in front of the buffer if it continues the entry before it; that case is not separated.
- FastSeek.CreateLinkMap: a declared size of 0 or 1 is taken with a table of at least two items.
