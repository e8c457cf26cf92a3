# Unix V6 filesystem reader, modelled in Dafny

This project models the read-only decoding layers of a Unix Version 6
filesystem reader. Each layer has a specification function and an
imperative method that is proved equal to it; properties of the layer are
proved about the specification function.

- **Block store** (`disk.dfy`, module `DiskImg`). The disk image is an
  immutable map from sector number to the bytes a read of that sector
  delivers: a full 512-byte sector, or fewer at the end of a short image.
  A sector absent from the map is one whose read returns -1.
- **Inode layer** (`inode.dfy`, module `Inodes`):
  - `inode_getsize`: the 24-bit size from its 8-bit and 16-bit halves.
  - `inode_iget`: the sector and slot of a 1-based inumber in the inode
    table.
  - `inode_indexlookup`: the translation of a file block index into a
    sector number. Small files use direct addresses. Large files use seven
    singly-indirect blocks and one doubly-indirect block.
- **File layer** (`file.dfy`, module `Files`). `file_getblock` reads one
  block of a file and reports how many of its bytes are valid.
- **Directory layer** (`directory.dfy`, module `Directories`).
  `directory_findname` scans a directory block by block. Within a block it
  looks only at the live entries, the first `blockSize / 16` ones. It
  compares names with `strncmp(name, d_name, 14)`.
- **Path layer** (`pathname.dfy`, module `Pathnames`). `pathname_lookup`
  splits a path the way successive `strsep(&p, "/")` calls do. It then
  walks the components from the root directory, inumber 1.

Layout constants come from headers that are not part of this model. They
are stated as assumptions:

- 512-byte sectors.
- 32-byte inode records, 16 per sector, with the inode table starting at
  sector 2.
- Eight `i_addr` entries.
- 16-byte directory entries, 32 per block, with a 14-byte name field.
- 256 little-endian 16-bit sector numbers per indirect block.

The inode record layout is mode, nlink, uid, gid, size0, size1, `i_addr[8]`,
`i_atime[2]` and `i_mtime[2]`.

Modelling choices:

- Bytes and 16-bit words are integers in their ranges. The C code views
  sector buffers as `struct inode[]`, `uint16_t[]` and `struct direntv6[]`.
  That punning is modelled as an explicit little-endian decode of the
  buffer bytes (`Word`, `DecodeInode`, `DecodeDirent`).
- A read copies the delivered bytes to the front of the buffer and leaves
  the rest as it was (`Overlay`). This matters where the second indirect
  read reuses the first read's buffer (inode.c:77).
- The uninitialised stack buffers of `inode_iget`, `inode_indexlookup` and
  `directory_findname` are modelled as zero-filled. This fixes the one
  value C leaves undetermined.
- C strings (the path and the name looked up) are the bytes before their
  terminator.
- Where a C routine reports failure through a return value and leaves an
  out-parameter unwritten, the Dafny method returns -1 together with the
  caller's value. For `FindName` that value is `dirEnt`; for `IGet` it is
  an arbitrary one.

Behaviours of the code that the model keeps as they are:

- `directory_findname` does not test the directory inode's allocated bit
  (IALLOC) before scanning it (directory.c:15-18). `EntryNamed` does not
  test it either.
- Only -1 from a sector read is an error (inode.c:27, 65, 79; file.c:26). A
  short read is a success, and `file_getblock` reports its byte count for
  an inner block.
- `pathname_lookup` does not check that the path starts with '/'. It drops
  whatever comes before the first '/' (pathname.c:24). `Resolve` and
  `ResolveDropsFirstToken` model that.

## Model

| member | source | states |
|---|---|---|
| DiskImg.Overlay | diskimg.c:20 | The buffer a read leaves behind is still a full 512-byte sector. |
| DiskImg.OverlayContents | diskimg.c:20 | After a read into a buffer, its first bytes are the delivered ones, and every position the read did not reach keeps what the buffer held. |
| DiskImg.WordBytes | inode.c:72 | Element k of a buffer seen as a `uint16_t` array splits back into byte 2k (low) and byte 2k+1 (high): the view is little-endian. |
| DiskImg.ReadSector | diskimg.c:16-21 | A read returns -1 exactly for a sector the image cannot deliver, leaving the buffer unchanged. Otherwise it returns the number of bytes delivered, at most 512, and those bytes replace the front of the buffer. |
| DiskImg.ReadFreshSector | inode.c:24-25 | A read into a fresh zero-filled local buffer: the buffer holds the delivered bytes, zero-padded, or stays all zero when the read returns -1. |
| DiskImg.FullReadOverwrites | diskimg.c:20 | A full 512-byte read leaves nothing of the buffer's previous contents. |
| Inodes.RecordBytes | inode.c:33 | Element `buf[slot]` of the sector seen as a `struct inode` array is bytes slot*32 to slot*32+31. |
| Inodes.IsLarge | inode.c:50 | The mode's large-file test holds exactly when bit 0x1000 (ILARG) is set, i.e. the mode's low 13 bits reach 0x1000. |
| Inodes.DecodeInode | inode.c:33 | The record copied out of the sector decodes to an inode with 8 addresses and two 2-word timestamps. |
| Inodes.GetSize | inode.c:88-90 | The size of any inode lies in [0, 2^24). |
| Inodes.GetSizeIsShiftOr | inode.c:89 | The size equals the source's expression: `i_size0` shifted left by 16 bits, bitwise-or'ed with `i_size1`, both operations written out on naturals. |
| Inodes.OrShiftedIsSum | inode.c:89 | Or-ing a value shifted left by k bits with a value below 2^k is their sum: the halves occupy disjoint bits. |
| Inodes.GetSizeFields | inode.c:88-90 | Div and mod 65536 of the size give back `i_size0` and `i_size1`: the size loses nothing. |
| Inodes.InodeLocation | inode.c:23-32 | For inumber >= 1 the sector is at least 2 and the slot lies in [0, 16). Sector and slot together give the inumber back. |
| Inodes.InodeLocationInjective | inode.c:23-32 | Distinct inumbers occupy distinct (sector, slot) places. |
| Inodes.InodeAt | inode.c:21-36 | A fetched inode comes from an inumber >= 1 whose inode-table sector the image holds, and it is well formed. |
| Inodes.InodeAtFullRead | inode.c:23-33 | With a full read, inode n is record (n-1) % 16 of sector 2 + (n-1) / 16, decoded. |
| Inodes.InodeFromBuffer | inode.c:23-33 | The zero-filled buffer that inode number `inumber`'s sector is read into holds, at slot `(inumber - 1) % 16`, the record that the fetch decodes. |
| Inodes.IGet | inode.c:21-36 | Returns -1 exactly when the fetch fails (a failed sector read, or an inumber below 1), and otherwise 0 with the inode the fetch defines. |
| Inodes.InodeSlotAsWritten | inode.c:32 | The slot as the source computes it, with C's truncating %: in (-16, 16), negative for inumber 0. |
| Inodes.InodeZeroAsWritten | inode.c:23-33 | Inumber 0 gives slot -1 as written, outside the buffer. The corrected fetch fails instead. |
| Inodes.EntryAt | inode.c:72-84 | An entry of an indirect block is a 16-bit sector number. |
| Inodes.SectorOf | inode.c:41-86 | The translation returns -1 or a sector number in [0, 65535], so a success never looks like the error value. |
| Inodes.LargeSectorOf | inode.c:55-85 | Large-mode translation of an in-range index: -1 or a 16-bit sector number. |
| Inodes.SecondLevelEntry | inode.c:76-84 | Through the doubly-indirect block, the entry read from the second-level sector is -1 or a 16-bit sector number. |
| Inodes.IndexBounds | inode.c:44-76 | Every index that passes the bounds check is below 2^15, and its second-level index `blockNum - 7` stays below 256, because sizes are below 2^24. |
| Inodes.LookupReadsNothing | inode.c:43-52 | An out-of-range index (negative, or index*512 > size) gives -1 on every disk. A small-mode lookup is the same on every disk: it returns `i_addr[index]` for an in-range index below 8, and any other result it gives is -1. |
| Inodes.SinglyIndirectLimit | inode.c:57-71 | When size <= 7*256*512 the tier is at most 7. Tier 7 is then reached only at size exactly 7*256*512, with entry 0, and the singly branch is taken. |
| Inodes.SinglyIndirectLookup | inode.c:55-72 | In large mode with tier below 7 (or size <= 7*256*512), the slot index / 256 is below 8. The lookup gives -1 when sector `i_addr[index / 256]` cannot be read. After a full read of it, the result is its entry index % 256. |
| Inodes.DoublyIndirectLookup | inode.c:57-84 | In large mode with tier >= 7 and size > 7*256*512, tier-7 is below 256. The lookup reads `i_addr[7]`, then the sector named by its entry tier-7 in the zero-filled buffer. Either failed read gives -1, whether or not the first read was full. With both reads full, the result is entry index % 256 of that second sector. |
| Inodes.IndexLookup | inode.c:41-86 | The method returns exactly the translation `SectorOf` defines. |
| Inodes.LargeIndexLookup | inode.c:54-85 | The large-mode part of the method returns exactly `LargeSectorOf`. |
| Inodes.ReadEntry | inode.c:77-84 | Re-reading into the reused buffer, then taking entry k: -1 when the read fails, otherwise entry k of the overlaid buffer. |
| Inodes.SmallLookupAsWritten | inode.c:49-52 | The small-mode lookup as written, indexing past `i_addr` into the words that follow it. Results are -1 or 16-bit. |
| Inodes.SmallIndexEightAsWritten | inode.c:44-51 | At size 4096, index 8 passes the bounds check. As written it returns `i_atime[0]` as a sector number; the corrected lookup returns -1. |
| Files.ValidBytes | file.c:31-35 | For a byte count in [0, 512] the reported count lies in [0, 512]. The block holding the end of the file reports exactly the file bytes it holds, size - index*512. |
| Files.BlockAt | file.c:10-36 | A delivered block's sector is one the image holds, below 65536, and its valid count lies in [0, 512]. |
| Files.GetBlock | file.c:10-36 | Returns -1 exactly when the inode fetch, the index lookup or the data read fails, leaving `buf` unchanged. Otherwise it returns the valid count and `buf` holds the looked-up sector's bytes. |
| Files.BlockIsLookedUp | file.c:13-25 | A delivered block is the sector `inode_indexlookup` gives for the index in the inode `inode_iget` fetches. |
| Files.LastBlockValid | file.c:31-34 | The block at index size / 512 reports size % 512 valid bytes. |
| Files.InnerBlockValid | file.c:35 | Any other fetchable block lies wholly inside the file and reports the read's byte count. That count is 512 for a full read. |
| Files.OnePastEndBlock | file.c:32-34 | In a small file whose size is a multiple of 512 (below 4096), index size / 512 passes the bounds check and is delivered from the address table with 0 valid bytes. |
| Files.NumBlocks | chksumfile.c:56-58 | The number of blocks n a whole-file read visits satisfies (n-1)*512 < size <= n*512. |
| Files.ValidAt | chksumfile.c:60-66 | The bytes one block contributes lie in [0, 512]. |
| Files.InnerBlockFull | file.c:35 | A fully read block below the last one reports 512 bytes. |
| Files.TailBlock | file.c:32-34 | A fully read block holding the end of the file reports its size % 512 bytes. |
| Files.PrefixTotal | file.c:35 | The first n blocks wholly inside the file, fully read, contribute n*512 bytes. |
| Files.WholeFileTotal | chksumfile.c:55-68 | Adding up the valid counts of blocks 0 .. ceil(size/512)-1, every read full, gives exactly the file's size. |
| Directories.NameMatchFrom | directory.c:33 | The `strncmp` of the 14-byte field from position k. A match means every name byte from k on, up to 14, equals the field's. A name that ends before 14 bytes meets a NUL in the field. |
| Directories.NameMatches | directory.c:33 | `strncmp(name, d_name, 14) == 0`. A match means the name's first bytes, up to 14, equal the field's. A name shorter than 14 is followed by a NUL in the field. |
| Directories.DecodeDirent | directory.c:33-34 | Entry j of a block seen as a `struct direntv6` array: `d_inumber` is the little-endian word at byte 16j, and `d_name` is bytes 16j+2 to 16j+15. |
| Directories.NameMatchFromIff | directory.c:33 | From position k, the bounded comparison succeeds exactly when the name's bytes equal the field's up to 14 bytes, and a name shorter than 14 meets a NUL in the field. |
| Directories.NameMatchesIff | directory.c:33 | A name matches exactly when its first 14 bytes fill the field (no terminator needed), or when it is shorter and followed by a NUL in the field. |
| Directories.LongNameTruncated | directory.c:33 | Only the first 14 bytes of a longer name take part in the match. |
| Directories.LiveEntries | directory.c:31 | A block with blockSize valid bytes has blockSize / 16 live entries. |
| Directories.LiveEntriesIgnoreStale | directory.c:31-32 | The live entries depend only on the valid bytes. Stale entries past them, such as a deleted one, are never looked at. |
| Directories.FirstMatch | directory.c:32-36 | A found entry is one of the entries and matches the name. Nothing is found exactly when no entry matches. |
| Directories.FirstMatchIsFirst | directory.c:32-36 | The entry at the first matching position is the one found. |
| Directories.FirstMatchAppend | directory.c:21-37 | Searching two runs of entries in turn reaches the second only when the first has no match. |
| Directories.ScanFrom | directory.c:21-38 | What the block scan finds matches the name. |
| Directories.EntryNamed | directory.c:11-42 | What the lookup finds matches the name, and is found only when the directory's inode can be fetched. |
| Directories.ScanSound | directory.c:21-37 | A found entry is a live entry of a block the scan read, one with i*512 < size. |
| Directories.FindNameSound | directory.c:21-37 | A found entry is a live entry of one of blocks 0 .. ceil(size/512)-1: never a stale entry, never from the block one past the end. |
| Directories.ScanStep | directory.c:24-37 | A failed block read ends the scan with nothing. A block with a match ends it with the block's first match. Any other block passes on to the next. |
| Directories.ScanPrefix | directory.c:21-38 | Scanning blocks i to n-1 is a search of their live entries in order. Without a match there, the scan continues at block n. |
| Directories.FindNameComplete | directory.c:21-41 | When every block can be read, the result is the first matching live entry in (block, entry) order. It is nothing exactly when no live entry matches. |
| Directories.FindNameBlockError | directory.c:24-28 | A failed block read reached before any match makes the lookup fail. |
| Directories.FindNameEmpty | directory.c:21-41 | A directory of size 0 has nothing to find. |
| Directories.FindName | directory.c:11-42 | Returns 0 and the entry the lookup defines, or -1 with the caller's `dirEnt` unchanged: the entry is written only on success. |
| Directories.ScanBlocks | directory.c:20-41 | The block loop returns 0 with the scan's entry, or -1 leaving `dirEnt` unchanged, as `ScanFrom` defines. |
| Directories.GetFreshBlock | directory.c:23-28 | Reading block i into a fresh buffer fails exactly when the scan sees no block i. Otherwise the buffer's live entries are the scan's view of block i. |
| Directories.SearchBlock | directory.c:30-37 | The entry loop returns the first of the blockSize / 16 live entries that matches. |
| Pathnames.Split | pathname.c:24-26 | Splitting always gives at least one token. |
| Pathnames.SplitTokens | pathname.c:24-26 | No token holds a '/', and a path with k separators has k + 1 tokens. |
| Pathnames.JoinSplit | pathname.c:24-26 | Putting the tokens back together with '/' gives the path back: splitting loses nothing. |
| Pathnames.SplitNoSlash | pathname.c:26 | A path without '/' is a single token. |
| Pathnames.SplitAppend | pathname.c:24-26 | Splitting at a '/' gives the tokens before it, then those after it. |
| Pathnames.SplitJoin | pathname.c:24-26 | Splitting joined tokens, none containing '/', gives the tokens back. |
| Pathnames.Walk | pathname.c:26-43 | The walk ends where it started, or with -1, or at an inumber in [0, 65535]. |
| Pathnames.Resolve | pathname.c:14-44 | A lookup returns -1 or a non-negative inumber, 1 or a 16-bit `d_inumber`. |
| Pathnames.LookupPath | pathname.c:14-44 | The loop returns exactly the inumber the path resolves to. |
| Pathnames.ResolveRoot | pathname.c:24-43 | "/" names the root inumber 1, and so does the empty path. |
| Pathnames.ResolveDropsFirstToken | pathname.c:24-25 | The token before the first '/' plays no part: "x/q" resolves as "/q" does. |
| Pathnames.WalkStopsAtEmpty | pathname.c:29-32 | An empty component ends the walk, and nothing after it is looked up. |
| Pathnames.ResolveTrailingSlash | pathname.c:29-32 | A trailing '/' changes nothing: "/a/b/" names what "/a/b" names. |
| Pathnames.ResolveDoubleSlash | pathname.c:29-32 | A doubled '/' ends the lookup: "/a//b" names what "/a" names. |
| Pathnames.WalkAppend | pathname.c:26-41 | Walking two runs of non-empty components: a failure in the first is the result, otherwise the second is walked from where the first ended. |
| Pathnames.ResolveExtend | pathname.c:26-43 | Extending a canonical path by "/" q walks q's components from the inumber the path names. An unresolvable path makes every extension fail. |
| Pathnames.ResolveChild | pathname.c:34-40 | If p names directory d, the child path p/n names the inumber of the entry `directory_findname` finds for n in d. It fails exactly when there is none. The root's child path is "/" n. |
| Pathnames.ResolveMissing | pathname.c:34-37 | A component that names no entry makes the lookup fail, and every path below it too. |

## Left out

- Output to stderr, and the file descriptor inside the filesystem handle:
  the image is a parameter.
- The superblock's bound on inumbers. The reader's core never consults it;
  only the repository's test program checks it (diskimageaccess.c:374).
- The write path (`diskimg_writesector`), opening and closing the image,
  and `diskimg_getsize`: the core does not use them.
- The checksum tool (SHA-1 through a foreign library) and the command-line test program (diskimageaccess.c).
  Only the property the checksum loop relies on is kept (`WholeFileTotal`).
- Inodes.IndexLookup: requires index*512 to fit a 32-bit `int`. The
  source's multiplication overflows otherwise, which is undefined
  behaviour in C; indices from `directory_findname` always fit.
- Files.GetBlock: same 32-bit requirement, for the same multiplication.
- Inodes.SmallLookupAsWritten: modelled only for indices below 12. Beyond
  that the source reads past the inode record, which has no defined value.
- A NUL byte inside the path or name: C stops the string there. The model
  takes the bytes before the terminator as its input.
- `strsep` writes NUL bytes into a local copy of the path. The model splits
  the path as a value (`Split`), so the caller's path is unchanged by
  construction and no copy is needed.
- The aliasing of the C buffers (a `struct inode[]` and a `uint16_t[]` over
  the same bytes) is replaced by explicit decoding of one byte sequence.

## Findings

| source | as written | input that shows it | evidently intended | confidence | as-written member | corrected member |
|---|---|---|---|---|---|---|
| inode.c:44-52 | Small mode indexes `i_addr[fileBlockIndex]` for any index that passes `fileBlockIndex * 512 > size`, and `i_addr` has 8 entries. | A small file of size 4096 with index 8: 8*512 = 4096 is not above the size, so the lookup returns `i_atime[0]` as a sector number. | The lookup fails with -1 for a small-mode index of 8 or more. | not executed | Inodes.SmallIndexEightAsWritten | Inodes.SectorOf |
| inode.c:23-33 | The slot `(inumber - 1) % 16` uses C's truncating `%`, and `inode_iget` does not check that inumber >= 1. | Inumber 0 gives slot -1 and copies `buf[-1]`, outside the buffer. A freed directory entry has `d_inumber` 0 and may keep its name, so `pathname_lookup` can pass 0 on (pathname.c:40). | `inode_iget` fails with -1 for an inumber below 1. | not executed | Inodes.InodeZeroAsWritten | Inodes.IGet |
