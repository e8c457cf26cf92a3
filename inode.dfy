/** The inode layer: fetching an inode record by inumber, rebuilding its
    24-bit size, and translating a file block index into a disk sector through
    direct, singly-indirect and doubly-indirect addressing. */
module Inodes {
  import opened DiskImg

  /** First sector of the inode table. */
  const INODE_BLOCK: int := 2
  /** Bytes in one on-disk inode record. */
  const INODE_SIZE: int := 32
  /** Inode records per sector: SECTOR_SIZE / INODE_SIZE. Arithmetic below
      writes this and the other divisors as literals (16, 32, 256, 512), which
      the verifier treats as linear. */
  const INODES_PER_BLOCK: int := 16
  /** Entries of the address table `i_addr`. */
  const NUM_ADDR: int := 8
  /** Address-table slots that hold singly-indirect blocks in large mode. */
  const NUM_SGL_INDIR_BLOCKS: int := 7
  /** 16-bit sector numbers per indirect block: SECTOR_SIZE / 2. */
  const BLOCKNUMS_PER_BLOCK: int := 256
  /** File bytes reachable through the seven singly-indirect blocks. */
  const SINGLY_INDIRECT_BYTES: int := 7 * 256 * 512
  /** Sizes are 24-bit: every size is below this bound. */
  const SIZE_LIMIT: int := 0x100_0000

  /** An on-disk inode record, field by field. */
  datatype Inode = Inode(
    mode: U16, nlink: Byte, uid: Byte, gid: Byte,
    size0: Byte,         // high 8 bits of the size
    size1: U16,          // low 16 bits of the size
    addr: seq<U16>,      // the address table
    atime: seq<U16>, mtime: seq<U16>)
  {
    predicate WellFormed() {
      |addr| == NUM_ADDR && |atime| == 2 && |mtime| == 2
    }
  }

  /** The 32-byte record seen as a `struct inode` (little-endian words). */
  function DecodeInode(rec: seq<Byte>): (ino: Inode)
    requires |rec| == INODE_SIZE
    ensures ino.WellFormed()
  {
    Inode(Word(rec, 0), rec[2], rec[3], rec[4], rec[5], Word(rec, 3),
          [Word(rec, 4), Word(rec, 5), Word(rec, 6), Word(rec, 7),
           Word(rec, 8), Word(rec, 9), Word(rec, 10), Word(rec, 11)],
          [Word(rec, 12), Word(rec, 13)], [Word(rec, 14), Word(rec, 15)])
  }

  // ---------------------------------------------------------------------------
  // inode_getsize

  function Pow2(k: nat): (p: nat)
    ensures p >= 1
  {
    if k == 0 then 1 else 2 * Pow2(k - 1)
  }

  /** C's `a << k` on a non-negative value. */
  function ShiftLeft(a: nat, k: nat): (r: nat) {
    a * Pow2(k)
  }

  /** C's `a | b` on non-negative values, bit by bit from the lowest. */
  function BitOr(a: nat, b: nat): (r: nat)
    decreases a + b
  {
    if a == 0 then b
    else if b == 0 then a
    else 2 * BitOr(a / 2, b / 2) + (if a % 2 == 1 || b % 2 == 1 then 1 else 0)
  }

  /** Or-ing a value below 2^k into a value shifted left by k adds them: the
      bits do not overlap. */
  lemma {:induction false} OrShiftedIsSum(a: nat, b: nat, k: nat)
    requires b < Pow2(k)
    ensures BitOr(ShiftLeft(a, k), b) == ShiftLeft(a, k) + b
  {
    if k == 0 || a == 0 || b == 0 {
    } else {
      var h := ShiftLeft(a, k - 1);
      assert ShiftLeft(a, k) == 2 * h;
      assert (2 * h) / 2 == h && (2 * h) % 2 == 0;
      OrShiftedIsSum(a, b / 2, k - 1);
    }
  }

  /** `inode_getsize`: the 24-bit size, high field above the 16-bit low
      field. The source builds it with a shift and a bitwise or; the two
      fields occupy disjoint bits, so that is this sum (GetSizeIsShiftOr). */
  function GetSize(ino: Inode): (size: int)
    ensures 0 <= size < SIZE_LIMIT
  {
    (ino.size0 as int) * 0x1_0000 + ino.size1 as int
  }

  /** The size equals the source's expression `(i_size0 << 16) | i_size1`. */
  lemma GetSizeIsShiftOr(ino: Inode)
    ensures GetSize(ino) == BitOr(ShiftLeft(ino.size0, 16), ino.size1)
  {
    assert Pow2(16) == 0x1_0000 by {
      assert Pow2(4) == 16;
      assert Pow2(8) == 256;
      assert Pow2(12) == 4096;
    }
    OrShiftedIsSum(ino.size0, ino.size1, 16);
  }

  /** Splitting the size with div/mod 2^16 gives both fields back. */
  lemma GetSizeFields(ino: Inode)
    ensures GetSize(ino) / 0x1_0000 == ino.size0
    ensures GetSize(ino) % 0x1_0000 == ino.size1
  {
  }

  /** The large-file bit ILARG (bit 12, value 0x1000) of `i_mode` is set:
      the mode's low 13 bits reach 0x1000. */
  predicate IsLarge(ino: Inode)
    ensures IsLarge(ino) <==> ino.mode % 0x2000 >= 0x1000
  {
    (ino.mode / 0x1000) % 2 == 1
  }

  // ---------------------------------------------------------------------------
  // inode_iget

  /** The sector of the inode table holding inode `inumber`. */
  function InodeSector(inumber: int): (sector: int)
    requires inumber >= 1
  {
    INODE_BLOCK + (inumber - 1) / 16
  }

  /** The slot of inode `inumber` within its sector. */
  function InodeSlot(inumber: int): (slot: int)
    requires inumber >= 1
  {
    (inumber - 1) % 16
  }

  /** Every inumber has one place in the inode table: a sector from
      INODE_BLOCK on and a slot in range, from which the inumber is recovered. */
  lemma InodeLocation(inumber: int)
    requires inumber >= 1
    ensures InodeSector(inumber) >= INODE_BLOCK
    ensures 0 <= InodeSlot(inumber) < INODES_PER_BLOCK
    ensures (InodeSector(inumber) - INODE_BLOCK) * 16 + InodeSlot(inumber) + 1 == inumber
  {
  }

  /** Two inumbers in the same sector and slot are the same inumber. */
  lemma {:induction false} InodeLocationInjective(m: int, n: int)
    requires m >= 1 && n >= 1
    requires InodeSector(m) == InodeSector(n) && InodeSlot(m) == InodeSlot(n)
    ensures m == n
  {
    InodeLocation(m);
    InodeLocation(n);
  }

  /** Record number `slot` of a sector buffer. */
  function RecordAt(buf: seq<Byte>, slot: int): (rec: seq<Byte>)
    requires |buf| == SECTOR_SIZE && 0 <= slot < INODES_PER_BLOCK
    ensures |rec| == INODE_SIZE
  {
    buf[slot * 32 .. (slot + 1) * 32]
  }

  /** Record `slot` is bytes slot*32 to slot*32+31 of the buffer, the
      element `buf[slot]` of the buffer seen as a `struct inode` array. */
  lemma RecordBytes(buf: seq<Byte>, slot: int)
    requires |buf| == SECTOR_SIZE && 0 <= slot < INODES_PER_BLOCK
    ensures forall i :: 0 <= i < INODE_SIZE ==> RecordAt(buf, slot)[i] == buf[slot * 32 + i]
  {
  }

  /** What `inode_iget` fetches for `inumber`: None where it returns -1. */
  function InodeAt(disk: Image, inumber: int): (r: Option<Inode>)
    ensures r.Some? ==> inumber >= 1 && InodeSector(inumber) in disk && r.value.WellFormed()
  {
    if inumber < 1 then None
    else
      var sector := InodeSector(inumber);
      if sector !in disk then None
      else Some(DecodeInode(RecordAt(Overlay(Zeros(), disk[sector]), InodeSlot(inumber))))
  }

  /** With a full read of its sector, inode `inumber` is record
      (inumber-1) % 16 of sector 2 + (inumber-1) / 16, whatever the buffer
      held before. */
  lemma InodeAtFullRead(disk: Image, inumber: int)
    requires inumber >= 1 && FullRead(disk, InodeSector(inumber))
    ensures InodeAt(disk, inumber) == Some(DecodeInode(RecordAt(disk[InodeSector(inumber)], InodeSlot(inumber))))
  {
    FullReadOverwrites(disk, InodeSector(inumber), Zeros());
  }

  /** The sector buffer `inode_iget` reads inode `inumber`'s sector into
      holds the record that `InodeAt` decodes. */
  lemma InodeFromBuffer(disk: Image, inumber: int, buf: seq<Byte>)
    requires inumber >= 1 && InodeSector(inumber) in disk
    requires buf == Overlay(Zeros(), disk[InodeSector(inumber)])
    ensures InodeAt(disk, inumber) == Some(DecodeInode(RecordAt(buf, InodeSlot(inumber))))
  {
  }

  /** `inode_iget`: returns 0 with the inode in `inp`, or -1 when the sector
      read fails (`inp` is then not written). */
  method IGet(disk: Image, inumber: int) returns (rc: int, inp: Inode)
    ensures match InodeAt(disk, inumber)
            case None => rc == -1
            case Some(ino) => rc == 0 && inp == ino
  {
    if inumber < 1 {
      // the source has no such check (see Findings in the README)
      return -1, *;
    }
    var sectorNum := INODE_BLOCK + (inumber - 1) / 16;
    var bytes, buf := ReadFreshSector(disk, sectorNum);
    if bytes == -1 {
      return -1, *;
    }
    var indexInBlock := (inumber - 1) % 16;
    InodeFromBuffer(disk, inumber, buf[..]);
    inp := DecodeInode(RecordAt(buf[..], indexInBlock));
    rc := 0;
  }

  /** The as-written slot computation of inode_iget: C's `%` truncates toward
      zero, so it is negative for a negative dividend. */
  function InodeSlotAsWritten(inumber: int): (slot: int)
    ensures -INODES_PER_BLOCK < slot < INODES_PER_BLOCK
  {
    var a := inumber - 1;
    if a >= 0 then a % 16 else -((-a) % 16)
  }

  /** As written, inumber 0 selects slot -1, outside the sector buffer, while
      the corrected fetch reports a failure. */
  lemma InodeZeroAsWritten(disk: Image)
    ensures InodeSlotAsWritten(0) == -1
    ensures InodeAt(disk, 0) == None
  {
  }

  // ---------------------------------------------------------------------------
  // inode_indexlookup

  /** Entry k of a sector buffer seen as an indirect block: an array of
      16-bit sector numbers. */
  function EntryAt(buf: seq<Byte>, k: int): (sector: int)
    requires |buf| == SECTOR_SIZE && 0 <= k < BLOCKNUMS_PER_BLOCK
    ensures 0 <= sector < 0x1_0000
  {
    Word(buf, k)
  }

  /** What `inode_indexlookup` returns for block `fileBlockIndex` of `ino`:
      the sector number, or -1. */
  function SectorOf(disk: Image, ino: Inode, fileBlockIndex: int): (r: int)
    requires ino.WellFormed()
    ensures r == -1 || 0 <= r < 0x1_0000
  {
    if fileBlockIndex * 512 > GetSize(ino) || fileBlockIndex < 0 then -1
    else if !IsLarge(ino) then
      // the source indexes i_addr without this bound (see Findings)
      if fileBlockIndex < NUM_ADDR then ino.addr[fileBlockIndex] else -1
    else LargeSectorOf(disk, ino, fileBlockIndex)
  }

  /** Large-mode translation of an index that passed the bounds check. */
  function LargeSectorOf(disk: Image, ino: Inode, fileBlockIndex: int): (r: int)
    requires ino.WellFormed()
    requires 0 <= fileBlockIndex && fileBlockIndex * 512 <= GetSize(ino)
    ensures r == -1 || 0 <= r < 0x1_0000
  {
    IndexBounds(ino, fileBlockIndex);
    var blockNum := fileBlockIndex / 256;
    var iaddrIndex := if blockNum > NUM_SGL_INDIR_BLOCKS then NUM_SGL_INDIR_BLOCKS else blockNum;
    var indirectBlock := ino.addr[iaddrIndex];
    if indirectBlock !in disk then -1
    else
      var buf := Overlay(Zeros(), disk[indirectBlock]);
      if GetSize(ino) <= SINGLY_INDIRECT_BYTES || blockNum < NUM_SGL_INDIR_BLOCKS then
        EntryAt(buf, fileBlockIndex % 256)
      else
        SecondLevelEntry(disk, buf, blockNum - NUM_SGL_INDIR_BLOCKS, fileBlockIndex % 256)
  }

  /** Through a first-level block held in `buf`: entry k of the second-level
      block that its entry `secondIndex` names, read into the same buffer. */
  function SecondLevelEntry(disk: Image, buf: seq<Byte>, secondIndex: int, k: int): (r: int)
    requires |buf| == SECTOR_SIZE
    requires 0 <= secondIndex < BLOCKNUMS_PER_BLOCK && 0 <= k < BLOCKNUMS_PER_BLOCK
    ensures r == -1 || 0 <= r < 0x1_0000
  {
    var second := EntryAt(buf, secondIndex);
    if second !in disk then -1
    else EntryAt(Overlay(buf, disk[second]), k)
  }

  /** Index arithmetic that holds for every index that passes the bounds
      check: it lies below 2^15 and its second-level index stays inside an
      indirect block. */
  lemma IndexBounds(ino: Inode, fileBlockIndex: int)
    requires 0 <= fileBlockIndex && fileBlockIndex * 512 <= GetSize(ino)
    ensures fileBlockIndex < 0x8000
    ensures fileBlockIndex / 256 - NUM_SGL_INDIR_BLOCKS < BLOCKNUMS_PER_BLOCK
  {
  }

  /** Out-of-range indices and small-mode lookups read no sector: the result
      is the same on every disk, -1 out of range and the address-table entry
      in small mode (only entries 0 to 7 exist). */
  lemma {:induction false} LookupReadsNothing(d1: Image, d2: Image, ino: Inode, fileBlockIndex: int)
    requires ino.WellFormed()
    requires fileBlockIndex < 0 || fileBlockIndex * 512 > GetSize(ino) || !IsLarge(ino)
    ensures SectorOf(d1, ino, fileBlockIndex) == SectorOf(d2, ino, fileBlockIndex)
    ensures fileBlockIndex < 0 || fileBlockIndex * 512 > GetSize(ino) ==> SectorOf(d1, ino, fileBlockIndex) == -1
    ensures !IsLarge(ino) && SectorOf(d1, ino, fileBlockIndex) != -1 ==>
              0 <= fileBlockIndex < NUM_ADDR && SectorOf(d1, ino, fileBlockIndex) == ino.addr[fileBlockIndex]
    ensures !IsLarge(ino) && 0 <= fileBlockIndex < NUM_ADDR && fileBlockIndex * 512 <= GetSize(ino) ==>
              SectorOf(d1, ino, fileBlockIndex) == ino.addr[fileBlockIndex]
  {
  }

  /** The singly-indirect bound: when the size is at most 7*256*512 bytes,
      an index that passes the bounds check reaches address slot 7 only if it
      is the one-past-end index 7*256 of a file of exactly that size. */
  lemma SinglyIndirectLimit(ino: Inode, fileBlockIndex: int)
    requires 0 <= fileBlockIndex && fileBlockIndex * 512 <= GetSize(ino) <= SINGLY_INDIRECT_BYTES
    ensures fileBlockIndex / 256 <= NUM_SGL_INDIR_BLOCKS
    ensures fileBlockIndex / 256 == NUM_SGL_INDIR_BLOCKS ==>
              fileBlockIndex == 7 * 256 && GetSize(ino) == SINGLY_INDIRECT_BYTES
  {
  }

  /** Large mode through a singly-indirect block (tier below 7, or any tier
      while the size is at most 7*256*512): the result is entry
      index % 256 of the block named by address slot index / 256, and -1 when
      that block cannot be read. */
  lemma {:induction false} SinglyIndirectLookup(disk: Image, ino: Inode, fileBlockIndex: int)
    requires ino.WellFormed() && IsLarge(ino)
    requires 0 <= fileBlockIndex && fileBlockIndex * 512 <= GetSize(ino)
    requires fileBlockIndex / 256 < NUM_SGL_INDIR_BLOCKS || GetSize(ino) <= SINGLY_INDIRECT_BYTES
    ensures fileBlockIndex / 256 < NUM_ADDR
    ensures ino.addr[fileBlockIndex / 256] !in disk ==> SectorOf(disk, ino, fileBlockIndex) == -1
    ensures FullRead(disk, ino.addr[fileBlockIndex / 256]) ==>
              SectorOf(disk, ino, fileBlockIndex) ==
              EntryAt(disk[ino.addr[fileBlockIndex / 256]], fileBlockIndex % 256)
  {
    if GetSize(ino) <= SINGLY_INDIRECT_BYTES {
      SinglyIndirectLimit(ino, fileBlockIndex);
    }
    var indirect := ino.addr[fileBlockIndex / 256];
    if FullRead(disk, indirect) {
      FullReadOverwrites(disk, indirect, Zeros());
    }
  }

  /** Large mode through the doubly-indirect block (tier 7 or more, size over
      7*256*512): address slot 7 names the first-level block, its entry
      tier - 7 (always below 256) names the second-level block, and the result
      is that block's entry index % 256; -1 when either block cannot be read,
      whether or not the first read was full. */
  lemma {:induction false} DoublyIndirectLookup(disk: Image, ino: Inode, fileBlockIndex: int)
    requires ino.WellFormed() && IsLarge(ino)
    requires 0 <= fileBlockIndex && fileBlockIndex * 512 <= GetSize(ino)
    requires fileBlockIndex / 256 >= NUM_SGL_INDIR_BLOCKS && GetSize(ino) > SINGLY_INDIRECT_BYTES
    ensures 0 <= fileBlockIndex / 256 - NUM_SGL_INDIR_BLOCKS < BLOCKNUMS_PER_BLOCK
    ensures ino.addr[NUM_SGL_INDIR_BLOCKS] !in disk ==> SectorOf(disk, ino, fileBlockIndex) == -1
    ensures ino.addr[NUM_SGL_INDIR_BLOCKS] in disk &&
            EntryAt(Overlay(Zeros(), disk[ino.addr[NUM_SGL_INDIR_BLOCKS]]),
                    fileBlockIndex / 256 - NUM_SGL_INDIR_BLOCKS) !in disk ==>
              SectorOf(disk, ino, fileBlockIndex) == -1
    ensures FullRead(disk, ino.addr[NUM_SGL_INDIR_BLOCKS]) ==>
              var second := EntryAt(disk[ino.addr[NUM_SGL_INDIR_BLOCKS]],
                                    fileBlockIndex / 256 - NUM_SGL_INDIR_BLOCKS);
              (second !in disk ==> SectorOf(disk, ino, fileBlockIndex) == -1) &&
              (FullRead(disk, second) ==>
                 SectorOf(disk, ino, fileBlockIndex) == EntryAt(disk[second], fileBlockIndex % 256))
  {
    IndexBounds(ino, fileBlockIndex);
    var first := ino.addr[NUM_SGL_INDIR_BLOCKS];
    if FullRead(disk, first) {
      var buf := Overlay(Zeros(), disk[first]);
      FullReadOverwrites(disk, first, Zeros());
      var second := EntryAt(disk[first], fileBlockIndex / 256 - NUM_SGL_INDIR_BLOCKS);
      if FullRead(disk, second) {
        FullReadOverwrites(disk, second, buf);
      }
    }
  }

  /** `inode_indexlookup`: the sector holding block `fileBlockIndex` of the
      file, or -1. The product fileBlockIndex * 512 must fit the source's
      `int`. */
  method IndexLookup(disk: Image, inp: Inode, fileBlockIndex: int) returns (r: int)
    requires inp.WellFormed()
    requires IsInt32(fileBlockIndex * 512)
    ensures r == SectorOf(disk, inp, fileBlockIndex)
  {
    var fileSize := GetSize(inp);
    if fileBlockIndex * 512 > fileSize || fileBlockIndex < 0 {
      return -1;
    }

    // addresses held in the inode itself
    if !IsLarge(inp) {
      if fileBlockIndex >= NUM_ADDR {
        return -1;
      }
      return inp.addr[fileBlockIndex];
    }

    r := LargeIndexLookup(disk, inp, fileBlockIndex);
  }

  /** The large-mode part of `inode_indexlookup`, for an index that passed
      the bounds check. */
  method LargeIndexLookup(disk: Image, inp: Inode, fileBlockIndex: int) returns (r: int)
    requires inp.WellFormed()
    requires 0 <= fileBlockIndex && fileBlockIndex * 512 <= GetSize(inp)
    ensures r == LargeSectorOf(disk, inp, fileBlockIndex)
  {
    IndexBounds(inp, fileBlockIndex);
    var blockNum := fileBlockIndex / 256;
    var iaddrIndex := blockNum;
    if blockNum > NUM_SGL_INDIR_BLOCKS {
      iaddrIndex := NUM_SGL_INDIR_BLOCKS;
    }
    var indirectBlock := inp.addr[iaddrIndex];
    var bytes, buf := ReadFreshSector(disk, indirectBlock);
    if bytes == -1 {
      return -1;
    }
    ghost var first := buf[..];

    if GetSize(inp) <= SINGLY_INDIRECT_BYTES || blockNum < NUM_SGL_INDIR_BLOCKS {
      // one level of indirection
      return EntryAt(buf[..], fileBlockIndex % 256);
    } else {
      // two levels of indirection; the second read reuses buf
      var secondIndex := blockNum - NUM_SGL_INDIR_BLOCKS;
      r := ReadEntry(disk, EntryAt(buf[..], secondIndex), buf, fileBlockIndex % 256);
      assert r == SecondLevelEntry(disk, first, secondIndex, fileBlockIndex % 256);
    }
  }

  /** Reads `sector` into `buf` (which it overwrites) and returns entry k of
      it, or -1 when the read fails. */
  method ReadEntry(disk: Image, sector: int, buf: array<Byte>, k: int) returns (r: int)
    requires buf.Length == SECTOR_SIZE && 0 <= k < BLOCKNUMS_PER_BLOCK
    modifies buf
    ensures r == if sector in disk then EntryAt(Overlay(old(buf[..]), disk[sector]), k) else -1
  {
    var bytes := ReadSector(disk, sector, buf);
    if bytes == -1 {
      return -1;
    }
    return EntryAt(buf[..], k);
  }

  /** Small-mode lookup as written: `i_addr` is indexed with whatever passes
      the bounds check, and in the record the words after the eight `i_addr`
      entries are `i_atime` then `i_mtime`, so indices 8 to 11 read those. */
  function SmallLookupAsWritten(ino: Inode, fileBlockIndex: int): (r: int)
    requires ino.WellFormed() && !IsLarge(ino)
    requires fileBlockIndex < NUM_ADDR + 4
    ensures r == -1 || 0 <= r < 0x1_0000
  {
    if fileBlockIndex * 512 > GetSize(ino) || fileBlockIndex < 0 then -1
    else (ino.addr + ino.atime + ino.mtime)[fileBlockIndex]
  }

  /** A full small file (4096 bytes) lets index 8 through the bounds check;
      as written the lookup then returns the first access-time word as a
      sector number, where the corrected lookup fails. */
  lemma SmallIndexEightAsWritten(disk: Image, ino: Inode)
    requires ino.WellFormed() && !IsLarge(ino) && GetSize(ino) == 4096
    ensures SmallLookupAsWritten(ino, NUM_ADDR) == ino.atime[0]
    ensures SectorOf(disk, ino, NUM_ADDR) == -1
  {
  }
}
