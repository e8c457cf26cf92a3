/** The file layer: fetching one block of a file's data, and the number of
    valid bytes in it (a full sector except in the file's last block). */
module Files {
  import opened DiskImg
  import opened Inodes

  /** A block `file_getblock` delivers: the data sector it read and the
      number of valid bytes it reports. */
  datatype Block = Block(sector: int, valid: int)

  /** The valid bytes reported for block `fileBlockIndex` of a file of
      `size` bytes, when its sector read delivered `bytes` bytes: the tail
      size % 512 for the block that holds the end of the file, the read's
      count otherwise. */
  function ValidBytes(size: int, fileBlockIndex: int, bytes: int): (v: int)
    ensures size >= 0 && 0 <= bytes <= SECTOR_SIZE ==> 0 <= v <= SECTOR_SIZE
    ensures size >= 0 && fileBlockIndex * 512 <= size < (fileBlockIndex + 1) * 512 ==>
              v == size - fileBlockIndex * 512
  {
    if size / 512 == fileBlockIndex then size % 512 else bytes
  }

  /** What `file_getblock` delivers for block `fileBlockIndex` of inode
      `inumber`: None where it returns -1 (the inode cannot be fetched, the
      index does not translate, or the data sector cannot be read). */
  function BlockAt(disk: Image, inumber: int, fileBlockIndex: int): (r: Option<Block>)
    ensures r.Some? ==> r.value.sector in disk && 0 <= r.value.sector < 0x1_0000
    ensures r.Some? ==> 0 <= r.value.valid <= SECTOR_SIZE
  {
    match InodeAt(disk, inumber)
    case None => None
    case Some(ino) =>
      var sector := SectorOf(disk, ino, fileBlockIndex);
      if sector == -1 || sector !in disk then None
      else Some(Block(sector, ValidBytes(GetSize(ino), fileBlockIndex, |disk[sector]|)))
  }

  /** `file_getblock`: reads block `fileBlockIndex` of inode `inumber` into
      `buf` and returns its number of valid bytes, or -1. On failure `buf`
      is left as it was. */
  method GetBlock(disk: Image, inumber: int, fileBlockIndex: int, buf: array<Byte>) returns (r: int)
    requires buf.Length == SECTOR_SIZE
    requires IsInt32(fileBlockIndex * 512)
    modifies buf
    ensures r == -1 <==> BlockAt(disk, inumber, fileBlockIndex).None?
    ensures r != -1 ==> r == BlockAt(disk, inumber, fileBlockIndex).value.valid
    ensures buf[..] == if r == -1 then old(buf[..])
                       else Overlay(old(buf[..]), disk[BlockAt(disk, inumber, fileBlockIndex).value.sector])
  {
    var rc, inp := IGet(disk, inumber);
    if rc != 0 {
      return -1;
    }

    var blockNum := IndexLookup(disk, inp, fileBlockIndex);
    if blockNum == -1 {
      return -1;
    }

    var fileSize := GetSize(inp);
    var bytes := ReadSector(disk, blockNum, buf);
    if bytes == -1 {
      return -1;
    }

    // the block that holds the end of the file reports only its tail
    if fileSize / 512 == fileBlockIndex {
      return fileSize % 512;
    }
    return bytes;
  }

  /** A successful block is the sector `inode_indexlookup` names for the
      index, in the inode `inode_iget` fetches. */
  lemma BlockIsLookedUp(disk: Image, inumber: int, fileBlockIndex: int)
    requires BlockAt(disk, inumber, fileBlockIndex).Some?
    ensures InodeAt(disk, inumber).Some?
    ensures BlockAt(disk, inumber, fileBlockIndex).value.sector ==
            SectorOf(disk, InodeAt(disk, inumber).value, fileBlockIndex)
  {
  }

  /** The block holding the end of the file (index size / 512) reports the
      size % 512 bytes of the file that lie in it. */
  lemma LastBlockValid(disk: Image, inumber: int, ino: Inode)
    requires InodeAt(disk, inumber) == Some(ino)
    requires BlockAt(disk, inumber, GetSize(ino) / 512).Some?
    ensures BlockAt(disk, inumber, GetSize(ino) / 512).value.valid == GetSize(ino) % 512
  {
  }

  /** Every other block that can be fetched lies wholly inside the file and
      reports the read's byte count, a full sector when the read is full. */
  lemma InnerBlockValid(disk: Image, inumber: int, ino: Inode, fileBlockIndex: int)
    requires InodeAt(disk, inumber) == Some(ino)
    requires fileBlockIndex != GetSize(ino) / 512
    requires BlockAt(disk, inumber, fileBlockIndex).Some?
    ensures 0 <= fileBlockIndex < GetSize(ino) / 512
    ensures BlockAt(disk, inumber, fileBlockIndex).value.valid ==
            |disk[BlockAt(disk, inumber, fileBlockIndex).value.sector]|
    ensures FullRead(disk, BlockAt(disk, inumber, fileBlockIndex).value.sector) ==>
              BlockAt(disk, inumber, fileBlockIndex).value.valid == SECTOR_SIZE
  {
  }

  /** When the size is a multiple of 512 the index one past the last block
      still passes the bounds check; in small mode it is then fetched from
      the address table and reports 0 valid bytes. */
  lemma OnePastEndBlock(disk: Image, inumber: int, ino: Inode)
    requires InodeAt(disk, inumber) == Some(ino)
    requires GetSize(ino) % 512 == 0 && GetSize(ino) < 4096 && !IsLarge(ino)
    requires ino.addr[GetSize(ino) / 512] in disk
    ensures BlockAt(disk, inumber, GetSize(ino) / 512) == Some(Block(ino.addr[GetSize(ino) / 512], 0))
  {
    LookupReadsNothing(disk, disk, ino, GetSize(ino) / 512);
  }

  /** The number of blocks a file of `size` bytes occupies. */
  function NumBlocks(size: int): (n: int)
    requires size >= 0
    ensures n >= 0 && (n - 1) * 512 < size <= n * 512
  {
    (size + 511) / 512
  }

  /** The valid bytes block `k` contributes to a whole-file read: none when
      it cannot be fetched. A checksum over the file stops with an error at
      such a block instead; the sums below are only used where every block
      can be fetched (FullBlocks), so the 0 never enters them. */
  function ValidAt(disk: Image, inumber: int, k: int): (v: int)
    ensures 0 <= v <= SECTOR_SIZE
  {
    match BlockAt(disk, inumber, k)
    case None => 0
    case Some(b) => b.valid
  }

  /** The valid bytes of blocks 0 to n-1 added up. */
  function TotalValid(disk: Image, inumber: int, n: nat): (total: int) {
    if n == 0 then 0 else TotalValid(disk, inumber, n - 1) + ValidAt(disk, inumber, n - 1)
  }

  /** Block `k` can be fetched, by a full sector read. */
  predicate FullBlock(disk: Image, inumber: int, k: int) {
    BlockAt(disk, inumber, k).Some? && FullRead(disk, BlockAt(disk, inumber, k).value.sector)
  }

  /** Blocks 0 to n-1 can all be fetched, each by a full sector read. */
  predicate FullBlocks(disk: Image, inumber: int, n: nat) {
    n == 0 || (FullBlocks(disk, inumber, n - 1) && FullBlock(disk, inumber, n - 1))
  }

  /** A fully read block wholly inside the file reports 512 bytes. */
  lemma InnerBlockFull(disk: Image, inumber: int, ino: Inode, k: int)
    requires InodeAt(disk, inumber) == Some(ino)
    requires k < GetSize(ino) / 512 && FullBlock(disk, inumber, k)
    ensures ValidAt(disk, inumber, k) == SECTOR_SIZE
  {
  }

  /** The block holding the end of the file, when it can be fetched,
      reports the last size % 512 bytes. */
  lemma TailBlock(disk: Image, inumber: int, ino: Inode)
    requires InodeAt(disk, inumber) == Some(ino)
    requires FullBlock(disk, inumber, GetSize(ino) / 512)
    ensures ValidAt(disk, inumber, GetSize(ino) / 512) == GetSize(ino) % 512
  {
    LastBlockValid(disk, inumber, ino);
  }

  /** Blocks wholly inside the file report 512 bytes each. */
  lemma {:induction false} PrefixTotal(disk: Image, inumber: int, ino: Inode, n: nat)
    requires InodeAt(disk, inumber) == Some(ino)
    requires n <= GetSize(ino) / 512 && FullBlocks(disk, inumber, n)
    ensures TotalValid(disk, inumber, n) == n * 512
  {
    if n > 0 {
      PrefixTotal(disk, inumber, ino, n - 1);
      InnerBlockFull(disk, inumber, ino, n - 1);
    }
  }

  /** A file of `size` bytes has size / 512 full blocks, then one more
      holding the tail when size % 512 is not 0. */
  lemma NumBlocksParts(size: int)
    requires size >= 0
    ensures size % 512 == 0 ==> NumBlocks(size) == size / 512
    ensures size % 512 != 0 ==> NumBlocks(size) == size / 512 + 1
    ensures size == size / 512 * 512 + size % 512
  {
  }

  /** Reading a whole file block by block, as a checksum over its contents
      does, delivers exactly `size` valid bytes when every sector read is
      full. */
  lemma {:induction false} WholeFileTotal(disk: Image, inumber: int, ino: Inode)
    requires InodeAt(disk, inumber) == Some(ino)
    requires FullBlocks(disk, inumber, NumBlocks(GetSize(ino)))
    ensures TotalValid(disk, inumber, NumBlocks(GetSize(ino))) == GetSize(ino)
  {
    var size := GetSize(ino);
    NumBlocksParts(size);
    PrefixTotal(disk, inumber, ino, size / 512);
    if size % 512 != 0 {
      TailBlock(disk, inumber, ino);
    }
  }
}
