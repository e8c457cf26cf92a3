/** The block store the filesystem reader decodes: an immutable disk image,
    addressed by sector number. A sector present in the image reads as the
    bytes it holds (a full sector, or fewer at the end of a short image); a
    sector absent from it is one whose read fails with -1. */
module DiskImg {

  /** Size of a disk sector in bytes (diskimg.h). */
  const SECTOR_SIZE: int := 512

  datatype Option<T> = None | Some(value: T)

  /** An unsigned 8-bit value. */
  type Byte = x: int | 0 <= x < 0x100

  /** An unsigned 16-bit value. */
  type U16 = x: int | 0 <= x < 0x1_0000

  /** The bytes one sector read can deliver: at most a sector's worth. */
  type SectorData = s: seq<Byte> | |s| <= 512

  /** The disk image: what a read of each readable sector delivers. */
  type Image = map<int, SectorData>

  /** A value that fits the source's 32-bit `int`. */
  predicate IsInt32(x: int) {
    -0x8000_0000 <= x < 0x8000_0000
  }

  /** The model of an uninitialised sector buffer: all zero bytes. */
  function Zeros(): (z: seq<Byte>)
    ensures |z| == SECTOR_SIZE
    ensures forall k :: 0 <= k < |z| ==> z[k] == 0
  {
    seq(SECTOR_SIZE, _ => 0)
  }

  /** What a sector buffer holds after a read that delivered `data` into it:
      the first |data| bytes are the delivered ones, the rest keep what the
      buffer held before. */
  function Overlay(buf: seq<Byte>, data: SectorData): (r: seq<Byte>)
    requires |buf| == SECTOR_SIZE
    ensures |r| == SECTOR_SIZE
  {
    data + buf[|data|..]
  }

  /** The overlaid buffer byte by byte: the delivered bytes first, then the
      bytes the buffer already held at the positions the read did not
      reach. */
  lemma OverlayContents(buf: seq<Byte>, data: SectorData)
    requires |buf| == SECTOR_SIZE
    ensures forall k :: 0 <= k < |data| ==> Overlay(buf, data)[k] == data[k]
    ensures forall k :: |data| <= k < SECTOR_SIZE ==> Overlay(buf, data)[k] == buf[k]
  {
  }

  /** A read of `sector` succeeds and delivers a whole sector. */
  predicate FullRead(disk: Image, sector: int) {
    sector in disk && |disk[sector]| == SECTOR_SIZE
  }

  /** A full read leaves nothing of the buffer's previous contents. */
  lemma FullReadOverwrites(disk: Image, sector: int, buf: seq<Byte>)
    requires FullRead(disk, sector) && |buf| == SECTOR_SIZE
    ensures Overlay(buf, disk[sector]) == disk[sector]
  {
  }

  /** The little-endian 16-bit word number k of a buffer, i.e. element k of
      the buffer seen as a `uint16_t` array, as a number. */
  function Word(buf: seq<Byte>, k: int): (w: U16)
    requires 0 <= k && 2 * k + 1 < |buf|
  {
    (buf[2 * k + 1] as int) * 0x100 + buf[2 * k] as int
  }

  /** A word splits back into its two bytes, the low byte first
      (little-endian). */
  lemma WordBytes(buf: seq<Byte>, k: int)
    requires 0 <= k && 2 * k + 1 < |buf|
    ensures Word(buf, k) % 0x100 == buf[2 * k] && Word(buf, k) / 0x100 == buf[2 * k + 1]
  {
  }

  /** `diskimg_readsector`: reads sector `sectorNum` into `buf` and returns the
      number of bytes read, or -1 (leaving `buf` as it was) on error. */
  method ReadSector(disk: Image, sectorNum: int, buf: array<Byte>) returns (bytes: int)
    requires buf.Length == SECTOR_SIZE
    modifies buf
    ensures bytes == -1 <==> sectorNum !in disk
    ensures sectorNum in disk ==> bytes == |disk[sectorNum]| <= SECTOR_SIZE
    ensures buf[..] == if sectorNum in disk then Overlay(old(buf[..]), disk[sectorNum]) else old(buf[..])
  {
    if sectorNum !in disk {
      return -1;
    }
    var data := disk[sectorNum];
    forall k | 0 <= k < |data| {
      buf[k] := data[k];
    }
    assert buf[..] == data + old(buf[..])[|data|..];
    bytes := |data|;
  }

  /** A read into a sector buffer the caller declares on its stack without
      initialising it (modelled as zero-filled): the new buffer and the
      byte count, or -1 with the buffer still all zero. */
  method ReadFreshSector(disk: Image, sectorNum: int) returns (bytes: int, buf: array<Byte>)
    ensures fresh(buf) && buf.Length == SECTOR_SIZE
    ensures bytes == -1 <==> sectorNum !in disk
    ensures sectorNum in disk ==> bytes == |disk[sectorNum]|
    ensures buf[..] == if sectorNum in disk then Overlay(Zeros(), disk[sectorNum]) else Zeros()
  {
    buf := new Byte[SECTOR_SIZE](_ => 0);
    assert buf[..] == Zeros();
    bytes := ReadSector(disk, sectorNum, buf);
  }
}
