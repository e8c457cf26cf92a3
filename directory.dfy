/** The directory layer: finding the entry for a name in a directory by
    scanning its blocks in order and, within each block, only the entries
    that lie inside the block's valid bytes. */
module Directories {
  import opened DiskImg
  import opened Inodes
  import opened Files

  /** Bytes in one directory entry: a 16-bit inumber, then the name field. */
  const DIRENT_SIZE: int := 16
  /** Entries per directory block: SECTOR_SIZE / DIRENT_SIZE. */
  const DIRENTS_PER_BLOCK: int := 32
  /** Width of the name field, which holds no terminator when full. */
  const MAX_COMPONENT_LENGTH: int := 14

  /** The contents of a name field. */
  type DName = s: seq<Byte> | |s| == MAX_COMPONENT_LENGTH witness seq(14, _ => 0)

  /** A directory entry `struct direntv6`. */
  datatype Dirent = Dirent(inumber: U16, name: DName)

  /** Entry j of a sector buffer seen as an array of directory entries. */
  function DecodeDirent(buf: seq<Byte>, j: int): (d: Dirent)
    requires |buf| == SECTOR_SIZE && 0 <= j < DIRENTS_PER_BLOCK
    ensures d.inumber % 0x100 == buf[16 * j] && d.inumber / 0x100 == buf[16 * j + 1]
    ensures forall i :: 0 <= i < MAX_COMPONENT_LENGTH ==> d.name[i] == buf[16 * j + 2 + i]
  {
    Dirent(Word(buf, 8 * j), buf[16 * j + 2 .. 16 * j + 16])
  }

  // ---------------------------------------------------------------------------
  // The bounded name comparison

  /** No byte of `s` is the NUL terminator. */
  predicate NoNul(s: seq<Byte>) {
    forall k :: 0 <= k < |s| ==> s[k] != 0
  }

  /** `strncmp(name, dname, 14) == 0` from position k on, where `name` is a
      C string given by the bytes before its terminator: characters are
      compared until they differ, both end, or 14 have been compared. */
  function NameMatchFrom(name: seq<Byte>, dname: DName, k: nat): (r: bool)
    requires k <= MAX_COMPONENT_LENGTH
    ensures r && NoNul(name) ==>
              forall j :: k <= j < MAX_COMPONENT_LENGTH && j < |name| ==> name[j] == dname[j]
    ensures r && NoNul(name) && k <= |name| < MAX_COMPONENT_LENGTH ==> dname[|name|] == 0
    decreases MAX_COMPONENT_LENGTH - k
  {
    if k == MAX_COMPONENT_LENGTH then true
    else
      var c := if k < |name| then name[k] else 0;
      if c != dname[k] then false
      else c == 0 || NameMatchFrom(name, dname, k + 1)
  }

  /** `strncmp(name, dname, 14) == 0`. */
  predicate NameMatches(name: seq<Byte>, dname: DName)
    ensures NameMatches(name, dname) && NoNul(name) ==>
              forall j :: 0 <= j < MAX_COMPONENT_LENGTH && j < |name| ==> name[j] == dname[j]
    ensures NameMatches(name, dname) && NoNul(name) && |name| < MAX_COMPONENT_LENGTH ==>
              dname[|name|] == 0
  {
    NameMatchFrom(name, dname, 0)
  }

  lemma {:induction false} NameMatchFromIff(name: seq<Byte>, dname: DName, k: nat)
    requires NoNul(name) && k <= MAX_COMPONENT_LENGTH && k <= |name|
    ensures NameMatchFrom(name, dname, k) <==>
              (|name| >= MAX_COMPONENT_LENGTH && name[k..MAX_COMPONENT_LENGTH] == dname[k..]) ||
              (|name| < MAX_COMPONENT_LENGTH && name[k..] == dname[k..|name|] && dname[|name|] == 0)
    decreases MAX_COMPONENT_LENGTH - k
  {
    if k == MAX_COMPONENT_LENGTH {
    } else if k == |name| {
    } else {
      NameMatchFromIff(name, dname, k + 1);
      var hi := if |name| >= MAX_COMPONENT_LENGTH then MAX_COMPONENT_LENGTH else |name|;
      assert name[k..hi] == [name[k]] + name[k + 1..hi];
      assert dname[k..hi] == [dname[k]] + dname[k + 1..hi];
    }
  }

  /** A name matches a name field exactly when its first 14 bytes fill the
      field, or when it is shorter and the field holds it followed by a NUL
      (whatever follows that NUL). */
  lemma NameMatchesIff(name: seq<Byte>, dname: DName)
    requires NoNul(name)
    ensures NameMatches(name, dname) <==>
              (|name| >= MAX_COMPONENT_LENGTH && name[..MAX_COMPONENT_LENGTH] == dname) ||
              (|name| < MAX_COMPONENT_LENGTH && name == dname[..|name|] && dname[|name|] == 0)
  {
    NameMatchFromIff(name, dname, 0);
    assert dname[0..] == dname;
    assert name[0..] == name;
  }

  /** Only the first 14 bytes of a name take part in the comparison. */
  lemma LongNameTruncated(name: seq<Byte>, dname: DName)
    requires NoNul(name) && |name| > MAX_COMPONENT_LENGTH
    ensures NameMatches(name, dname) == NameMatches(name[..MAX_COMPONENT_LENGTH], dname)
  {
    NameMatchesIff(name, dname);
    NameMatchesIff(name[..MAX_COMPONENT_LENGTH], dname);
  }

  // ---------------------------------------------------------------------------
  // One block

  /** The entries of a block buffer that lie inside its `valid` bytes. */
  function LiveEntries(buf: seq<Byte>, valid: int): (ents: seq<Dirent>)
    requires |buf| == SECTOR_SIZE && 0 <= valid <= SECTOR_SIZE
    ensures |ents| == valid / 16
  {
    seq(valid / 16, j requires 0 <= j < valid / 16 => DecodeDirent(buf, j))
  }

  /** The live entries are decoded from the valid bytes alone: bytes past
      the last whole entry inside them (stale entries included) are never
      looked at. */
  lemma LiveEntriesIgnoreStale(b1: seq<Byte>, b2: seq<Byte>, valid: int)
    requires |b1| == SECTOR_SIZE && |b2| == SECTOR_SIZE && 0 <= valid <= SECTOR_SIZE
    requires b1[..valid / 16 * 16] == b2[..valid / 16 * 16]
    ensures LiveEntries(b1, valid) == LiveEntries(b2, valid)
  {
    forall j | 0 <= j < valid / 16
      ensures DecodeDirent(b1, j) == DecodeDirent(b2, j)
    {
      assert 16 * j + 16 <= valid / 16 * 16;
      assert b1[16 * j .. 16 * j + 16] == b2[16 * j .. 16 * j + 16] by {
        assert b1[16 * j .. 16 * j + 16] == b1[..valid / 16 * 16][16 * j .. 16 * j + 16];
        assert b2[16 * j .. 16 * j + 16] == b2[..valid / 16 * 16][16 * j .. 16 * j + 16];
      }
      assert b1[16 * j + 2 .. 16 * j + 16] == b1[16 * j .. 16 * j + 16][2..];
      assert b2[16 * j + 2 .. 16 * j + 16] == b2[16 * j .. 16 * j + 16][2..];
      assert b1[16 * j] == b1[16 * j .. 16 * j + 16][0];
      assert b2[16 * j] == b2[16 * j .. 16 * j + 16][0];
      assert b1[16 * j + 1] == b1[16 * j .. 16 * j + 16][1];
      assert b2[16 * j + 1] == b2[16 * j .. 16 * j + 16][1];
    }
  }

  /** The first entry, in order, whose name field matches `name`. */
  function FirstMatch(name: seq<Byte>, ents: seq<Dirent>): (r: Option<Dirent>)
    ensures r.Some? ==> r.value in ents && NameMatches(name, r.value.name)
    ensures r.None? ==> forall e :: e in ents ==> !NameMatches(name, e.name)
  {
    if ents == [] then None
    else if NameMatches(name, ents[0].name) then Some(ents[0])
    else FirstMatch(name, ents[1..])
  }

  /** The entry at the first matching position is the one found. */
  lemma {:induction false} FirstMatchIsFirst(name: seq<Byte>, ents: seq<Dirent>, j: int)
    requires 0 <= j < |ents| && NameMatches(name, ents[j].name)
    requires forall k :: 0 <= k < j ==> !NameMatches(name, ents[k].name)
    ensures FirstMatch(name, ents) == Some(ents[j])
  {
    if j > 0 {
      FirstMatchIsFirst(name, ents[1..], j - 1);
    }
  }

  /** Searching two runs of entries one after the other searches the second
      only when the first has no match. */
  lemma {:induction false} FirstMatchAppend(name: seq<Byte>, a: seq<Dirent>, b: seq<Dirent>)
    ensures FirstMatch(name, a + b) ==
            if FirstMatch(name, a).Some? then FirstMatch(name, a) else FirstMatch(name, b)
  {
    if a == [] {
      assert a + b == b;
    } else {
      assert (a + b)[0] == a[0];
      assert (a + b)[1..] == a[1..] + b;
      FirstMatchAppend(name, a[1..], b);
    }
  }

  // ---------------------------------------------------------------------------
  // The scan

  /** The live entries of block `i` of directory `dir`, as `file_getblock`
      fills a zeroed buffer with it; None where it returns -1. */
  function BlockEntries(disk: Image, dir: int, i: int): (r: Option<seq<Dirent>>) {
    match BlockAt(disk, dir, i)
    case None => None
    case Some(b) => Some(LiveEntries(Overlay(Zeros(), disk[b.sector]), b.valid))
  }

  /** What a scan sees of a directory: for each block index, the block's
      live entries, or None where the block cannot be read. */
  type Blocks = int -> Option<seq<Dirent>>

  /** The blocks of directory `dir` on `disk`. */
  function DirBlocks(disk: Image, dir: int): (blocks: Blocks) {
    i => BlockEntries(disk, dir, i)
  }

  /** `blocks` is what a scan of directory `dir` on `disk` sees. */
  ghost predicate ReadsDir(disk: Image, dir: int, blocks: Blocks) {
    forall k {:trigger BlockEntries(disk, dir, k)} :: blocks(k) == BlockEntries(disk, dir, k)
  }

  /** Entry `e` is a live entry of block `k`. */
  predicate InBlock(blocks: Blocks, k: int, e: Dirent) {
    blocks(k).Some? && e in blocks(k).value
  }

  /** The scan from block `i` of a directory of `size` bytes: blocks are read
      while i * 512 < size, the first match ends it, a failed block read ends
      it with nothing. */
  function ScanFrom(blocks: Blocks, name: seq<Byte>, size: int, i: nat): (r: Option<Dirent>)
    ensures r.Some? ==> NameMatches(name, r.value.name)
    decreases size - i * 512
  {
    if i * 512 >= size then None
    else
      match blocks(i)
      case None => None
      case Some(ents) =>
        var m := FirstMatch(name, ents);
        if m.Some? then m else ScanFrom(blocks, name, size, i + 1)
  }

  /** What `directory_findname` finds for `name` in directory `dir`: None
      where it returns -1. */
  function EntryNamed(disk: Image, dir: int, name: seq<Byte>): (r: Option<Dirent>)
    ensures r.Some? ==> NameMatches(name, r.value.name)
    ensures r.Some? ==> InodeAt(disk, dir).Some?
  {
    match InodeAt(disk, dir)
    case None => None
    case Some(ino) => ScanFrom(DirBlocks(disk, dir), name, GetSize(ino), 0)
  }

  /** What the scan finds is a live entry of a block it read. */
  lemma {:induction false} ScanSound(blocks: Blocks, name: seq<Byte>, size: int, i: nat)
    requires ScanFrom(blocks, name, size, i).Some?
    ensures exists k :: i <= k && k * 512 < size && InBlock(blocks, k, ScanFrom(blocks, name, size, i).value)
    decreases size - i * 512
  {
    var m := FirstMatch(name, blocks(i).value);
    if m.Some? {
      assert InBlock(blocks, i, m.value);
    } else {
      ScanSound(blocks, name, size, i + 1);
    }
  }

  /** The entry `directory_findname` finds matches the name and is a live
      entry of one of the directory's blocks 0 .. ceil(size / 512) - 1: never
      a stale entry past a block's valid bytes, never from the block one
      past the end. */
  lemma FindNameSound(disk: Image, dir: int, name: seq<Byte>)
    requires EntryNamed(disk, dir, name).Some?
    ensures NameMatches(name, EntryNamed(disk, dir, name).value.name)
    ensures InodeAt(disk, dir).Some?
    ensures exists k :: 0 <= k < NumBlocks(GetSize(InodeAt(disk, dir).value)) &&
                        InBlock(DirBlocks(disk, dir), k, EntryNamed(disk, dir, name).value)
  {
    ScanSound(DirBlocks(disk, dir), name, GetSize(InodeAt(disk, dir).value), 0);
  }

  /** One step of the scan: a block that cannot be read ends it with
      nothing, a block with a match ends it with the first match, and any
      other block passes it on to the next block. */
  lemma ScanStep(blocks: Blocks, name: seq<Byte>, size: int, i: nat)
    requires i * 512 < size
    ensures blocks(i).None? ==> ScanFrom(blocks, name, size, i).None?
    ensures blocks(i).Some? ==>
              ScanFrom(blocks, name, size, i) ==
              var m := FirstMatch(name, blocks(i).value);
              if m.Some? then m else ScanFrom(blocks, name, size, i + 1)
  {
  }

  /** The live entries of blocks i to n-1 one after the other; None when one
      of those blocks cannot be read. */
  function EntriesOf(blocks: Blocks, i: nat, n: nat): (r: Option<seq<Dirent>>)
    decreases n - i
  {
    if i >= n then Some([])
    else
      match blocks(i)
      case None => None
      case Some(ents) =>
        match EntriesOf(blocks, i + 1, n)
        case None => None
        case Some(rest) => Some(ents + rest)
  }

  /** Scanning blocks i to n-1 is a search of their live entries in order;
      without a match there the scan goes on at block n. */
  lemma {:induction false} ScanPrefix(blocks: Blocks, name: seq<Byte>, size: int, i: nat, n: nat)
    requires i <= n && (n == 0 || (n - 1) * 512 < size)
    requires EntriesOf(blocks, i, n).Some?
    ensures ScanFrom(blocks, name, size, i) ==
            var pre := FirstMatch(name, EntriesOf(blocks, i, n).value);
            if pre.Some? then pre else ScanFrom(blocks, name, size, n)
    decreases n - i
  {
    if i < n {
      var ents := blocks(i).value;
      var rest := EntriesOf(blocks, i + 1, n).value;
      assert EntriesOf(blocks, i, n).value == ents + rest;
      ScanStep(blocks, name, size, i);
      ScanPrefix(blocks, name, size, i + 1, n);
      FirstMatchAppend(name, ents, rest);
    }
  }

  /** When every block of the directory can be read, the entry found is the
      first match among all live entries in (block, entry) order, and
      nothing is found exactly when no live entry matches. */
  lemma FindNameComplete(disk: Image, dir: int, name: seq<Byte>, ino: Inode)
    requires InodeAt(disk, dir) == Some(ino)
    requires EntriesOf(DirBlocks(disk, dir), 0, NumBlocks(GetSize(ino))).Some?
    ensures EntryNamed(disk, dir, name) ==
            FirstMatch(name, EntriesOf(DirBlocks(disk, dir), 0, NumBlocks(GetSize(ino))).value)
  {
    ScanPrefix(DirBlocks(disk, dir), name, GetSize(ino), 0, NumBlocks(GetSize(ino)));
  }

  /** A block that cannot be read, reached before any match, makes the whole
      lookup fail. */
  lemma FindNameBlockError(disk: Image, dir: int, name: seq<Byte>, ino: Inode, k: nat)
    requires InodeAt(disk, dir) == Some(ino) && k * 512 < GetSize(ino)
    requires EntriesOf(DirBlocks(disk, dir), 0, k).Some?
    requires FirstMatch(name, EntriesOf(DirBlocks(disk, dir), 0, k).value).None?
    requires BlockAt(disk, dir, k).None?
    ensures EntryNamed(disk, dir, name).None?
  {
    ScanPrefix(DirBlocks(disk, dir), name, GetSize(ino), 0, k);
    ScanStep(DirBlocks(disk, dir), name, GetSize(ino), k);
  }

  /** An empty directory has no entries to find. */
  lemma FindNameEmpty(disk: Image, dir: int, name: seq<Byte>, ino: Inode)
    requires InodeAt(disk, dir) == Some(ino) && GetSize(ino) == 0
    ensures EntryNamed(disk, dir, name).None?
  {
  }

  /** `directory_findname`: looks `name` up in directory `dirinumber`;
      returns 0 and the entry, or -1. The entry is written only on success:
      on failure `found` is the caller's `dirEnt` unchanged. */
  method FindName(disk: Image, name: seq<Byte>, dirinumber: int, dirEnt: Dirent)
    returns (rc: int, found: Dirent)
    ensures match EntryNamed(disk, dirinumber, name)
            case Some(e) => rc == 0 && found == e
            case None => rc == -1 && found == dirEnt
  {
    // the directory's inode gives the number of bytes to scan
    var r, inp := IGet(disk, dirinumber);
    if r != 0 {
      return -1, dirEnt;
    }
    rc, found := ScanBlocks(disk, DirBlocks(disk, dirinumber), name, dirinumber, GetSize(inp), dirEnt);
  }

  /** The block loop of `directory_findname` over a directory of `size`
      bytes. */
  method ScanBlocks(disk: Image, ghost blocks: Blocks, name: seq<Byte>, dirinumber: int, size: int, dirEnt: Dirent)
    returns (rc: int, found: Dirent)
    requires ReadsDir(disk, dirinumber, blocks) && 0 <= size < SIZE_LIMIT
    ensures match ScanFrom(blocks, name, size, 0)
            case Some(e) => rc == 0 && found == e
            case None => rc == -1 && found == dirEnt
  {
    // blocks 0, 1, ... while they start inside the directory
    var i := 0;
    while i * 512 < size
      invariant 0 <= i && (i == 0 || (i - 1) * 512 < size)
      invariant ScanFrom(blocks, name, size, i) == ScanFrom(blocks, name, size, 0)
      decreases size - i * 512
    {
      ScanStep(blocks, name, size, i);
      var blockSize, buf := GetFreshBlock(disk, dirinumber, i, blocks);
      if blockSize == -1 {
        return -1, dirEnt;
      }
      var m := SearchBlock(name, buf, blockSize);
      if m.Some? {
        return 0, m.value;
      }
      i := i + 1;
    }

    // every block scanned without a match
    return -1, dirEnt;
  }

  /** `file_getblock` into the uninitialised (modelled as zeroed) block
      buffer `directory_findname` declares for each block: the live entries
      of the block read are what the scan sees of block `i`. */
  method GetFreshBlock(disk: Image, dir: int, i: int, ghost blocks: Blocks) returns (blockSize: int, buf: array<Byte>)
    requires ReadsDir(disk, dir, blocks) && IsInt32(i * 512)
    ensures fresh(buf) && buf.Length == SECTOR_SIZE
    ensures blockSize == -1 <==> blocks(i).None?
    ensures blockSize != -1 ==>
              0 <= blockSize <= SECTOR_SIZE &&
              blocks(i) == Some(LiveEntries(buf[..], blockSize))
  {
    buf := new Byte[SECTOR_SIZE](_ => 0);
    assert buf[..] == Zeros();
    blockSize := GetBlock(disk, dir, i, buf);
    assert blocks(i) == BlockEntries(disk, dir, i);
  }

  /** The entry loop of `directory_findname` over a block read into `buf`
      with `blockSize` valid bytes: the first of its blockSize / 16 entries
      whose name matches. */
  method SearchBlock(name: seq<Byte>, buf: array<Byte>, blockSize: int) returns (m: Option<Dirent>)
    requires buf.Length == SECTOR_SIZE && 0 <= blockSize <= SECTOR_SIZE
    ensures m == FirstMatch(name, LiveEntries(buf[..], blockSize))
  {
    ghost var ents := LiveEntries(buf[..], blockSize);
    var numDir := blockSize / 16;
    var j := 0;
    while j < numDir
      invariant 0 <= j <= numDir
      invariant FirstMatch(name, ents) == FirstMatch(name, ents[j..])
    {
      var d := DecodeDirent(buf[..], j);
      if NameMatches(name, d.name) {
        assert ents[j..][0] == d;
        return Some(d);
      }
      assert ents[j..][1..] == ents[j + 1..];
      j := j + 1;
    }
    assert ents[j..] == [];
    return None;
  }
}
