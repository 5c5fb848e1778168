/**
 The floppy that `filesystem.c` mounts: where the table, the root directory and the clusters
 lie on it, and what its files read as, in terms of the bytes of the disk.
 */
module DiskImage {
  import opened Machine
  import opened Chain
  import opened FileReader
  import D = Descriptors
  import Directory
  import Fat12

  type Disk = uint32 -> Sector

  const FAT_SECTOR := 1
  const FAT_SECTORS := 9
  const ROOT_SECTORS := 14

  /** The FAT as a link table. */
  function LinkOf(fat: Fat12.Fat): (next: Link) {
    (c: uint16) => Fat12.GetNext(fat, c)
  }

  /** `n` sectors from `lba` on, end to end. */
  function Sectors(disk: Disk, lba: uint32, n: nat): (s: seq<byte>)
    requires lba + n <= U32
    ensures |s| == SECTOR_BYTES * n
  {
    seq<byte>(SECTOR_BYTES * n, k requires 0 <= k < SECTOR_BYTES * n =>
      disk(lba + k / SECTOR_BYTES)[k % SECTOR_BYTES])
  }

  /** What the initialisation caches of a disk. */
  function MountOf(disk: Disk): (m: D.Mount) {
    D.Mount(Volume(LinkOf(Sectors(disk, FAT_SECTOR, FAT_SECTORS)), disk),
            Directory.RootOf(Sectors(disk, ROOT_DIR_SECTOR, ROOT_SECTORS)), true)
  }

  // ---------- The bytes of the disk ----------

  /** Byte `k` of the disk, counted from its start. */
  function DiskByte(disk: Disk, k: nat): (b: byte)
    requires k < 512 * 0x1_0000_0000
  {
    disk(k / 512)[k % 512]
  }

  /** Half-byte `k` of the first table, which follows the boot sector, low halves first. */
  function TableNibble(disk: Disk, k: nat): (x: int)
    requires k < 2 * 9 * 512
  {
    var b: int := DiskByte(disk, 512 + k / 2);
    if k % 2 == 0 then b % 0x10 else b / 0x10
  }

  /** The entry of a cluster: three half-bytes of the table, or the end mark behind it. */
  function TableEntry(disk: Disk, c: uint16): (e: int) {
    if c >= 3072 then 0xFFF
    else TableNibble(disk, 3 * c) + 0x10 * TableNibble(disk, 3 * c + 1) + 0x100 * TableNibble(disk, 3 * c + 2)
  }

  /** Byte `i` of directory record `j`; the directory follows the boot sector and two tables of nine sectors. */
  function RecordByte(disk: Disk, j: nat, i: nat): (b: int)
    requires j < 224 && i < 32
  {
    DiskByte(disk, 512 * (1 + 2 * 9) + 32 * j + i)
  }

  function RecordCluster(disk: Disk, j: nat): (c: int)
    requires j < 224
  {
    RecordByte(disk, j, 26) + 0x100 * RecordByte(disk, j, 27)
  }

  function RecordSize(disk: Disk, j: nat): (n: int)
    requires j < 224
  {
    RecordByte(disk, j, 28) + 0x100 * RecordByte(disk, j, 29)
    + 0x1_0000 * RecordByte(disk, j, 30) + 0x100_0000 * RecordByte(disk, j, 31)
  }

  /** The sector of a cluster: data clusters count from 2 and lie behind the 224 records of 32 bytes. */
  function SectorNumber(c: uint16): (n: int) {
    if c < 2 then 1 + 2 * 9 else 1 + 2 * 9 + 224 * 32 / 512 + (c - 2)
  }

  /** `cs` is a chain of the table on the disk, up to an end mark. */
  predicate OnTable(disk: Disk, cs: seq<uint16>) {
    && cs != [] && TableEntry(disk, cs[|cs| - 1]) >= 0xFF8
    && forall i :: 0 <= i < |cs| - 1 ==> TableEntry(disk, cs[i]) < 0xFF8 && cs[i + 1] == TableEntry(disk, cs[i])
  }

  // ---------- The layout ----------

  lemma SectorsAt(disk: Disk, lba: uint32, n: nat, k: nat)
    requires lba + n <= U32 && k < SECTOR_BYTES * n
    ensures Sectors(disk, lba, n)[k] == DiskByte(disk, 512 * lba + k)
  {
    assert (512 * lba + k) / 512 == lba + k / 512 && (512 * lba + k) % 512 == k % 512;
  }

  lemma NibbleOnDisk(disk: Disk, k: nat)
    requires k < 2 * 9 * 512
    ensures TableNibble(disk, k) == Fat12.Nibble(Sectors(disk, FAT_SECTOR, FAT_SECTORS), k)
  {
    SectorsAt(disk, FAT_SECTOR, FAT_SECTORS, k / 2);
  }

  /** The links followed are the entries of the table on the disk. */
  lemma LinksOnDisk(disk: Disk, c: uint16)
    ensures MountOf(disk).vol.next(c) == TableEntry(disk, c)
  {
    var fat := Sectors(disk, FAT_SECTOR, FAT_SECTORS);
    Fat12.GetIsTwelveBits(fat, c);
    if c < 3072 {
      NibbleOnDisk(disk, 3 * c);
      NibbleOnDisk(disk, 3 * c + 1);
      NibbleOnDisk(disk, 3 * c + 2);
    }
  }

  /** The sector read for a cluster is the one the geometry puts it in. */
  lemma ClustersOnDisk(vol: Volume, c: uint16)
    ensures SectorOf(vol, c) == vol.disk(SectorNumber(c))
  {
  }

  lemma RecordAt(disk: Disk, j: nat, i: nat)
    requires j < 224 && i < 32
    ensures Sectors(disk, ROOT_DIR_SECTOR, ROOT_SECTORS)[32 * j..32 * j + 32][i] == RecordByte(disk, j, i)
  {
    SectorsAt(disk, ROOT_DIR_SECTOR, ROOT_SECTORS, 32 * j + i);
  }

  /** First cluster, size and attributes of an entry are those of its record on the disk. */
  lemma EntriesOnDisk(disk: Disk, j: nat)
    requires j < 224
    ensures var e := MountOf(disk).root[j];
            && e.cluster == RecordCluster(disk, j) && e.size == RecordSize(disk, j)
            && e.attributes == RecordByte(disk, j, 11)
  {
    RecordAt(disk, j, 11);
    RecordAt(disk, j, 26);
    RecordAt(disk, j, 27);
    RecordAt(disk, j, 28);
    RecordAt(disk, j, 29);
    RecordAt(disk, j, 30);
    RecordAt(disk, j, 31);
  }

  lemma ChainsOnDisk(disk: Disk, cs: seq<uint16>)
    requires OnTable(disk, cs)
    ensures Complete(MountOf(disk).vol.next, cs)
  {
    LinksOnDisk(disk, cs[|cs| - 1]);
    forall i | 0 <= i < |cs| - 1
      ensures MountOf(disk).vol.next(cs[i]) < CLUSTER_MAX && cs[i + 1] == MountOf(disk).vol.next(cs[i])
    {
      LinksOnDisk(disk, cs[i]);
    }
  }

  // ---------- Files ----------

  /** Byte `p` of a file on the chain `cs`, on the disk. */
  function ChainByte(disk: Disk, cs: seq<uint16>, p: nat): (b: byte)
    requires p < 512 * |cs|
  {
    DiskByte(disk, 512 * SectorNumber(cs[p / 512]) + p % 512)
  }

  lemma ByteOnDisk(vol: Volume, cs: seq<uint16>, p: nat, c: uint16)
    requires IsChain(vol.next, cs) && p < SECTOR_BYTES * |cs| && c == cs[p / 512]
    ensures ByteAt(vol, cs[0], p) == ChainByte(vol.disk, cs, p)
  {
    WalkOnChain(vol.next, cs, p / 512);
    ClustersOnDisk(vol, c);
    SectorByte(vol.disk, SectorNumber(c), p % 512);
  }

  lemma SectorByte(disk: Disk, n: uint32, o: nat)
    requires o < 512
    ensures DiskByte(disk, 512 * n + o) == disk(n)[o]
  {
    assert (512 * n + o) / 512 == n && (512 * n + o) % 512 == o;
  }

  /** `s` is, byte for byte, what the sectors of the clusters `cs` hold from byte `from` on. */
  predicate HeldFrom(disk: Disk, cs: seq<uint16>, from: nat, s: seq<byte>)
    requires from + |s| <= 512 * |cs|
  {
    forall k :: 0 <= k < |s| ==> s[k] == ChainByte(disk, cs, from + k)
  }

  lemma StreamHeld(vol: Volume, cs: seq<uint16>, from: nat, s: seq<byte>)
    requires IsChain(vol.next, cs) && from + |s| <= 512 * |cs| && s == Stream(vol, cs[0], from, |s|)
    ensures HeldFrom(vol.disk, cs, from, s)
  {
    forall k | 0 <= k < |s| ensures s[k] == ChainByte(vol.disk, cs, from + k) {
      ByteOnDisk(vol, cs, from + k, cs[(from + k) / 512]);
    }
  }

  lemma ReadsAsHeld(vol: Volume, cs: seq<uint16>, size: uint32, s: seq<byte>)
    requires IsChain(vol.next, cs) && size <= 512 * |cs| && ReadsAs(vol, cs, size, s)
    ensures |s| == size && HeldFrom(vol.disk, cs, 0, s)
  {
    StreamIsConcatenation(vol, cs, size);
    StreamHeld(vol, cs, 0, s);
  }

  /**
   From the disk to the caller: in every run of opens, closes, reads and seeks on a mounted
   floppy, a file that is opened and then read to the end is, byte for byte, what the sectors
   of its chain on the disk hold, cut to the size in its record, if the chain covers that.
   */
  lemma FileOnDisk(disk: Disk, tables: seq<D.Table>, calls: seq<D.Call>, fd: int, cs: seq<uint16>) returns (j: nat)
    requires D.IsTableRun(MountOf(disk), tables, calls) && D.NoneOpen(tables[0]) && D.IsOpen(tables[|calls|], fd)
    requires var events := D.Session(calls, fd);
             && AllReads(events) && events != []
             && var e := events[|events| - 1]; e.count > 0 && e.bytes == [] && !e.faulted
    requires OnTable(disk, cs)
    ensures j < 224 && D.NameOf(calls, fd).Some?
    ensures Directory.FirstMatch(MountOf(disk).root, D.NameOf(calls, fd).value, j)
    ensures var s := Returned(D.Session(calls, fd));
            RecordCluster(disk, j) == cs[0] && RecordSize(disk, j) <= 512 * |cs| ==>
              |s| == RecordSize(disk, j) && HeldFrom(disk, cs, 0, s)
  {
    var m := MountOf(disk);
    ChainsOnDisk(disk, cs);
    j := D.EveryFileReadsAs(m, tables, calls, fd, cs);
    EntriesOnDisk(disk, j);
    if RecordCluster(disk, j) == cs[0] && RecordSize(disk, j) <= 512 * |cs| {
      ReadsAsHeld(m.vol, cs, m.root[j].size, Returned(D.Session(calls, fd)));
    }
  }

  /**
   And every single read of every run, after whatever seeks, returns the bytes that the chain on
   the disk holds from the place to which the calls on its descriptor have led.
   */
  lemma ReadOnDisk(disk: Disk, tables: seq<D.Table>, calls: seq<D.Call>, i: nat, cs: seq<uint16>) returns (j: nat)
    requires D.IsTableRun(MountOf(disk), tables, calls) && D.NoneOpen(tables[0])
    requires i < |calls| && calls[i].Reads? && D.IsOpen(tables[i], calls[i].fd) && OnTable(disk, cs)
    ensures j < 224 && D.NameOf(calls[..i], calls[i].fd).Some?
    ensures Directory.FirstMatch(MountOf(disk).root, D.NameOf(calls[..i], calls[i].fd).value, j)
    ensures var place := Place(D.Session(calls[..i], calls[i].fd), RecordSize(disk, j));
            RecordCluster(disk, j) == cs[0] && place + |calls[i].bytes| <= 512 * |cs| ==>
              HeldFrom(disk, cs, place, calls[i].bytes)
  {
    var m := MountOf(disk);
    ChainsOnDisk(disk, cs);
    j := D.EveryReadOfEveryFile(m, tables, calls, i);
    EntriesOnDisk(disk, j);
    var place := Place(D.Session(calls[..i], calls[i].fd), RecordSize(disk, j));
    if RecordCluster(disk, j) == cs[0] && place + |calls[i].bytes| <= 512 * |cs| {
      StreamHeld(m.vol, cs, place, calls[i].bytes);
    }
  }
}
