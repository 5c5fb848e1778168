/**
 The mounted file system of `filesystem.c`: the FAT cache, the root directory and the
 descriptor table, updated in place.
 */
module FileSystem {
  import opened Machine
  import opened Chain
  import opened FileReader
  import opened DiskImage
  import D = Descriptors
  import Fat12
  import Directory
  import Memory
  import Strings

  /** Allocation looks at clusters 2..0xFEF. */
  const FIRST_CLUSTER := 2
  const SEARCH_END := 0xFF0

  // ---------- Allocation ----------

  /** `c` is the least free cluster, or the end mark if no cluster the cache holds is free. */
  ghost predicate IsLeastFree(fat: Fat12.Fat, c: uint16) {
    if c == 0xFFF then
      forall d: uint16 :: 2 <= d < 3072 ==> Fat12.GetNext(fat, d) != 0
    else
      && 2 <= c < 3072 && Fat12.GetNext(fat, c) == 0
      && forall d: uint16 :: 2 <= d < c ==> Fat12.GetNext(fat, d) != 0
  }

  method FindFreeCluster(fat: Fat12.Fat) returns (c: uint16)
    ensures IsLeastFree(fat, c)
  {
    var i: uint16 := FIRST_CLUSTER;
    while i < SEARCH_END
      invariant FIRST_CLUSTER <= i <= SEARCH_END
      invariant forall d: uint16 :: FIRST_CLUSTER <= d < i ==> Fat12.GetNext(fat, d) != Fat12.CLUSTER_FREE
    {
      var next := Fat12.GetNext(fat, i);
      if next == Fat12.CLUSTER_FREE {
        return i;
      }
      i := i + 1;
    }
    c := Fat12.CLUSTER_EOF;
  }

  /**
   The search does not mark what it finds, so a second one finds the same cluster; once
   it is marked as the end of a chain, the next search finds a greater one or none.
   */
  lemma SearchAfterSearch(fat: Fat12.Fat, c: uint16, d: uint16, e: uint16)
    requires IsLeastFree(fat, c) && IsLeastFree(fat, d) && c != Fat12.CLUSTER_EOF
    requires IsLeastFree(Fat12.SetNext(fat, c, Fat12.CLUSTER_EOF), e)
    ensures d == c && e > c
  {
    var fat' := Fat12.SetNext(fat, c, Fat12.CLUSTER_EOF);
    if e != Fat12.CLUSTER_EOF {
      Fat12.SetThenGet(fat, c, Fat12.CLUSTER_EOF, e);
    }
  }

  /** The first `n` clusters of the chain from `start` are all in use. */
  predicate InUse(fat: Fat12.Fat, start: uint16, n: nat) {
    forall i :: 0 <= i < n ==> Fat12.GetNext(fat, Walk(LinkOf(fat), start, i)) != Fat12.CLUSTER_FREE
  }

  /** Ending a free cluster's chain leaves every chain of clusters in use as it was, and apart from the new cluster. */
  lemma AllocationKeepsChain(fat: Fat12.Fat, free: uint16, start: uint16, n: nat)
    requires free < Fat12.FAT_ENTRIES && Fat12.GetNext(fat, free) == Fat12.CLUSTER_FREE
    requires InUse(fat, start, n)
    ensures var fat' := Fat12.SetNext(fat, free, Fat12.CLUSTER_EOF);
            && (forall i :: 0 <= i <= n ==> Walk(LinkOf(fat'), start, i) == Walk(LinkOf(fat), start, i))
            && (forall i :: 0 <= i < n ==> Walk(LinkOf(fat), start, i) != free)
            && (forall i :: 0 <= i < n ==>
                  LinkOf(fat')(Walk(LinkOf(fat), start, i)) == LinkOf(fat)(Walk(LinkOf(fat), start, i)))
  {
    var fat' := Fat12.SetNext(fat, free, Fat12.CLUSTER_EOF);
    forall i | 0 <= i < n
      ensures Walk(LinkOf(fat), start, i) != free
      ensures LinkOf(fat')(Walk(LinkOf(fat), start, i)) == LinkOf(fat)(Walk(LinkOf(fat), start, i))
    {
      Fat12.SetThenGet(fat, free, Fat12.CLUSTER_EOF, Walk(LinkOf(fat), start, i));
    }
    SameWalk(LinkOf(fat), LinkOf(fat'), start, n);
  }

  /** Allocation keeps the content of every file whose clusters are in use, and takes a sector none of them occupies. */
  lemma AllocationKeepsContent(fat: Fat12.Fat, disk: Disk, free: uint16, start: uint16, size: nat)
    requires FIRST_CLUSTER <= free < Fat12.FAT_ENTRIES && Fat12.GetNext(fat, free) == Fat12.CLUSTER_FREE
    requires InUse(fat, start, SeekHops(size))
    ensures var fat' := Fat12.SetNext(fat, free, Fat12.CLUSTER_EOF);
            Stream(Volume(LinkOf(fat'), disk), start, 0, size) == Stream(Volume(LinkOf(fat), disk), start, 0, size)
    ensures forall i :: 0 <= i < SeekHops(size) ==>
              ClusterToLba(Walk(LinkOf(fat), start, i)) != ClusterToLba(free)
  {
    AllocationKeepsChain(fat, free, start, SeekHops(size));
    var fat' := Fat12.SetNext(fat, free, Fat12.CLUSTER_EOF);
    var v, v' := Volume(LinkOf(fat), disk), Volume(LinkOf(fat'), disk);
    forall p | 0 <= p < size ensures Stream(v', start, 0, size)[p] == Stream(v, start, 0, size)[p] {
      assert p / SECTOR_BYTES < SeekHops(size);
    }
  }

  // ---------- Descriptors ----------

  class FileTable {
    const disk: Disk
    /** Whether the n-th disk command of the run fails. */
    const faults: nat -> bool
    var attempts: nat
    var initialized: bool
    const fat: array<byte>
    var root: Directory.Root
    const files: array<File>

    ghost predicate Valid()
      reads this
    {
      fat.Length == Fat12.FAT_BYTES && files.Length == D.MAX_FILES
    }

    /** What the calls on descriptors depend on and leave alone. */
    ghost function Mounted(): (m: D.Mount)
      requires Valid()
      reads this, fat
    {
      D.Mount(Vol(), root, initialized)
    }

    ghost function Vol(): (vol: Volume)
      requires Valid()
      reads this, fat
    {
      Volume(LinkOf(fat[..]), disk)
    }

    predicate IsOpen(fd: int)
      requires files.Length == D.MAX_FILES
      reads this, files
    {
      0 <= fd < D.MAX_FILES && files[fd].inUse
    }

    /** The state before initialisation: no descriptor is open. */
    constructor (disk: Disk, faults: nat -> bool)
      ensures Valid() && fresh(files) && fresh(fat) && !initialized && attempts == 0
      ensures this.disk == disk && this.faults == faults && D.NoneOpen(files[..])
    {
      this.disk, this.faults, this.attempts, this.initialized := disk, faults, 0, false;
      this.fat := new byte[Fat12.FAT_BYTES];
      this.root := Directory.RootOf(seq(Directory.RECORD_BYTES * Directory.ROOT_ENTRIES, _ => 0));
      this.files := new File[D.MAX_FILES](_ => File(false, 0, 0, 0, 0, 0, seq(16, _ => 0)));
    }

    /** Mounts the disk: the first table and the root directory are cached, unless a read fails. */
    method Init() returns (r: int)
      requires Valid()
      modifies this`attempts, this`initialized, this`root, fat, files
      ensures old(initialized) ==>
                r == 0 && initialized && fat[..] == old(fat[..]) && root == old(root) && files[..] == old(files[..])
      ensures !old(initialized) ==>
                && D.NoneOpen(files[..]) && initialized == (r == 0) && (r == 0 || r == -1)
                && (r == -1 <==> faults(old(attempts)) || faults(old(attempts) + 1))
                && (r == 0 ==> Mounted() == MountOf(disk))
    {
      if initialized {
        return 0;
      }
      CloseAll();
      var table := ReadSectors(FAT_SECTOR, FAT_SECTORS);
      if table.None? {
        return -1;
      }
      Memory.Memcpy(fat, 0, table.value);
      assert fat[..] == table.value;
      var directory := ReadSectors(ROOT_DIR_SECTOR, ROOT_SECTORS);
      if directory.None? {
        return -1;
      }
      root := Directory.RootOf(directory.value);
      initialized := true;
      r := 0;
    }

    method CloseAll()
      requires Valid()
      modifies files
      ensures D.NoneOpen(files[..])
    {
      var i := 0;
      while i < D.MAX_FILES
        invariant 0 <= i <= D.MAX_FILES
        invariant forall k :: 0 <= k < i ==> !files[k].inUse
      {
        files[i] := files[i].(inUse := false);
        i := i + 1;
      }
    }

    /** One disk command for several sectors. */
    method ReadSectors(lba: uint32, n: nat) returns (r: Option<seq<byte>>)
      requires lba + n <= U32
      modifies this`attempts
      ensures attempts == old(attempts) + 1
      ensures r == if faults(old(attempts)) then None else Some(Sectors(disk, lba, n))
    {
      r := if faults(attempts) then None else Some(Sectors(disk, lba, n));
      attempts := attempts + 1;
    }

    /** Sets an entry of the cached FAT in place. */
    method SetNext(cluster: uint32, next: uint32)
      requires Valid() && cluster < Fat12.FAT_ENTRIES
      modifies fat
      ensures fat[..] == Fat12.SetNext(old(fat[..]), cluster, next)
    {
      Fat12.OffsetBelow(cluster);
      var off := Fat12.EntryOffset(cluster);
      var value := Load16(fat[..], off);
      var w := if cluster % 2 == 1 then value % 0x10 + 0x10 * (next % 0x1000)
               else 0x1000 * (value / 0x1000) + next % 0x1000;
      fat[off], fat[off + 1] := w % 0x100, w / 0x100;
    }

    /** The table's entry for a cluster; one number of 32 bits reads past the cache. */
    method GetNextCluster(cluster: uint32) returns (next: uint16)
      requires Valid() && cluster != Fat12.STRADDLING_CLUSTER
      ensures next == Fat12.GetNext(fat[..], cluster)
      ensures cluster < CLUSTERS ==> next == Vol().next(cluster)
    {
      next := Fat12.GetNext(fat[..], cluster);
    }

    method ReadSector(lba: uint32) returns (r: Option<Sector>)
      modifies this`attempts
      ensures attempts == old(attempts) + 1
      ensures r == if faults(old(attempts)) then None else Some(disk(lba))
    {
      r := if faults(attempts) then None else Some(disk(lba));
      attempts := attempts + 1;
    }

    /** The scan for a free descriptor. */
    method FindFree() returns (free: nat)
      requires files.Length == D.MAX_FILES
      ensures if free == D.MAX_FILES then D.AllOpen(files[..]) else D.LeastFree(files[..], free)
    {
      free := 0;
      while free < D.MAX_FILES && files[free].inUse
        invariant 0 <= free <= D.MAX_FILES
        invariant forall i :: 0 <= i < free ==> files[i].inUse
      {
        free := free + 1;
      }
    }

    /** Sets a descriptor at the start of an entry that shows the NUL-terminated name. */
    method Begin(fd: nat, j: nat, filename: Bytes)
      requires Valid() && fd < D.MAX_FILES && 0 in filename
      requires j < Directory.ROOT_ENTRIES && Directory.FirstMatch(root, Strings.CString(filename), j)
      modifies files
      ensures D.OnlyAt(old(files[..]), fd, files[..])
      ensures D.OpenedOn(root, Strings.CString(filename), j, files[fd])
    {
      var name := Strings.Strncpy(files[fd].name, filename, 15);
      assert Strings.CString(name) == Strings.CString(filename) by {
        Directory.ShownNameIsShort(root[j]);
        Strings.FilledHolds(Strings.CString(filename), 15, files[fd].name[15..]);
      }
      files[fd] := File(true, root[j].cluster, root[j].cluster, root[j].size, 0, root[j].attributes, name);
    }

    /** Opens a file by its NUL-terminated name on the least free descriptor. */
    method Open(filename: Bytes) returns (fd: int)
      requires Valid() && 0 in filename
      modifies files
      ensures D.Happens(Mounted(), old(files[..]), D.Opens(Strings.CString(filename), fd), files[..])
    {
      if !initialized {
        return -1;
      }
      var free := FindFree();
      if free == D.MAX_FILES {
        return -1;
      }
      var j := Directory.FindEntry(root, filename);
      if j < 0 {
        return -1;
      }
      fd := free;
      Begin(fd, j, filename);
    }

    method Close(fd: int) returns (r: int)
      requires Valid()
      modifies files
      ensures r == 0 || r == -1
      ensures D.Happens(Mounted(), old(files[..]), D.Closes(fd, r == 0), files[..])
    {
      if !IsOpen(fd) {
        return -1;
      }
      files[fd] := files[fd].(inUse := false);
      r := 0;
    }

    /** One turn of the read loop: a sector is read, and a chunk of it copied to `buffer` from index `at` on. */
    method ReadChunk(fd: int, buffer: array<byte>, at: nat, remaining: uint16)
      returns (m: nat, faulted: bool, ended: bool)
      requires Valid() && IsOpen(fd) && files[fd].position < files[fd].size
      requires buffer != fat && remaining > 0 && at + remaining <= buffer.Length
      modifies this`attempts, files, buffer
      ensures attempts == old(attempts) + 1 && faulted == faults(old(attempts))
      ensures faulted ==> m == 0 && !ended && files[..] == old(files[..]) && buffer[..] == old(buffer[..])
      ensures !faulted ==>
                var f := old(files[fd]);
                var o := f.position % SECTOR_BYTES;
                && m == ChunkLength(f.position, f.size, remaining) && o + m <= SECTOR_BYTES && 0 < m <= remaining
                && buffer[..at + m] == old(buffer[..at]) + SectorOf(Vol(), f.cluster)[o..o + m]
                && buffer[at + m..] == old(buffer[at + m..])
                && files[..] == old(files[..])[fd := AfterChunk(Vol(), f, m)]
                && (ended <==>
                      && files[fd].position % SECTOR_BYTES == 0 && files[fd].position < f.size
                      && Vol().next(f.cluster) >= CLUSTER_MAX)
    {
      var f := files[fd];
      var sector := ReadSector(ClusterToLba(f.cluster));
      if sector.None? {
        return 0, true, false;
      }
      var o := f.position % SECTOR_BYTES;
      m, faulted, ended := ChunkLength(f.position, f.size, remaining), false, false;
      ChunkIsLeastBound(f.position, f.size, remaining);
      Memory.OverwriteParts(buffer[..], at, sector.value[o..o + m], at + m);
      Memory.Memcpy(buffer, at, sector.value[o..o + m]);
      files[fd] := f.(position := (f.position + m) % U32);
      if files[fd].position % SECTOR_BYTES == 0 && files[fd].position < f.size {
        var next := GetNextCluster(f.cluster);
        if next >= CLUSTER_MAX {
          ended := true;
        } else {
          files[fd] := files[fd].(cluster := next);
        }
      }
    }

    /** The same turn, seen from the read of `count` bytes that began at `f0` and has brought `n` of them. */
    method ReadMore(fd: int, buffer: array<byte>, n: nat, remaining: uint16, ghost f0: File, ghost count: uint16)
      returns (m: nat, faulted: bool, ended: bool)
      requires Valid() && IsOpen(fd) && files[fd].position < files[fd].size && files[fd].size == f0.size
      requires buffer != fat && remaining > 0 && n + remaining == count <= buffer.Length
      requires Going(Vol(), f0, count, files[fd], buffer[..n], false)
      modifies this`attempts, files, buffer
      ensures attempts == old(attempts) + 1 && faulted == faults(old(attempts))
      ensures faulted ==> m == 0
      ensures m <= remaining && (m > 0 || faulted)
      ensures files[..] == old(files[..])[fd := files[fd]] && files[fd].inUse && files[fd].size == f0.size
      ensures buffer[n + m..] == old(buffer[n + m..])
      ensures Going(Vol(), f0, count, files[fd], buffer[..n + m], ended)
    {
      ghost var vol, f, done := Vol(), files[fd], buffer[..n];
      m, faulted, ended := ReadChunk(fd, buffer, n, remaining);
      if !faulted {
        ghost var o := f.position % SECTOR_BYTES;
        ReadTurn(vol, f0, count, f, done, SectorOf(vol, f.cluster)[o..o + m], ended);
      } else {
        assert buffer[..n + m] == done;
      }
    }

    /** The loop of `fs_read` on an open descriptor: the call does what `ReadOutcome` says. */
    method ReadOpen(fd: int, buffer: array<byte>, count: uint16) returns (r: nat, ghost faulted: bool)
      requires Valid() && IsOpen(fd) && buffer != fat && count <= buffer.Length
      modifies this`attempts, files, buffer
      ensures r <= count && buffer[r..] == old(buffer[r..])
      ensures files[..] == old(files[..])[fd := files[fd]]
      ensures ReadOutcome(Vol(), old(files[fd]), count, files[fd], buffer[..r], faulted)
      ensures faulted ==> exists t :: old(attempts) <= t < attempts && faults(t)
    {
      ghost var vol, f0 := Vol(), files[fd];
      var n, remaining, fault, ended := 0, count, false, false;
      ReadStarts(vol, f0, count);
      while remaining > 0 && files[fd].position < files[fd].size && !fault && !ended
        invariant 0 <= n && 0 <= remaining && n + remaining == count
        invariant attempts >= old(attempts)
        invariant fault ==> attempts > old(attempts) && faults(attempts - 1)
        invariant buffer[n..] == old(buffer[n..])
        invariant files[..] == old(files[..])[fd := files[fd]]
        invariant files[fd].size == f0.size && files[fd].inUse
        invariant Going(vol, f0, count, files[fd], buffer[..n], ended)
        decreases remaining, !fault
      {
        var m;
        ghost var tail := buffer[n..];
        m, fault, ended := ReadMore(fd, buffer, n, remaining, f0, count);
        assert buffer[n + m..] == tail[m..];
        n, remaining := n + m, remaining - m;
      }
      r, faulted := n, fault;
      ReadFinishes(vol, f0, count, files[fd], buffer[..n], faulted, ended);
    }

    /** Reads up to `count` bytes into `buffer`; no byte behind the result changes. */
    method Read(fd: int, buffer: array<byte>, count: uint16) returns (r: int, ghost faulted: bool)
      requires Valid() && buffer != fat && count <= buffer.Length
      modifies this`attempts, files, buffer
      ensures r <= count && buffer[if r < 0 then 0 else r..] == old(buffer[if r < 0 then 0 else r..])
      ensures var bytes := if r < 0 then [] else buffer[..r];
              D.Happens(Mounted(), old(files[..]), D.Reads(fd, count, r, bytes, faulted), files[..])
      ensures faulted ==> exists t :: old(attempts) <= t < attempts && faults(t)
    {
      if !IsOpen(fd) {
        return -1, false;
      }
      r, faulted := ReadOpen(fd, buffer, count);
    }

    /**
     The loop of `fs_seek`: from `start`, one link for every 512 bytes or part of them.
     Its 32-bit counter wraps for an offset in the last 512 bytes of the range, so it does
     not end for every chain.
     */
    method Navigate(start: uint16, size: uint32, offset: uint32) returns (cluster: uint16, ok: bool)
      requires Valid() && offset <= size && SeekEnds(Vol().next, start, offset)
      ensures cluster == Walk(Vol().next, start, SeekHops(offset))
      ensures ok <==> Linked(Vol().next, start, SeekHops(offset))
    {
      ghost var next, h := Vol().next, 0;
      cluster := start;
      var pos := 0;
      while pos < offset && pos < size
        invariant Seeking(next, start, offset, h, pos, cluster)
        decreases SeekHops(offset) - h
      {
        var link := GetNextCluster(cluster);
        if link >= CLUSTER_MAX {
          SeekFails(next, start, offset, h, pos, cluster);
          return cluster, false;
        }
        SeekTurn(next, start, offset, h, pos, cluster);
        cluster := link;
        h := h + 1;
        pos := (pos + SECTOR_BYTES) % U32;
      }
      SeekFinishes(next, start, offset, h, pos, cluster);
      ok := true;
    }

    /** Moves to `offset`: the position is set, and the chain navigated from its start, even when the call fails. */
    method Seek(fd: int, offset: uint32) returns (r: int)
      requires Valid()
      requires IsOpen(fd) && offset <= files[fd].size ==> SeekEnds(Vol().next, files[fd].start, offset)
      modifies files
      ensures r == 0 || r == -1
      ensures D.Happens(Mounted(), old(files[..]), D.Seeks(fd, offset, r == 0), files[..])
    {
      if !IsOpen(fd) || offset > files[fd].size {
        return -1;
      }
      var cluster, ok := Navigate(files[fd].start, files[fd].size, offset);
      files[fd] := files[fd].(position := offset, cluster := cluster);
      r := if ok then 0 else -1;
    }
  }
}
