/**
 The root directory of `filesystem.c`: rendering 8.3 names, lookup by name, the
 listing and the file information.
 */
module Directory {
  import opened Machine
  import opened Strings

  const ROOT_ENTRIES := 224
  const END_MARK := 0x00
  const DELETED_MARK := 0xE5
  const SPACE := 0x20
  const ATTR_VOLUME := 0x08

  type Name8 = n: seq<byte> | |n| == 8 witness seq(8, _ => 0)
  type Name3 = n: seq<byte> | |n| == 3 witness seq(3, _ => 0)

  datatype DirEntry = DirEntry(name: Name8, ext: Name3, attributes: byte, cluster: uint16,
                               size: uint32, writeDate: uint16, writeTime: uint16)

  /** What a listing or a query reports; `name` is the C string in its name buffer. */
  datatype DirInfo = DirInfo(name: seq<byte>, attributes: byte, size: uint32, start: uint32,
                             writeDate: uint16, writeTime: uint16)

  type Root = r: seq<DirEntry> | |r| == ROOT_ENTRIES
    witness seq(ROOT_ENTRIES, _ => DirEntry(seq(8, _ => 0), seq(3, _ => 0), 0, 0, 0, 0, 0))

  // ---------- Records ----------

  const RECORD_BYTES := 32

  /** An entry of the cached directory, read at the offsets of the packed record. */
  function EntryOf(record: seq<byte>): (e: DirEntry)
    requires |record| == RECORD_BYTES
  {
    DirEntry(record[..8], record[8..11], record[11], Load16(record, 26), Load32(record, 28),
             Load16(record, 24), Load16(record, 22))
  }

  /** The root directory that the cached sectors hold. */
  function RootOf(cache: seq<byte>): (root: Root)
    requires |cache| == RECORD_BYTES * ROOT_ENTRIES
  {
    seq(ROOT_ENTRIES, i requires 0 <= i < ROOT_ENTRIES =>
      EntryOf(cache[RECORD_BYTES * i..RECORD_BYTES * i + RECORD_BYTES]))
  }

  /** A number as two bytes, and as four, the low one first. */
  function Le16(v: uint16): (s: seq<byte>)
    ensures |s| == 2
  {
    [v % 0x100, v / 0x100]
  }

  function Le32(v: uint32): (s: seq<byte>)
    ensures |s| == 4
  {
    [v % 0x100, v / 0x100 % 0x100, v / 0x1_0000 % 0x100, v / 0x100_0000]
  }

  lemma LoadOfLe(data: seq<byte>, off: nat)
    ensures forall v: uint16 :: off + 2 <= |data| && data[off..off + 2] == Le16(v) ==> Load16(data, off) == v
    ensures forall v: uint32 :: off + 4 <= |data| && data[off..off + 4] == Le32(v) ==> Load32(data, off) == v
  {
    forall v: uint16 | off + 2 <= |data| && data[off..off + 2] == Le16(v) ensures Load16(data, off) == v {
      assert data[off] == Le16(v)[0] && data[off + 1] == Le16(v)[1];
    }
    forall v: uint32 | off + 4 <= |data| && data[off..off + 4] == Le32(v) ensures Load32(data, off) == v {
      var s := Le32(v);
      assert data[off] == s[0] && data[off + 1] == s[1] && data[off + 2] == s[2] && data[off + 3] == s[3];
      FourBytes(v);
    }
  }

  lemma FourBytes(v: uint32)
    ensures v == v % 0x100 + 0x100 * (v / 0x100 % 0x100)
                 + 0x1_0000 * (v / 0x1_0000 % 0x100 + 0x100 * (v / 0x100_0000))
  {
    assert v / 0x100 == 0x100 * (v / 0x1_0000) + v / 0x100 % 0x100;
    assert v / 0x1_0000 == 0x100 * (v / 0x100_0000) + v / 0x1_0000 % 0x100;
  }

  /**
   The packed record, field after field: name, extension, attributes, ten bytes that nothing
   reads, time and date of the last write, first cluster, size.
   */
  function Packed(name: Name8, ext: Name3, attributes: byte, unread: seq<byte>, writeTime: uint16,
                  writeDate: uint16, cluster: uint16, size: uint32): (record: seq<byte>)
    requires |unread| == 10
    ensures |record| == RECORD_BYTES
  {
    name + ext + [attributes] + unread + Le16(writeTime) + Le16(writeDate) + Le16(cluster) + Le32(size)
  }

  /** Reading a packed record gives back its fields, each in its place. */
  lemma EntryOfPacked(name: Name8, ext: Name3, attributes: byte, unread: seq<byte>, writeTime: uint16,
                      writeDate: uint16, cluster: uint16, size: uint32)
    requires |unread| == 10
    ensures var e := EntryOf(Packed(name, ext, attributes, unread, writeTime, writeDate, cluster, size));
            && e.name == name && e.ext == ext && e.attributes == attributes
            && e.writeTime == writeTime && e.writeDate == writeDate && e.cluster == cluster && e.size == size
  {
    var r := Packed(name, ext, attributes, unread, writeTime, writeDate, cluster, size);
    assert r[..8] == name && r[8..11] == ext && r[11] == attributes;
    assert r[22..24] == Le16(writeTime) && r[24..26] == Le16(writeDate) && r[26..28] == Le16(cluster);
    assert r[28..32] == Le32(size);
    LoadOfLe(r, 22);
    LoadOfLe(r, 24);
    LoadOfLe(r, 26);
    LoadOfLe(r, 28);
  }

  // ---------- Names ----------

  /** The 8.3 name with its padding dropped and a dot before a present extension. */
  function Rendered(e: DirEntry): (s: seq<byte>)
    ensures |s| <= 12
  {
    Before(e.name, SPACE) + if e.ext[0] != SPACE then [DOT] + Before(e.ext, SPACE) else []
  }

  /** The C string shown for an entry: a NUL inside the name cuts it. */
  function ShownName(e: DirEntry): (s: seq<byte>) {
    CString(Rendered(e))
  }

  lemma ShownNameIsShort(e: DirEntry)
    ensures |ShownName(e)| <= 12
  {
  }

  /** Copies a field of an entry up to its padding, and returns the index after it. */
  method CopyField(field: seq<byte>, full: array<byte>, at: nat) returns (j: nat)
    requires at + |field| <= full.Length
    modifies full
    ensures j == at + |Before(field, SPACE)|
    ensures full[..j] == old(full[..at]) + Before(field, SPACE)
  {
    j := at;
    var k := 0;
    ghost var copied := Before(field, SPACE);
    BeforeFree(field, SPACE);
    while k < |field| && field[k] != SPACE
      invariant 0 <= k <= |copied| && j == at + k
      invariant full[..j] == old(full[..at]) + copied[..k]
    {
      full[j] := field[k];
      j := j + 1;
      k := k + 1;
    }
    assert copied[..k] == copied;
  }

  /** Renders into a 13-byte buffer, as lookup, listing and query all do, and returns its contents. */
  method RenderName(e: DirEntry) returns (buffer: seq<byte>)
    ensures |buffer| == 13 && 0 in buffer && CString(buffer) == ShownName(e)
  {
    var full := new byte[13];
    var j := CopyField(e.name, full, 0);
    if e.ext[0] != SPACE {
      full[j] := DOT;
      ghost var sofar := full[..j + 1];
      assert sofar == Before(e.name, SPACE) + [DOT];
      j := CopyField(e.ext, full, j + 1);
      assert full[..j] == sofar + Before(e.ext, SPACE);
    }
    assert full[..j] == Rendered(e);
    full[j] := 0;
    buffer := full[..];
    BufferHolds(buffer, Rendered(e));
  }

  // ---------- Names that can be told apart ----------

  /** No byte after the first space is anything but a space. */
  predicate Padded(s: seq<byte>) {
    forall i, j :: 0 <= i < j < |s| && s[i] == SPACE ==> s[j] == SPACE
  }

  /** A well-formed name: padded on the right, without NULs, and without a dot in its first part. */
  predicate ProperName(e: DirEntry) {
    && Padded(e.name) && Padded(e.ext)
    && 0 !in e.name && 0 !in e.ext && DOT !in e.name
  }

  lemma PaddedBehind(s: seq<byte>, i: nat)
    requires Padded(s) && |Before(s, SPACE)| <= i < |s|
    ensures s[i] == SPACE
  {
    assert s[|Before(s, SPACE)|] == SPACE;
  }

  lemma PaddedDetermined(s: seq<byte>, t: seq<byte>)
    requires |s| == |t| && Padded(s) && Padded(t)
    requires Before(s, SPACE) == Before(t, SPACE)
    ensures s == t
  {
    var base := Before(s, SPACE);
    forall i | 0 <= i < |s| ensures s[i] == t[i] {
      if i < |base| {
        assert s[i] == base[i] == t[i];
      } else {
        PaddedBehind(s, i);
        PaddedBehind(t, i);
      }
    }
  }

  /** A name of at most `n` bytes, filled up with spaces. */
  function SpaceFilled(s: seq<byte>, n: nat): (r: seq<byte>)
    requires |s| <= n
    ensures |r| == n
  {
    s + seq(n - |s|, _ => 0x20)
  }

  lemma BeforeFilled(s: seq<byte>, n: nat)
    requires |s| <= n && 0x20 !in s
    ensures Before(SpaceFilled(s, n), SPACE) == s
  {
    if |s| < n {
      var rest := seq<byte>(n - |s| - 1, _ => 0x20);
      assert SpaceFilled(s, n) == s + [SPACE] + rest;
      BeforeAppend(s, rest, SPACE);
    } else {
      assert SpaceFilled(s, n) == s;
      BeforeAppend(s, [], SPACE);
    }
  }

  /** The entry of the file BASE.EXT shows that name, and the entry of a file without extension its base name. */
  lemma ShownOfFilled(base: seq<byte>, ext: seq<byte>, e: DirEntry)
    requires |base| <= 8 && |ext| <= 3 && 0x20 !in base && 0x20 !in ext && 0 !in base && 0 !in ext
    requires e.name == SpaceFilled(base, 8) && e.ext == SpaceFilled(ext, 3)
    ensures ext != [] ==> ShownName(e) == base + [0x2E] + ext
    ensures ext == [] ==> ShownName(e) == base
  {
    BeforeFilled(base, 8);
    BeforeFilled(ext, 3);
    BeforeAppend(Rendered(e), [], 0);
  }

  /** The base name is what precedes the first dot. */
  lemma BaseBeforeDot(e: DirEntry)
    requires ProperName(e)
    ensures Before(Rendered(e), DOT) == Before(e.name, SPACE)
    ensures e.ext[0] != SPACE ==> Rendered(e)[|Before(e.name, SPACE)|..] == [DOT] + Before(e.ext, SPACE)
    ensures e.ext[0] == SPACE ==> Rendered(e)[|Before(e.name, SPACE)|..] == []
  {
    var base := Before(e.name, SPACE);
    assert DOT !in base;
    BeforeAppend(base, Before(e.ext, SPACE), DOT);
    if e.ext[0] != SPACE {
      assert Rendered(e) == base + [DOT] + Before(e.ext, SPACE);
    } else {
      assert Rendered(e) == base;
    }
  }

  /** Two well-formed entries show the same name only if their 11 name bytes are the same. */
  lemma ShownNameInjective(a: DirEntry, b: DirEntry)
    requires ProperName(a) && ProperName(b)
    requires ShownName(a) == ShownName(b)
    ensures a.name == b.name && a.ext == b.ext
  {
    assert 0 !in Rendered(a) && 0 !in Rendered(b);
    BeforeAppend(Rendered(a), [], 0);
    BeforeAppend(Rendered(b), [], 0);
    assert Rendered(a) == Rendered(b);
    BaseBeforeDot(a);
    BaseBeforeDot(b);
    PaddedDetermined(a.name, b.name);
    assert Before(a.ext, SPACE) == Before(b.ext, SPACE) by {
      if a.ext[0] != SPACE {
        assert Before(a.ext, SPACE) == ([DOT] + Before(a.ext, SPACE))[1..];
        assert Before(b.ext, SPACE) == ([DOT] + Before(b.ext, SPACE))[1..];
      }
    }
    PaddedDetermined(a.ext, b.ext);
  }

  // ---------- Lookup ----------

  /** Entry `i` precedes the end mark and is not deleted. */
  predicate Live(root: Root, i: nat)
    requires i < ROOT_ENTRIES
  {
    && (forall j :: 0 <= j <= i ==> root[j].name[0] != END_MARK)
    && root[i].name[0] != DELETED_MARK
  }

  predicate Matches(root: Root, name: seq<byte>, i: nat)
    requires i < ROOT_ENTRIES
  {
    Live(root, i) && ShownName(root[i]) == name
  }

  /** Entry `i` is the first live entry that shows `name`. */
  predicate FirstMatch(root: Root, name: seq<byte>, i: nat)
    requires i < ROOT_ENTRIES
  {
    Matches(root, name, i) && forall j :: 0 <= j < i ==> !Matches(root, name, j)
  }

  /** Whether an entry, rendered, compares equal to a NUL-terminated name. */
  method Shows(e: DirEntry, filename: seq<byte>) returns (same: bool)
    requires 0 in filename
    ensures same <==> ShownName(e) == CString(filename)
  {
    var full := RenderName(e);
    var order := Strcmp(full, filename);
    same := order == 0;
  }

  /** Lookup of a NUL-terminated name: the first live match, or -1 exactly when there is none. */
  method FindEntry(root: Root, filename: seq<byte>) returns (i: int)
    requires 0 in filename
    ensures -1 <= i < ROOT_ENTRIES
    ensures i >= 0 ==> FirstMatch(root, CString(filename), i)
    ensures i < 0 ==> forall j :: 0 <= j < ROOT_ENTRIES ==> !Matches(root, CString(filename), j)
  {
    i := 0;
    ghost var name := CString(filename);
    while i < ROOT_ENTRIES
      invariant 0 <= i <= ROOT_ENTRIES
      invariant forall j :: 0 <= j < i ==> root[j].name[0] != END_MARK
      invariant forall j :: 0 <= j < i ==> !Matches(root, name, j)
    {
      if root[i].name[0] == END_MARK {
        return -1;
      }
      if root[i].name[0] != DELETED_MARK {
        var same := Shows(root[i], filename);
        if same {
          return i;
        }
      }
      i := i + 1;
    }
    i := -1;
  }

  // ---------- Listing and query ----------

  function Info(e: DirEntry): (info: DirInfo) {
    DirInfo(ShownName(e), e.attributes, e.size, e.cluster, e.writeDate, e.writeTime)
  }

  /** What listing and query report of a packed record: its fields, each under its own name. */
  lemma InfoOfPacked(name: Name8, ext: Name3, attributes: byte, unread: seq<byte>, writeTime: uint16,
                     writeDate: uint16, cluster: uint16, size: uint32)
    requires |unread| == 10
    ensures var info := Info(EntryOf(Packed(name, ext, attributes, unread, writeTime, writeDate, cluster, size)));
            && info.attributes == attributes && info.size == size && info.start == cluster
            && info.writeDate == writeDate && info.writeTime == writeTime
  {
    EntryOfPacked(name, ext, attributes, unread, writeTime, writeDate, cluster, size);
  }

  predicate IsVolumeLabel(e: DirEntry) {
    e.attributes / ATTR_VOLUME % 2 == 1
  }

  /** The indices a listing reports, from `i` on: live entries that are not volume labels. */
  function ListedFrom(root: Root, i: nat): (s: seq<nat>)
    requires i <= ROOT_ENTRIES
    decreases |root| - i
  {
    if i == ROOT_ENTRIES || root[i].name[0] == END_MARK then []
    else if root[i].name[0] == DELETED_MARK || IsVolumeLabel(root[i]) then ListedFrom(root, i + 1)
    else [i] + ListedFrom(root, i + 1)
  }

  lemma {:induction false} ListedAreLive(root: Root, i: nat)
    requires i <= ROOT_ENTRIES
    requires forall j :: 0 <= j < i ==> root[j].name[0] != END_MARK
    ensures forall n <- ListedFrom(root, i) ::
              i <= n < ROOT_ENTRIES && Live(root, n) && !IsVolumeLabel(root[n])
    ensures forall n :: i <= n < ROOT_ENTRIES && Live(root, n) && !IsVolumeLabel(root[n])
              ==> n in ListedFrom(root, i)
    decreases |root| - i
  {
    if i < ROOT_ENTRIES && root[i].name[0] != END_MARK {
      ListedAreLive(root, i + 1);
    }
  }

  /** They are listed in the order of the directory, each once. */
  lemma {:induction false} ListedInOrder(root: Root, i: nat, j: nat, k: nat)
    requires i <= ROOT_ENTRIES && j < k < |ListedFrom(root, i)|
    ensures i <= ListedFrom(root, i)[j] < ListedFrom(root, i)[k]
    decreases |root| - i
  {
    var rest := ListedFrom(root, i + 1);
    if ListedFrom(root, i) == rest {
      ListedInOrder(root, i + 1, j, k);
    } else if j > 0 {
      ListedInOrder(root, i + 1, j - 1, k - 1);
    } else {
      ListedAtLeast(root, i + 1, k - 1);
    }
  }

  lemma {:induction false} ListedAtLeast(root: Root, i: nat, k: nat)
    requires i <= ROOT_ENTRIES && k < |ListedFrom(root, i)|
    ensures i <= ListedFrom(root, i)[k]
    decreases |root| - i
  {
    if ListedFrom(root, i) == ListedFrom(root, i + 1) {
      ListedAtLeast(root, i + 1, k);
    } else if k > 0 {
      ListedAtLeast(root, i + 1, k - 1);
    }
  }

  /**
   The same on the bytes of the cached directory: no record up to it is the end mark, and it is
   neither deleted nor a label.
   */
  lemma ListedRecords(cache: seq<byte>, n: nat)
    requires |cache| == 7168
    ensures n in ListedFrom(RootOf(cache), 0) <==>
              && n < 224 && (forall j :: 0 <= j <= n ==> cache[32 * j] != 0x00)
              && cache[32 * n] != 0xE5 && cache[32 * n + 11] as bv8 & 0x08 == 0
  {
    var root := RootOf(cache);
    ListedAreLive(root, 0);
    forall j | 0 <= j < ROOT_ENTRIES
      ensures root[j].name[0] == cache[32 * j] && root[j].attributes == cache[32 * j + 11]
    {
      var record := cache[RECORD_BYTES * j..RECORD_BYTES * j + RECORD_BYTES];
      assert record[0] == cache[32 * j] && record[11] == cache[32 * j + 11];
    }
    if n < ROOT_ENTRIES {
      VolumeBit(cache[32 * n + 11]);
    }
  }

  lemma VolumeBit(a: byte)
    ensures a / ATTR_VOLUME % 2 == 1 <==> a as bv8 & 0x08 != 0
  {
    VolumeBitOf(a as bv8);
  }

  lemma VolumeBitOf(a: bv8)
    ensures (a as int) / 8 % 2 == 1 <==> a & 0x08 != 0
  {
    assert a & 0x08 == ((a >> 3) & 1) << 3;
    assert (a >> 3) & 1 == (a / 8) % 2;
  }

  /** `infos` describes the entries at the indices `shown`, one for one. */
  predicate Reports(root: Root, shown: seq<nat>, infos: seq<DirInfo>) {
    && |infos| == |shown|
    && forall k :: 0 <= k < |infos| ==> shown[k] < ROOT_ENTRIES && infos[k] == Info(root[shown[k]])
  }

  lemma ReportsOneMore(root: Root, shown: seq<nat>, infos: seq<DirInfo>, i: nat, info: DirInfo)
    requires Reports(root, shown, infos) && i < ROOT_ENTRIES && info == Info(root[i])
    ensures Reports(root, shown + [i], infos + [info])
  {
  }

  lemma AppendShifts(s: seq<nat>, i: nat, t: seq<nat>)
    ensures (s + [i]) + t == s + ([i] + t)
  {
  }

  /** The listing reports the first `max` of the listed entries, or all of them, in order. */
  method ListDir(root: Root, max: int) returns (infos: seq<DirInfo>)
    ensures |infos| == if max < 0 then 0 else if max < |ListedFrom(root, 0)| then max else |ListedFrom(root, 0)|
    ensures var listed := ListedFrom(root, 0);
            forall k :: 0 <= k < |infos| ==> listed[k] < ROOT_ENTRIES && infos[k] == Info(root[listed[k]])
  {
    infos := [];
    ghost var shown: seq<nat> := [];
    var i := 0;
    while i < ROOT_ENTRIES && |infos| < max
      invariant 0 <= i <= ROOT_ENTRIES
      invariant Reports(root, shown, infos)
      invariant shown + ListedFrom(root, i) == ListedFrom(root, 0)
      invariant |infos| <= max || infos == []
    {
      if root[i].name[0] == END_MARK {
        break;
      }
      if root[i].name[0] != DELETED_MARK && !IsVolumeLabel(root[i]) {
        var info := DescribeEntry(root[i]);
        ReportsOneMore(root, shown, infos, i, info);
        AppendShifts(shown, i, ListedFrom(root, i + 1));
        infos := infos + [info];
        shown := shown + [i];
      }
      i := i + 1;
    }
    assert |infos| < max ==> ListedFrom(root, i) == [];
    assert shown == ListedFrom(root, 0)[..|shown|];
  }

  method DescribeEntry(e: DirEntry) returns (info: DirInfo)
    ensures info == Info(e)
  {
    var full := RenderName(e);
    info := DirInfo(CString(full), e.attributes, e.size, e.cluster, e.writeDate, e.writeTime);
  }

  /** The query: the information of the entry lookup finds, or nothing. */
  method GetFileInfo(root: Root, filename: seq<byte>) returns (info: Option<DirInfo>)
    requires 0 in filename
    ensures info.Some? <==> exists j: nat :: j < ROOT_ENTRIES && Matches(root, CString(filename), j)
    ensures info.Some? ==> exists i: nat ::
              i < ROOT_ENTRIES && FirstMatch(root, CString(filename), i) && info.value == Info(root[i])
  {
    var i := FindEntry(root, filename);
    if i < 0 {
      return None;
    }
    var found := DescribeEntry(root[i]);
    info := Some(found);
  }

  /**
   Every name a listing reports is found by lookup, at or before the entry listed, and the
   query shows the same name.
   */
  lemma ListedIsFound(root: Root, n: nat) returns (i: nat)
    requires n in ListedFrom(root, 0)
    ensures i <= n < ROOT_ENTRIES && FirstMatch(root, Info(root[n]).name, i)
    ensures Info(root[i]).name == Info(root[n]).name
  {
    ListedAreLive(root, 0);
    i := FirstMatchBelow(root, ShownName(root[n]), n);
  }

  lemma {:induction false} FirstMatchBelow(root: Root, name: seq<byte>, n: nat) returns (i: nat)
    requires n < ROOT_ENTRIES && Matches(root, name, n)
    ensures i <= n && FirstMatch(root, name, i)
  {
    if j :| 0 <= j < n && Matches(root, name, j) {
      i := FirstMatchBelow(root, name, j);
    } else {
      i := n;
    }
  }

  /** Where live entries are well formed and pairwise different, lookup of an entry's name returns that entry. */
  lemma LookupInvertsShow(root: Root, n: nat)
    requires n < ROOT_ENTRIES && Live(root, n)
    requires forall i :: 0 <= i < ROOT_ENTRIES && Live(root, i) ==> ProperName(root[i])
    requires forall i, j :: 0 <= i < j < ROOT_ENTRIES && Live(root, i) && Live(root, j) ==>
               root[i].name != root[j].name || root[i].ext != root[j].ext
    ensures FirstMatch(root, ShownName(root[n]), n)
  {
    forall j | 0 <= j < n ensures !Matches(root, ShownName(root[n]), j) {
      if Matches(root, ShownName(root[n]), j) {
        ShownNameInjective(root[j], root[n]);
      }
    }
  }
}
