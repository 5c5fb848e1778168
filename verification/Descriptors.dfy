/**
 The descriptor table of `filesystem.c` under all its calls: what open, close, read and
 seek may do to the 16 descriptors, and what whole runs of them return.
 */
module Descriptors {
  import opened Machine
  import opened Chain
  import opened FileReader
  import Directory
  import Strings

  const MAX_FILES := 16

  /** A mounted file system: the volume, the root directory, and whether it is initialised. */
  datatype Mount = Mount(vol: Volume, root: Directory.Root, initialized: bool)

  type Table = t: seq<File> | |t| == MAX_FILES
    witness seq(MAX_FILES, _ => File(false, 0, 0, 0, 0, 0, seq(16, _ => 0)))

  /** A call with its result, as its caller sees them; names are C strings. */
  datatype Call =
    | Opens(name: Bytes, fd: int)
    | Closes(fd: int, ok: bool)
    | Reads(fd: int, count: uint16, r: int, bytes: Bytes, faulted: bool)
    | Seeks(fd: int, offset: uint32, ok: bool)

  predicate IsOpen(files: Table, fd: int) {
    0 <= fd < MAX_FILES && files[fd].inUse
  }

  predicate AllOpen(files: Table) {
    forall i :: 0 <= i < MAX_FILES ==> files[i].inUse
  }

  predicate LeastFree(files: Table, fd: int) {
    0 <= fd < MAX_FILES && !files[fd].inUse && forall i :: 0 <= i < fd ==> files[i].inUse
  }

  predicate NoMatch(root: Directory.Root, name: Bytes) {
    forall j :: 0 <= j < Directory.ROOT_ENTRIES ==> !Directory.Matches(root, name, j)
  }

  /** `f` is a descriptor just opened on the first live entry that shows `name`, which is entry `j`. */
  predicate OpenedOn(root: Directory.Root, name: Bytes, j: nat, f: File) {
    && j < Directory.ROOT_ENTRIES && Directory.FirstMatch(root, name, j)
    && IsOpened(f, root[j].cluster, root[j].size)
    && f.attributes == root[j].attributes && Strings.CString(f.name) == name
  }

  /** Only descriptor `fd` has changed. */
  predicate OnlyAt(files: Table, fd: int, files': Table) {
    0 <= fd < MAX_FILES && files' == files[fd := files'[fd]]
  }

  ghost predicate OpenHappens(m: Mount, files: Table, name: Bytes, fd: int, files': Table) {
    if fd == -1 then files' == files && (!m.initialized || AllOpen(files) || NoMatch(m.root, name))
    else
      && m.initialized && LeastFree(files, fd) && OnlyAt(files, fd, files')
      && exists j: nat :: OpenedOn(m.root, name, j, files'[fd])
  }

  /** The four calls on a mounted file system. */
  ghost predicate Happens(m: Mount, files: Table, e: Call, files': Table) {
    match e
    case Opens(name, fd) => OpenHappens(m, files, name, fd, files')
    case Closes(fd, ok) =>
      ok == IsOpen(files, fd) && files' == if ok then files[fd := files[fd].(inUse := false)] else files
    case Reads(fd, count, r, bytes, faulted) =>
      if !IsOpen(files, fd) then r == -1 && bytes == [] && files' == files
      else r == |bytes| && OnlyAt(files, fd, files') && ReadOutcome(m.vol, files[fd], count, files'[fd], bytes, faulted)
    case Seeks(fd, offset, ok) =>
      if !IsOpen(files, fd) then !ok && files' == files
      else OnlyAt(files, fd, files') && SeekOutcome(m.vol, files[fd], offset, files'[fd], ok)
  }

  // ---------- Runs ----------

  /** `tables` are the states before, between and after the calls. */
  ghost predicate IsTableRun(m: Mount, tables: seq<Table>, calls: seq<Call>) {
    && |tables| == |calls| + 1
    && forall i :: 0 <= i < |calls| ==> Happens(m, tables[i], calls[i], tables[i + 1])
  }

  predicate NoneOpen(files: Table) {
    forall i :: 0 <= i < MAX_FILES ==> !files[i].inUse
  }

  /** What a call is to descriptor `fd`: an event of its session, or nothing. */
  function EventOf(e: Call, fd: int): (events: seq<Event>) {
    match e
    case Reads(d, count, r, bytes, faulted) => if d == fd then [Read(count, bytes, faulted)] else []
    case Seeks(d, offset, ok) => if d == fd then [Seek(offset, ok)] else []
    case _ => []
  }

  predicate OpensAt(e: Call, fd: int) {
    e.Opens? && e.fd == fd
  }

  /** The reads and seeks on descriptor `fd` since it was last opened. */
  function Session(calls: seq<Call>, fd: int): (events: seq<Event>) {
    if calls == [] then []
    else
      var n := |calls| - 1;
      if OpensAt(calls[n], fd) then [] else Session(calls[..n], fd) + EventOf(calls[n], fd)
  }

  /** The name under which descriptor `fd` was last opened. */
  function NameOf(calls: seq<Call>, fd: int): (name: Option<Bytes>) {
    if calls == [] then None
    else
      var n := |calls| - 1;
      if OpensAt(calls[n], fd) then Some(calls[n].name) else NameOf(calls[..n], fd)
  }

  /** A call that does not open `fd` leaves it alone or is an event of its session; it does not become open. */
  lemma OneEvent(m: Mount, files: Table, e: Call, files': Table, fd: int)
    requires Happens(m, files, e, files') && !OpensAt(e, fd) && IsOpen(files', fd)
    ensures IsOpen(files, fd)
    ensures EventOf(e, fd) == [] ==> files'[fd] == files[fd]
    ensures EventOf(e, fd) != [] ==> Step(m.vol, files[fd], EventOf(e, fd)[0], files'[fd])
  {
  }

  lemma ExtendRun(vol: Volume, states: seq<File>, events: seq<Event>, e: Event, f: File)
    requires IsRun(vol, states, events) && Step(vol, states[|events|], e, f)
    ensures IsRun(vol, states + [f], events + [e])
  {
    var ss, es := states + [f], events + [e];
    forall i | 0 <= i < |es| ensures Step(vol, ss[i], es[i], ss[i + 1]) {
      if i < |events| {
        assert Step(vol, states[i], events[i], states[i + 1]);
      }
    }
  }

  /** `states` are those of a descriptor alone that was opened on entry `j` under the name of its session. */
  ghost predicate Alone(m: Mount, calls: seq<Call>, fd: int, states: seq<File>, j: nat, f: File) {
    var events, name := Session(calls, fd), NameOf(calls, fd);
    && IsRun(m.vol, states, events) && states[|events|] == f
    && name.Some? && OpenedOn(m.root, name.value, j, states[0])
  }

  /**
   Descriptors do not disturb one another: in every run of opens, closes, reads and seeks on
   all of them, from a table without open descriptors, the reads and seeks on an open
   descriptor since it was opened are a run of that descriptor alone, from the entry first found
   under its name.
   */
  lemma {:induction false} SessionIsRun(m: Mount, tables: seq<Table>, calls: seq<Call>, fd: int)
    returns (states: seq<File>, j: nat)
    requires IsTableRun(m, tables, calls) && NoneOpen(tables[0]) && IsOpen(tables[|calls|], fd)
    ensures Alone(m, calls, fd, states, j, tables[|calls|][fd])
    decreases |calls|
  {
    var n := |calls| - 1;
    var e, files, files' := calls[n], tables[n], tables[n + 1];
    assert Happens(m, files, e, files');
    if OpensAt(e, fd) {
      j :| OpenedOn(m.root, e.name, j, files'[fd]);
      states := [files'[fd]];
    } else {
      OneEvent(m, files, e, files', fd);
      TableRunPrefix(m, tables, calls);
      states, j := SessionIsRun(m, tables[..n + 1], calls[..n], fd);
      if EventOf(e, fd) == [] {
        assert Session(calls, fd) == Session(calls[..n], fd);
      } else {
        ExtendRun(m.vol, states, Session(calls[..n], fd), EventOf(e, fd)[0], files'[fd]);
        states := states + [files'[fd]];
        assert EventOf(e, fd) == [EventOf(e, fd)[0]];
      }
    }
  }

  lemma TableRunPrefix(m: Mount, tables: seq<Table>, calls: seq<Call>)
    requires IsTableRun(m, tables, calls) && calls != []
    ensures IsTableRun(m, tables[..|calls|], calls[..|calls| - 1])
  {
  }

  /**
   So every read of every run returns the stream of the entry found under the descriptor's
   name, from the place to which the calls on that descriptor have led.
   */
  lemma EveryReadOfEveryFile(m: Mount, tables: seq<Table>, calls: seq<Call>, i: nat) returns (j: nat)
    requires IsTableRun(m, tables, calls) && NoneOpen(tables[0])
    requires i < |calls| && calls[i].Reads? && IsOpen(tables[i], calls[i].fd)
    ensures j < Directory.ROOT_ENTRIES && NameOf(calls[..i], calls[i].fd).Some?
    ensures Directory.FirstMatch(m.root, NameOf(calls[..i], calls[i].fd).value, j)
    ensures var place := Place(Session(calls[..i], calls[i].fd), m.root[j].size);
            calls[i].bytes == Stream(m.vol, m.root[j].cluster, place, |calls[i].bytes|)
  {
    var e, fd := calls[i], calls[i].fd;
    var states;
    assert IsTableRun(m, tables[..i + 1], calls[..i]);
    states, j := SessionIsRun(m, tables[..i + 1], calls[..i], fd);
    assert Happens(m, tables[i], e, tables[i + 1]);
    RunStands(m.vol, m.root[j].cluster, m.root[j].size, states, Session(calls[..i], fd));
    ReadFromStanding(m.vol, tables[i][fd], Place(Session(calls[..i], fd), m.root[j].size),
                     e.count, tables[i + 1][fd], e.bytes, e.faulted);
  }

  /**
   And a file that is opened and read on, between whatever other calls, until a read without a
   fault returns nothing has been read as its chain says: the clusters cut to the size if they
   cover it, and only then.
   */
  lemma EveryFileReadsAs(m: Mount, tables: seq<Table>, calls: seq<Call>, fd: int, cs: seq<uint16>) returns (j: nat)
    requires IsTableRun(m, tables, calls) && NoneOpen(tables[0]) && IsOpen(tables[|calls|], fd)
    requires var events := Session(calls, fd);
             && AllReads(events) && events != []
             && var e := events[|events| - 1]; e.count > 0 && e.bytes == [] && !e.faulted
    requires Complete(m.vol.next, cs)
    ensures j < Directory.ROOT_ENTRIES && NameOf(calls, fd).Some?
    ensures Directory.FirstMatch(m.root, NameOf(calls, fd).value, j)
    ensures m.root[j].cluster == cs[0] ==> ReadsAs(m.vol, cs, m.root[j].size, Returned(Session(calls, fd)))
  {
    var states;
    states, j := SessionIsRun(m, tables, calls, fd);
    if m.root[j].cluster == cs[0] {
      WholeFileIffCovered(m.vol, cs, m.root[j].size, states, Session(calls, fd));
    }
  }

  // ---------- What the calls answer ----------

  /** Whether descriptor `fd` has been opened and not closed since, as the results of the calls tell. */
  predicate Opened(calls: seq<Call>, fd: nat) {
    if calls == [] then false
    else
      var n := |calls| - 1;
      if OpensAt(calls[n], fd) then true
      else if calls[n] == Closes(fd, true) then false
      else Opened(calls[..n], fd)
  }

  lemma {:induction false} OpenIff(m: Mount, tables: seq<Table>, calls: seq<Call>, fd: nat)
    requires IsTableRun(m, tables, calls) && NoneOpen(tables[0])
    ensures IsOpen(tables[|calls|], fd) <==> Opened(calls, fd)
    decreases |calls|
  {
    if calls != [] {
      var n := |calls| - 1;
      assert Happens(m, tables[n], calls[n], tables[n + 1]);
      TableRunPrefix(m, tables, calls);
      OpenIff(m, tables[..n + 1], calls[..n], fd);
      OpenStep(m, tables[n], calls[n], tables[n + 1], fd);
    }
  }

  lemma OpenStep(m: Mount, files: Table, e: Call, files': Table, fd: nat)
    requires Happens(m, files, e, files')
    ensures IsOpen(files', fd) <==> OpensAt(e, fd) || (IsOpen(files, fd) && e != Closes(fd, true))
  {
  }

  /**
   Every call of every run answers by the history of answers: an open takes the least
   descriptor that is not open, and fails only if all 16 are, no live entry shows the name or the
   file system is not initialised; the others succeed on open descriptors, and on no others.
   */
  lemma CallsAnswer(m: Mount, tables: seq<Table>, calls: seq<Call>, i: nat)
    requires IsTableRun(m, tables, calls) && NoneOpen(tables[0]) && i < |calls|
    ensures calls[i].Opens? ==>
              var fd := calls[i].fd;
              && -1 <= fd < 16 && (fd >= 0 ==> !Opened(calls[..i], fd))
              && (forall d: nat :: d < fd ==> Opened(calls[..i], d))
              && (fd == -1 <==> || !m.initialized || NoMatch(m.root, calls[i].name)
                                || forall d: nat :: d < 16 ==> Opened(calls[..i], d))
    ensures calls[i].Closes? && calls[i].fd >= 0 ==> (calls[i].ok <==> Opened(calls[..i], calls[i].fd))
    ensures calls[i].Reads? && calls[i].fd >= 0 ==> (calls[i].r == -1 <==> !Opened(calls[..i], calls[i].fd))
    ensures calls[i].Seeks? && calls[i].fd >= 0 && !Opened(calls[..i], calls[i].fd) ==> !calls[i].ok
    ensures !calls[i].Opens? && calls[i].fd < 0 ==> if calls[i].Reads? then calls[i].r == -1 else !calls[i].ok
  {
    assert Happens(m, tables[i], calls[i], tables[i + 1]);
    assert IsTableRun(m, tables[..i + 1], calls[..i]);
    forall fd: nat ensures IsOpen(tables[i], fd) <==> Opened(calls[..i], fd) {
      OpenIff(m, tables[..i + 1], calls[..i], fd);
    }
    if calls[i].Opens? {
      OpenAnswers(m, tables[i], calls[i].name, calls[i].fd, tables[i + 1]);
    }
  }

  lemma OpenAnswers(m: Mount, files: Table, name: Bytes, fd: int, files': Table)
    requires OpenHappens(m, files, name, fd, files')
    ensures -1 <= fd < 16
    ensures fd >= 0 ==> !IsOpen(files, fd) && forall d: nat :: d < fd ==> IsOpen(files, d)
    ensures fd == -1 <==> !m.initialized || NoMatch(m.root, name) || forall d: nat :: d < 16 ==> IsOpen(files, d)
  {
    if fd != -1 {
      var j: nat :| OpenedOn(m.root, name, j, files'[fd]);
      assert Directory.Matches(m.root, name, j);
    } else if AllOpen(files) {
      assert forall d: nat :: d < 16 ==> IsOpen(files, d);
    }
  }

  /** The query reports the file that an open would open: the same start, size and attributes. */
  lemma QueryAgreesWithOpen(root: Directory.Root, name: Bytes, i: nat, j: nat, f: File)
    requires i < Directory.ROOT_ENTRIES && Directory.FirstMatch(root, name, i) && OpenedOn(root, name, j, f)
    ensures var info := Directory.Info(root[i]);
            info.name == name && info.start == f.start && info.size == f.size && info.attributes == f.attributes
  {
    assert i == j;
  }
}
