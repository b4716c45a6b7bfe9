/** A client at work on a formatted disk: the file system together with the files it has open. Every call it makes
    is a step of the specification in FileSystemRuns. */
module Sessions {
  import opened Layout
  import opened SectorStores
  import opened FileHeaders
  import opened OpenFiles
  import opened Directories
  import opened DiskStates
  import opened FileSystems
  import opened FileSystemRuns

  ghost function StoreOf(d: Sectors): Store
    requires DiskInv(d)
  {
    Store(Files(d), NUM_SECTORS - |MarkedOn(d)|)
  }

  // ---- what the calls do to the disk ----

  lemma RoomMeans(d: Sectors, name: Name, size: CInt)
    requires DiskInv(d)
    ensures Room(StoreOf(d), name, size) <==> CanCreate(d, name, size)
  {
    hide DiskInv, Files, MarkedOn, Key;
  }

  lemma CreateStep(d: Sectors, d': Sectors, name: Name, size: CInt, success: bool)
    requires DiskInv(d) && (success <==> CanCreate(d, name, size))
    requires !success ==> d' == d
    requires success ==> CreateResult(d, d', name, size)
    ensures DiskInv(d') && success == Room(StoreOf(d), name, size) && Creates(StoreOf(d), name, size, StoreOf(d'))
  {
    hide DiskInv, Files, MarkedOn, MetaUpdate, NewlyListed, Listing, Key, TableOf;
  }

  lemma SetMinus(s: set<int>, t: set<int>)
    requires t <= s
    ensures |s - t| == |s| - |t|
  {
  }

  lemma FileSize(d: Sectors, s: int)
    requires FileAt(d, s)
    ensures |FileSectors(d, s)| == Cost(HeaderAt(d, s).Length())
  {
    var h := HeaderAt(d, s);
    OkFacts(h);
    ElementsSize(h.Data());
    SectorsForSize(h.numBytes);
    hide DecodeHeader;
  }

  lemma RemoveStep(d: Sectors, d': Sectors, name: Name, ok: bool)
    requires DiskInv(d) && (ok <==> Key(name) in Files(d))
    requires !ok ==> d' == d
    requires ok ==> RemoveResult(d, d', name)
    ensures ok == (Key(name) in StoreOf(d).files)
    ensures DiskInv(d') && StoreOf(d') == Without(StoreOf(d), Key(name))
  {
    hide FileBytes, Elements, Header.Ok, Listing, Key, TableOf, MarkedOn, MetaUpdate, Cost, SlotsOk, Disjoint, Exact, MetaOk, FileSectors;
    if ok {
      var key := Key(name);
      var s := Listing(TableOf(d))[key];
      ListedSectorsMarked(d, key);
      SetMinus(MarkedOn(d), FileSectors(d, s));
      FileSize(d, s);
    }
  }

  lemma ListedSectorsMarked(d: Sectors, key: seq<byte>)
    requires DiskInv(d) && key in Listing(TableOf(d))
    ensures FileAt(d, Listing(TableOf(d))[key]) && FileSectors(d, Listing(TableOf(d))[key]) <= MarkedOn(d)
  {
    hide FileBytes, DecodeHeader, DecodeTable, Header.Ok, MarkedOn, FileSectors, Key;
    ListedFile(d, key);
    SlotFacts(d, FindIn(TableOf(d), key) + 2);
  }

  /** Writing the data sectors of one listed file changes that file's contents and nothing else. */
  lemma ListedWrite(d: Sectors, d': Sectors, key: seq<byte>)
    requires DiskInv(d) && key in Listing(TableOf(d)) && OnlyData(d, d', ListedHeader(d, key))
    ensures DiskInv(d') && TableOf(d') == TableOf(d) && MarkedOn(d') == MarkedOn(d)
    ensures HeaderAt(d', FREE_MAP_SECTOR) == HeaderAt(d, FREE_MAP_SECTOR)
    ensures HeaderAt(d', DIRECTORY_SECTOR) == HeaderAt(d, DIRECTORY_SECTOR)
    ensures Files(d') == Files(d)[key := FileBytes(d', ListedHeader(d, key))]
    ensures HeadersKept(d, d', {})
  {
    hide FileBytes, DecodeHeader, DecodeTable, Header.Ok, MarkedOn, Key, Disjoint, Exact, Listing, TableOf, DistinctNames;
    ListedFile(d, key);
    var k := FindIn(TableOf(d), key) + 2;
    assert DataWrite(d, d', k);
    WriteLeaves(d, d', k, k);
    WriteLeaves(d, d', k, 0);
    WriteLeaves(d, d', k, 1);
    FilesAfterWrite(d, d', key, k);
    forall other | other in Listing(TableOf(d)) ensures ListedHeader(d', other) == ListedHeader(d, other) {
      ListedFile(d, other);
      WriteLeaves(d, d', k, FindIn(TableOf(d), other) + 2);
    }
  }

  lemma WrittenStore(d: Sectors, d': Sectors, key: seq<byte>)
    requires DiskInv(d) && key in Listing(TableOf(d)) && OnlyData(d, d', ListedHeader(d, key))
    ensures HeaderAt(d', FREE_MAP_SECTOR) == HeaderAt(d, FREE_MAP_SECTOR)
    ensures HeaderAt(d', DIRECTORY_SECTOR) == HeaderAt(d, DIRECTORY_SECTOR)
    ensures DiskInv(d') && HeadersKept(d, d', {})
    ensures StoreOf(d') == StoreOf(d).(files := StoreOf(d).files[key := FileBytes(d', ListedHeader(d, key))])
  {
    hide FileBytes, HeaderAt, MarkedOn, Listing, TableOf, DistinctNames, ListedHeader, Files, OnlyData, MetaOk, SlotsOk, Disjoint, Exact;
    ListedWrite(d, d', key);
  }

  lemma AddedThenRemoved<K, V>(m: map<K, V>, k: K, v: V)
    requires k !in m
    ensures m[k := v] - {k} == m
  {
  }

  lemma GrownThenShrunk<T>(s: set<T>, t: set<T>)
    requires s <= t
    ensures t - (t - s) == s
  {
  }

  /** Create followed by Remove of the same file gives back exactly the sectors taken: free map, directory
      and every other file are as before. */
  lemma CreateRemove(d: Sectors, d1: Sectors, d2: Sectors, name: Name, again: Name, size: int)
    requires DiskInv(d) && CreateResult(d, d1, name, size) && RemoveResult(d1, d2, again)
    requires Key(again) == Key(name)
    ensures MarkedOn(d2) == MarkedOn(d) && Listing(TableOf(d2)) == Listing(TableOf(d)) && Files(d2) == Files(d)
  {
    hide SlotsOk, Disjoint, Exact, DistinctNames, MetaOk, MarkedOn, MetaUpdate, Listing, Key, TableOf, Cost, FileSectors, FileAt, HeaderAt, Contents;
    var s := Listing(TableOf(d1))[Key(name)];
    AddedThenRemoved(Listing(TableOf(d)), Key(name), s);
    var content :| |content| == Size(size) && Files(d1) == Files(d)[Key(name) := content];
    AddedThenRemoved(Files(d), Key(name), content);
    GrownThenShrunk(MarkedOn(d), MarkedOn(d1));
  }

  // ---- headers that stay ----

  /** Every listed file but those under these keys is still listed, with the same header: the copy of the header
      that an open file holds is still right. */
  ghost predicate HeadersKept(d: Sectors, d': Sectors, gone: set<seq<byte>>) {
    && DiskInv(d) && DiskInv(d')
    && forall key :: key in Listing(TableOf(d)) && key !in gone ==>
         key in Listing(TableOf(d')) && ListedHeader(d', key) == ListedHeader(d, key)
  }

  lemma SameHeader(d: Sectors, d': Sectors, free: set<int>, key: seq<byte>)
    requires DiskInv(d) && DiskInv(d') && free !! MarkedOn(d) && MetaUpdate(d, d', free)
    requires key in Listing(TableOf(d)) && key in Listing(TableOf(d')) && Listing(TableOf(d'))[key] == Listing(TableOf(d))[key]
    ensures ListedHeader(d', key) == ListedHeader(d, key)
  {
    hide FileBytes, DecodeHeader, DecodeTable, Header.Ok, MarkedOn, Key, Disjoint, Exact, Listing, TableOf, DistinctNames, MetaUpdate;
    ListedFile(d, key);
    HeaderKept(d, d', free, FindIn(TableOf(d), key) + 2);
  }

  lemma CreateKeepsHeaders(d: Sectors, d': Sectors, name: Name, size: int)
    requires DiskInv(d) && CreateResult(d, d', name, size)
    ensures HeadersKept(d, d', {})
  {
    hide FileBytes, DecodeHeader, DecodeTable, Header.Ok, MarkedOn, Key, MetaOk, DistinctNames, SlotsOk, Disjoint, Exact,
         Listing, TableOf, MetaUpdate, ListedHeader, Files;
    forall key | key in Listing(TableOf(d))
      ensures key in Listing(TableOf(d')) && ListedHeader(d', key) == ListedHeader(d, key)
    {
      SameHeader(d, d', MarkedOn(d') - MarkedOn(d), key);
    }
  }

  lemma RemoveKeepsHeaders(d: Sectors, d': Sectors, name: Name, ok: bool)
    requires DiskInv(d) && (if ok then RemoveResult(d, d', name) else d' == d)
    ensures HeadersKept(d, d', {Key(name)})
  {
    hide FileBytes, DecodeHeader, DecodeTable, Header.Ok, MarkedOn, Key, MetaOk, DistinctNames, SlotsOk, Disjoint, Exact,
         Listing, TableOf, MetaUpdate, ListedHeader, Files;
    forall key | key in Listing(TableOf(d)) && key !in {Key(name)}
      ensures key in Listing(TableOf(d')) && ListedHeader(d', key) == ListedHeader(d, key)
    {
      assert key in Listing(TableOf(d)).Keys - {Key(name)};
      if ok {
        SameHeader(d, d', {}, key);
      }
    }
  }

  // ---- the client ----

  /** As long as its file exists, a handle goes with the header that is listed. */
  ghost predicate Current(d: Sectors, t: Handle, hdr: Header)
    requires DiskInv(d)
  {
    t.live ==> t.key in Listing(TableOf(d)) && hdr == ListedHeader(d, t.key)
  }

  lemma StaysCurrent(d: Sectors, d': Sectors, gone: set<seq<byte>>, t: Handle, t': Handle, hdr: Header)
    requires DiskInv(d) && HeadersKept(d, d', gone) && Current(d, t, hdr)
    requires t'.live ==> t.live && t'.key == t.key && t.key !in gone
    ensures DiskInv(d') && Current(d', t', hdr)
  {
    hide DiskInv, Listing, TableOf, ListedHeader;
  }

  lemma MovedCurrent(d: Sectors, t: Handle, position: int, hdr: Header)
    requires DiskInv(d) && Current(d, t, hdr)
    ensures Current(d, t.(position := position), hdr)
  {
    hide DiskInv, Listing, TableOf, ListedHeader;
  }

  /** Reads on from the seek position into a buffer of the right size. */
  method ReadOn(file: OpenFile, count: int) returns (bytes: seq<byte>)
    requires file.Valid() && InRange(|file.Bytes()|, count, file.seekPosition)
    modifies file
    ensures bytes == Slice(old(file.Bytes()), old(file.seekPosition), count)
    ensures file.seekPosition == old(file.seekPosition) + |bytes|
  {
    hide FileBytes, Header.Ok;
    var into := new byte[Clip(file.hdr.numBytes, count, file.seekPosition)];
    var n := file.Read(into, count);
    bytes := into[..];
  }

  /** Writes these bytes from the seek position on. */
  method WriteOn(file: OpenFile, data: seq<byte>) returns (n: nat)
    requires file.Valid() && InRange(|file.Bytes()|, |data|, file.seekPosition)
    modifies file, file.disk
    ensures file.Valid() && n == Clip(|old(file.Bytes())|, |data|, old(file.seekPosition))
    ensures file.Bytes() == Patched(old(file.Bytes()), old(file.seekPosition), data)
    ensures file.seekPosition == old(file.seekPosition) + n
    ensures OnlyData(old(file.disk.sectors), file.disk.sectors, file.hdr.Image())
  {
    hide FileBytes, Header.Ok, OnlyData;
    var from := new byte[|data|](i requires 0 <= i < |data| => data[i]);
    assert from[..] == data;
    n := file.Write(from, |data|);
  }

  lemma ReadStep(v: View, h: nat, count: int, bytes: seq<byte>)
    requires Op.Read(h, count).Valid(v) && bytes == Slice(v.Bytes(h), v.open[h].position, count)
    ensures Step(v, Op.Read(h, count), Got(bytes), v.Moved(h, |bytes|))
  {
  }

  lemma WriteStep(v: View, h: nat, data: seq<byte>, n: nat)
    requires Op.Write(h, data).Valid(v) && n == Clip(|v.Bytes(h)|, |data|, v.open[h].position)
    ensures Step(v, Op.Write(h, data), Written(n), v.Moved(h, n).(store := WriteTo(v, h, data).store))
  {
  }

  lemma OpenStep(v: View, name: Name)
    ensures if Key(name) in v.store.files
            then Step(v, Op.Open(name), Opened(v.next), v.(open := v.open[v.next := Handle(Key(name), 0, true)], next := v.next + 1))
            else Step(v, Op.Open(name), NoSuchFile, v)
  {
    hide Key;
  }

  lemma RemovedStep(v: View, name: Name)
    ensures Step(v, Op.Remove(name), Done(Key(name) in v.store.files),
                 v.(store := Without(v.store, Key(name)), open := Staled(v.open, Key(name))))
  {
    hide Key;
  }

  /** What a live handle gives access to. */
  lemma LiveFile(d: Sectors, t: Handle, hdr: Header)
    requires DiskInv(d) && Current(d, t, hdr) && t.live
    ensures hdr.Ok() && t.key in StoreOf(d).files && FileBytes(d, hdr) == StoreOf(d).files[t.key]
    ensures t.key in Listing(TableOf(d)) && hdr == ListedHeader(d, t.key)
  {
    hide FileBytes, DecodeHeader, DecodeTable, Header.Ok, MarkedOn, Key, Disjoint, Exact, SlotsOk, MetaOk, Listing, TableOf, DistinctNames;
  }

  class Session {
    const fs: FileSystem
    var files: seq<OpenFile> // every file opened so far; a handle is an index
    ghost var open: map<nat, Handle>

    /** The object behind a handle is where the handle says and holds the right header. */
    ghost predicate Tracks(h: nat, t: Handle)
      requires h < |files| && DiskInv(fs.disk.sectors)
      reads `files, fs.disk, files[h], files[h].hdr
    {
      && files[h].disk == fs.disk && files[h].seekPosition == t.position
      && files[h].hdr.Valid() && Current(fs.disk.sectors, t, files[h].hdr.Image())
    }

    /** All is well, but for these handles. */
    ghost predicate Consistent(but: set<nat>)
      reads this, fs, fs.disk, fs.freeMapFile.hdr, fs.directoryFile.hdr, files, set f <- files :: f.hdr
    {
      && fs.Valid()
      && (forall h :: h in open ==> h < |files| && (h in but || Tracks(h, open[h])))
      && (forall g, h :: 0 <= g < h < |files| ==> files[g] != files[h])
    }

    ghost predicate Valid()
      reads this, fs, fs.disk, fs.freeMapFile.hdr, fs.directoryFile.hdr, files, set f <- files :: f.hdr
    {
      Consistent({})
    }

    ghost function View(): View
      requires DiskInv(fs.disk.sectors)
      reads this, fs, fs.disk
    {
      FileSystemRuns.View(StoreOf(fs.disk.sectors), open, |files|)
    }

    /** The object behind a handle on a file that exists. */
    lemma Behind(h: nat)
      requires Valid() && View().Usable(h)
      ensures h < |files| && files[h].Valid() && files[h].disk == fs.disk && files[h].Bytes() == View().Bytes(h)
      ensures files[h].seekPosition == open[h].position
      ensures open[h].key in Listing(TableOf(fs.disk.sectors))
      ensures files[h].hdr.Image() == ListedHeader(fs.disk.sectors, open[h].key)
    {
      hide DiskInv, StoreOf, Listing, TableOf, ListedHeader, FileBytes, Header.Ok, FileSystem.Attached;
      LiveFile(fs.disk.sectors, open[h], files[h].hdr.Image());
    }

    constructor (fs: FileSystem)
      requires fs.Valid()
      ensures Valid() && this.fs == fs && files == []
      ensures View() == FileSystemRuns.View(StoreOf(fs.disk.sectors), map[], 0)
    {
      this.fs := fs;
      files, open := [], map[];
    }

    method Create(name: Name, size: CInt) returns (r: Outcome)
      requires Valid() && Op.Create(name, size).Valid(View())
      modifies fs.disk
      ensures Valid() && Step(old(View()), Op.Create(name, size), r, View())
    {
      hide DiskInv, StoreOf, CanCreate, CreateResult, HeadersKept, Current, Key, Creates, Room;
      ghost var d := fs.disk.sectors;
      RoomMeans(d, name, size);
      var success := fs.Create(name, size);
      CreateStep(d, fs.disk.sectors, name, size, success);
      if success {
        CreateKeepsHeaders(d, fs.disk.sectors, name, size);
        forall h | h in open ensures Current(fs.disk.sectors, open[h], files[h].hdr.Image()) {
          StaysCurrent(d, fs.disk.sectors, {}, open[h], open[h], files[h].hdr.Image());
        }
      }
      r := Done(success);
    }

    /** The removal itself, before the handles are brought up to date. */
    method RemoveBehind(name: Name) returns (ok: bool)
      requires Valid()
      modifies fs.disk
      ensures fs.Valid() && HeadersKept(old(fs.disk.sectors), fs.disk.sectors, {Key(name)})
      ensures StoreOf(fs.disk.sectors) == Without(old(View()).store, Key(name))
      ensures ok == (Key(name) in old(View()).store.files)
    {
      hide DiskInv, RemoveResult, HeadersKept, Tracks, StoreOf, Key, Without;
      ghost var d := fs.disk.sectors;
      ok := fs.Remove(name);
      RemoveStep(d, fs.disk.sectors, name, ok);
      RemoveKeepsHeaders(d, fs.disk.sectors, name, ok);
    }

    /** The files opened under this key are no longer good for anything but being closed. */
    method Remove(name: Name) returns (r: Outcome)
      requires Valid()
      modifies fs.disk, `open
      ensures Valid() && Step(old(View()), Op.Remove(name), r, View())
    {
      hide DiskInv, HeadersKept, Current, StoreOf, Key, Without, Step, FileSystem.Attached;
      ghost var d, before := fs.disk.sectors, open;
      RemovedStep(View(), name);
      var ok := RemoveBehind(name);
      open := Staled(open, Key(name));
      forall h | h in open ensures Current(fs.disk.sectors, open[h], files[h].hdr.Image()) {
        StaysCurrent(d, fs.disk.sectors, {Key(name)}, before[h], open[h], files[h].hdr.Image());
      }
      r := Done(ok);
    }

    method Open(name: Name) returns (r: Outcome)
      requires Valid()
      modifies this
      ensures Valid() && Step(old(View()), Op.Open(name), r, View())
      ensures files == old(files) || (files == old(files) + [files[|files| - 1]] && fresh(files[|files| - 1]))
    {
      hide DiskInv, Listing, TableOf, ListedHeader, HeaderAt, Key, FileBytes, Step, Header.Ok, MarkedOn;
      OpenStep(View(), name);
      var file := fs.Open(name);
      if file == null {
        return NoSuchFile;
      }
      r := Opened(|files|);
      open := open[|files| := Handle(Key(name), 0, true)];
      files := files + [file];
    }

    method Close(h: nat) returns (r: Outcome)
      requires Valid() && Op.Close(h).Valid(View())
      modifies `open
      ensures Valid() && Step(old(View()), Op.Close(h), r, View())
    {
      hide DiskInv, StoreOf, Current;
      open := open - {h};
      r := Done(true);
    }

    /** Brings a handle up to date after its file has been moved to a new position. */
    ghost method Moved(h: nat, position: int)
      requires Consistent({h}) && h in open && Tracks(h, open[h].(position := position))
      modifies `open
      ensures Valid() && open == old(open)[h := old(open)[h].(position := position)]
    {
      hide DiskInv, Tracks, FileSystem.Attached;
      open := open[h := open[h].(position := position)];
    }

    method Seek(h: nat, position: int) returns (r: Outcome)
      requires Valid() && Op.Seek(h, position).Valid(View())
      modifies files[h], `open
      ensures Valid() && Step(old(View()), Op.Seek(h, position), r, View())
    {
      hide DiskInv, StoreOf, Current, FileSystem.Attached;
      MovedCurrent(fs.disk.sectors, open[h], position, files[h].hdr.Image());
      files[h].Seek(position);
      Moved(h, position);
      r := Done(true);
    }

    /** The read itself, before the handle is brought up to date. */
    method ReadBehind(h: nat, count: int) returns (bytes: seq<byte>)
      requires Valid() && Op.Read(h, count).Valid(View())
      modifies files[h]
      ensures bytes == Slice(View().Bytes(h), open[h].position, count)
      ensures files[h].seekPosition == open[h].position + |bytes|
    {
      hide DiskInv, StoreOf, Slice, InRange, OpenFile.Bytes, OpenFile.Valid, Tracks;
      Behind(h);
      bytes := ReadOn(files[h], count);
    }

    method Read(h: nat, count: int) returns (r: Outcome)
      requires Valid() && Op.Read(h, count).Valid(View())
      modifies files[h], `open
      ensures Valid() && Step(old(View()), Op.Read(h, count), r, View())
    {
      hide DiskInv, StoreOf, Current, Step, Slice, InRange, FileSystem.Attached;
      var bytes := ReadBehind(h, count);
      ReadStep(old(View()), h, count, bytes);
      MovedCurrent(fs.disk.sectors, open[h], open[h].position + |bytes|, files[h].hdr.Image());
      Moved(h, open[h].position + |bytes|);
      r := Got(bytes);
    }

    /** The write itself, before the handle is brought up to date. */
    method WriteBehind(h: nat, data: seq<byte>) returns (n: nat)
      requires Valid() && Op.Write(h, data).Valid(View())
      modifies files[h], fs.disk
      ensures fs.Valid() && HeadersKept(old(fs.disk.sectors), fs.disk.sectors, {})
      ensures n == Clip(|old(View()).Bytes(h)|, |data|, open[h].position)
      ensures StoreOf(fs.disk.sectors) == WriteTo(old(View()), h, data).store
      ensures files[h].seekPosition == open[h].position + n
    {
      hide DiskInv, HeadersKept, Current, StoreOf, Listing, TableOf, ListedHeader, HeaderAt, FileBytes, Header.Ok, Patched, InRange,
           OnlyData, OpenFile.Valid;
      ghost var d := fs.disk.sectors;
      Behind(h);
      n := WriteOn(files[h], data);
      WrittenStore(d, fs.disk.sectors, open[h].key);
    }

    method Write(h: nat, data: seq<byte>) returns (r: Outcome)
      requires Valid() && Op.Write(h, data).Valid(View())
      modifies files[h], fs.disk, `open
      ensures Valid() && Step(old(View()), Op.Write(h, data), r, View())
    {
      hide DiskInv, HeadersKept, Current, StoreOf, Step, WriteTo, FileSystem.Attached, Clip;
      ghost var d := fs.disk.sectors;
      var n := WriteBehind(h, data);
      WriteStep(old(View()), h, data, n);
      forall g | g in open ensures Current(fs.disk.sectors, open[g], files[g].hdr.Image()) {
        StaysCurrent(d, fs.disk.sectors, {}, open[g], open[g], files[g].hdr.Image());
      }
      MovedCurrent(fs.disk.sectors, open[h], open[h].position + n, files[h].hdr.Image());
      Moved(h, open[h].position + n);
      r := Written(n);
    }

    /** Every call is a step of the specification. */
    method Perform(op: Op) returns (r: Outcome)
      requires Valid() && op.Valid(View())
      modifies this, fs.disk, files
      ensures Valid() && Step(old(View()), op, r, View())
      ensures forall k :: 0 <= k < |files| ==> files[k] in old(files) || fresh(files[k])
    {
      hide DiskInv, Step, StoreOf, Current;
      match op
      case Create(name, size) => r := Create(name, size);
      case Remove(name) => r := Remove(name);
      case Open(name) => r := Open(name);
      case Close(h) => r := Close(h);
      case Seek(h, position) => r := Seek(h, position);
      case Read(h, count) => r := Read(h, count);
      case Write(h, data) => r := Write(h, data);
    }

    /** Every sequence of valid calls is a run of the specification, and keeps the ownership invariant and the
        headers in memory up to date. */
    method Execute(ops: seq<Op>) returns (rs: seq<Outcome>, ghost vs: seq<View>)
      requires Valid() && CallsAreValid(View(), ops)
      modifies this, fs.disk, files
      ensures Valid() && Run(vs, ops, rs)
      ensures vs[0] == old(View()) && vs[|ops|] == View()
    {
      hide DiskInv, Step, StoreOf, Current;
      rs := [];
      vs := [View()];
      for i := 0 to |ops|
        invariant Valid() && CallsAreValid(View(), ops[i..]) && |rs| == i && |vs| == i + 1
        invariant vs[0] == old(View()) && vs[i] == View()
        invariant Run(vs, ops[..i], rs)
        invariant forall k :: 0 <= k < |files| ==> files[k] in old(files) || fresh(files[k])
      {
        var r := Perform(ops[i]);
        assert ops[i..][1..] == ops[i + 1..];
        rs := rs + [r];
        vs := vs + [View()];
      }
      assert ops[..|ops|] == ops;
    }
  }
}
