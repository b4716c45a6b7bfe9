/** filesys/directory.cc: a fixed table of (name, header sector) entries, refining a finite map.
    Names are C strings of which only the first FILE_NAME_MAX_LEN characters count. */
module Directories {
  import opened Layout
  import opened SectorStores
  import opened FileHeaders
  import opened OpenFiles

  const FILE_NAME_MAX_LEN: nat := 9
  const NAME_BYTES: nat := FILE_NAME_MAX_LEN + 1
  const ENTRY_BYTES: nat := 20

  // ---- C strings ----

  /** The first character of a C string; the end of the sequence counts as the terminating NUL. */
  function CharAt(s: seq<byte>): byte {
    if s == [] then 0 else s[0]
  }

  function Rest(s: seq<byte>): seq<byte> {
    if s == [] then [] else s[1..]
  }

  /** strncmp(a, b, n) == 0 */
  predicate StrnEqual(a: seq<byte>, b: seq<byte>, n: nat) {
    n == 0 || (CharAt(a) == CharAt(b) && (CharAt(a) == 0 || StrnEqual(Rest(a), Rest(b), n - 1)))
  }

  /** The contents of dst after strncpy(dst, src, n). */
  function StrnCopy(dst: seq<byte>, src: seq<byte>, n: nat): (r: seq<byte>)
    requires n <= |dst|
    ensures |r| == |dst|
  {
    if n == 0 then dst
    else [CharAt(src)] + StrnCopy(dst[1..], if CharAt(src) == 0 then [] else Rest(src), n - 1)
  }

  /** The part of a name that the directory can tell apart: up to the NUL, at most n characters. */
  function Prefix(s: seq<byte>, n: nat): seq<byte> {
    if n == 0 || CharAt(s) == 0 then [] else [CharAt(s)] + Prefix(Rest(s), n - 1)
  }

  type Name = seq<byte>

  function Key(s: Name): seq<byte> {
    Prefix(s, FILE_NAME_MAX_LEN)
  }

  lemma {:induction false} StrnEqualMeansSamePrefix(a: seq<byte>, b: seq<byte>, n: nat)
    ensures StrnEqual(a, b, n) <==> Prefix(a, n) == Prefix(b, n)
  {
    if n > 0 {
      StrnEqualMeansSamePrefix(Rest(a), Rest(b), n - 1);
      var p, q := Prefix(a, n), Prefix(b, n);
      if CharAt(a) != 0 && CharAt(b) != 0 {
        assert p[1..] == Prefix(Rest(a), n - 1) && q[1..] == Prefix(Rest(b), n - 1);
        assert p == q ==> p[0] == q[0];
      }
    }
  }

  lemma {:induction false} CopyKeepsPrefix(dst: seq<byte>, src: seq<byte>, n: nat)
    requires n <= |dst|
    ensures Prefix(StrnCopy(dst, src, n), n) == Prefix(src, n)
  {
    if n > 0 {
      var r := StrnCopy(dst, src, n);
      assert r[1..] == StrnCopy(dst[1..], if CharAt(src) == 0 then [] else Rest(src), n - 1);
      CopyKeepsPrefix(dst[1..], if CharAt(src) == 0 then [] else Rest(src), n - 1);
    }
  }

  /** Character n is where a name ends for a comparison or copy of at most m: at the limit, at the end, or at the first
      NUL. */
  predicate EndsAt(s: seq<byte>, m: nat, n: nat) {
    n <= m && n <= |s| && (forall k :: 0 <= k < n ==> s[k] != 0) && (n == m || n == |s| || s[n] == 0)
  }

  lemma {:induction false} NameEnds(s: seq<byte>, m: nat) returns (n: nat)
    ensures EndsAt(s, m, n)
  {
    if m == 0 || s == [] || s[0] == 0 {
      n := 0;
    } else {
      var rest := NameEnds(s[1..], m - 1);
      n := rest + 1;
      assert forall k :: 0 < k < n ==> s[k] == s[1..][k - 1];
    }
  }

  lemma {:induction false} PrefixIs(s: seq<byte>, m: nat, n: nat)
    requires EndsAt(s, m, n)
    ensures Prefix(s, m) == s[..n]
  {
    if n > 0 {
      assert s[0] != 0;
      assert forall k :: 0 <= k < n - 1 ==> s[1..][k] == s[k + 1];
      PrefixIs(s[1..], m - 1, n - 1);
      assert s[..n] == [s[0]] + s[1..][..n - 1];
    }
  }

  /** The key of a name is its first nine characters, or those before its NUL or its end, as they are. */
  lemma KeyMeans(s: Name)
    ensures exists n: nat :: EndsAt(s, 9, n) && Key(s) == s[..n]
    ensures forall n: nat :: EndsAt(s, 9, n) ==> Key(s) == s[..n]
  {
    hide Prefix;
    var m := NameEnds(s, 9);
    forall n: nat | EndsAt(s, 9, n) ensures Key(s) == s[..n] {
      PrefixIs(s, 9, n);
    }
  }

  /** strncmp finds two names equal if and only if these characters are the same in both. */
  lemma StrnEqualMeans(a: seq<byte>, i: nat, b: seq<byte>, j: nat)
    requires EndsAt(a, 9, i) && EndsAt(b, 9, j)
    ensures StrnEqual(a, b, 9) <==> a[..i] == b[..j]
  {
    hide StrnEqual, Prefix;
    StrnEqualMeansSamePrefix(a, b, 9);
    PrefixIs(a, 9, i);
    PrefixIs(b, 9, j);
  }

  /** strncpy stores a name's characters as they are, then NULs up to the limit, and leaves the rest. */
  lemma {:induction false} StrnCopyStores(dst: seq<byte>, src: seq<byte>, m: nat, n: nat, k: nat)
    requires m <= |dst| && EndsAt(src, m, n) && k < |dst|
    ensures StrnCopy(dst, src, m)[k] == if k < n then src[k] else if k < m then 0 else dst[k]
  {
    if m > 0 && k > 0 {
      if n > 0 {
        assert src[0] != 0 && forall j :: 0 <= j < n - 1 ==> src[1..][j] == src[j + 1];
        StrnCopyStores(dst[1..], src[1..], m - 1, n - 1, k - 1);
      } else {
        StrnCopyStores(dst[1..], [], m - 1, 0, k - 1);
      }
    }
  }

  // ---- the table ----

  datatype RawEntry = Entry(inUse: bool, sector: CInt, name: seq<byte>)
  type DirEntry = e: RawEntry | |e.name| == NAME_BYTES witness Entry(false, 0, seq(NAME_BYTES, _ => 0))

  function EncodeEntry(e: DirEntry): (b: seq<byte>)
    ensures |b| == ENTRY_BYTES
  {
    [if e.inUse then 1 else 0, 0, 0, 0] + EncodeInt(e.sector) + e.name + [0, 0]
  }

  function DecodeEntry(b: seq<byte>): DirEntry
    requires |b| == ENTRY_BYTES
  {
    Entry(b[0] != 0, DecodeInt(b[4..8]), b[8..18])
  }

  lemma EntryRoundTrip(e: DirEntry)
    ensures DecodeEntry(EncodeEntry(e)) == e
  {
    IntRoundTrip(e.sector);
    var b := EncodeEntry(e);
    assert b[4..8] == EncodeInt(e.sector) && b[8..18] == e.name;
  }

  function EncodeTable(table: seq<DirEntry>): (b: seq<byte>)
    ensures |b| == |table| * ENTRY_BYTES
  {
    Pack(table, EncodeEntry, ENTRY_BYTES)
  }

  function DecodeTable(b: seq<byte>, size: nat): (table: seq<DirEntry>)
    requires |b| >= size * ENTRY_BYTES
    ensures |table| == size
  {
    Unpack(b, size, DecodeEntry, ENTRY_BYTES)
  }

  lemma TableRoundTrip(table: seq<DirEntry>)
    ensures DecodeTable(EncodeTable(table), |table|) == table
  {
    forall e: DirEntry | e in table ensures DecodeEntry(EncodeEntry(e)) == e {
      EntryRoundTrip(e);
    }
    UnpackPack(table, EncodeEntry, DecodeEntry, ENTRY_BYTES);
  }

  predicate Names(e: DirEntry, key: seq<byte>) {
    e.inUse && Key(e.name) == key
  }

  /** Index of the first entry in use under this key; the table's size if there is none. */
  function FindIn(table: seq<DirEntry>, key: seq<byte>): (i: nat)
    ensures i <= |table|
    ensures i < |table| ==> Names(table[i], key)
    ensures forall j :: 0 <= j < i ==> !Names(table[j], key)
  {
    if table == [] || Names(table[0], key) then 0 else FindIn(table[1..], key) + 1
  }

  function FirstFree(table: seq<DirEntry>): (i: nat)
    ensures i <= |table|
    ensures i < |table| ==> !table[i].inUse
    ensures forall j :: 0 <= j < i ==> table[j].inUse
  {
    if table == [] || !table[0].inUse then 0 else FirstFree(table[1..]) + 1
  }

  /** No two entries in use share a key. */
  ghost predicate DistinctNames(table: seq<DirEntry>) {
    forall i, j :: 0 <= i < j < |table| && table[i].inUse && table[j].inUse ==> Key(table[i].name) != Key(table[j].name)
  }

  /** The directory as a map from keys to header sectors. */
  ghost function Listing(table: seq<DirEntry>): (m: map<seq<byte>, int>)
    requires DistinctNames(table)
  {
    map i | 0 <= i < |table| && table[i].inUse :: Key(table[i].name) := table[i].sector
  }

  lemma ListingFind(table: seq<DirEntry>, key: seq<byte>)
    requires DistinctNames(table)
    ensures key in Listing(table) <==> FindIn(table, key) < |table|
    ensures key in Listing(table) ==> Listing(table)[key] == table[FindIn(table, key)].sector
  {
    hide Key, FindIn;
  }

  lemma ListingEntry(table: seq<DirEntry>, i: nat)
    requires DistinctNames(table) && i < |table| && table[i].inUse
    ensures Key(table[i].name) in Listing(table) && Listing(table)[Key(table[i].name)] == table[i].sector
    ensures FindIn(table, Key(table[i].name)) == i
  {
    hide Key, FindIn;
    assert Names(table[i], Key(table[i].name));
  }

  function UsedCount(table: seq<DirEntry>): nat {
    if table == [] then 0 else UsedCount(table[..|table| - 1]) + if table[|table| - 1].inUse then 1 else 0
  }

  ghost function KeysInUse(table: seq<DirEntry>): set<seq<byte>> {
    set i | 0 <= i < |table| && table[i].inUse :: Key(table[i].name)
  }

  lemma KeysInUseOfPrefix(table: seq<DirEntry>, n: nat)
    requires |table| == n + 1
    ensures KeysInUse(table) == KeysInUse(table[..n]) + if table[n].inUse then {Key(table[n].name)} else {}
  {
    hide Key;
    assert forall i :: 0 <= i < n ==> table[..n][i] == table[i];
  }

  lemma {:induction false} KeysInUseSize(table: seq<DirEntry>)
    requires DistinctNames(table)
    ensures |KeysInUse(table)| == UsedCount(table)
  {
    if table != [] {
      var n := |table| - 1;
      KeysInUseSize(table[..n]);
      KeysInUseOfPrefix(table, n);
      hide Key;
      if table[n].inUse {
        assert Key(table[n].name) !in KeysInUse(table[..n]);
      }
    }
  }

  /** The map has one key for each entry in use. */
  lemma ListingSize(table: seq<DirEntry>)
    requires DistinctNames(table)
    ensures |Listing(table)| == UsedCount(table)
  {
    KeysInUseSize(table);
    assert Listing(table).Keys == KeysInUse(table);
  }

  lemma {:induction false} FullTable(table: seq<DirEntry>)
    ensures UsedCount(table) <= |table|
    ensures UsedCount(table) < |table| <==> FirstFree(table) < |table|
  {
    if table != [] {
      var n := |table| - 1;
      FullTable(table[..n]);
    }
  }

  /** The two tables differ at most in entry i. */
  ghost predicate OnlyEntry(table: seq<DirEntry>, after: seq<DirEntry>, i: nat) {
    |after| == |table| && i < |table| && forall j :: 0 <= j < |table| && j != i ==> after[j] == table[j]
  }

  lemma AddKeepsDistinct(table: seq<DirEntry>, after: seq<DirEntry>, i: nat)
    requires DistinctNames(table) && OnlyEntry(table, after, i)
    requires Key(after[i].name) !in Listing(table)
    ensures DistinctNames(after)
  {
    forall j | 0 <= j < |table| && table[j].inUse ensures Key(table[j].name) != Key(after[i].name) {
      ListingEntry(table, j);
    }
  }

  lemma RemoveKeepsDistinct(table: seq<DirEntry>, after: seq<DirEntry>, i: nat)
    requires DistinctNames(table) && OnlyEntry(table, after, i) && !after[i].inUse
    ensures DistinctNames(after)
  {
  }

  /** Changing entry i leaves every key alone that neither the old nor the new entry names. */
  lemma ListingElsewhere(table: seq<DirEntry>, after: seq<DirEntry>, i: nat, k: seq<byte>)
    requires DistinctNames(table) && DistinctNames(after) && OnlyEntry(table, after, i)
    requires !Names(table[i], k) && !Names(after[i], k)
    ensures k in Listing(table) <==> k in Listing(after)
    ensures k in Listing(table) ==> Listing(table)[k] == Listing(after)[k]
  {
    hide Key, Listing, DistinctNames, FindIn;
    ListingFind(table, k);
    ListingFind(after, k);
    if k in Listing(table) {
      ListingEntry(after, FindIn(table, k));
    }
    if k in Listing(after) {
      ListingEntry(table, FindIn(after, k));
    }
  }

  lemma SameElsewhere(table: seq<DirEntry>, after: seq<DirEntry>, i: nat, key: seq<byte>)
    requires DistinctNames(table) && DistinctNames(after) && OnlyEntry(table, after, i)
    requires table[i].inUse ==> Key(table[i].name) == key
    requires after[i].inUse ==> Key(after[i].name) == key
    ensures Listing(table) - {key} == Listing(after) - {key}
  {
    hide Key, Listing, DistinctNames;
    var m, m' := Listing(table) - {key}, Listing(after) - {key};
    forall k | k in m.Keys + m'.Keys ensures k in m && k in m' && m[k] == m'[k] {
      ListingElsewhere(table, after, i, k);
    }
  }

  lemma UpdatedElsewhere<K, V>(m: map<K, V>, m': map<K, V>, k: K)
    requires m - {k} == m' - {k} && k in m'
    ensures m' == m[k := m'[k]]
  {
    forall j | j in m'.Keys + m.Keys ensures j in m' && (j != k ==> j in m && m[j] == m'[j]) {
      if j != k {
        assert j in m - {k} <==> j in m' - {k};
        assert (m - {k})[j] == (m' - {k})[j];
      }
    }
  }

  /** Adding under a new key extends the map by exactly that key. */
  lemma ListingAdd(table: seq<DirEntry>, after: seq<DirEntry>, i: nat)
    requires DistinctNames(table) && OnlyEntry(table, after, i) && !table[i].inUse && after[i].inUse
    requires Key(after[i].name) !in Listing(table)
    ensures DistinctNames(after)
    ensures Listing(after) == Listing(table)[Key(after[i].name) := after[i].sector as int]
  {
    var key := Key(after[i].name);
    AddKeepsDistinct(table, after, i);
    ListingEntry(after, i);
    SameElsewhere(table, after, i, key);
    UpdatedElsewhere(Listing(table), Listing(after), key);
  }

  /** Removing a key takes exactly that key out of the map. */
  lemma ListingRemove(table: seq<DirEntry>, after: seq<DirEntry>, i: nat)
    requires DistinctNames(table) && OnlyEntry(table, after, i) && table[i].inUse && !after[i].inUse
    ensures DistinctNames(after)
    ensures Listing(after) == Listing(table) - {Key(table[i].name)}
  {
    var key := Key(table[i].name);
    RemoveKeepsDistinct(table, after, i);
    RemovedKey(table, after, i);
    SameElsewhere(table, after, i, key);
    assert Listing(after) - {key} == Listing(after);
  }

  lemma RemovedKey(table: seq<DirEntry>, after: seq<DirEntry>, i: nat)
    requires DistinctNames(table) && DistinctNames(after) && OnlyEntry(table, after, i)
    requires table[i].inUse && !after[i].inUse
    ensures Key(table[i].name) !in Listing(after)
  {
    var key := Key(table[i].name);
    ListingFind(after, key);
    if key in Listing(after) {
      ListingEntry(table, FindIn(after, key));
      ListingEntry(table, i);
    }
  }

  class Directory {
    const table: array<DirEntry>

    constructor (size: nat)
      ensures table.Length == size && fresh(table)
      ensures forall i :: 0 <= i < size ==> !table[i].inUse
    {
      table := new DirEntry[size];
      new;
      for i := 0 to size
        invariant forall k :: 0 <= k < i ==> !table[k].inUse
      {
        table[i] := table[i].(inUse := false);
      }
    }

    method FindIndex(name: Name) returns (i: int)
      ensures i == if FindIn(table[..], Key(name)) < table.Length then FindIn(table[..], Key(name)) else -1
    {
      hide FindIn, StrnEqual, Prefix;
      i := 0;
      while i < table.Length
        invariant 0 <= i <= table.Length
        invariant forall j :: 0 <= j < i ==> !Names(table[j], Key(name))
      {
        StrnEqualMeansSamePrefix(table[i].name, name, FILE_NAME_MAX_LEN);
        if table[i].inUse && StrnEqual(table[i].name, name, FILE_NAME_MAX_LEN) {
          return;
        }
        i := i + 1;
      }
      i := -1;
    }

    /** The header sector of a listed file, or -1. */
    method Find(name: Name) returns (sector: int)
      requires DistinctNames(table[..])
      ensures sector == if Key(name) in Listing(table[..]) then Listing(table[..])[Key(name)] else -1
    {
      ListingFind(table[..], Key(name));
      var i := FindIndex(name);
      sector := if i != -1 then table[i].sector else -1;
    }

    method Add(name: Name, newSector: CInt) returns (ok: bool)
      modifies table
      ensures ok <==> FindIn(old(table[..]), Key(name)) == table.Length && FirstFree(old(table[..])) < table.Length
      ensures !ok ==> table[..] == old(table[..])
      ensures ok ==>
        var i := FirstFree(old(table[..]));
        table[..] == old(table[..])[i := Entry(true, newSector, StrnCopy(old(table[..])[i].name, name, FILE_NAME_MAX_LEN))]
    {
      var found := FindIndex(name);
      if found != -1 {
        return false;
      }
      for i := 0 to table.Length
        invariant forall j :: 0 <= j < i ==> table[j].inUse
        invariant table[..] == old(table[..])
      {
        if !table[i].inUse {
          assert i == FirstFree(table[..]);
          table[i] := Entry(true, newSector, StrnCopy(table[i].name, name, FILE_NAME_MAX_LEN));
          return true;
        }
      }
      return false;
    }

    method Remove(name: Name) returns (ok: bool)
      modifies table
      ensures ok <==> FindIn(old(table[..]), Key(name)) < table.Length
      ensures !ok ==> table[..] == old(table[..])
      ensures ok ==>
        var i := FindIn(old(table[..]), Key(name));
        table[..] == old(table[..])[i := old(table[..])[i].(inUse := false)]
    {
      var i := FindIndex(name);
      if i == -1 {
        return false;
      }
      table[i] := table[i].(inUse := false);
      return true;
    }

    /** Reads the file over the memory of the table. */
    method FetchFrom(file: OpenFile)
      requires file.Valid() && file.hdr.numBytes == table.Length * ENTRY_BYTES
      modifies table
      ensures table[..] == DecodeTable(file.Bytes(), table.Length)
    {
      hide DivRoundUp, Header.Ok, FileBytes, DecodeTable;
      OkFacts(file.hdr.Image());
      var size := table.Length * ENTRY_BYTES;
      var buf := new byte[size];
      var _ := file.ReadAt(buf, 0, size, 0);
      assert buf[..] == file.Bytes();
      var entries := DecodeTable(buf[..], table.Length);
      forall i | 0 <= i < table.Length {
        table[i] := entries[i];
      }
    }

    method WriteBack(file: OpenFile)
      requires file.Valid() && file.hdr.numBytes == table.Length * ENTRY_BYTES
      modifies file.disk
      ensures file.Valid()
      ensures file.Bytes() == EncodeTable(table[..])
      ensures OnlyData(old(file.disk.sectors), file.disk.sectors, file.hdr.Image())
    {
      OkFacts(file.hdr.Image());
      var size := table.Length * ENTRY_BYTES;
      ghost var entries := table[..];
      var bytes := EncodeTable(table[..]);
      var buf := new byte[size];
      forall i | 0 <= i < size {
        buf[i] := bytes[i];
      }
      assert buf[0..size] == bytes;
      var _ := file.WriteAt(buf, 0, size, 0);
      assert file.Bytes() == bytes;
      assert table[..] == entries;
    }
  }
}
