/** The file system as its clients see it: whatever the layout on disk, a finite map from keys to byte arrays of
    fixed length, a number of free sectors, and the files that have been opened. */
module FileSystemRuns {
  import opened Layout
  import opened FileHeaders
  import opened OpenFiles
  import opened Directories
  import opened DiskStates
  import opened FileSystems

  /** What is on the disk. */
  datatype Store = Store(files: map<seq<byte>, seq<byte>>, free: int)

  /** An opened file: which one, where its next Read or Write begins, and whether the file is still there. */
  datatype Handle = Handle(key: seq<byte>, position: int, live: bool)

  /** The disk, the files opened and not closed since, and how many were ever opened. */
  datatype View = View(store: Store, open: map<nat, Handle>, next: nat) {
    /** The file behind this handle exists. */
    predicate Usable(h: nat) {
      h in open && open[h].live && open[h].key in store.files
    }

    function Bytes(h: nat): seq<byte>
      requires Usable(h)
    {
      store.files[open[h].key]
    }

    function Moved(h: nat, n: nat): View
      requires h in open
    {
      this.(open := open[h := open[h].(position := open[h].position + n)])
    }
  }

  /** The calls. ReadAt and WriteAt do what Seek followed by Read or Write does, but for the position left behind. */
  datatype Op =
    | Create(name: Name, size: CInt)
    | Remove(name: Name)
    | Open(name: Name)
    | Close(h: nat)
    | Seek(h: nat, position: int)
    | Read(h: nat, count: int)
    | Write(h: nat, data: seq<byte>)
  {
    /** What the file system expects of its callers: not to ask for more than a header can hold when the disk has
        room for it, and not to use a file that was closed, nor to read or write one that was removed. */
    predicate Valid(v: View) {
      match this
      case Create(name, size) => size <= MAX_FILE_SIZE || !Room(v.store, name, size)
      case Remove(_) => true
      case Open(_) => true
      case Close(h) => h in v.open
      case Seek(h, _) => h in v.open
      case Read(h, count) => v.Usable(h) && InRange(|v.Bytes(h)|, count, v.open[h].position)
      case Write(h, data) => v.Usable(h) && InRange(|v.Bytes(h)|, |data|, v.open[h].position)
    }

    /** The call is made through this handle. */
    predicate Uses(handle: nat) {
      (Close? || Seek? || Read? || Write?) && h == handle
    }
  }

  datatype Outcome = Done(ok: bool) | NoSuchFile | Opened(handle: nat) | Written(count: nat) | Got(bytes: seq<byte>)

  /** Sectors a file of this length occupies, header included. */
  function Cost(length: nat): nat {
    1 + SectorsFor(length)
  }

  function Patched(bytes: seq<byte>, position: int, data: seq<byte>): (r: seq<byte>)
    requires InRange(|bytes|, |data|, position)
    ensures |r| == |bytes|
  {
    var n := Clip(|bytes|, |data|, position);
    if n == 0 then bytes else bytes[..position] + data[..n] + bytes[position + n..]
  }

  function Slice(bytes: seq<byte>, position: int, count: int): (r: seq<byte>)
    requires InRange(|bytes|, count, position)
    ensures |r| == Clip(|bytes|, count, position)
  {
    var n := Clip(|bytes|, count, position);
    if n == 0 then [] else bytes[position..position + n]
  }

  predicate Room(s: Store, name: Name, size: int) {
    && Key(name) !in s.files
    && |s.files| < NUM_DIR_ENTRIES
    && Cost(Size(size)) <= s.free
  }

  /** A new file's contents are whatever its sectors held. */
  ghost predicate Creates(s: Store, name: Name, size: int, s': Store) {
    if Room(s, name, size)
    then exists content: seq<byte> ::
           |content| == Size(size) && s' == Store(s.files[Key(name) := content], s.free - Cost(|content|))
    else s' == s
  }

  function Without(s: Store, key: seq<byte>): Store {
    if key in s.files then Store(s.files - {key}, s.free + Cost(|s.files[key]|)) else s
  }

  function Staled(open: map<nat, Handle>, key: seq<byte>): map<nat, Handle> {
    map h | h in open :: open[h].(live := open[h].live && open[h].key != key)
  }

  /** The specification of one call. */
  ghost predicate Step(v: View, op: Op, r: Outcome, v': View) {
    && op.Valid(v)
    && match op
       case Create(name, size) =>
         r == Done(Room(v.store, name, size)) && Creates(v.store, name, size, v'.store) && v' == v.(store := v'.store)
       case Remove(name) =>
         && r == Done(Key(name) in v.store.files)
         && v' == v.(store := Without(v.store, Key(name)), open := Staled(v.open, Key(name)))
       case Open(name) =>
         if Key(name) in v.store.files
         then r == Opened(v.next)
              && v' == v.(open := v.open[v.next := Handle(Key(name), 0, true)], next := v.next + 1)
         else r == NoSuchFile && v' == v
       case Close(h) => r == Done(true) && v' == v.(open := v.open - {h})
       case Seek(h, position) => r == Done(true) && v' == v.(open := v.open[h := v.open[h].(position := position)])
       case Read(h, count) =>
         && r == Got(Slice(v.Bytes(h), v.open[h].position, count))
         && v' == v.Moved(h, |r.bytes|)
       case Write(h, data) =>
         && r == Written(Clip(|v.Bytes(h)|, |data|, v.open[h].position))
         && v' == WriteTo(v, h, data).Moved(h, r.count)
  }

  function WriteTo(v: View, h: nat, data: seq<byte>): View
    requires Op.Write(h, data).Valid(v)
  {
    v.(store := v.store.(files := v.store.files[v.open[h].key := Patched(v.Bytes(h), v.open[h].position, data)]))
  }

  /** A run of the specification: a state before every call and one after the last. */
  ghost predicate Run(vs: seq<View>, ops: seq<Op>, rs: seq<Outcome>) {
    && |vs| == |ops| + 1 && |rs| == |ops|
    && forall i :: 0 <= i < |ops| ==> Step(vs[i], ops[i], rs[i], vs[i + 1])
  }

  /** A client that makes these calls keeps to the rules, whatever new files hold. */
  ghost predicate CallsAreValid(v: View, ops: seq<Op>)
    decreases |ops|
  {
    ops == [] || (ops[0].Valid(v) && forall r, v' :: Step(v, ops[0], r, v') ==> CallsAreValid(v', ops[1..]))
  }

  // ---- space ----

  ghost function Usage<K>(files: map<K, seq<byte>>): (n: nat) {
    if files == map[] then 0 else
    var k :| k in files;
    Cost(|files[k]|) + Usage(files - {k})
  }

  lemma {:induction false} UsageWithout<K>(files: map<K, seq<byte>>, k: K)
    requires k in files
    ensures Usage(files) == Cost(|files[k]|) + Usage(files - {k})
    decreases |files|
  {
    var p :| p in files && Usage(files) == Cost(|files[p]|) + Usage(files - {p});
    if p != k {
      UsageWithout(files - {p}, k);
      UsageWithout(files - {k}, p);
      assert files - {p} - {k} == files - {k} - {p};
    }
  }

  lemma UsageUpdated<K>(files: map<K, seq<byte>>, k: K, content: seq<byte>)
    ensures Usage(files[k := content]) == Cost(|content|) + Usage(files - {k})
  {
    UsageWithout(files[k := content], k);
    assert files[k := content] - {k} == files - {k};
  }

  /** Sectors in use by listed files, plus free sectors. */
  ghost function Capacity(s: Store): int {
    s.free + Usage(s.files)
  }

  lemma CapacityAfterCreate(s: Store, name: Name, size: int, s': Store)
    requires Creates(s, name, size, s')
    ensures Capacity(s') == Capacity(s)
    ensures |s.files| <= NUM_DIR_ENTRIES ==> |s'.files| <= NUM_DIR_ENTRIES
    ensures s.free >= 0 ==> s'.free >= 0
  {
    hide Key, Cost, Usage;
    if s' != s {
      UsageUpdated(s.files, Key(name), s'.files[Key(name)]);
      assert s.files - {Key(name)} == s.files;
    }
  }

  lemma CapacityAfterRemove(s: Store, key: seq<byte>)
    ensures Capacity(Without(s, key)) == Capacity(s)
    ensures |Without(s, key).files| <= |s.files|
  {
    hide Cost, Usage;
    if key in s.files {
      UsageWithout(s.files, key);
    }
  }

  lemma CapacityAfterWrite(s: Store, key: seq<byte>, bytes: seq<byte>)
    requires key in s.files && |bytes| == |s.files[key]|
    ensures Capacity(s.(files := s.files[key := bytes])) == Capacity(s)
    ensures |s.files[key := bytes]| == |s.files|
  {
    hide Cost, Usage;
    UsageWithout(s.files, key);
    UsageUpdated(s.files, key, bytes);
  }

  lemma CapacityStep(v: View, op: Op, r: Outcome, v': View)
    requires Step(v, op, r, v')
    ensures Capacity(v'.store) == Capacity(v.store)
    ensures |v.store.files| <= NUM_DIR_ENTRIES ==> |v'.store.files| <= NUM_DIR_ENTRIES
    ensures v.store.free >= 0 ==> v'.store.free >= 0
  {
    hide Key, Cost, Clip, Slice, InRange, Patched, Capacity, Creates, Room, Staled;
    match op
    case Create(name, size) => CapacityAfterCreate(v.store, name, size, v'.store);
    case Remove(name) => CapacityAfterRemove(v.store, Key(name));
    case Write(h, data) => CapacityAfterWrite(v.store, v.open[h].key, Patched(v.Bytes(h), v.open[h].position, data));
    case _ =>
  }

  /** No sector is ever lost or handed out twice: over any run, sectors of listed files and free sectors
      add up to the same total, and the directory never overflows. */
  lemma {:induction false} Conservation(vs: seq<View>, ops: seq<Op>, rs: seq<Outcome>, i: nat)
    requires Run(vs, ops, rs) && i <= |ops|
    requires |vs[0].store.files| <= NUM_DIR_ENTRIES && vs[0].store.free >= 0
    ensures Capacity(vs[i].store) == Capacity(vs[0].store)
    ensures |vs[i].store.files| <= NUM_DIR_ENTRIES && 0 <= vs[i].store.free
  {
    hide Step;
    if i > 0 {
      Conservation(vs, ops, rs, i - 1);
      CapacityStep(vs[i - 1], ops[i - 1], rs[i - 1], vs[i]);
    }
  }

  // ---- handles ----

  /** Handles are numbered in the order of opening, and a live one names a file that exists. */
  ghost predicate HandlesOk(v: View) {
    forall h :: h in v.open ==> h < v.next && (v.open[h].live ==> v.open[h].key in v.store.files)
  }

  lemma HandlesStep(v: View, op: Op, r: Outcome, v': View)
    requires Step(v, op, r, v') && HandlesOk(v)
    ensures HandlesOk(v') && v.next <= v'.next
  {
    hide Key, Cost, Clip, Slice, InRange, Patched, Room;
  }

  /** In every run the handle that Open returns is new, and a live handle names a file that exists: so a client may
      read and write through a handle until it removes that file. */
  lemma {:induction false} LiveHandles(vs: seq<View>, ops: seq<Op>, rs: seq<Outcome>, i: nat)
    requires Run(vs, ops, rs) && i <= |ops| && HandlesOk(vs[0])
    ensures HandlesOk(vs[i])
    ensures i < |ops| && rs[i].Opened? ==> rs[i].handle !in vs[i].open && rs[i].handle in vs[i + 1].open
  {
    hide Key, Cost, Clip, Slice, InRange, Patched, Room;
    if i > 0 {
      LiveHandles(vs, ops, rs, i - 1);
      HandlesStep(vs[i - 1], ops[i - 1], rs[i - 1], vs[i]);
    }
    if i < |ops| && rs[i].Opened? {
      assert Step(vs[i], ops[i], rs[i], vs[i + 1]);
    }
  }

  lemma HandleStep(v: View, op: Op, r: Outcome, v': View, h: nat)
    requires Step(v, op, r, v') && h in v.open && HandlesOk(v)
    requires !op.Uses(h) && !(op.Remove? && Key(op.name) == v.open[h].key)
    ensures h in v'.open && v'.open[h] == v.open[h]
  {
    hide Key, Cost, Clip, Slice, InRange, Patched, Room;
  }

  /** A handle stays open, on the same file and at the same position, whatever is done through other handles and to
      other files. */
  lemma {:induction false} HandleStays(vs: seq<View>, ops: seq<Op>, rs: seq<Outcome>, i: nat, j: nat, h: nat)
    requires Run(vs, ops, rs) && i <= j <= |ops| && HandlesOk(vs[0]) && h in vs[i].open
    requires forall m :: i <= m < j ==> !ops[m].Uses(h) && !(ops[m].Remove? && Key(ops[m].name) == vs[i].open[h].key)
    ensures h in vs[j].open && vs[j].open[h] == vs[i].open[h]
  {
    hide Step, HandlesOk, Key;
    if i < j {
      HandleStays(vs, ops, rs, i, j - 1, h);
      LiveHandles(vs, ops, rs, j - 1);
      HandleStep(vs[j - 1], ops[j - 1], rs[j - 1], vs[j], h);
    }
  }

  // ---- contents ----

  /** This call leaves byte k of the file under this key alone. */
  predicate Spares(v: View, op: Op, key: seq<byte>, k: nat) {
    match op
    case Remove(name) => Key(name) != key
    case Write(h, data) =>
      h in v.open ==> v.open[h].key != key || !(v.open[h].position <= k < v.open[h].position + |data|)
    case _ => true
  }

  lemma SparedStep(v: View, op: Op, r: Outcome, v': View, key: seq<byte>, k: nat)
    requires Step(v, op, r, v') && Spares(v, op, key, k) && key in v.store.files && k < |v.store.files[key]|
    ensures key in v'.store.files && |v'.store.files[key]| == |v.store.files[key]|
    ensures v'.store.files[key][k] == v.store.files[key][k]
  {
    hide Key, Cost, Slice;
  }

  /** A byte keeps its value, and a file its length, until a call that touches it. */
  lemma {:induction false} Durable(vs: seq<View>, ops: seq<Op>, rs: seq<Outcome>, i: nat, j: nat, key: seq<byte>, k: nat)
    requires Run(vs, ops, rs) && i <= j <= |ops| && key in vs[i].store.files && k < |vs[i].store.files[key]|
    requires forall m :: i <= m < j ==> Spares(vs[m], ops[m], key, k)
    ensures key in vs[j].store.files && |vs[j].store.files[key]| == |vs[i].store.files[key]|
    ensures vs[j].store.files[key][k] == vs[i].store.files[key][k]
  {
    hide Step, Spares;
    if i < j {
      Durable(vs, ops, rs, i, j - 1, key, k);
      SparedStep(vs[j - 1], ops[j - 1], rs[j - 1], vs[j], key, k);
    }
  }

  /** What a Write leaves in the bytes that it reports as written. */
  lemma WriteHits(v: View, h: nat, data: seq<byte>, r: Outcome, v': View, k: nat)
    requires Step(v, Op.Write(h, data), r, v')
    requires v.open[h].position <= k < v.open[h].position + r.count
    ensures r.count <= |data| && v.open[h].key in v'.store.files && k < |v'.store.files[v.open[h].key]|
    ensures v'.store.files[v.open[h].key][k] == data[k - v.open[h].position]
  {
    hide Key, Cost;
  }

  /** What a Read reports of a byte, and that it reports every byte there is in the range. */
  lemma ReadSees(v: View, h: nat, count: int, r: Outcome, v': View, k: nat)
    requires Step(v, Op.Read(h, count), r, v') && k < |v.Bytes(h)|
    ensures v.open[h].position <= k < v.open[h].position + |r.bytes| ==> r.bytes[k - v.open[h].position] == v.Bytes(h)[k]
    ensures v.open[h].position <= k < v.open[h].position + count ==> k < v.open[h].position + |r.bytes|
  {
    hide Key, Cost;
  }

  /** A Read returns what the last Write to each byte put there, through whatever handle on the same file, and
      whatever happened to other files, other handles or other bytes in between. */
  lemma ReadBack(vs: seq<View>, ops: seq<Op>, rs: seq<Outcome>, i: nat, j: nat, k: nat)
    requires Run(vs, ops, rs) && i < j < |ops| && ops[i].Write? && ops[j].Read?
    requires ops[i].h in vs[i].open && ops[j].h in vs[j].open && vs[j].open[ops[j].h].key == vs[i].open[ops[i].h].key
    requires rs[i].Written? && vs[i].open[ops[i].h].position <= k < vs[i].open[ops[i].h].position + rs[i].count
    requires forall m :: i < m < j ==> Spares(vs[m], ops[m], vs[i].open[ops[i].h].key, k)
    ensures rs[j].Got? && rs[i].count <= |ops[i].data|
    ensures var from, to := vs[i].open[ops[i].h].position, vs[j].open[ops[j].h].position;
            && (to <= k < to + |rs[j].bytes| ==> rs[j].bytes[k - to] == ops[i].data[k - from])
            && (to <= k < to + ops[j].count ==> k < to + |rs[j].bytes|)
  {
    hide Key, Cost, Spares, Step, Slice, Patched;
    var key := vs[i].open[ops[i].h].key;
    StepIsValid(vs[j], ops[j], rs[j], vs[j + 1]);
    WriteHits(vs[i], ops[i].h, ops[i].data, rs[i], vs[i + 1], k);
    Durable(vs, ops, rs, i + 1, j, key, k);
    ReadSees(vs[j], ops[j].h, ops[j].count, rs[j], vs[j + 1], k);
  }

  lemma StepIsValid(v: View, op: Op, r: Outcome, v': View)
    requires Step(v, op, r, v')
    ensures op.Valid(v)
    ensures op.Read? ==> r.Got?
  {
  }

  lemma PatchedTwice(bytes: seq<byte>, position: int, a: seq<byte>, b: seq<byte>)
    requires InRange(|bytes|, |a|, position) && InRange(|bytes|, |a + b|, position)
    requires InRange(|bytes|, |b|, position + Clip(|bytes|, |a|, position))
    ensures Clip(|bytes|, |a + b|, position)
            == Clip(|bytes|, |a|, position) + Clip(|bytes|, |b|, position + Clip(|bytes|, |a|, position))
    ensures Patched(Patched(bytes, position, a), position + Clip(|bytes|, |a|, position), b) == Patched(bytes, position, a + b)
  {
  }

  /** Two Writes in a row through one handle are one Write of both pieces. */
  lemma WritesJoin(v: View, h: nat, a: seq<byte>, b: seq<byte>, r1: Outcome, v1: View, r2: Outcome, v2: View)
    requires Step(v, Op.Write(h, a), r1, v1) && Step(v1, Op.Write(h, b), r2, v2)
    requires Op.Write(h, a + b).Valid(v)
    ensures r1.Written? && r2.Written? && Step(v, Op.Write(h, a + b), Written(r1.count + r2.count), v2)
  {
    hide Key, Cost, Slice, Clip, Patched, InRange;
    PatchedTwice(v.Bytes(h), v.open[h].position, a, b);
  }

  /** Two Reads in a row through one handle are one Read of both lengths. */
  lemma ReadsJoin(v: View, h: nat, a: nat, b: nat, r1: Outcome, v1: View, r2: Outcome, v2: View)
    requires Step(v, Op.Read(h, a), r1, v1) && Step(v1, Op.Read(h, b), r2, v2)
    requires Op.Read(h, a + b).Valid(v)
    ensures r1.Got? && r2.Got? && Step(v, Op.Read(h, a + b), Got(r1.bytes + r2.bytes), v2)
  {
    hide Key, Cost, Patched;
  }

  // ---- calls that follow one another ----

  /** A Write reaches every byte of its range that is in the file. */
  lemma WriteReaches(v: View, h: nat, data: seq<byte>, r: Outcome, v': View, k: nat)
    requires Step(v, Op.Write(h, data), r, v') && k < |v.Bytes(h)|
    requires v.open[h].position <= k < v.open[h].position + |data|
    ensures r.Written? && k < v.open[h].position + r.count
  {
    hide Key, Cost, Patched;
  }

  /** A file that has been created can be opened, has the length asked for, and is there until it is removed. */
  lemma CreatedThenOpened(v: View, name: Name, size: CInt, v1: View, again: Name, r: Outcome, v2: View)
    requires Step(v, Op.Create(name, size), Done(true), v1) && Step(v1, Op.Open(again), r, v2) && Key(again) == Key(name)
    ensures r.Opened? && v2.Usable(r.handle) && |v2.Bytes(r.handle)| == if size < 0 then 0 else size
  {
    hide Key, Cost;
  }

  /** A file just opened is read from its beginning. */
  lemma OpenedThenRead(v: View, name: Name, r1: Outcome, v1: View, count: int, r2: Outcome, v2: View)
    requires Step(v, Op.Open(name), r1, v1) && r1.Opened? && Step(v1, Op.Read(r1.handle, count), r2, v2)
    ensures Key(name) in v.store.files && r2.Got? && r2.bytes <= v.store.files[Key(name)]
    ensures count >= |v.store.files[Key(name)]| ==> r2.bytes == v.store.files[Key(name)]
  {
    hide Key, Cost, Patched;
  }

  /** Seek, Write, Seek back and Read: what was written comes back, as far as the file reaches. */
  lemma SeekWriteSeekRead(v: View, h: nat, position: nat, data: seq<byte>, r1: Outcome, v1: View, r2: Outcome, v2: View,
                          r3: Outcome, v3: View, r4: Outcome, v4: View)
    requires Step(v, Op.Seek(h, position), r1, v1) && Step(v1, Op.Write(h, data), r2, v2)
    requires Step(v2, Op.Seek(h, position), r3, v3) && Step(v3, Op.Read(h, |data|), r4, v4)
    ensures r2.Written? && r4.Got? && r2.count <= |data| && r4.bytes == data[..r2.count]
  {
    hide Key, Cost;
  }

  /** After a Seek, the first byte that a Read delivers and that a Write replaces is the one at the position sought,
      counted from the beginning of the file, wherever the handle was before. */
  lemma SeekSaysWhere(v: View, h: nat, position: nat, v1: View, count: int, data: seq<byte>, r: Outcome, v2: View)
    requires Step(v, Op.Seek(h, position), Done(true), v1) && v.Usable(h) && position <= |v.Bytes(h)|
    ensures Step(v1, Op.Read(h, count), r, v2) ==> r.Got? && r.bytes <= v.Bytes(h)[position..] && v2.store == v.store
    ensures Step(v1, Op.Write(h, data), r, v2) ==>
              && r.Written? && v2.Usable(h) && 0 <= r.count <= |data| && position + r.count <= |v.Bytes(h)|
              && v2.Bytes(h) == v.Bytes(h)[..position] + data[..r.count] + v.Bytes(h)[position + r.count..]
  {
    hide Key, Cost;
  }

  /** Remove takes the file away and makes every handle on it unusable; the other files and handles stay. */
  lemma RemovedIsGone(v: View, name: Name, r: Outcome, v': View, h: nat, other: seq<byte>)
    requires Step(v, Op.Remove(name), r, v')
    ensures Key(name) !in v'.store.files
    ensures other != Key(name) ==> (other in v'.store.files <==> other in v.store.files)
    ensures other != Key(name) && other in v.store.files ==> v'.store.files[other] == v.store.files[other]
    ensures h in v'.open <==> h in v.open
    ensures h in v.open && v.open[h].key == Key(name) ==> !v'.Usable(h)
    ensures h in v.open && v.open[h].key != Key(name) ==> v'.open[h] == v.open[h]
  {
    hide Key, Cost;
  }

  /** Close, Seek and Read leave every file alone. */
  lemma FilesLeftAlone(v: View, op: Op, r: Outcome, v': View, h: nat)
    requires Step(v, op, r, v') && (op.Close? || op.Seek? || op.Read? || op.Open?)
    ensures v'.store == v.store
    ensures op.Close? ==> (h in v'.open <==> h in v.open && h != op.h)
  {
    hide Key, Cost, Slice, Patched;
  }
}
