/** The Python engine as a state machine over its file steps: append, reject, fsync, rotate, checkpoint, reopen. */
module PythonModel {
  import opened Bytes
  import opened KeyOrder
  import opened Options
  import opened Store
  import W = SegmentWal
  import opened SegmentReplay
  import opened DirectoryRecovery
  import opened DiskModel
  import opened SegmentNames
  import opened PythonWal
  import PS = PythonSnapshot

  // ------------------------------------------------------------------ numbers and operations

  /** What was logged under number i + 1, or nothing when the call that took the number was rejected. */
  type Slots = seq<Option<Operation>>

  ghost predicate Stored(slots: Slots) {
    |slots| < U64_MAX && forall i :: 0 <= i < |slots| && slots[i].Some? ==> Storable(slots[i].value)
  }

  /** The map after the operations under the first k numbers. */
  function StateAt(slots: Slots, k: nat): Map
    requires k <= |slots|
  {
    if k == 0 then map[]
    else if slots[k - 1].Some? then ApplyOne(StateAt(slots, k - 1), slots[k - 1].value)
    else StateAt(slots, k - 1)
  }

  /** The records of the operations under the numbers a + 1 to b. */
  function Logged(slots: Slots, a: nat, b: nat): seq<W.Record>
    requires a <= b <= |slots| <= U64_MAX
    decreases b
  {
    if a == b then []
    else if slots[b - 1].Some? then Logged(slots, a, b - 1) + [W.Record(b, slots[b - 1].value)]
    else Logged(slots, a, b - 1)
  }

  lemma {:induction false} LoggedSplit(slots: Slots, a: nat, b: nat, c: nat)
    requires a <= b <= c <= |slots| <= U64_MAX
    ensures Logged(slots, a, c) == Logged(slots, a, b) + Logged(slots, b, c)
    decreases c
  {
    if b < c { LoggedSplit(slots, a, b, c - 1); }
  }

  lemma {:induction false} LoggedPrefix(s: Slots, t: Slots, a: nat, b: nat)
    requires a <= b <= |s| <= U64_MAX && b <= |t| <= U64_MAX && s[..b] == t[..b]
    ensures Logged(s, a, b) == Logged(t, a, b)
    decreases b
  {
    if a < b {
      assert s[b - 1] == s[..b][b - 1] == t[..b][b - 1];
      assert s[..b - 1] == s[..b][..b - 1] == t[..b - 1];
      LoggedPrefix(s, t, a, b - 1);
    }
  }

  lemma {:induction false} StateAtPrefix(s: Slots, t: Slots, k: nat)
    requires k <= |s| && k <= |t| && s[..k] == t[..k]
    ensures StateAt(s, k) == StateAt(t, k)
    decreases k
  {
    if k > 0 {
      assert s[k - 1] == s[..k][k - 1] == t[..k][k - 1];
      assert s[..k - 1] == s[..k][..k - 1] == t[..k - 1];
      StateAtPrefix(s, t, k - 1);
    }
  }

  /** Between the two numbers no operation follows directly on a number without one. */
  predicate Gapless(slots: Slots, from: nat, to: nat)
    requires to <= |slots|
  {
    forall i :: from < i < to && slots[i].Some? ==> slots[i - 1].Some?
  }

  /** Numbers without an operation at the end, above lo, given back. */
  function Trim(slots: Slots, lo: nat): Slots {
    if |slots| > lo && slots[|slots| - 1].None? then Trim(slots[..|slots| - 1], lo) else slots
  }

  /** Only such numbers are given back, and all of them. */
  ghost predicate Trims(slots: Slots, lo: nat, t: Slots) {
    && |t| <= |slots| <= U64_MAX && t == slots[..|t|] && (lo <= |slots| ==> lo <= |t|)
    && (forall i :: |t| <= i < |slots| ==> slots[i].None?)
    && (forall a :: 0 <= a <= |t| ==> Logged(slots, a, |slots|) == Logged(t, a, |t|))
    && StateAt(slots, |slots|) == StateAt(t, |t|)
  }

  lemma {:induction false} TrimTrims(slots: Slots, lo: nat)
    requires |slots| <= U64_MAX
    ensures Trims(slots, lo, Trim(slots, lo))
    decreases |slots|
  {
    var n, t := |slots|, Trim(slots, lo);
    if n > lo && slots[n - 1].None? {
      var s := slots[..n - 1];
      TrimTrims(s, lo);
      assert s[..|t|] == slots[..|t|];
      StateAtPrefix(slots, s, n - 1);
      forall i | |t| <= i < n ensures slots[i].None? {
        if i < n - 1 { assert s[i].None?; }
      }
      forall a | 0 <= a <= |t| ensures Logged(slots, a, n) == Logged(t, a, |t|) {
        LoggedPrefix(slots, s, a, n - 1);
      }
    } else {
      assert slots[..n] == slots;
    }
  }

  // ------------------------------------------------------------------ the state

  /** Where a rotation or a checkpoint stands. */
  datatype Stage = Ready | Rotating | Replaced | Installed | Started | Retiring

  /**
   * The last number taken is |slots|. durable is the number up to which everything is synced, installed that of
   * the snapshot whose rename was synced, and index the active segment.
   */
  datatype Py = Py(slots: Slots, durable: nat, installed: nat, index: u64, stage: Stage, tmp: File, disk: Disk)

  ghost predicate SegIn(slots: Slots, g: Seg) {
    g.base <= g.end <= |slots| < U64_MAX
  }

  /** The file of a segment. */
  function SegFile(crc: Crc, slots: Slots, g: Seg): Bytes
    requires SegIn(slots, g)
  {
    PrintAll(crc, Logged(slots, g.base, g.end))
  }

  /** The snapshot after the first k numbers. */
  ghost function SnapAt(crc: Crc, slots: Slots, k: nat): Bytes
    requires k <= |slots| < U64_MAX
  {
    PS.SnapshotBytes(crc, k, Listing(StateAt(slots, k)))
  }

  // ------------------------------------------------------------------ steps

  /** A number is taken and its record written. */
  function Append(crc: Crc, s: Py, op: Operation): Py {
    if s.stage == Ready && Storable(op) && |s.slots| + 1 < U64_MAX && s.index in s.disk.files then
      var f := s.disk.files[s.index];
      var r := W.Record(|s.slots| + 1, op);
      s.(slots := s.slots + [Some(op)],
         disk := s.disk.(files := s.disk.files[s.index := f.(bytes := f.bytes + Print(crc, r))]))
    else s
  }

  /** A number is taken, and then the record cannot be packed: nothing is written. */
  function Reject(s: Py): Py {
    if s.stage == Ready && |s.slots| + 1 < U64_MAX then
      s.(slots := s.slots + [None], durable := if s.durable == |s.slots| then s.durable + 1 else s.durable)
    else s
  }

  function Fsync(s: Py): Py {
    if s.stage == Ready && s.index in s.disk.files then
      var f := s.disk.files[s.index];
      s.(durable := |s.slots|, disk := s.disk.(files := s.disk.files[s.index := f.(synced := |f.bytes|)]))
    else s
  }

  /** The next segment file is opened: right after a record in a rotation, or after a snapshot is installed. */
  function OpenNext(s: Py): Py {
    if ((s.stage == Ready && s.durable == |s.slots| && s.slots != [] && s.slots[|s.slots| - 1].Some?)
        || s.stage == Installed) && s.index < U64_MAX
    then
      s.(stage := if s.stage == Ready then Rotating else Started, index := s.index + 1,
         disk := s.disk.(files := s.disk.files[s.index + 1 := File([], 0)],
                         pending := s.disk.pending + [AddWal(s.index + 1)]))
    else s
  }

  /** The temporary snapshot file has its first n bytes. */
  ghost function WriteTmp(crc: Crc, s: Py, n: nat): Py {
    if s.stage == Ready && |s.slots| < U64_MAX && n <= |SnapAt(crc, s.slots, |s.slots|)| then
      s.(tmp := File(SnapAt(crc, s.slots, |s.slots|)[..n], 0))
    else s
  }

  function SyncTmp(s: Py): Py {
    s.(tmp := s.tmp.(synced := |s.tmp.bytes|))
  }

  /** os.replace after the temporary file is complete. Scope: a count that fits its field. */
  ghost function Replace(crc: Crc, s: Py): Py {
    if s.stage == Ready && s.durable == |s.slots| < U64_MAX && s.tmp.bytes == SnapAt(crc, s.slots, |s.slots|)
      && s.tmp.synced == |s.tmp.bytes| && |StateAt(s.slots, |s.slots|)| < 0x1_0000_0000
    then
      s.(stage := Replaced,
         disk := s.disk.(pending := s.disk.pending + [SetSnapshot(s.tmp.bytes[..s.tmp.synced])]))
    else s
  }

  function Retire(s: Py, id: u64): Py {
    if s.stage == Retiring && id in Live(s.disk).wals && id != s.index then
      s.(disk := s.disk.(pending := s.disk.pending + [RemoveWal(id)]))
    else s
  }

  function FsyncDir(s: Py): Py {
    var synced := s.(disk := s.disk.(names := Live(s.disk), pending := []));
    match s.stage
    case Ready => s
    case Rotating => synced.(stage := Ready)
    case Replaced => synced.(stage := Installed, installed := |s.slots|)
    case Installed => s
    case Started => synced.(stage := Retiring)
    case Retiring => if Live(s.disk).wals == [s.index] then synced.(stage := Ready) else s
  }

  /**
   * A clean close and a new start on the directory, when it loads. Numbers that were taken last and logged nothing
   * are forgotten; a directory entry that was not synced still is not.
   */
  function Reopen(s: Py): Py {
    if s.stage == Ready && s.durable == |s.slots| && Gapless(s.slots, s.installed, |s.slots|) then
      s.(slots := Trim(s.slots, s.installed), durable := |Trim(s.slots, s.installed)|)
    else s
  }

  datatype Step =
    | Appended(op: Operation) | Rejected | Fsynced | OpenedNext | WroteTmp(n: nat) | SyncedTmp | ReplacedSnapshot
    | Retired(id: u64) | FsyncedDir | Reopened

  ghost function Next(crc: Crc, s: Py, e: Step): Py {
    match e
    case Appended(op) => Append(crc, s, op)
    case Rejected => Reject(s)
    case Fsynced => Fsync(s)
    case OpenedNext => OpenNext(s)
    case WroteTmp(n) => WriteTmp(crc, s, n)
    case SyncedTmp => SyncTmp(s)
    case ReplacedSnapshot => Replace(crc, s)
    case Retired(id) => Retire(s, id)
    case FsyncedDir => FsyncDir(s)
    case Reopened => Reopen(s)
  }

  ghost function Run(crc: Crc, s: Py, es: seq<Step>): Py
    decreases |es|
  {
    if es == [] then s else Run(crc, Next(crc, s, es[0]), es[1..])
  }

  /** A new engine on an empty directory; its first segment's entry is not synced. */
  const FRESH := Py([], 0, 0, 0, Ready, File([], 0), Disk(Names(None, []), [AddWal(0)], map[0 := File([], 0)]))

  // ------------------------------------------------------------------ loading

  /** Loads the snapshot and then the segments in name order. */
  function Load(crc: Crc, image: Image): Result<Cursor, LoadError> {
    match image.snapshot
    case None => LoadFiles(crc, Cursor(map[], 0, 1), image.wals)
    case Some(data) =>
      match PS.ReadSnapshot(crc, data)
      case Failure(e) => Failure(e)
      case Success(l) => LoadFiles(crc, Cursor(l.values, l.sequence, Succ(l.sequence)), image.wals)
  }

  lemma {:induction false} BadFile(crc: Crc, c: Cursor, fs: seq<Bytes>, i: nat)
    requires i < |fs| && forall d: Cursor :: LoadFile(crc, d, fs[i]).Failure?
    ensures LoadFiles(crc, c, fs).Failure?
    decreases i
  {
    hide LoadFile;
    if i > 0 && LoadFile(crc, c, fs[0]).Success? { BadFile(crc, LoadFile(crc, c, fs[0]).value, fs[1..], i - 1); }
  }

  /** The file is some printed records and then one whose checksum is wrong. */
  ghost predicate Corrupt(crc: Crc, file: Bytes) {
    exists rs: seq<W.Record>, r: W.Record, sum: Bytes, rest: Bytes :: CorruptAt(crc, file, rs, r, sum, rest)
  }

  ghost predicate CorruptAt(crc: Crc, file: Bytes, rs: seq<W.Record>, r: W.Record, sum: Bytes, rest: Bytes) {
    && AllStorable(rs) && Storable(r.op) && |sum| == 4 && sum != Put32(crc.Of(Payload(r)))
    && file == PrintAll(crc, rs) + (Payload(r) + sum + rest)
  }

  lemma CorruptFails(crc: Crc, file: Bytes)
    requires Corrupt(crc, file)
    ensures forall c: Cursor :: LoadFile(crc, c, file).Failure?
  {
    hide LoadFile, PrintAll, Payload, Put32, Crc.Of;
    var rs: seq<W.Record>, r: W.Record, sum: Bytes, rest: Bytes :| CorruptAt(crc, file, rs, r, sum, rest);
    forall c: Cursor ensures LoadFile(crc, c, file).Failure? {
      CorruptLoad(crc, c, rs, r, sum, rest);
    }
  }

  /** A snapshot that does not load, or a log file with a corrupt record, fails the whole directory. */
  lemma DamagedDirectory(crc: Crc, image: Image, i: nat)
    requires (image.snapshot.Some? && PS.ReadSnapshot(crc, image.snapshot.value).Failure?)
      || (i < |image.wals| && Corrupt(crc, image.wals[i]))
    ensures Load(crc, image).Failure?
  {
    hide PS.ReadSnapshot, LoadFiles, Corrupt;
    if i < |image.wals| && Corrupt(crc, image.wals[i]) { CorruptFails(crc, image.wals[i]); }
    if image.snapshot.None? {
      BadFile(crc, Cursor(map[], 0, 1), image.wals, i);
    } else {
      var p := PS.ReadSnapshot(crc, image.snapshot.value);
      if p.Success? {
        var l := p.value;
        BadFile(crc, Cursor(l.values, l.sequence, Succ(l.sequence)), image.wals, i);
      }
    }
  }

  function Remains(s: Py, id: u64, cut: nat): Bytes {
    if id !in s.disk.files then []
    else
      var f := s.disk.files[id];
      if id == s.index && f.synced <= cut <= |f.bytes| then f.bytes[..cut] else f.bytes
  }

  /**
   * What a crash leaves: some of the unsynced directory changes, and any part of the active file after its
   * synced bytes.
   */
  function CrashLeaves(s: Py, keep: nat -> bool, cut: nat): Image {
    var n := Kept(s.disk.names, s.disk.pending, keep);
    Image(n.snapshot, seq(|n.wals|, i requires 0 <= i < |n.wals| => Remains(s, n.wals[i], cut)))
  }

  // ------------------------------------------------------------------ the invariant

  ghost predicate Joined(gs: seq<Seg>) {
    forall i :: 0 <= i < |gs| - 1 ==> gs[i].end == gs[i + 1].base
  }

  /** No number above the base of the active segment's start is given back by a reopening. */
  predicate BaseOk(s: Py, base: nat) {
    base <= s.installed || (0 < base <= |s.slots| && s.slots[base - 1].Some?)
  }

  /** A segment file: complete and synced, except that the active one may have lost what was not synced. */
  ghost predicate FileOk(crc: Crc, s: Py, g: Seg) {
    && SegIn(s.slots, g) && g.id in s.disk.files && g.id <= s.index
    && var f := s.disk.files[g.id];
    && f.bytes == SegFile(crc, s.slots, g) && f.synced <= |f.bytes|
    && (g.id != s.index ==> f.synced == |f.bytes|)
    && (g.id == s.index ==> g.end == |s.slots| && g.base <= s.durable && BaseOk(s, g.base))
    && (g.id == s.index && g.base <= s.durable <= |s.slots| ==>
      |PrintAll(crc, Logged(s.slots, g.base, s.durable))| <= f.synced)
  }

  ghost predicate FilesOk(crc: Crc, s: Py, gs: seq<Seg>) {
    && Stored(s.slots) && s.durable <= |s.slots| && (s.stage != Ready ==> s.durable == |s.slots|)
    && gs != [] && Ascending(gs) && Joined(gs) && gs[|gs| - 1].id == s.index
    && (forall i :: 0 <= i < |gs| ==> FileOk(crc, s, gs[i]))
  }

  ghost predicate SnapshotOk(crc: Crc, slots: Slots, snap: Option<Bytes>, k: nat) {
    k <= |slots| < U64_MAX &&
    match snap
    case None => k == 0
    case Some(b) => b == SnapAt(crc, slots, k) && |StateAt(slots, k)| < 0x1_0000_0000
  }

  /** The entry of the first segment, while no sync of the directory has come yet. */
  function First(s: Py): seq<Change> {
    if s.disk.names.wals == [] then [AddWal(0)] else []
  }

  ghost predicate NamesOk(crc: Crc, s: Py, gs: seq<Seg>)
    requires gs != []
  {
    var n, names, pending, last := |gs| - 1, s.disk.names, s.disk.pending, |s.slots|;
    && SnapshotOk(crc, s.slots, names.snapshot, s.installed) && s.installed <= s.durable && gs[0].base <= s.installed
    && (names.wals == [] ==> gs[0].id == 0 && s.installed == 0)
    && match s.stage
      case Ready =>
        pending == First(s) && (names.wals == Ids(gs) || (names.wals == [] && n == 0))
      case Replaced =>
        pending == First(s) + [SetSnapshot(SnapAt(crc, s.slots, last))]
        && (names.wals == Ids(gs) || (names.wals == [] && n == 0)) && |StateAt(s.slots, last)| < 0x1_0000_0000
      case Rotating =>
        pending == First(s) + [AddWal(s.index)] && n > 0 && gs[n].base == last
        && (names.wals == Ids(gs[..n]) || (names.wals == [] && n == 1))
      case Installed =>
        pending == [] && names.wals == Ids(gs) && s.installed == last
      case Started =>
        pending == [AddWal(s.index)] && n > 0 && gs[n].base == last && names.wals == Ids(gs[..n]) && s.installed == last
      case Retiring =>
        names.wals == Ids(gs) && s.installed == last
        && (forall i :: 0 <= i < |pending| ==> pending[i].RemoveWal? && pending[i].id != s.index)
  }

  ghost predicate PyInv(crc: Crc, s: Py, gs: seq<Seg>) {
    FilesOk(crc, s, gs) && NamesOk(crc, s, gs)
  }

  lemma FreshInv(crc: Crc)
    ensures PyInv(crc, FRESH, [Seg(0, 0, 0)])
  {
    assert Logged([], 0, 0) == [];
  }

  // ------------------------------------------------------------------ every step keeps it

  lemma SegFilePrefix(crc: Crc, s: Slots, t: Slots, g: Seg)
    requires SegIn(s, g) && SegIn(t, g) && s[..g.end] == t[..g.end]
    ensures SegFile(crc, s, g) == SegFile(crc, t, g)
  {
    LoggedPrefix(s, t, g.base, g.end);
  }

  /** One more number adds one record or none. */
  lemma LoggedMore(crc: Crc, slots: Slots, base: nat, x: Option<Operation>)
    requires base <= |slots| && |slots| + 1 < U64_MAX
    ensures PrintAll(crc, Logged(slots + [x], base, |slots| + 1)) == PrintAll(crc, Logged(slots, base, |slots|))
      + if x.Some? then Print(crc, W.Record(|slots| + 1, x.value)) else []
  {
    hide Print;
    assert (slots + [x])[..|slots|] == slots[..|slots|];
    LoggedPrefix(slots + [x], slots, base, |slots|);
    if x.Some? {
      var r := W.Record(|slots| + 1, x.value);
      PrintAllConcat(crc, Logged(slots, base, |slots|), [r]);
      assert [r][1..] == [];
    }
  }

  /** The active segment with one more number. */
  ghost function Longer(s: Py, gs: seq<Seg>): seq<Seg>
    requires gs != []
  {
    gs[|gs| - 1 := gs[|gs| - 1].(end := |s.slots| + 1)]
  }

  lemma ActiveIs(crc: Crc, s: Py, gs: seq<Seg>)
    requires FilesOk(crc, s, gs)
    ensures gs != [] && FileOk(crc, s, gs[|gs| - 1]) && gs[|gs| - 1].id == s.index && s.index in s.disk.files
    ensures |s.slots| < U64_MAX && s.durable <= |s.slots| && gs[|gs| - 1].end == |s.slots|
    ensures forall i :: 0 <= i < |gs| - 1 ==> gs[i].id < s.index
  {
    hide SegFile;
  }

  /** A segment in a state with one more number, taken with or without a record. */
  lemma MoreFile(crc: Crc, s: Py, t: Py, x: Option<Operation>, g: Seg)
    requires FileOk(crc, s, g) && s.durable <= |s.slots| && s.index in s.disk.files && |s.slots| + 1 < U64_MAX
    requires (x.Some? && t == Append(crc, s, x.value)) || (x.None? && t == Reject(s))
    requires t.slots == s.slots + [x]
    ensures FileOk(crc, t, if g.id == s.index then g.(end := |s.slots| + 1) else g)
  {
    hide Print, Storable, PrintAll, Logged;
    var n := |s.slots|;
    assert t.slots[..g.end] == s.slots[..g.end] && t.slots[..s.durable] == s.slots[..s.durable];
    SegFilePrefix(crc, s.slots, t.slots, g);
    if g.id == s.index {
      LoggedMore(crc, s.slots, g.base, x);
      LoggedPrefix(t.slots, s.slots, g.base, s.durable);
      var f := s.disk.files[g.id];
      assert f.bytes + [] == f.bytes;
    }
  }

  lemma MoreKeeps(crc: Crc, s: Py, t: Py, x: Option<Operation>, gs: seq<Seg>)
    requires PyInv(crc, s, gs) && s.stage == Ready && (x.Some? ==> Storable(x.value))
    requires (x.Some? && t == Append(crc, s, x.value)) || (x.None? && t == Reject(s))
    requires t.slots == s.slots + [x] && |s.slots| + 1 < U64_MAX
    ensures PyInv(crc, t, Longer(s, gs))
  {
    hide FileOk, Print, SnapshotOk, Storable, Ids;
    var gs', n := Longer(s, gs), |gs| - 1;
    ActiveIs(crc, s, gs);
    forall i | 0 <= i < |gs| ensures FileOk(crc, t, gs'[i]) {
      MoreFile(crc, s, t, x, gs[i]);
    }
    assert t.slots[..s.installed] == s.slots[..s.installed];
    SnapshotPrefix(crc, s.slots, t.slots, s.disk.names.snapshot, s.installed);
    LongerIds(s, gs);
  }

  lemma LongerIds(s: Py, gs: seq<Seg>)
    requires gs != []
    ensures Ids(Longer(s, gs)) == Ids(gs)
  {
  }

  lemma SnapshotPrefix(crc: Crc, s: Slots, t: Slots, snap: Option<Bytes>, k: nat)
    requires SnapshotOk(crc, s, snap, k) && k <= |t| < U64_MAX && s[..k] == t[..k]
    ensures SnapshotOk(crc, t, snap, k)
  {
    hide PS.SnapshotBytes, Listing;
    StateAtPrefix(s, t, k);
  }

  lemma FsyncFile(crc: Crc, s: Py, g: Seg)
    requires FileOk(crc, s, g) && s.durable <= |s.slots|
    ensures FileOk(crc, Fsync(s), g)
  {
    hide Print, PrintAll, Logged;
  }

  lemma FsyncKeeps(crc: Crc, s: Py, gs: seq<Seg>)
    requires PyInv(crc, s, gs)
    ensures PyInv(crc, Fsync(s), gs)
  {
    hide FileOk, SnapshotOk, Ids;
    forall i | 0 <= i < |gs| ensures FileOk(crc, Fsync(s), gs[i]) {
      FsyncFile(crc, s, gs[i]);
    }
  }

  /** The segment opened next. */
  function NextSeg(s: Py): Seg
    requires s.index < U64_MAX
  {
    Seg(s.index + 1, |s.slots|, |s.slots|)
  }

  lemma OpenFile(crc: Crc, s: Py, g: Seg)
    requires FileOk(crc, s, g) && OpenNext(s) != s && s.durable == |s.slots|
    ensures FileOk(crc, OpenNext(s), g)
  {
    hide Print, PrintAll, Logged;
  }

  lemma OpenNextKeeps(crc: Crc, s: Py, gs: seq<Seg>)
    requires PyInv(crc, s, gs) && OpenNext(s) != s
    ensures PyInv(crc, OpenNext(s), gs + [NextSeg(s)])
  {
    hide FileOk, SnapshotOk, Ids;
    var t, gs' := OpenNext(s), gs + [NextSeg(s)];
    ActiveIs(crc, s, gs);
    NewFileOk(crc, s);
    forall i | 0 <= i < |gs'| ensures FileOk(crc, t, gs'[i]) {
      if i < |gs| { OpenFile(crc, s, gs[i]); }
    }
    assert gs'[..|gs|] == gs;
  }

  lemma NewFileOk(crc: Crc, s: Py)
    requires OpenNext(s) != s && s.durable == |s.slots| < U64_MAX && (s.stage == Installed ==> s.installed == |s.slots|)
    ensures FileOk(crc, OpenNext(s), NextSeg(s))
  {
    assert Logged(s.slots, |s.slots|, |s.slots|) == [];
  }

  /** A step that changes only stage, temporary file, names and pending changes, and what is installed. */
  lemma NamesStep(crc: Crc, s: Py, t: Py, gs: seq<Seg>)
    requires FilesOk(crc, s, gs) && (t.stage != Ready ==> s.durable == |s.slots|) && s.installed <= t.installed
    requires t == s.(stage := t.stage, tmp := t.tmp, installed := t.installed,
                     disk := s.disk.(names := t.disk.names, pending := t.disk.pending))
    ensures FilesOk(crc, t, gs)
  {
    hide SegFile, PrintAll, Logged, Stored;
    forall i | 0 <= i < |gs| ensures FileOk(crc, t, gs[i]) {
      assert FileOk(crc, s, gs[i]);
    }
  }

  lemma TmpKeepsNames(crc: Crc, s: Py, t: Py, gs: seq<Seg>)
    requires PyInv(crc, s, gs) && t == s.(tmp := t.tmp)
    ensures PyInv(crc, t, gs)
  {
    hide FilesOk, SnapshotOk, Ids, SnapAt, StateAt;
    SegsThere(crc, s, gs);
    NamesStep(crc, s, t, gs);
  }

  lemma SegsThere(crc: Crc, s: Py, gs: seq<Seg>)
    requires FilesOk(crc, s, gs)
    ensures gs != [] && |s.slots| < U64_MAX && s.durable <= |s.slots| && (s.stage != Ready ==> s.durable == |s.slots|)
  {
    hide FileOk;
  }

  lemma ReplaceKeeps(crc: Crc, s: Py, gs: seq<Seg>)
    requires PyInv(crc, s, gs)
    ensures PyInv(crc, Replace(crc, s), gs)
  {
    hide FilesOk, SnapshotOk, Ids, SnapAt, StateAt;
    SegsThere(crc, s, gs);
    var t := Replace(crc, s);
    if t != s {
      NamesStep(crc, s, t, gs);
      assert s.tmp.bytes[..s.tmp.synced] == s.tmp.bytes;
    }
  }

  lemma RetireKeeps(crc: Crc, s: Py, id: u64, gs: seq<Seg>)
    requires PyInv(crc, s, gs)
    ensures PyInv(crc, Retire(s, id), gs)
  {
    hide FilesOk, SnapshotOk, Ids, SnapAt, StateAt, Live;
    SegsThere(crc, s, gs);
    NamesStep(crc, s, Retire(s, id), gs);
  }

  lemma KeepTwo(n: Names, a: seq<Change>, c: Change, keep: nat -> bool)
    ensures Kept(n, a + [c], keep) == if keep(|a|) then Changed(Kept(n, a, keep), c) else Kept(n, a, keep)
    ensures Kept(n, [], keep) == n
  {
    assert (a + [c])[..|a|] == a;
  }

  /** The names once the entry of the first segment is in the directory. */
  lemma LiveFirst(s: Py)
    requires s.disk.names.wals == []
    ensures Kept(s.disk.names, [AddWal(0)], _ => true) == s.disk.names.(wals := [0])
  {
    KeepTwo(s.disk.names, [], AddWal(0), _ => true);
    assert [] + [AddWal(0)] == [AddWal(0)];
  }

  lemma LiveNames(crc: Crc, s: Py, gs: seq<Seg>)
    requires gs != [] && NamesOk(crc, s, gs) && gs[|gs| - 1].id == s.index && s.stage != Retiring && |s.slots| < U64_MAX
    ensures Live(s.disk).wals == Ids(gs)
    ensures Live(s.disk).snapshot ==
      if s.stage == Replaced then Some(SnapAt(crc, s.slots, |s.slots|)) else s.disk.names.snapshot
  {
    hide SnapshotOk, SnapAt, Kept, StateAt;
    var n, names := |gs| - 1, s.disk.names;
    if names.wals == [] { LiveFirst(s); }
    KeepTwo(names, First(s), AddWal(s.index), _ => true);
    KeepTwo(names, First(s), SetSnapshot(SnapAt(crc, s.slots, |s.slots|)), _ => true);
    KeepTwo(names, [], AddWal(s.index), _ => true);
    assert [] + [AddWal(s.index)] == [AddWal(s.index)];
    assert Ids(gs) == Ids(gs[..n]) + [s.index];
    assert n == 1 ==> Ids(gs[..n]) == [gs[0].id];
    assert n == 0 ==> Ids(gs) == [gs[0].id];
  }

  lemma FsyncDirKeeps(crc: Crc, s: Py, gs: seq<Seg>) returns (gs': seq<Seg>)
    requires PyInv(crc, s, gs)
    ensures PyInv(crc, FsyncDir(s), gs') && gs != [] && (gs' == gs || gs' == [gs[|gs| - 1]])
  {
    hide FilesOk, SnapshotOk, SnapAt, StateAt, Kept, Ids;
    SegsThere(crc, s, gs);
    ActiveIs(crc, s, gs);
    var t := FsyncDir(s);
    gs' := gs;
    if t != s {
      NamesStep(crc, s, t, gs);
      if s.stage == Retiring {
        RemovalsOnly(s.disk.names, s.disk.pending, _ => true);
        gs' := [gs[|gs| - 1]];
        OnlyLast(crc, t, gs);
      } else {
        LiveNames(crc, s, gs);
        if s.stage == Replaced {
          SnapshotIs(crc, s.slots);
          FirstBase(crc, s, gs);
        }
        IdsNonEmpty(gs);
      }
    }
  }

  lemma IdsNonEmpty(gs: seq<Seg>)
    ensures |Ids(gs)| == |gs|
  {
  }

  lemma SnapshotIs(crc: Crc, slots: Slots)
    requires |slots| < U64_MAX && |StateAt(slots, |slots|)| < 0x1_0000_0000
    ensures SnapshotOk(crc, slots, Some(SnapAt(crc, slots, |slots|)), |slots|)
  {
    hide StateAt, SnapAt;
  }

  lemma FirstBase(crc: Crc, s: Py, gs: seq<Seg>)
    requires FilesOk(crc, s, gs)
    ensures gs[0].base <= |s.slots|
  {
    assert FileOk(crc, s, gs[0]);
  }

  lemma OnlyLast(crc: Crc, s: Py, gs: seq<Seg>)
    requires FilesOk(crc, s, gs)
    ensures gs != [] && FilesOk(crc, s, [gs[|gs| - 1]]) && Ids([gs[|gs| - 1]]) == [s.index]
    ensures gs[|gs| - 1].base <= |s.slots|
  {
    hide SegFile, PrintAll, Logged, Stored;
    assert FileOk(crc, s, gs[|gs| - 1]);
  }

  // ------------------------------------------------------------------ reopening keeps it

  /** The segments after a reopening: the active one ends with the last number that is kept. */
  ghost function Shorter(s: Py, gs: seq<Seg>): seq<Seg>
    requires gs != []
  {
    gs[|gs| - 1 := gs[|gs| - 1].(end := |Trim(s.slots, s.installed)|)]
  }

  /** Joined segments end before the last one begins. */
  lemma {:induction false} JoinedBelow(crc: Crc, s: Py, gs: seq<Seg>, i: nat)
    requires FilesOk(crc, s, gs) && i < |gs| - 1
    ensures gs[i].end <= gs[|gs| - 1].base
    decreases |gs| - i
  {
    hide FileOk, Stored;
    assert gs[i].end == gs[i + 1].base;
    if i + 1 < |gs| - 1 {
      SegFileOk(crc, s, gs[i + 1]);
      JoinedBelow(crc, s, gs, i + 1);
    }
  }

  lemma SegFileOk(crc: Crc, s: Py, g: Seg)
    requires FileOk(crc, s, g)
    ensures SegIn(s.slots, g) && (g.id == s.index ==> BaseOk(s, g.base))
  {
    hide SegFile, PrintAll, Logged;
  }

  lemma ReopenFile(crc: Crc, s: Py, g: Seg)
    requires FileOk(crc, s, g) && Reopen(s) != s && s.installed <= |s.slots|
    requires g.id != s.index ==> g.end <= |Trim(s.slots, s.installed)|
    ensures FileOk(crc, Reopen(s), if g.id == s.index then g.(end := |Trim(s.slots, s.installed)|) else g)
  {
    hide PrintAll, Logged, Trim, Gapless;
    var t := Trim(s.slots, s.installed);
    TrimTrims(s.slots, s.installed);
    if g.id == s.index {
      BaseKept(s, t, g.base);
    } else {
      assert s.slots[..g.end] == t[..g.end];
      SegFilePrefix(crc, s.slots, t, g);
    }
  }

  lemma ReopenFiles(crc: Crc, s: Py, gs: seq<Seg>)
    requires FilesOk(crc, s, gs) && Reopen(s) != s && s.installed <= |s.slots|
    ensures FilesOk(crc, Reopen(s), Shorter(s, gs))
  {
    var t, gs', n := Reopen(s), Shorter(s, gs), |gs| - 1;
    TrimTrims(s.slots, s.installed);
    TrimStored(s.slots, t.slots);
    hide FileOk, Trim, Trims, Stored, Gapless;
    ActiveIs(crc, s, gs);
    SegFileOk(crc, s, gs[n]);
    BaseKept(s, t.slots, gs[n].base);
    forall i | 0 <= i < |gs| ensures FileOk(crc, t, gs'[i]) {
      if i < n { JoinedBelow(crc, s, gs, i); }
      ReopenFile(crc, s, gs[i]);
    }
  }

  lemma ReopenNames(crc: Crc, s: Py, gs: seq<Seg>)
    requires gs != [] && NamesOk(crc, s, gs) && Reopen(s) != s && s.durable <= |s.slots| < U64_MAX
    ensures NamesOk(crc, Reopen(s), Shorter(s, gs))
  {
    var t := Reopen(s);
    TrimTrims(s.slots, s.installed);
    hide SnapshotOk, Ids, Trim, Gapless, Logged;
    assert t.slots[..s.installed] == s.slots[..s.installed];
    SnapshotPrefix(crc, s.slots, t.slots, s.disk.names.snapshot, s.installed);
    ShorterIds(s, gs);
  }

  lemma ReopenKeeps(crc: Crc, s: Py, gs: seq<Seg>)
    requires PyInv(crc, s, gs) && Reopen(s) != s
    ensures PyInv(crc, Reopen(s), Shorter(s, gs))
  {
    hide FilesOk, SnapshotOk, Reopen, Shorter;
    SegsThere(crc, s, gs);
    ReopenNames(crc, s, gs);
    ReopenFiles(crc, s, gs);
  }

  /** What a reopening gives back lies above the base of the active segment. */
  lemma BaseKept(s: Py, t: Slots, base: nat)
    requires Trims(s.slots, s.installed, t) && BaseOk(s, base) && s.installed <= |s.slots|
    ensures base <= |t|
  {
    hide Logged, StateAt;
  }

  lemma TrimStored(slots: Slots, t: Slots)
    requires Stored(slots) && |t| <= |slots| && t == slots[..|t|]
    ensures Stored(t)
  {
  }

  lemma ShorterIds(s: Py, gs: seq<Seg>)
    requires gs != []
    ensures Ids(Shorter(s, gs)) == Ids(gs)
  {
    hide Trim;
  }
}
