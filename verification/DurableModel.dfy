/** The durable database as a value: what each call does to map, watermarks and file, over whole runs with crashes. */
module DurableModel {
  import opened Bytes
  import opened KeyOrder
  import opened Options
  import opened Store
  import opened AtomicWal
  import opened AtomicReplay
  import opened AtomicRecovery

  /** What was read from the older engine's directory. */
  datatype Legacy = Legacy(values: Map, sequence: u64)

  /** The directory entry of the log: no file yet, a file whose entry was never synced, a file found on disk. */
  datatype Entry = Absent | Unsynced | OnDisk

  datatype Db = Db(bytes: Bytes, synced: nat, entry: Entry, state: Map, last: u64, durable: u64)

  datatype Mode = Async | BatchSync | PerOperationSync

  predicate Accepts(db: Db, ops: seq<Operation>) {
    db.last != U64_MAX && Encodable(ops)
  }

  /** The database after a batch was written, synced or not. A sync of the file does not sync its directory. */
  function Written(crc: Crc, db: Db, ops: seq<Operation>, sync: bool): Db {
    if !Accepts(db, ops) then db
    else
      var bytes := db.bytes + Frame(crc, Batch(db.last + 1, ops));
      Db(bytes, if sync then |bytes| else db.synced, if db.entry == Absent then Unsynced else db.entry,
         Apply(db.state, ops), db.last + 1, if sync then db.last + 1 else db.durable)
  }

  /** One delete for every listed key. */
  function Deletes(items: seq<Item>): seq<Operation> {
    seq(|items|, i requires 0 <= i < |items| => Operation(Delete, items[i].key, []))
  }

  ghost function Cleared(crc: Crc, db: Db, sync: bool): Db {
    if db.state == map[] then db else Written(crc, db, Deletes(Listing(db.state)), sync)
  }

  /** Nothing is synced when the watermarks agree already. */
  function Synced(db: Db): Db {
    if db.last == db.durable then db else db.(synced := |db.bytes|, durable := db.last)
  }

  /** Opening the file that is on disk: replay after the legacy state, cut the torn tail, and take all as durable. */
  function Opened(crc: Crc, legacy: Legacy, entry: Entry, bytes: Bytes): Db {
    var r := Scan(crc, Start(legacy.sequence), bytes);
    var last := AfterAll(Start(legacy.sequence), r.batches).last;
    Db(bytes[..r.used], r.used, entry, ApplyBatches(legacy.values, r.batches), last, last)
  }

  /** The length of the file after a crash that would cut it there: the synced bytes stay. */
  function Kept(db: Db, cut: nat): (n: nat)
    ensures n <= |db.bytes|
  {
    var n := if cut < db.synced then db.synced else cut;
    if n < |db.bytes| then n else |db.bytes|
  }

  /** Whether the file is there after a crash that keeps, or loses, an entry that was not synced. */
  predicate Stays(entry: Entry, keep: bool) {
    entry == OnDisk || (entry == Unsynced && keep)
  }

  /** A crash and the reopening after it. */
  function Crashed(crc: Crc, legacy: Legacy, db: Db, cut: nat, keep: bool): Db {
    if Stays(db.entry, keep) then Opened(crc, legacy, OnDisk, db.bytes[..Kept(db, cut)])
    else Opened(crc, legacy, Absent, [])
  }

  // ------------------------------------------------------------------ the invariant

  /**
   * The file is the print of log, of which the first d batches count as durable; map and watermarks follow from it.
   * Whether those batches are synced is another matter: see Backed.
   */
  ghost predicate Inv(crc: Crc, legacy: Legacy, db: Db, log: seq<Batch>, d: nat) {
    var q := Start(legacy.sequence);
    && Admissible(q, log) && db.bytes == Log(crc, log)
    && d <= |log| && db.synced <= |db.bytes|
    && db.state == ApplyBatches(legacy.values, log)
    && db.last == AfterAll(q, log).last
    && db.durable == AfterAll(q, log[..d]).last
    && (d < |log| ==> db.durable < db.last)
    && (db.entry == Absent ==> log == [])
  }

  /** What counts as durable is within the synced part of the file. */
  ghost predicate Backed(crc: Crc, db: Db, log: seq<Batch>, d: nat)
    requires d <= |log|
  {
    |Log(crc, log[..d])| <= db.synced
  }

  /** The invariant for some history. */
  ghost predicate Consistent(crc: Crc, legacy: Legacy, db: Db) {
    exists log, d :: Inv(crc, legacy, db, log, d)
  }

  lemma EmptyLog(crc: Crc, log: seq<Batch>)
    ensures Log(crc, log) == [] <==> log == []
  {
    hide Frame;
    if log != [] { FrameLength(crc, log[0]); }
  }

  lemma WrittenConsistent(crc: Crc, legacy: Legacy, db: Db, ops: seq<Operation>, mode: Mode)
    requires Consistent(crc, legacy, db)
    ensures Consistent(crc, legacy, Written(crc, db, ops, mode != Async))
  {
    hide Inv;
    var log, d :| Inv(crc, legacy, db, log, d);
    if Accepts(db, ops) { WrittenKeeps(crc, legacy, db, log, d, ops, mode != Async); }
  }

  lemma SyncedConsistent(crc: Crc, legacy: Legacy, db: Db)
    requires Consistent(crc, legacy, db)
    ensures Consistent(crc, legacy, Synced(db))
  {
    hide Inv;
    var log, d :| Inv(crc, legacy, db, log, d);
    SyncedKeeps(crc, legacy, db, log, d);
  }

  /** What clearing does to a non-empty database whose keys are listed by items. */
  lemma ClearFacts(crc: Crc, legacy: Legacy, db: Db, items: seq<Item>)
    requires Consistent(crc, legacy, db) && KeysValid(legacy.values)
    requires db.state != map[] && Lists(items, db.state)
    ensures items == Listing(db.state) && |Deletes(items)| == |db.state|
    ensures Apply(db.state, Deletes(items)) == map[]
    ensures Encodable(Deletes(items)) <==> ClearableSize(db.state)
  {
    var log, d :| Inv(crc, legacy, db, log, d);
    hide Lists, Encodable, Deletes, Apply, Listing, KeyBytes;
    BatchKeysValid(Start(legacy.sequence), legacy.values, log);
    ListingLists(db.state);
    ListingUnique(items, Listing(db.state), db.state);
    ClearFits(db.state, items);
    ClearEmpties(db.state, items);
  }

  /** At most a million keys whose total length, with nine bytes of framing each, fits one frame. */
  ghost predicate ClearableSize(m: Map) {
    |m| <= MAX_OPERATIONS && FIXED_PREFIX + 9 * |m| + KeyBytes(Listing(m)) + TRAILER <= MAX_FRAME
  }

  lemma AppendAdmissible(q: u64, log: seq<Batch>, ops: seq<Operation>)
    requires Admissible(Start(q), log) && AfterAll(Start(q), log).last != U64_MAX && Encodable(ops)
    ensures var b := Batch(AfterAll(Start(q), log).last + 1, ops);
      Admissible(Start(q), log + [b]) && AfterAll(Start(q), log + [b]).last == b.sequence
  {
    hide Encodable;
    var b := Batch(AfterAll(Start(q), log).last + 1, ops);
    AdmissibleConcat(Start(q), log, [b]);
    AdmissibleSingle(AfterAll(Start(q), log), b);
  }

  /** Writing a batch extends the logged history by it, and moves the durable mark only with a sync. */
  lemma WrittenKeeps(crc: Crc, legacy: Legacy, db: Db, log: seq<Batch>, d: nat, ops: seq<Operation>, sync: bool)
    requires Inv(crc, legacy, db, log, d) && Accepts(db, ops)
    ensures var log' := log + [Batch(db.last + 1, ops)];
      Inv(crc, legacy, Written(crc, db, ops, sync), log', if sync then |log'| else d)
  {
    hide Admissible, Encodable, Log, Frame, ApplyBatches, AfterAll;
    var b := Batch(db.last + 1, ops);
    var log' := log + [b];
    AppendAdmissible(legacy.sequence, log, ops);
    LogConcat(crc, log, [b]);
    LogSingle(crc, b);
    AcceptOne(Start(legacy.sequence), legacy.values, log, b);
    assert log'[..d] == log[..d] && log'[..|log'|] == log';
  }

  /** Syncing makes the whole history durable. */
  lemma SyncedKeeps(crc: Crc, legacy: Legacy, db: Db, log: seq<Batch>, d: nat)
    requires Inv(crc, legacy, db, log, d)
    ensures Inv(crc, legacy, Synced(db), log, |log|)
  {
    assert log[..|log|] == log;
  }

  /** How many batches a crash leaves when it cuts the file there. */
  function Surviving(crc: Crc, log: seq<Batch>, cut: nat): nat {
    WholeFrames(crc, log, cut)
  }

  /**
   * A crash that leaves the file, cut anywhere after its synced bytes, reopens to a prefix of the history
   * that includes every synced batch, never to part of a batch.
   */
  lemma CrashKeeps(crc: Crc, legacy: Legacy, db: Db, log: seq<Batch>, d: nat, cut: nat, keep: bool)
    requires Inv(crc, legacy, db, log, d) && Stays(db.entry, keep)
    ensures var k := Surviving(crc, log, Kept(db, cut));
      && Surviving(crc, log, db.synced) <= k <= |log|
      && Scan(crc, Start(legacy.sequence), db.bytes[..Kept(db, cut)]).error == None
      && Inv(crc, legacy, Crashed(crc, legacy, db, cut, keep), log[..k], k)
      && Surviving(crc, log[..k], Crashed(crc, legacy, db, cut, keep).synced) == k
  {
    hide Admissible, Log, Frame, ApplyBatches, AfterAll, WholeFrames, Scan;
    var q, n := Start(legacy.sequence), Kept(db, cut);
    var k := Surviving(crc, log, n);
    assert (db.bytes + [])[..n] == db.bytes[..n];
    TruncatedLog(crc, q, log, [], n);
    WholeFramesMore(crc, log, db.synced, n);
    AdmissibleTake(q, log, k);
    OpenedClean(crc, legacy, OnDisk, db.bytes[..n]);
    assert log[..k][..k] == log[..k];
    FittingAtLeast(crc, log[..k], |Log(crc, log[..k])|, k);
  }

  lemma WholeFramesMore(crc: Crc, log: seq<Batch>, m: nat, n: nat)
    requires m <= n
    ensures WholeFrames(crc, log, m) <= WholeFrames(crc, log, n)
  {
    hide Log, Frame, WholeFrames;
    WholeFramesFit(crc, log, m);
    FittingAtLeast(crc, log, n, WholeFrames(crc, log, m));
  }

  /** What counts as durable is synced exactly when it is among the batches that a cut at the synced length leaves. */
  lemma BackedIff(crc: Crc, db: Db, log: seq<Batch>, d: nat)
    requires d <= |log|
    ensures Backed(crc, db, log, d) <==> d <= Surviving(crc, log, db.synced)
  {
    hide Log, Frame, WholeFrames;
    var k := WholeFrames(crc, log, db.synced);
    WholeFramesFit(crc, log, db.synced);
    if Backed(crc, db, log, d) { FittingAtLeast(crc, log, db.synced, d); }
    if d <= k { LogShorter(crc, log, d, k); }
  }

  lemma LogShorter(crc: Crc, log: seq<Batch>, d: nat, k: nat)
    requires d <= k <= |log|
    ensures |Log(crc, log[..d])| <= |Log(crc, log[..k])|
    ensures d < k ==> |Log(crc, log[..d])| < |Log(crc, log[..k])|
  {
    hide Frame;
    assert log[..k] == log[..d] + log[d..k];
    LogConcat(crc, log[..d], log[d..k]);
    if d < k { EmptyLog(crc, log[d..k]); }
  }

  /** A crash that loses the entry of the file reopens to the legacy state alone. */
  lemma CrashLosesEntry(crc: Crc, legacy: Legacy, db: Db, cut: nat, keep: bool)
    requires !Stays(db.entry, keep)
    ensures var t := Crashed(crc, legacy, db, cut, keep);
      Inv(crc, legacy, t, [], 0) && t.last == t.durable == legacy.sequence && t.state == legacy.values
  {
    hide Scan;
    EmptyScan(crc, legacy);
  }

  lemma EmptyScan(crc: Crc, legacy: Legacy)
    ensures Scan(crc, Start(legacy.sequence), []) == Scanned([], 0, false, None)
    ensures Inv(crc, legacy, Opened(crc, legacy, Absent, []), [], 0)
    ensures Opened(crc, legacy, Absent, []) == Db([], 0, Absent, legacy.values, legacy.sequence, legacy.sequence)
  {
  }

  /** A prefix that fits before the cut is not longer than the largest one. */
  lemma FittingAtLeast(crc: Crc, log: seq<Batch>, cut: nat, d: nat)
    requires d <= |log| && |Log(crc, log[..d])| <= cut
    ensures d <= WholeFrames(crc, log, cut)
  {
    hide Log, Frame, WholeFrames;
    WholeFramesFit(crc, log, cut);
    var k := WholeFrames(crc, log, cut);
    if k < d {
      assert log[..d][..k] == log[..k] && log[..d][k] == log[k];
      LogSplit(crc, log[..d], k);
    }
  }

  /** Opening any uncorrupted file satisfies the invariant for the batches it holds, all of them durable. */
  lemma OpenedClean(crc: Crc, legacy: Legacy, entry: Entry, bytes: Bytes)
    requires Scan(crc, Start(legacy.sequence), bytes).error == None && (entry == Absent ==> bytes == [])
    ensures var r := Scan(crc, Start(legacy.sequence), bytes);
      Inv(crc, legacy, Opened(crc, legacy, entry, bytes), r.batches, |r.batches|)
  {
    EmptyScan(crc, legacy);
    hide Admissible, Log, Frame, ApplyBatches, AfterAll, Scan;
    var r := Scan(crc, Start(legacy.sequence), bytes);
    CleanLog(crc, Start(legacy.sequence), bytes);
    assert r.batches[..|r.batches|] == r.batches;
    assert bytes[..r.used] == Log(crc, r.batches);
  }

  /**
   * Opening takes everything it read as durable, without a sync. That claim is true of a file whose
   * first synced bytes are on disk, so that no crash can lose a batch, exactly when all whole frames
   * are among those bytes.
   */
  lemma ReopenClaims(crc: Crc, q: u64, bytes: Bytes, synced: nat)
    requires Scan(crc, Start(q), bytes).error == None && synced <= |bytes|
    ensures (forall cut :: synced <= cut <= |bytes| ==>
        Scan(crc, Start(q), bytes[..cut]).batches == Scan(crc, Start(q), bytes).batches)
      <==> Scan(crc, Start(q), bytes).used <= synced
  {
    hide Scan, Log, Admissible, Unfinished, WholeFrames;
    var r := Scan(crc, Start(q), bytes);
    CleanLog(crc, Start(q), bytes);
    var tail := bytes[r.used..];
    forall cut | synced <= cut <= |bytes|
      ensures Scan(crc, Start(q), bytes[..cut]).batches == r.batches <==> r.used <= cut
    {
      assert (Log(crc, r.batches) + tail)[..cut] == bytes[..cut];
      TruncatedLog(crc, Start(q), r.batches, tail, cut);
      var k := WholeFrames(crc, r.batches, cut);
      WholeFramesFit(crc, r.batches, cut);
      assert r.batches[..|r.batches|] == r.batches;
      if r.used <= cut { FittingAtLeast(crc, r.batches, cut, |r.batches|); }
    }
    assert Scan(crc, Start(q), bytes[..synced]).batches == r.batches <==> r.used <= synced;
  }

  /** A batch written without a sync and found by a reopening counts as durable, and a second crash loses it. */
  lemma ReopenOverclaims(crc: Crc, legacy: Legacy, ops: seq<Operation>)
    requires Encodable(ops) && legacy.sequence != U64_MAX
    ensures var b := Batch(legacy.sequence + 1, ops); var q := Start(legacy.sequence);
      var db := Written(crc, Opened(crc, legacy, OnDisk, []), ops, false);
      && db.synced == 0 && db.durable == legacy.sequence
      && Opened(crc, legacy, OnDisk, db.bytes).durable == legacy.sequence + 1
      && Scan(crc, q, db.bytes).batches == [b] && Scan(crc, q, db.bytes[..0]).batches == []
  {
    hide Encodable, Frame, Scan, Admissible, Log;
    var q, b := Start(legacy.sequence), Batch(legacy.sequence + 1, ops);
    EmptyScan(crc, legacy);
    AdmissibleSingle(q, b);
    LogSingle(crc, b);
    RoundTrip(crc, q, [b]);
    var f := Frame(crc, b);
    assert [] + f == f && f[..0] == [];
  }

  // ------------------------------------------------------------------ clear

  /** Deleting every key of a map, in any order, empties it. */
  lemma {:induction false} DeletesEmpty(m: Map, items: seq<Item>)
    ensures Apply(m, Deletes(items)) == map k | k in m && (forall x :: x in items ==> x.key != k) :: m[k]
    decreases |items|
  {
    if items != [] {
      var n := |items| - 1;
      DeletesEmpty(m, items[..n]);
      assert Deletes(items)[..n] == Deletes(items[..n]);
      assert forall x :: x in items <==> x in items[..n] || x == items[n];
    }
  }

  /** Clearing logs one batch whose replay leaves nothing. */
  lemma ClearEmpties(m: Map, items: seq<Item>)
    requires Lists(items, m)
    ensures Apply(m, Deletes(items)) == map[]
  {
    DeletesEmpty(m, items);
    forall k | k in m ensures exists x :: x in items && x.key == k {
      assert Item(k, m[k]) in items;
    }
  }

  /** Total key bytes of a listing. */
  function KeyBytes(items: seq<Item>): nat {
    if items == [] then 0 else |items[0].key| + KeyBytes(items[1..])
  }

  lemma {:induction false} DeletesSize(items: seq<Item>)
    ensures |OpsBytes(Deletes(items))| == 9 * |items| + KeyBytes(items)
    decreases |items|
  {
    if items != [] {
      DeletesSize(items[1..]);
      assert Deletes(items)[1..] == Deletes(items[1..]);
    }
  }

  /** The deletes of all keys fit one batch exactly when number and total length are small enough. */
  lemma ClearFits(m: Map, items: seq<Item>)
    requires Lists(items, m) && KeysValid(m) && m != map[]
    ensures Encodable(Deletes(items)) <==>
      |m| <= MAX_OPERATIONS && FIXED_PREFIX + 9 * |m| + KeyBytes(items) + TRAILER <= MAX_FRAME
  {
    hide OpsBytes, KeyBytes;
    DeletesSize(items);
    ListingLists(m);
    ListingUnique(items, Listing(m), m);
    forall i | 0 <= i < |items| ensures ValidOp(Deletes(items)[i]) {
      assert items[i] in items;
    }
  }

  /** Keys written by encodable batches are valid, so every key a database can hold is. */
  lemma {:induction false} BatchKeysValid(x: Expect, m: Map, log: seq<Batch>)
    requires Admissible(x, log) && KeysValid(m)
    ensures KeysValid(ApplyBatches(m, log))
    decreases |log|
  {
    if log != [] {
      var n := |log| - 1;
      hide Apply;
      AdmissibleTake(x, log, n);
      BatchKeysValid(x, m, log[..n]);
      EncodableAt(x, log, n);
      ApplyKeysValid(ApplyBatches(m, log[..n]), log[n].ops);
    }
  }

  lemma {:induction false} ApplyKeysValid(m: Map, ops: seq<Operation>)
    requires KeysValid(m) && AllValid(ops)
    ensures KeysValid(Apply(m, ops))
    decreases |ops|
  {
    if ops != [] { ApplyKeysValid(m, ops[..|ops| - 1]); }
  }

  // ------------------------------------------------------------------ runs

  datatype Event =
    | Write(ops: seq<Operation>, mode: Mode)
    | Clear(mode: Mode)
    | Sync
    | Crash(cut: nat, keep: bool)
    | CrashInWrite(ops: seq<Operation>, cut: nat, keep: bool)
    | Reopened
    | Killed(ops: seq<Operation>, cut: nat)

  /**
   * The process ends, perhaps in the middle of a write, and another opens the same file: the operating system goes
   * on, so nothing is lost and nothing more is synced.
   */
  function Restarted(crc: Crc, legacy: Legacy, db: Db, ops: seq<Operation>, cut: nat): Db {
    var w := Written(crc, db, ops, false);
    var n := if cut < |db.bytes| then |db.bytes| else cut;
    Opened(crc, legacy, w.entry, w.bytes[..if n < |w.bytes| then n else |w.bytes|]).(synced := db.synced)
  }

  /** What one event does; a crash cuts the file anywhere after the synced bytes, and may lose an unsynced entry. */
  ghost function Next(crc: Crc, legacy: Legacy, db: Db, e: Event): Db {
    match e
    case Write(ops, mode) => Written(crc, db, ops, mode != Async)
    case Clear(mode) => Cleared(crc, db, mode != Async)
    case Sync => Synced(db)
    case Crash(cut, keep) => Crashed(crc, legacy, db, cut, keep)
    case CrashInWrite(ops, cut, keep) => Crashed(crc, legacy, Written(crc, db, ops, false), cut, keep)
    case Reopened => Restarted(crc, legacy, db, [], 0)
    case Killed(ops, cut) => Restarted(crc, legacy, db, ops, cut)
  }

  /** The simple form: the committed history, how much of it counts as durable, how much is synced, and the entry. */
  datatype Spec = Spec(log: seq<Batch>, durable: nat, synced: nat, entry: Entry)

  ghost function Last(legacy: Legacy, s: Spec): u64 {
    AfterAll(Start(legacy.sequence), s.log).last
  }

  ghost predicate Appends(legacy: Legacy, s: Spec, ops: seq<Operation>, mode: Mode, s': Spec) {
    if Last(legacy, s) != U64_MAX && Encodable(ops)
    then s'.log == s.log + [Batch(Last(legacy, s) + 1, ops)]
      && s'.durable == (if mode != Async then |s'.log| else s.durable)
      && s'.synced == (if mode != Async then |s'.log| else s.synced)
      && s'.entry == if s.entry == Absent then Unsynced else s.entry
    else s' == s
  }

  /** A crash loses only batches that are not synced, unless it loses the entry of the file: then it loses them all. */
  ghost predicate Loses(s: Spec, keep: bool, s': Spec) {
    if Stays(s.entry, keep)
    then s.synced <= |s'.log| <= |s.log| && s'.log == s.log[..|s'.log|] && s'.durable == s'.synced == |s'.log|
      && s'.entry == OnDisk
    else s' == Spec([], 0, 0, Absent)
  }

  /** A reopening counts everything that it reads as durable. */
  ghost predicate Restarts(legacy: Legacy, s: Spec, ops: seq<Operation>, s': Spec) {
    exists w :: Appends(legacy, s, ops, Async, w)
      && (s'.log == s.log || s'.log == w.log) && s'.durable == |s'.log| && s'.synced == s.synced && s'.entry == w.entry
  }

  /** One event on the simple form. */
  ghost predicate Steps(legacy: Legacy, s: Spec, e: Event, s': Spec) {
    match e
    case Write(ops, mode) => Appends(legacy, s, ops, mode, s')
    case Clear(mode) =>
      var m := ApplyBatches(legacy.values, s.log);
      if m == map[] then s' == s else Appends(legacy, s, Deletes(Listing(m)), mode, s')
    case Sync => s' == if s.durable == |s.log| then s else s.(durable := |s.log|, synced := |s.log|)
    case Crash(_, keep) => Loses(s, keep, s')
    case CrashInWrite(ops, _, keep) => exists w :: Appends(legacy, s, ops, Async, w) && Loses(w, keep, s')
    case Reopened => s' == s.(durable := |s.log|)
    case Killed(ops, _) => Restarts(legacy, s, ops, s')
  }

  /** The simple form describes the database. */
  ghost predicate Matches(crc: Crc, legacy: Legacy, db: Db, s: Spec) {
    && Inv(crc, legacy, db, s.log, s.durable) && db.entry == s.entry
    && s.synced == Surviving(crc, s.log, db.synced)
  }

  /** Every event of the database is a step of the simple form. */
  lemma NextRefines(crc: Crc, legacy: Legacy, db: Db, s: Spec, e: Event) returns (s': Spec)
    requires Matches(crc, legacy, db, s)
    ensures Steps(legacy, s, e, s')
    ensures Matches(crc, legacy, Next(crc, legacy, db, e), s')
  {
    hide Admissible, Log, Frame, ApplyBatches, AfterAll, Encodable, Apply, Crashed, Restarted, Matches, Synced;
    hide WholeFrames;
    match e
    case Write(ops, mode) =>
      s' := AppendRefines(crc, legacy, db, s, ops, mode);
    case Clear(mode) =>
      StateIs(crc, legacy, db, s);
      if db.state == map[] { s' := s; }
      else { s' := AppendRefines(crc, legacy, db, s, Deletes(Listing(db.state)), mode); }
    case Sync =>
      s' := SyncRefines(crc, legacy, db, s);
    case Crash(cut, keep) =>
      s' := CrashRefines(crc, legacy, db, s, cut, keep);
    case CrashInWrite(ops, cut, keep) =>
      var w := AppendRefines(crc, legacy, db, s, ops, Async);
      s' := CrashRefines(crc, legacy, Written(crc, db, ops, false), w, cut, keep);
    case Reopened =>
      s' := RestartRefines(crc, legacy, db, s, [], 0);
      NothingAppended(legacy, s, s');
    case Killed(ops, cut) =>
      s' := RestartRefines(crc, legacy, db, s, ops, cut);
  }

  lemma NothingAppended(legacy: Legacy, s: Spec, s': Spec)
    requires Restarts(legacy, s, [], s')
    ensures s' == s.(durable := |s.log|)
  {
    hide AfterAll;
  }

  lemma StateIs(crc: Crc, legacy: Legacy, db: Db, s: Spec)
    requires Matches(crc, legacy, db, s)
    ensures db.state == ApplyBatches(legacy.values, s.log)
  {
    hide Admissible, Log, ApplyBatches, AfterAll, WholeFrames;
  }

  lemma SyncRefines(crc: Crc, legacy: Legacy, db: Db, s: Spec) returns (s': Spec)
    requires Matches(crc, legacy, db, s)
    ensures Steps(legacy, s, Sync, s') && Matches(crc, legacy, Synced(db), s')
  {
    hide Admissible, Log, Frame, ApplyBatches, AfterAll, WholeFrames;
    s' := s;
    SyncedKeeps(crc, legacy, db, s.log, s.durable);
    assert s.log[..|s.log|] == s.log;
    if s.durable < |s.log| {
      s' := s.(durable := |s.log|, synced := |s.log|);
      FittingAtLeast(crc, s.log, |db.bytes|, |s.log|);
    }
  }

  lemma AppendRefines(crc: Crc, legacy: Legacy, db: Db, s: Spec, ops: seq<Operation>, mode: Mode) returns (s': Spec)
    requires Matches(crc, legacy, db, s)
    ensures Appends(legacy, s, ops, mode, s')
    ensures Matches(crc, legacy, Written(crc, db, ops, mode != Async), s')
  {
    hide Admissible, Log, Frame, ApplyBatches, AfterAll, Encodable, Apply, WholeFrames;
    s' := s;
    if Accepts(db, ops) {
      WrittenKeeps(crc, legacy, db, s.log, s.durable, ops, mode != Async);
      var b := Batch(db.last + 1, ops);
      var log', sync := s.log + [b], mode != Async;
      s' := Spec(log', if sync then |log'| else s.durable, if sync then |log'| else s.synced,
                 if s.entry == Absent then Unsynced else s.entry);
      WholeFramesAppend(crc, s.log, b, db.synced);
      assert log'[..|log'|] == log';
      if sync { FittingAtLeast(crc, log', |Log(crc, log')|, |log'|); }
    }
  }

  /** A frame behind the synced bytes does not change how many frames are in them. */
  lemma WholeFramesAppend(crc: Crc, log: seq<Batch>, b: Batch, n: nat)
    requires n <= |Log(crc, log)|
    ensures WholeFrames(crc, log + [b], n) == WholeFrames(crc, log, n)
  {
    hide Log, Frame, WholeFrames;
    var log', k := log + [b], WholeFrames(crc, log, n);
    var k' := WholeFrames(crc, log', n);
    WholeFramesFit(crc, log, n);
    WholeFramesFit(crc, log', n);
    assert log'[..k] == log[..k];
    FittingAtLeast(crc, log', n, k);
    if k' == |log'| {
      assert log'[..k'] == log' && log'[..|log|] == log;
      LogShorter(crc, log', |log|, k');
    } else {
      assert log'[..k'] == log[..k'];
      FittingAtLeast(crc, log, n, k');
    }
  }

  lemma CrashRefines(crc: Crc, legacy: Legacy, db: Db, s: Spec, cut: nat, keep: bool) returns (s': Spec)
    requires Matches(crc, legacy, db, s)
    ensures Loses(s, keep, s') && Matches(crc, legacy, Crashed(crc, legacy, db, cut, keep), s')
  {
    hide Admissible, Log, Frame, ApplyBatches, AfterAll, Scan, WholeFrames;
    if Stays(db.entry, keep) {
      CrashKeeps(crc, legacy, db, s.log, s.durable, cut, keep);
      var k := Surviving(crc, s.log, Kept(db, cut));
      s' := Spec(s.log[..k], k, k, OnDisk);
    } else {
      CrashLosesEntry(crc, legacy, db, cut, keep);
      s' := Spec([], 0, 0, Absent);
      NoFrames(crc);
    }
  }

  lemma NoFrames(crc: Crc)
    ensures forall n: nat :: WholeFrames(crc, [], n) == 0
  {
  }

  /** How many frames a restart reads: those before the write, and the new one if all of it was written. */
  lemma RestartReads(crc: Crc, legacy: Legacy, s: Spec, w: Spec, n: nat) returns (k: nat)
    requires Admissible(Start(legacy.sequence), w.log) && |Log(crc, s.log)| <= n <= |Log(crc, w.log)|
    requires w.log == s.log || (|w.log| == |s.log| + 1 && w.log[..|s.log|] == s.log)
    ensures k == WholeFrames(crc, w.log, n) && (w.log[..k] == s.log || w.log[..k] == w.log)
    ensures |Log(crc, s.log)| <= |Log(crc, w.log[..k])|
  {
    hide Admissible, Log, WholeFrames;
    assert w.log[..|w.log|] == w.log && w.log[..|s.log|] == s.log;
    k := WholeFrames(crc, w.log, n);
    FittingAtLeast(crc, w.log, n, |s.log|);
    LogShorter(crc, w.log, |s.log|, k);
  }

  /** A restart is a step of the simple form. */
  lemma RestartRefines(crc: Crc, legacy: Legacy, db: Db, s: Spec, ops: seq<Operation>, cut: nat) returns (s': Spec)
    requires Matches(crc, legacy, db, s)
    ensures Restarts(legacy, s, ops, s') && Matches(crc, legacy, Restarted(crc, legacy, db, ops, cut), s')
  {
    hide Admissible, Log, WholeFrames, Encodable, Opened, Written, Appends, Matches, Inv;
    var w := AppendRefines(crc, legacy, db, s, ops, Async);
    var t := Written(crc, db, ops, false);
    LogOf(crc, legacy, db, s);
    LogOf(crc, legacy, t, w);
    AppendShape(legacy, s, ops, w);
    WrittenSynced(crc, db, ops);
    LogShorter(crc, w.log, |s.log|, |w.log|);
    assert w.log[..|w.log|] == w.log && w.log[..|s.log|] == s.log;
    var m := if cut < |db.bytes| then |db.bytes| else cut;
    var n := if m < |t.bytes| then m else |t.bytes|;
    var k := RestartReads(crc, legacy, s, w, n);
    s' := Spec(w.log[..k], k, s.synced, w.entry);
    RestartMatches(crc, legacy, t, w, n, k);
  }

  lemma WrittenSynced(crc: Crc, db: Db, ops: seq<Operation>)
    ensures Written(crc, db, ops, false).synced == db.synced
  {
    hide Frame, Encodable;
  }

  lemma LogOf(crc: Crc, legacy: Legacy, db: Db, s: Spec)
    requires Matches(crc, legacy, db, s)
    ensures Admissible(Start(legacy.sequence), s.log) && db.bytes == Log(crc, s.log) && db.synced <= |db.bytes|
    ensures db.entry == s.entry && (db.entry == Absent ==> db.bytes == [])
    ensures s.synced == WholeFrames(crc, s.log, db.synced)
  {
    hide Admissible, ApplyBatches, AfterAll, WholeFrames;
    EmptyLog(crc, s.log);
  }

  lemma AppendShape(legacy: Legacy, s: Spec, ops: seq<Operation>, w: Spec)
    requires Appends(legacy, s, ops, Async, w)
    ensures w.log == s.log || (|w.log| == |s.log| + 1 && w.log[..|s.log|] == s.log && w.entry != Absent)
    ensures w.synced == s.synced
  {
    hide AfterAll, Encodable;
  }

  lemma RestartMatches(crc: Crc, legacy: Legacy, t: Db, w: Spec, n: nat, k: nat)
    requires Matches(crc, legacy, t, w) && t.synced <= n <= |t.bytes| && k == WholeFrames(crc, w.log, n)
    requires t.synced <= |Log(crc, w.log[..k])|
    ensures Matches(crc, legacy, Opened(crc, legacy, w.entry, t.bytes[..n]).(synced := t.synced),
                    Spec(w.log[..k], k, w.synced, w.entry))
  {
    LogOf(crc, legacy, t, w);
    RestartInv(crc, legacy, t, w, n, k);
    hide Inv, WholeFrames, Opened;
    WholeFramesPart(crc, w.log, k, t.synced);
    OpenedEntry(crc, legacy, w.entry, t.bytes[..n]);
  }

  lemma OpenedEntry(crc: Crc, legacy: Legacy, entry: Entry, bytes: Bytes)
    ensures Opened(crc, legacy, entry, bytes).entry == entry
  {
    hide Scan;
  }

  lemma RestartInv(crc: Crc, legacy: Legacy, t: Db, w: Spec, n: nat, k: nat)
    requires Matches(crc, legacy, t, w) && t.synced <= n <= |t.bytes| && k == WholeFrames(crc, w.log, n)
    requires t.synced <= |Log(crc, w.log[..k])|
    ensures Inv(crc, legacy, Opened(crc, legacy, w.entry, t.bytes[..n]).(synced := t.synced), w.log[..k], k)
  {
    LogOf(crc, legacy, t, w);
    hide Admissible, Log, Frame, ApplyBatches, AfterAll, Scan, WholeFrames, Matches;
    var q := Start(legacy.sequence);
    assert (t.bytes + [])[..n] == t.bytes[..n];
    TruncatedLog(crc, q, w.log, [], n);
    OpenedClean(crc, legacy, w.entry, t.bytes[..n]);
    assert w.log[..k][..k] == w.log[..k];
  }

  /** Frames behind the synced bytes can go without changing how many frames are in them. */
  lemma WholeFramesPart(crc: Crc, log: seq<Batch>, k: nat, n: nat)
    requires k <= |log| && n <= |Log(crc, log[..k])|
    ensures WholeFrames(crc, log[..k], n) == WholeFrames(crc, log, n)
    decreases |log|
  {
    hide Log, Frame, WholeFrames;
    if k < |log| {
      var m := |log| - 1;
      assert log == log[..m] + [log[m]] && log[..m][..k] == log[..k];
      LogShorter(crc, log, k, m);
      WholeFramesAppend(crc, log[..m], log[m], n);
      WholeFramesPart(crc, log[..m], k, n);
    } else {
      assert log[..k] == log;
    }
  }

  /** The databases of a run, one per event. */
  ghost function Run(crc: Crc, legacy: Legacy, db: Db, events: seq<Event>): (r: seq<Db>)
    ensures |r| == |events| + 1 && r[0] == db
    decreases |events|
  {
    if events == [] then [db] else [db] + Run(crc, legacy, Next(crc, legacy, db, events[0]), events[1..])
  }

  /** The specs follow the events, and each stands for the database of the run at the same point. */
  ghost predicate Refines(crc: Crc, legacy: Legacy, dbs: seq<Db>, events: seq<Event>, specs: seq<Spec>) {
    && |dbs| == |specs| == |events| + 1
    && (forall i :: 0 <= i < |specs| ==> Matches(crc, legacy, dbs[i], specs[i]))
    && (forall i :: 0 <= i < |events| ==> Steps(legacy, specs[i], events[i], specs[i + 1]))
  }

  /** Every run of writes, clears, syncs and crashes refines the simple form, from any consistent database. */
  lemma {:induction false} RunRefines(crc: Crc, legacy: Legacy, db: Db, s: Spec, events: seq<Event>)
    returns (specs: seq<Spec>)
    requires Matches(crc, legacy, db, s)
    ensures Refines(crc, legacy, Run(crc, legacy, db, events), events, specs) && specs[0] == s
    decreases |events|
  {
    hide Matches, Steps, Next;
    if events == [] {
      specs := [s];
    } else {
      var db' := Next(crc, legacy, db, events[0]);
      var s' := NextRefines(crc, legacy, db, s, events[0]);
      var rest := RunRefines(crc, legacy, db', s', events[1..]);
      specs := [s] + rest;
      var dbs := Run(crc, legacy, db, events);
      forall i | 0 <= i < |events| ensures Steps(legacy, specs[i], events[i], specs[i + 1]) {
        if i > 0 { assert Steps(legacy, rest[i - 1], events[1..][i - 1], rest[i]); }
      }
      forall i | 0 <= i < |specs| ensures Matches(crc, legacy, dbs[i], specs[i]) {
        if i > 0 { assert Matches(crc, legacy, Run(crc, legacy, db', events[1..])[i - 1], rest[i - 1]); }
      }
    }
  }

  // ------------------------------------------------------------------ what is durable

  /** After the crash every batch that counted as durable before is there, at its place. */
  ghost predicate Recovers(crc: Crc, legacy: Legacy, db: Db, log: seq<Batch>, d: nat, cut: nat, keep: bool) {
    exists k :: d <= k <= |log| && Inv(crc, legacy, Crashed(crc, legacy, db, cut, keep), log[..k], k)
  }

  /**
   * What counts as durable survives every crash exactly when it is synced, and the entry of the file is on disk or
   * nothing counts as durable beyond the legacy state. No call ever syncs the entry of a file that was created here.
   */
  lemma DurableSurvives(crc: Crc, legacy: Legacy, db: Db, log: seq<Batch>, d: nat)
    requires Inv(crc, legacy, db, log, d) && d <= |log| && legacy.sequence + |log| <= U64_MAX
    ensures (forall cut: nat, keep: bool :: Recovers(crc, legacy, db, log, d, cut, keep))
      <==> Backed(crc, db, log, d) && (db.entry == OnDisk || db.durable == legacy.sequence)
  {
    hide Inv, Crashed, Backed, WholeFrames;
    DurableCount(crc, legacy, db, log, d);
    BackedIff(crc, db, log, d);
    var proof := Backed(crc, db, log, d);
    forall cut: nat, keep: bool
      ensures proof && (Stays(db.entry, keep) || d == 0) ==> Recovers(crc, legacy, db, log, d, cut, keep)
    {
      if Stays(db.entry, keep) {
        CrashKeeps(crc, legacy, db, log, d, cut, keep);
      } else if d == 0 {
        CrashLosesEntry(crc, legacy, db, cut, keep);
        assert log[..0] == [];
      }
    }
    if db.entry != OnDisk && d > 0 {
      LostFile(crc, legacy, db, log, d);
      assert !Recovers(crc, legacy, db, log, d, 0, false);
    } else if !proof {
      LostTail(crc, legacy, db, log, d);
      assert !Recovers(crc, legacy, db, log, d, 0, true);
    }
  }

  /** A crash that cuts the file at its synced length loses what counted as durable without being synced. */
  lemma LostTail(crc: Crc, legacy: Legacy, db: Db, log: seq<Batch>, d: nat)
    requires Inv(crc, legacy, db, log, d) && d <= |log| && db.entry == OnDisk && d > Surviving(crc, log, db.synced)
    ensures forall k :: d <= k <= |log| ==> !Inv(crc, legacy, Crashed(crc, legacy, db, 0, true), log[..k], k)
  {
    hide WholeFrames;
    CrashKeeps(crc, legacy, db, log, d, 0, true);
    hide Crashed;
    var j := Surviving(crc, log, db.synced);
    forall k | d <= k <= |log| ensures !Inv(crc, legacy, Crashed(crc, legacy, db, 0, true), log[..k], k) {
      LogShorter(crc, log, j, k);
    }
  }

  /** Nothing is durable exactly when the durable watermark is the legacy sequence; no file means nothing logged. */
  lemma DurableCount(crc: Crc, legacy: Legacy, db: Db, log: seq<Batch>, d: nat)
    requires Inv(crc, legacy, db, log, d) && d <= |log| && legacy.sequence + |log| <= U64_MAX
    ensures db.durable == legacy.sequence <==> d == 0
  {
    var q := Start(legacy.sequence);
    AdmissibleTake(q, log, d);
    hide Admissible, AfterAll, Log, ApplyBatches;
    CommittedBatches(legacy.sequence, log[..d]);
    if d > 0 { FirstSequence(legacy.sequence, log[..d]); }
    AcceptNothing(q);
  }

  lemma AcceptNothing(x: Expect)
    ensures AfterAll(x, []) == x
  {
  }

  /** The first accepted batch carries the next number, so a repeat alone does not fill a log. */
  lemma FirstSequence(q: u64, log: seq<Batch>)
    requires Admissible(Start(q), log) && log != []
    ensures |log| == 1 ==> !AfterAll(Start(q), log).duplicateUsed
  {
    assert |log| == 1 ==> log[1..] == [];
  }

  lemma LostFile(crc: Crc, legacy: Legacy, db: Db, log: seq<Batch>, d: nat)
    requires db.entry != OnDisk && 0 < d <= |log|
    ensures forall k :: d <= k <= |log| ==> !Inv(crc, legacy, Crashed(crc, legacy, db, 0, false), log[..k], k)
  {
    hide Scan;
    EmptyScan(crc, legacy);
    forall k | d <= k <= |log| ensures !Inv(crc, legacy, Crashed(crc, legacy, db, 0, false), log[..k], k) {
      EmptyLog(crc, log[..k]);
    }
  }

  ghost predicate NoCrash(events: seq<Event>) {
    forall i :: 0 <= i < |events| ==> !events[i].Crash? && !events[i].CrashInWrite?
  }

  lemma EntryStays(crc: Crc, legacy: Legacy, db: Db, e: Event)
    requires !e.Crash? && !e.CrashInWrite?
    ensures Next(crc, legacy, db, e).entry == OnDisk <==> db.entry == OnDisk
  {
    hide Encodable, Deletes, Listing, Frame, Scan;
  }

  /**
   * The entry of the log is on disk at the end of a run without a crash, whatever reopenings it holds, exactly when
   * it was at its beginning.
   */
  lemma {:induction false} EntryOverRun(crc: Crc, legacy: Legacy, db: Db, events: seq<Event>)
    requires NoCrash(events)
    ensures Run(crc, legacy, db, events)[|events|].entry == OnDisk <==> db.entry == OnDisk
    decreases |events|
  {
    hide Next;
    if events != [] {
      EntryStays(crc, legacy, db, events[0]);
      EntryOverRun(crc, legacy, Next(crc, legacy, db, events[0]), events[1..]);
    }
  }

  /**
   * After any run without a crash, with any number of reopenings: what counts as durable survives every crash exactly
   * when it is synced, and the entry of the log was on disk at the beginning or nothing counts as durable beyond the
   * legacy state. After a crash the file that is found has its entry on disk; one that was created since has not,
   * and no reopening changes that.
   */
  lemma DurableOverRuns(crc: Crc, legacy: Legacy, db: Db, s: Spec, events: seq<Event>) returns (t: Spec)
    requires Matches(crc, legacy, db, s) && NoCrash(events)
    ensures Matches(crc, legacy, Run(crc, legacy, db, events)[|events|], t) && t.durable <= |t.log|
    ensures legacy.sequence + |t.log| <= U64_MAX ==>
      var last := Run(crc, legacy, db, events)[|events|];
      (forall cut: nat, keep: bool :: Recovers(crc, legacy, last, t.log, t.durable, cut, keep))
        <==> t.durable <= t.synced && (db.entry == OnDisk || last.durable == legacy.sequence)
    ensures Reopens(Run(crc, legacy, db, events), events) && s.durable <= s.synced ==> t.durable <= t.synced
  {
    hide Inv, Recovers, Run, Steps, Matches, WholeFrames, Backed;
    var dbs := Run(crc, legacy, db, events);
    var specs := RunRefines(crc, legacy, db, s, events);
    t := specs[|events|];
    var last := dbs[|events|];
    EntryOverRun(crc, legacy, db, events);
    MatchesInv(crc, legacy, last, t);
    BackedIff(crc, last, t.log, t.durable);
    if legacy.sequence + |t.log| <= U64_MAX { DurableSurvives(crc, legacy, last, t.log, t.durable); }
    if Reopens(dbs, events) && s.durable <= s.synced { ReopensBack(crc, legacy, dbs, events, specs, |events|); }
  }

  lemma MatchesInv(crc: Crc, legacy: Legacy, db: Db, s: Spec)
    requires Matches(crc, legacy, db, s)
    ensures Inv(crc, legacy, db, s.log, s.durable) && s.durable <= |s.log| && db.entry == s.entry
    ensures s.synced == Surviving(crc, s.log, db.synced) && (db.last == db.durable <==> s.durable == |s.log|)
  {
    hide Admissible, Log, ApplyBatches, AfterAll, WholeFrames;
    assert s.log[..|s.log|] == s.log;
  }

  /** Every process ends between calls, and with nothing written but what was synced. */
  ghost predicate Reopens(dbs: seq<Db>, events: seq<Event>)
    requires |dbs| == |events| + 1
  {
    forall i :: 0 <= i < |events| ==> !events[i].Killed? && (events[i].Reopened? ==> dbs[i].last == dbs[i].durable)
  }

  /** With such reopenings only, what counts as durable is always synced. */
  lemma {:induction false} ReopensBack(crc: Crc, legacy: Legacy, dbs: seq<Db>, events: seq<Event>,
                                       specs: seq<Spec>, n: nat)
    requires Refines(crc, legacy, dbs, events, specs) && Reopens(dbs, events) && NoCrash(events) && n <= |events|
    requires specs[0].durable <= specs[0].synced
    ensures specs[n].durable <= specs[n].synced
    decreases n
  {
    hide Matches, Steps;
    if n > 0 {
      ReopensBack(crc, legacy, dbs, events, specs, n - 1);
      MatchesInv(crc, legacy, dbs[n - 1], specs[n - 1]);
      MatchesInv(crc, legacy, dbs[n], specs[n]);
      StepBack(legacy, specs[n - 1], events[n - 1], specs[n]);
    }
  }

  lemma StepBack(legacy: Legacy, s: Spec, e: Event, s': Spec)
    requires Steps(legacy, s, e, s') && !e.Crash? && !e.CrashInWrite? && !e.Killed?
    requires s.durable <= s.synced && s.durable <= |s.log| && (e.Reopened? ==> s.durable == |s.log|)
    ensures s'.durable <= s'.synced
  {
    hide Encodable, AfterAll, ApplyBatches, Deletes, Listing;
  }

  lemma DurableBelow(crc: Crc, legacy: Legacy, db: Db, log: seq<Batch>, d: nat)
    requires Inv(crc, legacy, db, log, d)
    ensures d <= |log|
  {
  }

  /** Once the entry is on disk, what is synced stays through any run, with any number of crashes and reopenings. */
  lemma {:induction false} SyncedForever(crc: Crc, legacy: Legacy, db: Db, s: Spec, events: seq<Event>)
    returns (t: Spec)
    requires Matches(crc, legacy, db, s) && s.entry == OnDisk
    ensures Matches(crc, legacy, Run(crc, legacy, db, events)[|events|], t)
    ensures t.entry == OnDisk && s.synced <= |s.log| && s.synced <= t.synced <= |t.log|
    ensures t.log[..s.synced] == s.log[..s.synced]
    decreases |events|
  {
    hide Inv, Next, Steps, Matches, WholeFrames;
    t := s;
    MatchesInv(crc, legacy, db, s);
    if events != [] {
      var s' := NextRefines(crc, legacy, db, s, events[0]);
      MatchesInv(crc, legacy, Next(crc, legacy, db, events[0]), s');
      StepKeepsSynced(legacy, s, events[0], s');
      t := SyncedForever(crc, legacy, Next(crc, legacy, db, events[0]), s', events[1..]);
      assert t.log[..s.synced] == t.log[..s'.synced][..s.synced];
      assert s'.log[..s.synced] == s'.log[..s'.synced][..s.synced];
    }
  }

  lemma StepKeepsSynced(legacy: Legacy, s: Spec, e: Event, s': Spec)
    requires Steps(legacy, s, e, s') && s.entry == OnDisk && s.durable <= |s.log| && s.synced <= |s.log|
    ensures s'.entry == OnDisk && s.synced <= s'.synced && s.synced <= |s'.log|
    ensures s'.log[..s.synced] == s.log[..s.synced]
  {
    hide Encodable, AfterAll, ApplyBatches, Deletes, Listing;
  }

  /**
   * A batch acknowledged as durable that a crash loses: the database created the file itself, and although the
   * file was synced its directory was not, so the reopening finds no log.
   */
  lemma NewLogLost(crc: Crc, legacy: Legacy, ops: seq<Operation>, cut: nat)
    requires Encodable(ops) && legacy.sequence != U64_MAX
    ensures var db := Written(crc, Opened(crc, legacy, Absent, []), ops, true);
      && db.durable == legacy.sequence + 1 && db.synced == |db.bytes|
      && Crashed(crc, legacy, db, cut, false).last == legacy.sequence
  {
    hide Encodable, Frame, Scan;
    EmptyScan(crc, legacy);
    CrashLosesEntry(crc, legacy, Written(crc, Opened(crc, legacy, Absent, []), ops, true), cut, false);
  }

  /**
   * The same with a file that was found when the database was opened: it was created, synced and closed before, and
   * reopening it, which changes nothing, does not sync its entry either. Both acknowledged batches are lost.
   */
  lemma FoundLogLost(crc: Crc, legacy: Legacy, first: seq<Operation>, second: seq<Operation>, cut: nat)
    requires Encodable(first) && Encodable(second) && legacy.sequence + 1 < U64_MAX
    ensures var one := Written(crc, Opened(crc, legacy, Absent, []), first, true);
      var two := Written(crc, Next(crc, legacy, one, Reopened), second, true);
      && Next(crc, legacy, one, Reopened) == one
      && two.durable == legacy.sequence + 2 && two.synced == |two.bytes|
      && Crashed(crc, legacy, two, cut, false).last == legacy.sequence
  {
    hide Encodable, Frame, Scan, Log, Admissible;
    var q, b := Start(legacy.sequence), Batch(legacy.sequence + 1, first);
    EmptyScan(crc, legacy);
    AdmissibleSingle(q, b);
    LogSingle(crc, b);
    RoundTrip(crc, q, [b]);
    var one := Written(crc, Opened(crc, legacy, Absent, []), first, true);
    var f := Frame(crc, b);
    assert [] + f == f && f[..|f|] == f;
    AppliesOne(legacy, b);
    NotEncodable();
    assert Restarted(crc, legacy, one, [], 0) == one;
    CrashLosesEntry(crc, legacy, Written(crc, one, second, true), cut, false);
  }

  lemma AppliesOne(legacy: Legacy, b: Batch)
    ensures ApplyBatches(legacy.values, [b]) == Apply(legacy.values, b.ops)
  {
    AcceptOne(Start(legacy.sequence), legacy.values, [], b);
    assert [] + [b] == [b];
  }

  lemma NotEncodable()
    ensures !Encodable([])
  {
  }

  /** Without wrap-around the durable watermark never passes the last sequence. */
  lemma Watermarks(crc: Crc, legacy: Legacy, db: Db, log: seq<Batch>, d: nat)
    requires Inv(crc, legacy, db, log, d) && legacy.sequence + |log| <= U64_MAX
    ensures legacy.sequence <= db.durable <= db.last
  {
    var q := Start(legacy.sequence);
    AdmissibleTake(q, log, d);
    hide Admissible, AfterAll, Log, ApplyBatches;
    CommittedBatches(legacy.sequence, log);
    CommittedBatches(legacy.sequence, log[..d]);
    RepeatsPersist(q, log, d);
    assert log[..|log|] == log;
  }

  /** A repeat consumed by a prefix stays consumed. */
  lemma RepeatsPersist(x: Expect, log: seq<Batch>, d: nat)
    requires d <= |log|
    ensures AfterAll(x, log[..d]).duplicateUsed ==> AfterAll(x, log).duplicateUsed
  {
    assert log == log[..d] + log[d..];
    AdmissibleConcat(x, log[..d], log[d..]);
    DuplicateStays(AfterAll(x, log[..d]), log[d..]);
  }

  lemma {:induction false} DuplicateStays(x: Expect, log: seq<Batch>)
    ensures x.duplicateUsed ==> AfterAll(x, log).duplicateUsed
    decreases |log|
  {
    if log != [] { DuplicateStays(x.After(log[0].sequence), log[1..]); }
  }
}
