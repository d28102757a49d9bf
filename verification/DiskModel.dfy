/** A directory of segment files as a crash may leave it: synced names, unsynced changes, files with a synced length. */
module DiskModel {
  import opened Bytes
  import opened Options

  /** A segment file that holds what was logged under the numbers base + 1 to end. */
  datatype Seg = Seg(id: u64, base: nat, end: nat)

  /** A file; its first synced bytes survive a crash. */
  datatype File = File(bytes: Bytes, synced: nat)

  /** A directory: the snapshot, if there is one, and the segment ids in name order. */
  datatype Names = Names(snapshot: Option<Bytes>, wals: seq<u64>)

  datatype Change = SetSnapshot(bytes: Bytes) | AddWal(id: u64) | RemoveWal(id: u64)

  /** The directory as last synced, the changes since, and the contents of the segment files. */
  datatype Disk = Disk(names: Names, pending: seq<Change>, files: map<u64, File>)

  function Without(ids: seq<u64>, id: u64): seq<u64> {
    if ids == [] then []
    else if ids[0] == id then Without(ids[1..], id)
    else [ids[0]] + Without(ids[1..], id)
  }

  function Changed(n: Names, c: Change): Names {
    match c
    case SetSnapshot(b) => n.(snapshot := Some(b))
    case AddWal(id) => n.(wals := n.wals + [id])
    case RemoveWal(id) => n.(wals := Without(n.wals, id))
  }

  /** The directory after those of the changes that are kept. */
  function Kept(n: Names, cs: seq<Change>, keep: nat -> bool): Names {
    if cs == [] then n
    else
      var m := Kept(n, cs[..|cs| - 1], keep);
      if keep(|cs| - 1) then Changed(m, cs[|cs| - 1]) else m
  }

  /** The directory as a running program sees it. */
  function Live(d: Disk): Names {
    Kept(d.names, d.pending, _ => true)
  }

  /** Removals leave the snapshot alone. */
  lemma {:induction false} RemovalsOnly(n: Names, cs: seq<Change>, keep: nat -> bool)
    requires forall i :: 0 <= i < |cs| ==> cs[i].RemoveWal?
    ensures Kept(n, cs, keep).snapshot == n.snapshot
    decreases |cs|
  {
    if cs != [] { RemovalsOnly(n, cs[..|cs| - 1], keep); }
  }

  /** Removing a segment that is there leaves fewer. */
  lemma {:induction false} WithoutShorter(ids: seq<u64>, id: u64)
    ensures |Without(ids, id)| <= |ids| && (id in ids ==> |Without(ids, id)| < |ids|)
    decreases |ids|
  {
    if ids != [] {
      WithoutShorter(ids[1..], id);
      assert id in ids ==> ids[0] == id || id in ids[1..];
    }
  }

  lemma KeptMore(n: Names, cs: seq<Change>, c: Change)
    ensures Kept(n, cs + [c], _ => true) == Changed(Kept(n, cs, _ => true), c)
  {
    hide Changed;
    assert (cs + [c])[..|cs|] == cs;
  }
}
