/**
 * The per-volume classification loop. The volume's snapshots are walked
 * oldest first while `prev_start_date`, the key of the last bucket a
 * snapshot was kept for, is carried along. A snapshot within the hourly
 * window is kept; otherwise it is kept when its bucket key differs from
 * `prev_start_date` (and becomes the bucket's representative), kept when it
 * is the volume's newest snapshot, and deleted otherwise.
 *
 * `Walk` is the specification of the loop; `PurgeVolume` is the loop.
 */
module Retention {
  import opened Wrappers
  import opened Rules
  import opened Grouping

  /** What the loop does with one snapshot. */
  datatype Verdict =
    | KeepWithinHours
    | KeepRepresentative(key: Key)
    | KeepNewest
    | Delete(id: SnapshotId)

  /** The loop's state after a prefix of the volume: the verdicts so far and `prev_start_date`. */
  datatype Pass = Pass(verdicts: seq<Verdict>, prevStart: Option<Key>)

  /** The verdict on `snap` given `prev_start_date` and the id of the volume's newest snapshot. */
  function Decide(p: Policy, clock: Clock, newestId: SnapshotId, prevStart: Option<Key>, snap: Snapshot): Verdict
  {
    match BucketOf(p, clock, snap.startTime)
    case None => KeepWithinHours
    case Some(key) =>
      if Some(key) != prevStart then KeepRepresentative(key)
      else if snap.id == newestId then KeepNewest
      else Delete(snap.id)
  }

  /** `prev_start_date` after a verdict: only a new representative moves it. */
  function NextPrevStart(prevStart: Option<Key>, v: Verdict): Option<Key>
  {
    if v.KeepRepresentative? then Some(v.key) else prevStart
  }

  /** The loop over `snaps`, oldest first, starting with no `prev_start_date`. */
  function Walk(p: Policy, clock: Clock, newestId: SnapshotId, snaps: seq<Snapshot>): (pass: Pass)
    ensures |pass.verdicts| == |snaps|
  {
    if snaps == [] then Pass([], None)
    else
      var before := Walk(p, clock, newestId, snaps[..|snaps| - 1]);
      var v := Decide(p, clock, newestId, before.prevStart, snaps[|snaps| - 1]);
      Pass(before.verdicts + [v], NextPrevStart(before.prevStart, v))
  }

  /** The id of `vol_snaps.last`, the snapshot the newest guard protects. */
  function NewestId(snaps: seq<Snapshot>): SnapshotId
  {
    if snaps == [] then "" else snaps[|snaps| - 1].id
  }

  /** The verdicts on a volume's snapshots, sorted oldest first. */
  function Verdicts(p: Policy, clock: Clock, snaps: seq<Snapshot>): (vs: seq<Verdict>)
    ensures |vs| == |snaps|
  {
    Walk(p, clock, NewestId(snaps), snaps).verdicts
  }

  /** `prev_start_date` when the loop reaches `snaps[i]`. */
  function PrevStartBefore(p: Policy, clock: Clock, snaps: seq<Snapshot>, i: nat): Option<Key>
    requires i <= |snaps|
  {
    Walk(p, clock, NewestId(snaps), snaps[..i]).prevStart
  }

  /** Walking a prefix gives a prefix of the verdicts. */
  lemma {:induction false} WalkPrefixVerdicts(p: Policy, clock: Clock, newestId: SnapshotId, snaps: seq<Snapshot>, i: nat)
    requires i <= |snaps|
    ensures Walk(p, clock, newestId, snaps[..i]).verdicts == Walk(p, clock, newestId, snaps).verdicts[..i]
    decreases |snaps|
  {
    if i == |snaps| {
      assert snaps[..i] == snaps;
    } else {
      var init := snaps[..|snaps| - 1];
      WalkPrefixVerdicts(p, clock, newestId, init, i);
      assert init[..i] == snaps[..i];
    }
  }

  /** Each verdict is decided from the state the loop had before it, and moves `prev_start_date` as `NextPrevStart` says. */
  lemma WalkPrefix(p: Policy, clock: Clock, newestId: SnapshotId, snaps: seq<Snapshot>, i: nat)
    requires i < |snaps|
    ensures Walk(p, clock, newestId, snaps[..i]).verdicts == Walk(p, clock, newestId, snaps).verdicts[..i]
    ensures Walk(p, clock, newestId, snaps).verdicts[i]
            == Decide(p, clock, newestId, Walk(p, clock, newestId, snaps[..i]).prevStart, snaps[i])
    ensures Walk(p, clock, newestId, snaps[..i + 1]).prevStart
            == NextPrevStart(Walk(p, clock, newestId, snaps[..i]).prevStart, Walk(p, clock, newestId, snaps).verdicts[i])
  {
    var upTo := snaps[..i + 1];
    WalkPrefixVerdicts(p, clock, newestId, snaps, i);
    WalkPrefixVerdicts(p, clock, newestId, snaps, i + 1);
    assert upTo[..i] == snaps[..i] && upTo[i] == snaps[i];
    assert Walk(p, clock, newestId, upTo).verdicts[i] == Walk(p, clock, newestId, snaps).verdicts[i];
  }

  /**
   * The rule applied to each snapshot: within the hourly window it is kept
   * and `prev_start_date` stays; past it, it is kept as a representative
   * exactly when its bucket key differs from `prev_start_date`, which then
   * becomes that key; otherwise it is kept only if it is the newest
   * snapshot, and deleted if not.
   */
  lemma ClassificationStep(p: Policy, clock: Clock, snaps: seq<Snapshot>, i: nat)
    requires i < |snaps|
    ensures var v := Verdicts(p, clock, snaps)[i];
            var bucket := BucketOf(p, clock, snaps[i].startTime);
            var prev := PrevStartBefore(p, clock, snaps, i);
            && (v == KeepWithinHours <==> AgeHours(clock.now, snaps[i].startTime) <= p.hours)
            && (v.KeepRepresentative? <==> bucket.Some? && bucket != prev)
            && (v.KeepRepresentative? ==> bucket == Some(v.key))
            && (v.KeepNewest? <==> bucket.Some? && bucket == prev && snaps[i].id == NewestId(snaps))
            && (v.Delete? <==> bucket.Some? && bucket == prev && snaps[i].id != NewestId(snaps))
            && (v.Delete? ==> v.id == snaps[i].id)
            && PrevStartBefore(p, clock, snaps, i + 1) == (if v.KeepRepresentative? then bucket else prev)
  {
    WalkPrefix(p, clock, NewestId(snaps), snaps, i);
  }

  /** The newest snapshot of a volume (and anything sharing its id) is never deleted, whatever the rules. */
  lemma NewestNeverDeleted(p: Policy, clock: Clock, snaps: seq<Snapshot>)
    requires snaps != []
    ensures !Verdicts(p, clock, snaps)[|snaps| - 1].Delete?
    ensures forall i :: 0 <= i < |snaps| && snaps[i].id == NewestId(snaps) ==> !Verdicts(p, clock, snaps)[i].Delete?
  {
    forall i | 0 <= i < |snaps|
      ensures snaps[i].id == NewestId(snaps) ==> !Verdicts(p, clock, snaps)[i].Delete?
    {
      ClassificationStep(p, clock, snaps, i);
    }
  }

  /** Only snapshots other than the newest are deleted, each under its own id. */
  lemma DeletesSpareNewest(p: Policy, clock: Clock, snaps: seq<Snapshot>)
    ensures forall i :: 0 <= i < |snaps| && Verdicts(p, clock, snaps)[i].Delete? ==>
              Verdicts(p, clock, snaps)[i].id == snaps[i].id != NewestId(snaps)
  {
    forall i | 0 <= i < |snaps| && Verdicts(p, clock, snaps)[i].Delete?
      ensures Verdicts(p, clock, snaps)[i].id == snaps[i].id != NewestId(snaps)
    {
      ClassificationStep(p, clock, snaps, i);
    }
  }

  /** Position of the latest representative among `vs`, or -1 if there is none. */
  function LatestRepresentative(vs: seq<Verdict>): (j: int)
    ensures -1 <= j < |vs|
    ensures 0 <= j ==> vs[j].KeepRepresentative?
    ensures forall m :: j < m < |vs| ==> !vs[m].KeepRepresentative?
  {
    if vs == [] then -1
    else if vs[|vs| - 1].KeepRepresentative? then |vs| - 1
    else
      var j := LatestRepresentative(vs[..|vs| - 1]);
      assert forall m :: j < m < |vs| - 1 ==> vs[..|vs| - 1][m] == vs[m];
      j
  }

  lemma {:induction false} PrevStartTracksRepresentatives(p: Policy, clock: Clock, snaps: seq<Snapshot>, i: nat)
    requires i <= |snaps|
    ensures var vs, j := Verdicts(p, clock, snaps), LatestRepresentative(Verdicts(p, clock, snaps)[..i]);
            PrevStartBefore(p, clock, snaps, i) == if j < 0 then None else Some(vs[j].key)
  {
    if i == 0 {
      assert snaps[..0] == [];
    } else {
      var vs := Verdicts(p, clock, snaps);
      PrevStartTracksRepresentatives(p, clock, snaps, i - 1);
      ClassificationStep(p, clock, snaps, i - 1);
      assert vs[..i][..i - 1] == vs[..i - 1];
    }
  }

  /**
   * `prev_start_date` is the key of the latest representative so far, or
   * nil when no snapshot has been kept as a representative yet.
   */
  lemma PrevStartIsLatestRepresentative(p: Policy, clock: Clock, snaps: seq<Snapshot>, i: nat)
    requires i <= |snaps|
    ensures var vs, prev := Verdicts(p, clock, snaps), PrevStartBefore(p, clock, snaps, i);
            && (prev.None? ==> forall m :: 0 <= m < i ==> !vs[m].KeepRepresentative?)
            && (prev.Some? ==> exists j :: 0 <= j < i && vs[j] == KeepRepresentative(prev.value)
                                 && forall m :: j < m < i ==> !vs[m].KeepRepresentative?)
  {
    var vs := Verdicts(p, clock, snaps);
    PrevStartTracksRepresentatives(p, clock, snaps, i);
    var j := LatestRepresentative(vs[..i]);
    assert forall m :: 0 <= m < i ==> vs[..i][m] == vs[m];
    if 0 <= j {
      assert vs[j] == KeepRepresentative(vs[j].key);
    }
  }

  /**
   * No bucket goes unrepresented: every snapshot past the hourly window
   * has an equal-or-older snapshot kept as the representative of its
   * bucket. In particular one snapshot per month key is kept however old.
   */
  lemma EveryBucketRepresented(p: Policy, clock: Clock, snaps: seq<Snapshot>, i: nat)
    requires i < |snaps|
    requires BucketOf(p, clock, snaps[i].startTime).Some?
    ensures exists j :: 0 <= j <= i &&
              Verdicts(p, clock, snaps)[j] == KeepRepresentative(BucketOf(p, clock, snaps[i].startTime).value)
  {
    ClassificationStep(p, clock, snaps, i);
    PrevStartIsLatestRepresentative(p, clock, snaps, i);
  }

  /**
   * On a volume sorted oldest first, no two snapshots are kept as
   * representatives of the same bucket, whatever the rules and the clock.
   */
  lemma OneRepresentativePerBucket(p: Policy, clock: Clock, snaps: seq<Snapshot>)
    requires SortedByStart(snaps)
    ensures var vs := Verdicts(p, clock, snaps);
            forall i, k :: 0 <= i < k < |snaps| && vs[i].KeepRepresentative? && vs[k].KeepRepresentative?
              ==> vs[i].key != vs[k].key
  {
    var vs := Verdicts(p, clock, snaps);
    forall i, k | 0 <= i < k < |snaps| && vs[i].KeepRepresentative? && vs[k].KeepRepresentative?
      ensures vs[i].key != vs[k].key
    {
      if vs[i].key == vs[k].key {
        ClassificationStep(p, clock, snaps, i);
        ClassificationStep(p, clock, snaps, k);
        PrevStartIsLatestRepresentative(p, clock, snaps, k);
        var prev := PrevStartBefore(p, clock, snaps, k);
        var j :| 0 <= j < k && vs[j] == KeepRepresentative(prev.value)
                 && forall m :: j < m < k ==> !vs[m].KeepRepresentative?;
        assert i <= j;
        assert i != j;
        ClassificationStep(p, clock, snaps, j);
        BucketsContiguous(p, clock, snaps[i].startTime, snaps[j].startTime, snaps[k].startTime);
        assert false;
      }
    }
  }

  lemma {:induction false} WalkIgnoresMonths(p: Policy, months: int, clock: Clock, newestId: SnapshotId, snaps: seq<Snapshot>)
    ensures Walk(p, clock, newestId, snaps) == Walk(p.(months := months), clock, newestId, snaps)
    decreases |snaps|
  {
    if snaps != [] {
      WalkIgnoresMonths(p, months, clock, newestId, snaps[..|snaps| - 1]);
    }
  }

  /** The `--months` rule is read but never consulted: it changes no verdict. */
  lemma MonthsNeverMatter(p: Policy, months: int, clock: Clock, snaps: seq<Snapshot>)
    ensures Verdicts(p, clock, snaps) == Verdicts(p.(months := months), clock, snaps)
  {
    WalkIgnoresMonths(p, months, clock, NewestId(snaps), snaps);
  }

  // ---------------------------------------------------------------------
  // Tallies and delete calls

  /** A deletion counted in `delete_count`: in noop mode, or when the delete call does not raise. */
  predicate Deleted(v: Verdict, noop: bool, failing: set<SnapshotId>)
  {
    v.Delete? && (noop || v.id !in failing)
  }

  /** A deletion whose delete call raised: counted nowhere. */
  predicate DeleteFailed(v: Verdict, noop: bool, failing: set<SnapshotId>)
  {
    v.Delete? && !noop && v.id in failing
  }

  /** `keep_count`: the snapshots kept, for whichever reason. */
  function KeptCount(vs: seq<Verdict>): (n: nat)
    ensures n <= |vs|
    ensures n == |vs| <==> forall i :: 0 <= i < |vs| ==> !vs[i].Delete?
    ensures vs != [] && !vs[|vs| - 1].Delete? ==> 1 <= n
  {
    if vs == [] then 0
    else KeptCount(vs[..|vs| - 1]) + (if vs[|vs| - 1].Delete? then 0 else 1)
  }

  /** `delete_count`. */
  function DeletedCount(vs: seq<Verdict>, noop: bool, failing: set<SnapshotId>): (n: nat)
    ensures n <= |vs|
  {
    if vs == [] then 0
    else DeletedCount(vs[..|vs| - 1], noop, failing) + (if Deleted(vs[|vs| - 1], noop, failing) then 1 else 0)
  }

  /** Deletions whose call raised. */
  function FailedCount(vs: seq<Verdict>, noop: bool, failing: set<SnapshotId>): (n: nat)
    ensures noop ==> n == 0
    ensures (forall i :: 0 <= i < |vs| && vs[i].Delete? ==> vs[i].id !in failing) ==> n == 0
  {
    if vs == [] then 0
    else FailedCount(vs[..|vs| - 1], noop, failing) + (if DeleteFailed(vs[|vs| - 1], noop, failing) then 1 else 0)
  }

  /** The ids passed to `delete_snapshot`, in order: every deletion, except in noop mode. */
  function DeleteCalls(vs: seq<Verdict>, noop: bool): (ids: seq<SnapshotId>)
    ensures noop ==> ids == []
    ensures forall id :: id in ids ==> Delete(id) in vs
  {
    if vs == [] then []
    else
      var last := vs[|vs| - 1];
      DeleteCalls(vs[..|vs| - 1], noop) + (if last.Delete? && !noop then [last.id] else [])
  }

  /**
   * Every verdict adds one to exactly one of `keep_count`, `delete_count`
   * and the failed deletions; so without failures (and always in noop mode)
   * the two tallies add up to the number of snapshots.
   */
  lemma {:induction false} TallyAddsUp(vs: seq<Verdict>, noop: bool, failing: set<SnapshotId>)
    ensures KeptCount(vs) + DeletedCount(vs, noop, failing) + FailedCount(vs, noop, failing) == |vs|
    ensures noop ==> KeptCount(vs) + DeletedCount(vs, noop, failing) == |vs|
  {
    if vs != [] {
      TallyAddsUp(vs[..|vs| - 1], noop, failing);
    }
  }

  /**
   * Outside noop mode every deletion the loop decides is issued: each
   * `Delete` verdict's id is called, there is one call per deletion (each
   * either counted in `delete_count` or raising), and the calls come in the
   * order of the verdicts, the calls for a prefix being a prefix of them.
   */
  lemma {:induction false} DeleteCallsComplete(vs: seq<Verdict>, noop: bool, failing: set<SnapshotId>)
    ensures !noop ==> forall i :: 0 <= i < |vs| && vs[i].Delete? ==> vs[i].id in DeleteCalls(vs, noop)
    ensures !noop ==> |DeleteCalls(vs, noop)| == DeletedCount(vs, noop, failing) + FailedCount(vs, noop, failing)
    ensures forall n :: 0 <= n <= |vs| ==> DeleteCalls(vs[..n], noop) <= DeleteCalls(vs, noop)
  {
    if vs != [] {
      var init := vs[..|vs| - 1];
      DeleteCallsComplete(init, noop, failing);
      forall n | 0 <= n <= |vs| ensures DeleteCalls(vs[..n], noop) <= DeleteCalls(vs, noop) {
        if n < |vs| {
          assert vs[..n] == init[..n];
        } else {
          assert vs[..n] == vs;
        }
      }
      forall i | 0 <= i < |vs| - 1 ensures vs[i] == init[i] {}
    }
  }

  // ---------------------------------------------------------------------
  // The loop

  /**
   * One volume's pass of the script (`vol_snaps.each`): walks `volSnaps`
   * (sorted oldest first) carrying `prev_start_date`, `delete_count` and
   * `keep_count`, and issues the delete calls. A delete call raises for
   * the ids in `failing`; in noop mode no call is made and the deletion is
   * counted all the same.
   */
  method PurgeVolume(p: Policy, clock: Clock, noop: bool, failing: set<SnapshotId>, volSnaps: seq<Snapshot>)
    returns (deleteCount: nat, keepCount: nat, deleteCalls: seq<SnapshotId>)
    ensures keepCount == KeptCount(Verdicts(p, clock, volSnaps))
    ensures deleteCount == DeletedCount(Verdicts(p, clock, volSnaps), noop, failing)
    ensures deleteCalls == DeleteCalls(Verdicts(p, clock, volSnaps), noop)
  {
    var newestId := NewestId(volSnaps);
    var prevStart: Option<Key> := None;
    deleteCount, keepCount, deleteCalls := 0, 0, [];
    for i := 0 to |volSnaps|
      invariant prevStart == Walk(p, clock, newestId, volSnaps[..i]).prevStart
      invariant keepCount == KeptCount(Walk(p, clock, newestId, volSnaps[..i]).verdicts)
      invariant deleteCount == DeletedCount(Walk(p, clock, newestId, volSnaps[..i]).verdicts, noop, failing)
      invariant deleteCalls == DeleteCalls(Walk(p, clock, newestId, volSnaps[..i]).verdicts, noop)
    {
      ghost var before := Walk(p, clock, newestId, volSnaps[..i]).verdicts;
      assert volSnaps[..i + 1][..i] == volSnaps[..i];
      ghost var after := Walk(p, clock, newestId, volSnaps[..i + 1]).verdicts;
      assert after[..i] == before;
      var snap := volSnaps[i];
      var age := AgeHours(clock.now, snap.startTime);
      if age > p.hours {
        var key := BucketKey(TierOf(p, age), snap.startTime, clock.utcOffset);
        if Some(key) != prevStart {
          prevStart := Some(key);
          keepCount := keepCount + 1;
        } else if snap.id == newestId {
          keepCount := keepCount + 1;
        } else {
          if !noop {
            deleteCalls := deleteCalls + [snap.id];
          }
          if noop || snap.id !in failing {
            deleteCount := deleteCount + 1;
          }
        }
      } else {
        keepCount := keepCount + 1;
      }
    }
    assert volSnaps[..|volSnaps|] == volSnaps;
  }
}
