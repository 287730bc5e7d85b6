/**
 * The whole run over one listing: keep the completed snapshots, pick the
 * volumes, run the per-volume pass on each and record its tallies in
 * `volume_counts`, collecting the delete calls issued along the way.
 */
module Purge {
  import opened Wrappers
  import opened Rules
  import opened Grouping
  import opened Retention

  /** One entry of `volume_counts`: `[delete_count, keep_count]`. */
  datatype Tally = Tally(deleted: nat, kept: nat)

  /** What a run leaves behind: the summary table and the delete calls, in order. */
  datatype Report = Report(volumeCounts: map<VolumeId, Tally>, deleteCalls: seq<SnapshotId>)

  /** The run stops ("No snapshots found") when no completed snapshot is listed. */
  datatype PurgeError = NoSnapshotsFound

  // ---------------------------------------------------------------------
  // One volume

  /** The tallies of one volume's pass. */
  function VolumeTally(p: Policy, clock: Clock, noop: bool, failing: set<SnapshotId>, group: seq<Snapshot>): Tally
  {
    var vs := Verdicts(p, clock, group);
    Tally(DeletedCount(vs, noop, failing), KeptCount(vs))
  }

  /**
   * Every snapshot of a volume is counted at most once; all of them are
   * when no delete call raises (always in noop mode); and a volume with
   * snapshots always keeps at least one.
   */
  lemma VolumeTallyBounds(p: Policy, clock: Clock, noop: bool, failing: set<SnapshotId>, group: seq<Snapshot>)
    ensures var t := VolumeTally(p, clock, noop, failing, group);
            && t.deleted + t.kept <= |group|
            && ((noop || forall s :: s in group ==> s.id !in failing) ==> t.deleted + t.kept == |group|)
            && (group != [] ==> 1 <= t.kept)
  {
    var vs := Verdicts(p, clock, group);
    TallyAddsUp(vs, noop, failing);
    DeletesSpareNewest(p, clock, group);
    if group != [] {
      NewestNeverDeleted(p, clock, group);
    }
  }

  /** A volume's pass deletes only snapshots of that volume other than its newest, by their own ids. */
  lemma DeleteCallsOfVolume(p: Policy, clock: Clock, noop: bool, snaps: seq<Snapshot>, vol: VolumeId)
    ensures var group := VolumeSnapshots(snaps, vol);
            forall id :: id in DeleteCalls(Verdicts(p, clock, group), noop) ==>
              id != NewestId(group) && exists s :: s in snaps && s.volumeId == vol && s.id == id
  {
    var group := VolumeSnapshots(snaps, vol);
    var vs := Verdicts(p, clock, group);
    VolumeSnapshotsSpec(snaps, vol);
    DeletesSpareNewest(p, clock, group);
    forall id | id in DeleteCalls(vs, noop)
      ensures id != NewestId(group) && exists s :: s in snaps && s.volumeId == vol && s.id == id
    {
      var i :| 0 <= i < |vs| && vs[i] == Delete(id);
      assert group[i] in group;
    }
  }

  // ---------------------------------------------------------------------
  // The passes over the volumes

  /** `volume_counts` after the passes over `vols`: the last pass over a volume decides its entry. */
  function VolumeCounts(p: Policy, clock: Clock, noop: bool, failing: set<SnapshotId>,
                        snaps: seq<Snapshot>, vols: seq<VolumeId>): map<VolumeId, Tally>
  {
    if vols == [] then map[]
    else
      var n := |vols| - 1;
      VolumeCounts(p, clock, noop, failing, snaps, vols[..n])[vols[n] := VolumeTally(p, clock, noop, failing, VolumeSnapshots(snaps, vols[n]))]
  }

  /** The delete calls of the passes over `vols`, in order. */
  function AllDeleteCalls(p: Policy, clock: Clock, noop: bool, snaps: seq<Snapshot>, vols: seq<VolumeId>): seq<SnapshotId>
  {
    if vols == [] then []
    else
      var n := |vols| - 1;
      AllDeleteCalls(p, clock, noop, snaps, vols[..n]) + DeleteCalls(Verdicts(p, clock, VolumeSnapshots(snaps, vols[n])), noop)
  }

  lemma PassesStep(p: Policy, clock: Clock, noop: bool, failing: set<SnapshotId>,
                   snaps: seq<Snapshot>, vols: seq<VolumeId>, i: nat)
    requires i < |vols|
    ensures var group := VolumeSnapshots(snaps, vols[i]);
            && VolumeCounts(p, clock, noop, failing, snaps, vols[..i + 1])
               == VolumeCounts(p, clock, noop, failing, snaps, vols[..i])[vols[i] := VolumeTally(p, clock, noop, failing, group)]
            && AllDeleteCalls(p, clock, noop, snaps, vols[..i + 1])
               == AllDeleteCalls(p, clock, noop, snaps, vols[..i]) + DeleteCalls(Verdicts(p, clock, group), noop)
  {
    assert vols[..i + 1][..i] == vols[..i];
  }

  /** `volume_counts` has an entry for exactly the processed volumes. */
  lemma {:induction false} VolumeCountsKeys(p: Policy, clock: Clock, noop: bool, failing: set<SnapshotId>,
                                            snaps: seq<Snapshot>, vols: seq<VolumeId>)
    ensures forall v :: v in VolumeCounts(p, clock, noop, failing, snaps, vols) <==> v in vols
  {
    if vols != [] {
      var n := |vols| - 1;
      VolumeCountsKeys(p, clock, noop, failing, snaps, vols[..n]);
      assert vols == vols[..n] + [vols[n]];
    }
  }

  /** Each entry of `volume_counts` holds the tallies of its volume's pass. */
  lemma {:induction false} VolumeCountsValues(p: Policy, clock: Clock, noop: bool, failing: set<SnapshotId>,
                                              snaps: seq<Snapshot>, vols: seq<VolumeId>)
    ensures var counts := VolumeCounts(p, clock, noop, failing, snaps, vols);
            forall v :: v in counts ==> counts[v] == VolumeTally(p, clock, noop, failing, VolumeSnapshots(snaps, v))
  {
    if vols != [] {
      var n := |vols| - 1;
      VolumeCountsValues(p, clock, noop, failing, snaps, vols[..n]);
    }
  }

  /**
   * The run issues no delete call in noop mode, and otherwise only for
   * listed snapshots of the processed volumes.
   */
  lemma {:induction false} AllDeleteCallsSpec(p: Policy, clock: Clock, noop: bool, snaps: seq<Snapshot>, vols: seq<VolumeId>)
    ensures noop ==> AllDeleteCalls(p, clock, noop, snaps, vols) == []
    ensures forall id :: id in AllDeleteCalls(p, clock, noop, snaps, vols) ==>
              exists s :: s in snaps && s.volumeId in vols && s.id == id
  {
    if vols != [] {
      var n := |vols| - 1;
      var vol := vols[n];
      AllDeleteCallsSpec(p, clock, noop, snaps, vols[..n]);
      DeleteCallsOfVolume(p, clock, noop, snaps, vol);
      var before := AllDeleteCalls(p, clock, noop, snaps, vols[..n]);
      var calls := DeleteCalls(Verdicts(p, clock, VolumeSnapshots(snaps, vol)), noop);
      forall id | id in before + calls ensures exists s :: s in snaps && s.volumeId in vols && s.id == id {
        if id in before {
          var s :| s in snaps && s.volumeId in vols[..n] && s.id == id;
          assert s.volumeId in vols;
        } else {
          var s :| s in snaps && s.volumeId == vol && s.id == id;
          assert s.volumeId in vols;
        }
      }
    }
  }

  /** The calls of the first volumes processed come first, in the order of the volumes. */
  lemma {:induction false} AllDeleteCallsPrefix(p: Policy, clock: Clock, noop: bool, snaps: seq<Snapshot>, vols: seq<VolumeId>)
    ensures forall n :: 0 <= n <= |vols| ==> AllDeleteCalls(p, clock, noop, snaps, vols[..n]) <= AllDeleteCalls(p, clock, noop, snaps, vols)
  {
    if vols != [] {
      var init := vols[..|vols| - 1];
      AllDeleteCallsPrefix(p, clock, noop, snaps, init);
      forall m | 0 <= m <= |vols|
        ensures AllDeleteCalls(p, clock, noop, snaps, vols[..m]) <= AllDeleteCalls(p, clock, noop, snaps, vols)
      {
        if m < |vols| {
          assert vols[..m] == init[..m];
        } else {
          assert vols[..m] == vols;
        }
      }
    }
  }

  /** Every call of a processed volume's pass is among the run's calls. */
  lemma {:induction false} AllDeleteCallsCover(p: Policy, clock: Clock, noop: bool, snaps: seq<Snapshot>,
                                               vols: seq<VolumeId>, v: VolumeId)
    requires v in vols
    ensures forall id :: id in DeleteCalls(Verdicts(p, clock, VolumeSnapshots(snaps, v)), noop) ==>
              id in AllDeleteCalls(p, clock, noop, snaps, vols)
  {
    var n := |vols| - 1;
    if v != vols[n] {
      assert v in vols[..n];
      AllDeleteCallsCover(p, clock, noop, snaps, vols[..n], v);
    }
  }

  /** Outside noop mode the run issues every deletion that any processed volume's pass decides. */
  lemma AllDeleteCallsComplete(p: Policy, clock: Clock, snaps: seq<Snapshot>, vols: seq<VolumeId>, v: VolumeId, i: nat)
    requires v in vols
    requires i < |VolumeSnapshots(snaps, v)|
    requires Verdicts(p, clock, VolumeSnapshots(snaps, v))[i].Delete?
    ensures Verdicts(p, clock, VolumeSnapshots(snaps, v))[i].id in AllDeleteCalls(p, clock, false, snaps, vols)
  {
    DeleteCallsComplete(Verdicts(p, clock, VolumeSnapshots(snaps, v)), false, {});
    AllDeleteCallsCover(p, clock, false, snaps, vols, v);
  }

  /** Snapshot ids are unique across volumes: no id is listed under two volumes. */
  ghost predicate IdsDetermineVolume(snaps: seq<Snapshot>)
  {
    forall s1, s2 :: s1 in snaps && s2 in snaps && s1.id == s2.id ==> s1.volumeId == s2.volumeId
  }

  /**
   * No delete call of the whole run names the newest snapshot of a volume
   * that has snapshots, whichever volumes are processed and however often.
   */
  lemma {:induction false} NewestSnapshotsSurvive(p: Policy, clock: Clock, noop: bool, snaps: seq<Snapshot>,
                                                  vols: seq<VolumeId>, w: VolumeId)
    requires IdsDetermineVolume(snaps)
    requires VolumeSnapshots(snaps, w) != []
    ensures NewestId(VolumeSnapshots(snaps, w)) !in AllDeleteCalls(p, clock, noop, snaps, vols)
  {
    if vols != [] {
      var n := |vols| - 1;
      NewestSnapshotsSurvive(p, clock, noop, snaps, vols[..n], w);
      var wGroup := VolumeSnapshots(snaps, w);
      VolumeSnapshotsSpec(snaps, w);
      assert wGroup[|wGroup| - 1] in wGroup;
      DeleteCallsOfVolume(p, clock, noop, snaps, vols[n]);
    }
  }

  /** With `all`, every completed snapshot belongs to exactly the group of one processed volume. */
  lemma EverySnapshotConsidered(volumesArg: seq<VolumeId>, items: seq<Snapshot>, s: Snapshot)
    requires volumesArg == [AllVolumes]
    requires s in Completed(items)
    ensures var vols := SelectVolumes(volumesArg, Completed(items));
            && s.volumeId in vols
            && s in VolumeSnapshots(Completed(items), s.volumeId)
            && forall v :: v in vols && v != s.volumeId ==> s !in VolumeSnapshots(Completed(items), v)
  {
    forall v {
      VolumeSnapshotsSpec(Completed(items), v);
    }
  }

  // ---------------------------------------------------------------------
  // The run

  /**
   * `volumes.each`: the per-volume pass on each of `vols` in turn, recording
   * its tallies in `volume_counts` (a volume listed twice is recorded once)
   * and issuing its delete calls.
   */
  method PurgeVolumes(p: Policy, clock: Clock, noop: bool, failing: set<SnapshotId>,
                      snaps: seq<Snapshot>, vols: seq<VolumeId>)
    returns (volumeCounts: map<VolumeId, Tally>, calls: seq<SnapshotId>)
    ensures volumeCounts == VolumeCounts(p, clock, noop, failing, snaps, vols)
    ensures calls == AllDeleteCalls(p, clock, noop, snaps, vols)
  {
    volumeCounts, calls := map[], [];
    for i := 0 to |vols|
      invariant volumeCounts == VolumeCounts(p, clock, noop, failing, snaps, vols[..i])
      invariant calls == AllDeleteCalls(p, clock, noop, snaps, vols[..i])
    {
      var vol := vols[i];
      var volSnaps := VolumeSnapshots(snaps, vol);
      var deleteCount, keepCount, volCalls := PurgeVolume(p, clock, noop, failing, volSnaps);
      volumeCounts := volumeCounts[vol := Tally(deleteCount, keepCount)];
      calls := calls + volCalls;
      PassesStep(p, clock, noop, failing, snaps, vols, i);
    }
    assert vols[..|vols|] == vols;
  }

  /**
   * The run: on no completed snapshot, the "No snapshots found" exit;
   * otherwise one entry of `volume_counts` per selected volume, holding that
   * volume's tallies, and the delete calls of all passes in order.
   */
  method PurgeSnapshots(p: Policy, clock: Clock, noop: bool, volumesArg: seq<VolumeId>,
                        items: seq<Snapshot>, failing: set<SnapshotId>)
    returns (result: Result<Report, PurgeError>)
    ensures result.Failure? <==> Completed(items) == []
    ensures result.Success? ==>
              var snaps := Completed(items);
              var vols := SelectVolumes(volumesArg, snaps);
              && (forall v :: v in result.value.volumeCounts <==> v in vols)
              && (forall v :: v in result.value.volumeCounts ==>
                    result.value.volumeCounts[v] == VolumeTally(p, clock, noop, failing, VolumeSnapshots(snaps, v)))
              && result.value.deleteCalls == AllDeleteCalls(p, clock, noop, snaps, vols)
  {
    var snaps := Completed(items);
    if snaps == [] {
      return Failure(NoSnapshotsFound);
    }
    var vols := SelectVolumes(volumesArg, snaps);
    var volumeCounts, calls := PurgeVolumes(p, clock, noop, failing, snaps, vols);
    VolumeCountsKeys(p, clock, noop, failing, snaps, vols);
    VolumeCountsValues(p, clock, noop, failing, snaps, vols);
    return Success(Report(volumeCounts, calls));
  }
}
