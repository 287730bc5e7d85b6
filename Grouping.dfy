/**
 * Snapshots as listed by the cloud service, and how they are grouped per
 * volume before the retention rules run: only completed snapshots, the
 * volumes chosen on the command line (or every volume seen, for `all`),
 * and each volume's snapshots oldest first.
 */
module Grouping {

  type SnapshotId = string
  type VolumeId = string

  /** One item of the listing: its id, its volume, its status, and its start time in epoch seconds. */
  datatype Snapshot = Snapshot(id: SnapshotId, volumeId: VolumeId, status: string, startTime: int)

  const CompletedStatus := "completed"
  const AllVolumes := "all"

  /** The snapshots of volume `vol`, in their original order (`find_all` on the volume id). */
  function OfVolume(snaps: seq<Snapshot>, vol: VolumeId): seq<Snapshot>
  {
    if snaps == [] then []
    else (if snaps[0].volumeId == vol then [snaps[0]] else []) + OfVolume(snaps[1..], vol)
  }

  lemma {:induction false} OfVolumeCounts(snaps: seq<Snapshot>, vol: VolumeId)
    ensures forall s :: multiset(OfVolume(snaps, vol))[s] == if s.volumeId == vol then multiset(snaps)[s] else 0
  {
    if snaps != [] {
      OfVolumeCounts(snaps[1..], vol);
      assert snaps == [snaps[0]] + snaps[1..];
    }
  }

  /** The snapshots the script works with (`find_all`): those whose status is "completed", in listing order. */
  function Completed(items: seq<Snapshot>): (snaps: seq<Snapshot>)
    ensures forall s :: s in snaps <==> s in items && s.status == CompletedStatus
    ensures |snaps| <= |items|
  {
    if items == [] then []
    else
      assert items == [items[0]] + items[1..];
      (if items[0].status == CompletedStatus then [items[0]] else []) + Completed(items[1..])
  }

  /** Each completed snapshot is kept as often as it is listed, and nothing else is kept. */
  lemma {:induction false} CompletedCounts(items: seq<Snapshot>)
    ensures forall s :: multiset(Completed(items))[s] == if s.status == CompletedStatus then multiset(items)[s] else 0
  {
    if items != [] {
      CompletedCounts(items[1..]);
      assert items == [items[0]] + items[1..];
    }
  }

  lemma CompletedCons(x: Snapshot, rest: seq<Snapshot>)
    ensures Completed([x] + rest) == (if x.status == CompletedStatus then [x] else []) + Completed(rest)
  {
    assert ([x] + rest)[0] == x && ([x] + rest)[1..] == rest;
  }

  /** `find_all` keeps the listing's order: filtering a concatenation concatenates the filtered parts. */
  lemma {:induction false} CompletedKeepsOrder(a: seq<Snapshot>, b: seq<Snapshot>)
    ensures Completed(a + b) == Completed(a) + Completed(b)
  {
    if a == [] {
      assert a + b == b;
    } else {
      var t := a[1..];
      var head := if a[0].status == CompletedStatus then [a[0]] else [];
      calc {
        Completed(a + b);
        { assert a + b == [a[0]] + (t + b); CompletedCons(a[0], t + b); }
        head + Completed(t + b);
        { CompletedKeepsOrder(t, b); }
        head + (Completed(t) + Completed(b));
        (head + Completed(t)) + Completed(b);
        { assert a == [a[0]] + t; CompletedCons(a[0], t); }
        Completed(a) + Completed(b);
      }
    }
  }

  ghost predicate SortedByStart(s: seq<Snapshot>)
  {
    forall i, j :: 0 <= i < j < |s| ==> s[i].startTime <= s[j].startTime
  }

  lemma SortedCons(a: Snapshot, t: seq<Snapshot>)
    requires SortedByStart(t)
    requires forall y :: y in t ==> a.startTime <= y.startTime
    ensures SortedByStart([a] + t)
  {
    forall i, j | 0 <= i < j < |[a] + t|
      ensures ([a] + t)[i].startTime <= ([a] + t)[j].startTime
    {
      if i > 0 {
        assert ([a] + t)[i] == t[i - 1] && ([a] + t)[j] == t[j - 1];
      } else {
        assert ([a] + t)[j] in t;
      }
    }
  }

  lemma SortedEnds(s: seq<Snapshot>)
    requires SortedByStart(s)
    ensures s != [] ==> forall y :: y in s ==> s[0].startTime <= y.startTime <= s[|s| - 1].startTime
  {
    forall y | y in s ensures s[0].startTime <= y.startTime <= s[|s| - 1].startTime {
      var k :| 0 <= k < |s| && s[k] == y;
    }
  }

  lemma LowerBoundOfMembers(lo: int, r: seq<Snapshot>, s: seq<Snapshot>, x: Snapshot)
    requires multiset(r) == multiset(s) + multiset{x}
    requires forall y :: y in s ==> lo <= y.startTime
    requires lo <= x.startTime
    ensures forall y :: y in r ==> lo <= y.startTime
  {
    forall y | y in r ensures lo <= y.startTime {
      assert y in multiset(r);
      if y != x {
        assert y in multiset(s);
      }
    }
  }

  lemma SortedTail(s: seq<Snapshot>)
    requires SortedByStart(s) && s != []
    ensures SortedByStart(s[1..])
  {
    forall i, j | 0 <= i < j < |s| - 1 ensures s[1..][i].startTime <= s[1..][j].startTime {
      assert s[1..][i] == s[i + 1] && s[1..][j] == s[j + 1];
    }
  }

  /** Placing `x` in front of a sorted sequence that starts no earlier keeps it sorted. */
  lemma InsertFront(x: Snapshot, s: seq<Snapshot>)
    requires SortedByStart(s)
    requires s == [] || x.startTime <= s[0].startTime
    ensures SortedByStart([x] + s)
  {
    SortedEnds(s);
    SortedCons(x, s);
  }

  /** Keeping `s[0]` in front of `x` inserted into the rest keeps the order and adds `x` once. */
  lemma InsertBehind(x: Snapshot, s: seq<Snapshot>, rest: seq<Snapshot>)
    requires SortedByStart(s) && s != [] && s[0].startTime < x.startTime
    requires SortedByStart(rest) && multiset(rest) == multiset(s[1..]) + multiset{x}
    ensures SortedByStart([s[0]] + rest)
    ensures multiset([s[0]] + rest) == multiset(s) + multiset{x}
  {
    assert s == [s[0]] + s[1..];
    SortedTail(s);
    SortedEnds(s[1..]);
    LowerBoundOfMembers(s[0].startTime, rest, s[1..], x);
    SortedCons(s[0], rest);
  }

  /** `x` placed into the start-time-ordered `s` before the first later snapshot. */
  function InsertByStart(x: Snapshot, s: seq<Snapshot>): (r: seq<Snapshot>)
    requires SortedByStart(s)
    ensures SortedByStart(r)
    ensures multiset(r) == multiset(s) + multiset{x}
  {
    if s == [] || x.startTime <= s[0].startTime then
      InsertFront(x, s);
      [x] + s
    else
      SortedTail(s);
      var rest := InsertByStart(x, s[1..]);
      InsertBehind(x, s, rest);
      [s[0]] + rest
  }

  /** `sort_by` start time: the same snapshots, oldest first. */
  function SortByStart(s: seq<Snapshot>): (r: seq<Snapshot>)
    ensures SortedByStart(r)
    ensures multiset(r) == multiset(s)
  {
    if s == [] then []
    else
      assert s == [s[0]] + s[1..];
      InsertByStart(s[0], SortByStart(s[1..]))
  }

  /** Any ordering of `OfVolume(snaps, vol)` by start time holds exactly the volume's snapshots and ends with a newest one. */
  lemma GroupOfVolume(group: seq<Snapshot>, snaps: seq<Snapshot>, vol: VolumeId)
    requires SortedByStart(group)
    requires multiset(group) == multiset(OfVolume(snaps, vol))
    ensures forall s :: multiset(group)[s] == if s.volumeId == vol then multiset(snaps)[s] else 0
    ensures forall s :: s in group <==> s in snaps && s.volumeId == vol
    ensures group != [] ==> forall s :: s in snaps && s.volumeId == vol ==>
              s.startTime <= group[|group| - 1].startTime
  {
    OfVolumeCounts(snaps, vol);
    forall s ensures s in group <==> s in snaps && s.volumeId == vol {
      assert s in group <==> s in multiset(group);
      assert s in snaps <==> s in multiset(snaps);
    }
    SortedEnds(group);
  }

  /** `vol_snaps`: the snapshots of volume `vol`, sorted by start time. */
  function VolumeSnapshots(snaps: seq<Snapshot>, vol: VolumeId): seq<Snapshot>
  {
    SortByStart(OfVolume(snaps, vol))
  }

  /**
   * `vol_snaps` holds exactly the snapshots of volume `vol`, each as often
   * as listed, oldest first; its last element is a newest one.
   */
  lemma VolumeSnapshotsSpec(snaps: seq<Snapshot>, vol: VolumeId)
    ensures var group := VolumeSnapshots(snaps, vol);
            && SortedByStart(group)
            && (forall s :: multiset(group)[s] == if s.volumeId == vol then multiset(snaps)[s] else 0)
            && (forall s :: s in group <==> s in snaps && s.volumeId == vol)
            && (group != [] ==> forall s :: s in snaps && s.volumeId == vol ==>
                  s.startTime <= group[|group| - 1].startTime)
  {
    GroupOfVolume(VolumeSnapshots(snaps, vol), snaps, vol);
  }

  // ---------------------------------------------------------------------
  // Distinct volume ids

  /** Position of the first occurrence of `x` in `xs`. */
  function FirstIndex(xs: seq<VolumeId>, x: VolumeId): (i: nat)
    requires x in xs
    ensures i < |xs| && xs[i] == x
    ensures forall k :: 0 <= k < i ==> xs[k] != x
  {
    if xs[0] == x then 0 else 1 + FirstIndex(xs[1..], x)
  }

  /** The first occurrence is the one with no occurrence before it. */
  lemma FirstIndexUnique(xs: seq<VolumeId>, x: VolumeId, i: nat)
    requires i < |xs| && xs[i] == x
    requires forall k :: 0 <= k < i ==> xs[k] != x
    ensures FirstIndex(xs, x) == i
  {}

  /** Appending an element does not move the first occurrences of the others. */
  lemma FirstIndexOfPrefix(xs: seq<VolumeId>)
    requires xs != []
    ensures forall y :: y in xs[..|xs| - 1] ==> FirstIndex(xs, y) == FirstIndex(xs[..|xs| - 1], y)
  {
    var init := xs[..|xs| - 1];
    forall y | y in init ensures FirstIndex(xs, y) == FirstIndex(init, y) {
      FirstIndexUnique(xs, y, FirstIndex(init, y));
    }
  }

  ghost predicate NoDuplicates(xs: seq<VolumeId>)
  {
    forall i, j :: 0 <= i < j < |xs| ==> xs[i] != xs[j]
  }

  /** `uniq`: every element of `xs` once, in the order of its first occurrence. */
  function Distinct(xs: seq<VolumeId>): (r: seq<VolumeId>)
    ensures NoDuplicates(r)
    ensures forall x :: x in r <==> x in xs
    ensures forall i, j :: 0 <= i < j < |r| ==> FirstIndex(xs, r[i]) < FirstIndex(xs, r[j])
  {
    if xs == [] then []
    else
      var init := xs[..|xs| - 1];
      var x := xs[|xs| - 1];
      var r0 := Distinct(init);
      FirstIndexOfPrefix(xs);
      if x in r0 then r0
      else
        FirstIndexUnique(xs, x, |xs| - 1);
        r0 + [x]
  }

  function VolumeIds(snaps: seq<Snapshot>): (ids: seq<VolumeId>)
    ensures |ids| == |snaps|
    ensures forall i :: 0 <= i < |snaps| ==> ids[i] == snaps[i].volumeId
  {
    seq(|snaps|, i requires 0 <= i < |snaps| => snaps[i].volumeId)
  }

  /**
   * The volumes to process: every volume id seen in `snaps`, once each in
   * order of first appearance, when the command line names just `all`;
   * otherwise the command line's list as given.
   */
  function SelectVolumes(volumesArg: seq<VolumeId>, snaps: seq<Snapshot>): (vols: seq<VolumeId>)
    ensures volumesArg != [AllVolumes] ==> vols == volumesArg
    ensures volumesArg == [AllVolumes] ==> NoDuplicates(vols)
    ensures volumesArg == [AllVolumes] ==>
              forall v :: v in vols <==> exists s :: s in snaps && s.volumeId == v
    ensures volumesArg == [AllVolumes] ==>
              forall i, j :: 0 <= i < j < |vols| ==>
                vols[i] in VolumeIds(snaps) && vols[j] in VolumeIds(snaps) &&
                FirstIndex(VolumeIds(snaps), vols[i]) < FirstIndex(VolumeIds(snaps), vols[j])
  {
    if |volumesArg| == 1 && volumesArg[0] == AllVolumes then
      var ids := VolumeIds(snaps);
      assert forall v :: v in ids <==> exists s :: s in snaps && s.volumeId == v by {
        forall v ensures v in ids <==> exists s :: s in snaps && s.volumeId == v {
          if v in ids {
            var i :| 0 <= i < |ids| && ids[i] == v;
            assert snaps[i] in snaps;
          }
          if exists s :: s in snaps && s.volumeId == v {
            var s :| s in snaps && s.volumeId == v;
            var i :| 0 <= i < |snaps| && snaps[i] == s;
            assert ids[i] == v;
          }
        }
      }
      Distinct(ids)
    else volumesArg
  }
}
