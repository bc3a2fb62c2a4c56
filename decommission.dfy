/**
 * Tearing down the service's old instance: terminate it, then, for each of
 * its EBS volumes that termination does not delete, wait until the volume
 * reports `available` and delete it.
 */
module Teardown {
  import opened Trace
  import opened Instances

  /** The calls made so far, and whether the step ran to its end (false: stuck in a poll). */
  datatype Progress = Progress(calls: seq<Call>, finished: bool)

  /** `prefix` followed by the calls of `rest`. */
  function After(prefix: seq<Call>, rest: Progress): Progress
  {
    Progress(prefix + rest.calls, rest.finished)
  }

  /** The states the provider reports for a volume, one per describe call. */
  function Observed(reports: map<string, seq<string>>, volumeId: string): seq<string>
  {
    if volumeId in reports then reports[volumeId] else []
  }

  /** The volume ids the script must delete itself: those not deleted on termination, in mapping order. */
  function KeptVolumes(bds: seq<BlockDevice>): seq<string>
    decreases |bds|
  {
    if bds == [] then []
    else if bds[0].deleteOnTermination then KeptVolumes(bds[1..])
    else [bds[0].volumeId] + KeptVolumes(bds[1..])
  }

  /** The volume ids of the delete calls, in order. */
  function Deletes(calls: seq<Call>): seq<string>
    decreases |calls|
  {
    if calls == [] then []
    else if calls[0].DeleteVolume? then [calls[0].volumeId] + Deletes(calls[1..])
    else Deletes(calls[1..])
  }

  /** The volume loop: skip volumes deleted on termination, poll and delete the others. */
  function VolumeSteps(bds: seq<BlockDevice>, reports: map<string, seq<string>>): Progress
    decreases |bds|
  {
    if bds == [] then Progress([], true)
    else if bds[0].deleteOnTermination then VolumeSteps(bds[1..], reports)
    else
      var v := bds[0].volumeId;
      var observed := Observed(reports, v);
      var polls := VolumePolls(v, observed[..Polled(observed, "available")]);
      if Reached(observed, "available") then After(polls + [DeleteVolume(v)], VolumeSteps(bds[1..], reports))
      else Progress(polls, false)
  }

  function DecommissionSteps(info: InstanceInfo, reports: map<string, seq<string>>): Progress
  {
    After([TerminateInstance(info.instanceId)], VolumeSteps(info.blockDevices, reports))
  }

  /** Terminate the instance, then poll for and delete each volume it leaves behind. */
  method Decommission(info: InstanceInfo, reports: map<string, seq<string>>)
    returns (calls: seq<Call>, finished: bool)
    ensures Progress(calls, finished) == DecommissionSteps(info, reports)
  {
    var bds := info.blockDevices;
    calls := [TerminateInstance(info.instanceId)];
    for i := 0 to |bds|
      invariant DecommissionSteps(info, reports) == After(calls, VolumeSteps(bds[i..], reports))
    {
      assert bds[i..][1..] == bds[i + 1..];
      var bd := bds[i];
      if !bd.deleteOnTermination {
        var observed := Observed(reports, bd.volumeId);
        var n := WaitFor(observed, "available");
        calls := calls + VolumePolls(bd.volumeId, observed[..n]);
        if !(n > 0 && observed[n - 1] == "available") {
          return calls, false;
        }
        calls := calls + [DeleteVolume(bd.volumeId)];
      }
    }
    assert bds[|bds|..] == [];
    finished := true;
  }

  lemma {:induction false} DeletesAppend(a: seq<Call>, b: seq<Call>)
    ensures Deletes(a + b) == Deletes(a) + Deletes(b)
    decreases |a|
  {
    if a != [] {
      assert (a + b)[1..] == a[1..] + b;
      DeletesAppend(a[1..], b);
    } else {
      assert a + b == b;
    }
  }

  lemma {:induction false} DeletesOfVolumePolls(v: string, states: seq<string>)
    ensures Deletes(VolumePolls(v, states)) == []
    decreases |states|
  {
    if states != [] {
      assert VolumePolls(v, states)[1..] == VolumePolls(v, states[1..]);
      DeletesOfVolumePolls(v, states[1..]);
    }
  }

  /**
   * The volume loop deletes exactly the volumes not deleted on termination,
   * in mapping order, once per mapping; when stuck in a poll it has deleted
   * a leading part of them.
   */
  lemma {:induction false} VolumeStepsDeletes(bds: seq<BlockDevice>, reports: map<string, seq<string>>)
    ensures VolumeSteps(bds, reports).finished ==> Deletes(VolumeSteps(bds, reports).calls) == KeptVolumes(bds)
    ensures Deletes(VolumeSteps(bds, reports).calls) <= KeptVolumes(bds)
    decreases |bds|
  {
    if bds != [] {
      VolumeStepsDeletes(bds[1..], reports);
      if !bds[0].deleteOnTermination {
        var v := bds[0].volumeId;
        var observed := Observed(reports, v);
        var polls := VolumePolls(v, observed[..Polled(observed, "available")]);
        DeletesOfVolumePolls(v, observed[..Polled(observed, "available")]);
        if Reached(observed, "available") {
          var rest := VolumeSteps(bds[1..], reports);
          assert VolumeSteps(bds, reports).calls == polls + [DeleteVolume(v)] + rest.calls;
          DeletesAppend(polls, [DeleteVolume(v)]);
          DeletesAppend(polls + [DeleteVolume(v)], rest.calls);
          assert Deletes([DeleteVolume(v)]) == [v];
          assert KeptVolumes(bds) == [v] + KeptVolumes(bds[1..]);
        } else {
          assert VolumeSteps(bds, reports).calls == polls;
        }
      } else {
        assert VolumeSteps(bds, reports) == VolumeSteps(bds[1..], reports);
        assert KeptVolumes(bds) == KeptVolumes(bds[1..]);
      }
    }
  }

  /** Every delete call comes right after a describe call that saw that volume `available`. */
  predicate DeletesFollowAvailable(calls: seq<Call>)
  {
    forall k :: 0 <= k < |calls| && calls[k].DeleteVolume? ==>
      k > 0 && calls[k - 1] == DescribeVolume(calls[k].volumeId, "available")
  }

  /** The volume loop deletes a volume only right after seeing it `available`. */
  lemma {:induction false} DeleteFollowsAvailable(bds: seq<BlockDevice>, reports: map<string, seq<string>>)
    ensures DeletesFollowAvailable(VolumeSteps(bds, reports).calls)
    decreases |bds|
  {
    if bds != [] {
      DeleteFollowsAvailable(bds[1..], reports);
      if !bds[0].deleteOnTermination {
        var v := bds[0].volumeId;
        var observed := Observed(reports, v);
        var n := Polled(observed, "available");
        var polls := VolumePolls(v, observed[..n]);
        var calls := VolumeSteps(bds, reports).calls;
        if Reached(observed, "available") {
          var head := polls + [DeleteVolume(v)];
          var rest := VolumeSteps(bds[1..], reports).calls;
          assert calls == head + rest;
          assert forall j :: 0 <= j < |polls| ==> !head[j].DeleteVolume?;
          forall k | 0 <= k < |calls| && calls[k].DeleteVolume?
            ensures k > 0 && calls[k - 1] == DescribeVolume(calls[k].volumeId, "available")
          {
            if k < |head| {
              assert k == n;
              assert calls[k - 1] == polls[n - 1];
            } else {
              var j := k - |head|;
              assert calls[k] == rest[j];
              assert j > 0 && rest[j - 1] == DescribeVolume(rest[j].volumeId, "available");
              assert calls[k - 1] == rest[j - 1];
            }
          }
        } else {
          assert calls == polls;
          assert forall k :: 0 <= k < |calls| ==> calls[k].DescribeVolume?;
        }
      }
    }
  }

  /** The volume loop only describes and deletes volumes. */
  lemma {:induction false} VolumeStepsTouchOnlyVolumes(bds: seq<BlockDevice>, reports: map<string, seq<string>>)
    ensures forall c :: c in VolumeSteps(bds, reports).calls ==> c.DescribeVolume? || c.DeleteVolume?
    decreases |bds|
  {
    if bds != [] {
      VolumeStepsTouchOnlyVolumes(bds[1..], reports);
    }
  }

  /** Every kept volume is one whose mapping says termination leaves it behind. */
  lemma {:induction false} KeptVolumesSound(bds: seq<BlockDevice>, v: string)
    requires v in KeptVolumes(bds)
    ensures exists j :: 0 <= j < |bds| && bds[j].volumeId == v && !bds[j].deleteOnTermination
    decreases |bds|
  {
    if bds[0].deleteOnTermination || v != bds[0].volumeId {
      KeptVolumesSound(bds[1..], v);
      var j :| 0 <= j < |bds[1..]| && bds[1..][j].volumeId == v && !bds[1..][j].deleteOnTermination;
      assert bds[j + 1] == bds[1..][j];
    }
  }

  /** When volume ids are distinct, a volume flagged delete-on-termination is never deleted by the script. */
  lemma NeverDeletesFlagged(info: InstanceInfo, reports: map<string, seq<string>>, i: int)
    requires 0 <= i < |info.blockDevices| && info.blockDevices[i].deleteOnTermination
    requires forall j, k :: 0 <= j < k < |info.blockDevices| ==>
      info.blockDevices[j].volumeId != info.blockDevices[k].volumeId
    ensures info.blockDevices[i].volumeId !in Deletes(DecommissionSteps(info, reports).calls)
  {
    var bds := info.blockDevices;
    var v := bds[i].volumeId;
    var steps := VolumeSteps(bds, reports);
    VolumeStepsDeletes(bds, reports);
    DeletesAppend([TerminateInstance(info.instanceId)], steps.calls);
    if v in Deletes(steps.calls) {
      assert v in KeptVolumes(bds);
      KeptVolumesSound(bds, v);
    }
  }

  /** The first call terminates the instance, and no later call terminates anything. */
  lemma TerminatesFirstAndOnce(info: InstanceInfo, reports: map<string, seq<string>>)
    ensures var calls := DecommissionSteps(info, reports).calls;
      calls[0] == TerminateInstance(info.instanceId)
      && forall k :: 1 <= k < |calls| ==> !calls[k].TerminateInstance?
  {
    VolumeStepsTouchOnlyVolumes(info.blockDevices, reports);
    var calls := DecommissionSteps(info, reports).calls;
    forall k | 1 <= k < |calls| ensures !calls[k].TerminateInstance? {
      assert calls[k] in VolumeSteps(info.blockDevices, reports).calls;
    }
  }
}
