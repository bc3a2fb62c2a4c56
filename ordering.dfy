/**
 * Properties of the order in which a launcher run calls the provider: what
 * happens before which fatal exit, when the old instance and its volumes are
 * removed, and when the reserved address is bound.
 */
module StepOrder {
  import opened Outcomes
  import opened Config
  import opened Images
  import opened Instances
  import opened Naming
  import opened Trace
  import opened Teardown
  import opened Launch

  /** The calls of the steps after teardown are launches, tags, instance polls and the address binding. */
  predicate IsLaunchCall(c: Call)
  {
    c.RunInstance? || c.CreateNameTag? || c.DescribeInstance? || c.AssociateAddress?
  }

  /** A binding of the reserved address comes right after the new instance was seen `running`. */
  predicate AssociatesAfterRunning(calls: seq<Call>, id: string)
  {
    forall k :: 0 <= k < |calls| && calls[k].AssociateAddress? ==>
      k > 0 && calls[k - 1] == DescribeInstance(id, "running") && calls[k].instanceId == id
  }

  /** Provisioning launches once, as its first call, tags next, and binds the address only after `running`. */
  lemma ProvisionShape(service: string, imageId: string, env: Env)
    ensures var p := ProvisionSteps(service, imageId, env);
      && |p.calls| >= 2
      && p.calls[0] == RunInstance(imageId, UserDataFields(service))
      && p.calls[1] == CreateNameTag(env.newInstanceId, TagName(service))
      && (forall k :: 0 <= k < |p.calls| ==> IsLaunchCall(p.calls[k]))
      && (forall k :: 0 < k < |p.calls| ==> !p.calls[k].RunInstance?)
      && AssociatesAfterRunning(p.calls, env.newInstanceId)
      && (p.outcome == Completed ==>
            EipAddress(service).Some? && p.calls[|p.calls| - 1] == AssociateAddress(env.newInstanceId, EipAddress(service).value))
  {
    var id := env.newInstanceId;
    var n := Polled(env.instanceReports, "running");
    var polls := InstancePolls(id, env.instanceReports[..n]);
    var run := RunInstance(imageId, UserDataFields(service));
    var tag := CreateNameTag(id, TagName(service));
    var p := ProvisionSteps(service, imageId, env);
    if Reached(env.instanceReports, "running") && EipAddress(service).Some? {
      var bind := AssociateAddress(id, EipAddress(service).value);
      assert p.calls == [run, tag] + polls + [bind];
      LaunchTraceShape(run, tag, polls, [bind], id);
    } else {
      assert p.calls == [run, tag] + polls + [];
      LaunchTraceShape(run, tag, polls, [], id);
    }
  }

  /** A launch, a tag, instance polls and at most one binding after a final `running` poll, in that order. */
  lemma LaunchTraceShape(run: Call, tag: Call, polls: seq<Call>, tail: seq<Call>, id: string)
    requires run.RunInstance? && tag.CreateNameTag?
    requires forall k :: 0 <= k < |polls| ==> polls[k].DescribeInstance?
    requires tail == [] || (|tail| == 1 && tail[0].AssociateAddress? && tail[0].instanceId == id
      && polls != [] && polls[|polls| - 1] == DescribeInstance(id, "running"))
    ensures var calls := [run, tag] + polls + tail;
      && calls[0] == run && calls[1] == tag
      && (forall k :: 0 <= k < |calls| ==> IsLaunchCall(calls[k]))
      && (forall k :: 0 < k < |calls| ==> !calls[k].RunInstance?)
      && AssociatesAfterRunning(calls, id)
      && (tail != [] ==> calls[|calls| - 1] == tail[0])
  {
    var calls := [run, tag] + polls + tail;
    forall k | 2 <= k < |calls|
      ensures k < |calls| - |tail| ==> calls[k] == polls[k - 2]
      ensures k >= |calls| - |tail| ==> calls[k] == tail[0] && calls[k - 1] == polls[|polls| - 1]
    {
    }
  }

  /** The launch part only calls launch operations; it launches at most once, as its first call, and binds the address only after `running`. */
  lemma LaunchStepsShape(service: string, env: Env)
    ensures var calls := LaunchSteps(service, env).calls;
      && (forall k :: 0 <= k < |calls| ==> IsLaunchCall(calls[k]))
      && (forall k :: 0 < k < |calls| ==> !calls[k].RunInstance?)
      && AssociatesAfterRunning(calls, env.newInstanceId)
  {
    var amisOregon := Matches(env.imagesOregon, env.nowOregon, Pattern(None, service));
    if amisOregon != [] && GetAmiName(amisOregon).Ok? {
      var amisVirginia := Matches(env.imagesVirginia, env.nowVirginia, Pattern(Some(GetAmiName(amisOregon).value), service));
      if amisVirginia != [] {
        ProvisionShape(service, amisVirginia[0].imageId, env);
      }
    }
  }

  /** The teardown calls are terminations and volume calls only. */
  lemma TeardownShape(info: InstanceInfo, reports: map<string, seq<string>>)
    ensures forall c :: c in DecommissionSteps(info, reports).calls ==>
      c.TerminateInstance? || c.DescribeVolume? || c.DeleteVolume?
  {
    VolumeStepsTouchOnlyVolumes(info.blockDevices, reports);
  }

  /** An argument outside the allowed services stops the run before any call. */
  lemma UsageErrorFirst(arg: string, env: Env)
    requires !IsService(arg)
    ensures RunSteps(arg, env) == Execution(Exited(UsageError), [])
  {
  }

  /** Exit 4 happens exactly when more than one running instance is found, and before any call. */
  lemma ManyInstancesBeforeAnyCall(arg: string, env: Env)
    ensures RunSteps(arg, env).outcome == Exited(ManyInstances) <==>
      IsService(arg) && AllInspectable(env.reservations) && |Hits(env.reservations, arg)| > 1
    ensures RunSteps(arg, env).outcome == Exited(ManyInstances) ==> RunSteps(arg, env).calls == []
  {
    if IsService(arg) && AllInspectable(env.reservations) && |Hits(env.reservations, arg)| <= 1 {
      var amis := Matches(env.imagesOregon, env.nowOregon, Pattern(None, arg));
      if amis != [] && GetAmiName(amis).Fail? {
        assert GetAmiName(amis).failure != ManyInstances;
      }
    }
  }

  /** With no running instance found the run only warns: it terminates and deletes nothing and goes on to launch. */
  lemma NoRunningInstanceOnlyWarns(arg: string, env: Env)
    requires IsService(arg) && AllInspectable(env.reservations) && Hits(env.reservations, arg) == []
    ensures RunSteps(arg, env) == LaunchSteps(arg, env)
    ensures forall c :: c in RunSteps(arg, env).calls ==> !c.TerminateInstance? && !c.DeleteVolume?
  {
    LaunchStepsShape(arg, env);
    assert [] + LaunchSteps(arg, env).calls == LaunchSteps(arg, env).calls;
  }

  /**
   * Termination and volume deletion happen only when exactly one running
   * instance was found, and they concern that instance and its volumes
   * left behind on termination.
   */
  lemma TeardownOnlyOfTheOneRunningInstance(arg: string, env: Env, k: int)
    requires 0 <= k < |RunSteps(arg, env).calls|
    requires RunSteps(arg, env).calls[k].TerminateInstance? || RunSteps(arg, env).calls[k].DeleteVolume?
    ensures IsService(arg) && AllInspectable(env.reservations) && |Hits(env.reservations, arg)| == 1
    ensures var info := Hits(env.reservations, arg)[0];
      var c := RunSteps(arg, env).calls[k];
      (c.TerminateInstance? ==> c == TerminateInstance(info.instanceId))
      && (c.DeleteVolume? ==> c.volumeId in KeptVolumes(info.blockDevices))
  {
    TeardownCallIsInTeardown(arg, env, k);
    var info := Hits(env.reservations, arg)[0];
    var teardown := DecommissionSteps(info, env.volumeReports);
    var c := teardown.calls[k];
    TerminatesFirstAndOnce(info, env.volumeReports);
    if c.DeleteVolume? {
      var steps := VolumeSteps(info.blockDevices, env.volumeReports);
      assert teardown.calls == [TerminateInstance(info.instanceId)] + steps.calls;
      assert c == steps.calls[k - 1];
      VolumeStepsDeletes(info.blockDevices, env.volumeReports);
      DeletedIsKept(steps.calls, k - 1, KeptVolumes(info.blockDevices));
    }
  }

  /** A termination or deletion in a run is a call of the teardown of the one running instance found. */
  lemma TeardownCallIsInTeardown(arg: string, env: Env, k: int)
    requires 0 <= k < |RunSteps(arg, env).calls|
    requires RunSteps(arg, env).calls[k].TerminateInstance? || RunSteps(arg, env).calls[k].DeleteVolume?
    ensures IsService(arg) && AllInspectable(env.reservations) && |Hits(env.reservations, arg)| == 1
    ensures var teardown := DecommissionSteps(Hits(env.reservations, arg)[0], env.volumeReports);
      k < |teardown.calls| && RunSteps(arg, env).calls[k] == teardown.calls[k]
  {
    assert IsService(arg) && AllInspectable(env.reservations) && |Hits(env.reservations, arg)| <= 1;
    RunStepsCalls(arg, env);
    var running := Hits(env.reservations, arg);
    var teardown := if running == [] then Progress([], true) else DecommissionSteps(running[0], env.volumeReports);
    var tail := if teardown.finished then LaunchSteps(arg, env).calls else [];
    LaunchStepsShape(arg, env);
    NonLaunchCallInPrefix(teardown.calls, tail, k);
  }

  /** In calls followed by launch calls only, a call that is not a launch call lies in the first part. */
  lemma NonLaunchCallInPrefix(pre: seq<Call>, tail: seq<Call>, k: int)
    requires 0 <= k < |pre + tail| && !IsLaunchCall((pre + tail)[k])
    requires forall j :: 0 <= j < |tail| ==> IsLaunchCall(tail[j])
    ensures k < |pre| && (pre + tail)[k] == pre[k]
  {
  }

  /** A run that gets past the instance search makes the teardown's calls, then, if the teardown ends, the launch's. */
  lemma RunStepsCalls(arg: string, env: Env)
    requires IsService(arg) && AllInspectable(env.reservations) && |Hits(env.reservations, arg)| <= 1
    ensures var running := Hits(env.reservations, arg);
      var teardown := if running == [] then Progress([], true) else DecommissionSteps(running[0], env.volumeReports);
      RunSteps(arg, env).calls == teardown.calls + (if teardown.finished then LaunchSteps(arg, env).calls else [])
  {
    var running := Hits(env.reservations, arg);
    var teardown := if running == [] then Progress([], true) else DecommissionSteps(running[0], env.volumeReports);
    if !teardown.finished {
      assert teardown.calls + [] == teardown.calls;
    }
  }

  /** A call list made of launch-side calls only deletes no volume. */
  lemma {:induction false} LaunchCallsDeleteNothing(calls: seq<Call>)
    requires forall k :: 0 <= k < |calls| ==> IsLaunchCall(calls[k])
    ensures Deletes(calls) == []
    decreases |calls|
  {
    if calls != [] {
      assert !calls[0].DeleteVolume?;
      LaunchCallsDeleteNothing(calls[1..]);
    }
  }

  /**
   * Over a whole run with one running instance found, the deleted volumes are
   * those of its mappings not marked delete-on-termination, once each and in
   * mapping order; a run stuck polling a volume has deleted a leading part of them.
   */
  lemma RunDeletesKeptVolumes(arg: string, env: Env)
    requires IsService(arg) && AllInspectable(env.reservations) && |Hits(env.reservations, arg)| == 1
    ensures var kept := KeptVolumes(Hits(env.reservations, arg)[0].blockDevices);
      && Deletes(RunSteps(arg, env).calls) <= kept
      && (RunSteps(arg, env).outcome != Stalled ==> Deletes(RunSteps(arg, env).calls) == kept)
  {
    var info := Hits(env.reservations, arg)[0];
    var volumes := VolumeSteps(info.blockDevices, env.volumeReports);
    var teardown := DecommissionSteps(info, env.volumeReports);
    RunStepsCalls(arg, env);
    VolumeStepsDeletes(info.blockDevices, env.volumeReports);
    DeletesAppend([TerminateInstance(info.instanceId)], volumes.calls);
    assert Deletes(teardown.calls) == Deletes(volumes.calls);
    if teardown.finished {
      var launch := LaunchSteps(arg, env).calls;
      LaunchStepsShape(arg, env);
      LaunchCallsDeleteNothing(launch);
      DeletesAppend(teardown.calls, launch);
      assert Deletes(RunSteps(arg, env).calls) == Deletes(volumes.calls);
    } else {
      assert RunSteps(arg, env).calls == teardown.calls;
    }
  }

  /** A volume named by a delete call is in any list that starts with the deleted volumes. */
  lemma {:induction false} DeletedIsKept(calls: seq<Call>, k: int, kept: seq<string>)
    requires 0 <= k < |calls| && calls[k].DeleteVolume?
    requires Deletes(calls) <= kept
    ensures calls[k].volumeId in kept
    decreases k
  {
    if k == 0 {
      assert kept[0] == calls[0].volumeId;
    } else {
      var rest := if calls[0].DeleteVolume? then kept[1..] else kept;
      assert Deletes(calls[1..]) <= rest;
      DeletedIsKept(calls[1..], k - 1, rest);
    }
  }

  /**
   * An early exit after the instance search (no image, ambiguous image, bad
   * image name) comes after the found instance was already terminated, and
   * nothing is launched.
   */
  lemma ImageChecksAfterTermination(arg: string, env: Env)
    requires IsService(arg) && AllInspectable(env.reservations) && |Hits(env.reservations, arg)| == 1
    requires RunSteps(arg, env).outcome.Exited?
    ensures var calls := RunSteps(arg, env).calls;
      calls == DecommissionSteps(Hits(env.reservations, arg)[0], env.volumeReports).calls
      && calls[0] == TerminateInstance(Hits(env.reservations, arg)[0].instanceId)
      && forall c :: c in calls ==> !IsLaunchCall(c)
  {
    var info := Hits(env.reservations, arg)[0];
    TeardownShape(info, env.volumeReports);
    EipDefined(arg);
    assert LaunchSteps(arg, env).calls == [];
    assert DecommissionSteps(info, env.volumeReports).calls + [] == DecommissionSteps(info, env.volumeReports).calls;
  }

  /** Two fresh images matching the service make the run exit 3 after the teardown, with nothing launched. */
  lemma TwoFreshImagesExit3(arg: string, env: Env)
    requires IsService(arg) && AllInspectable(env.reservations) && |Hits(env.reservations, arg)| <= 1
    requires |Matches(env.imagesOregon, env.nowOregon, arg)| >= 2
    ensures var teardown := if Hits(env.reservations, arg) == [] then Progress([], true)
      else DecommissionSteps(Hits(env.reservations, arg)[0], env.volumeReports);
      teardown.finished ==> RunSteps(arg, env) == Execution(Exited(ManyAmis), teardown.calls)
  {
    var teardown := if Hits(env.reservations, arg) == [] then Progress([], true)
      else DecommissionSteps(Hits(env.reservations, arg)[0], env.volumeReports);
    assert teardown.calls + [] == teardown.calls;
  }

  /** The reserved address is bound only right after the new instance was seen `running`, and to that instance. */
  lemma AssociateOnlyAfterRunning(arg: string, env: Env)
    ensures AssociatesAfterRunning(RunSteps(arg, env).calls, env.newInstanceId)
  {
    if IsService(arg) && AllInspectable(env.reservations) && |Hits(env.reservations, arg)| <= 1 {
      var running := Hits(env.reservations, arg);
      var teardown := if running == [] then Progress([], true) else DecommissionSteps(running[0], env.volumeReports);
      if running != [] {
        TeardownShape(running[0], env.volumeReports);
      }
      forall i | 0 <= i < |teardown.calls| ensures !teardown.calls[i].AssociateAddress? {
        assert teardown.calls[i] in teardown.calls;
      }
      if teardown.finished {
        LaunchStepsShape(arg, env);
        AssociatesAfterPrefix(teardown.calls, LaunchSteps(arg, env).calls, env.newInstanceId);
      }
    }
  }

  /** Calls without address bindings in front of a trace keep every binding right after its `running` observation. */
  lemma AssociatesAfterPrefix(pre: seq<Call>, calls: seq<Call>, id: string)
    requires forall i :: 0 <= i < |pre| ==> !pre[i].AssociateAddress?
    requires AssociatesAfterRunning(calls, id)
    ensures AssociatesAfterRunning(pre + calls, id)
  {
    var all := pre + calls;
    forall k | 0 <= k < |all| && all[k].AssociateAddress?
      ensures k > 0 && all[k - 1] == DescribeInstance(id, "running") && all[k].instanceId == id
    {
      var j := k - |pre|;
      assert all[k] == calls[j];
      assert all[k - 1] == calls[j - 1];
    }
  }

  /** A trace that launched exactly once, tagged that launch right after it, and ends with the address binding. */
  predicate LaunchedOnceAndBound(calls: seq<Call>, service: string, id: string)
  {
    && |calls| > 0
    && (exists k :: 0 <= k < |calls| - 1 && calls[k].RunInstance? && calls[k].userData == UserDataFields(service)
          && calls[k + 1] == CreateNameTag(id, TagName(service)))
    && (forall i, j :: 0 <= i < |calls| && 0 <= j < |calls| && calls[i].RunInstance? && calls[j].RunInstance? ==> i == j)
    && calls[|calls| - 1].AssociateAddress?
    && calls[|calls| - 1].instanceId == id
    && EipAddress(service) == Some(calls[|calls| - 1].publicIp)
  }

  /** Calls without launches in front of such a trace keep it one. */
  lemma LaunchedOnceAfterPrefix(pre: seq<Call>, calls: seq<Call>, service: string, id: string)
    requires forall i :: 0 <= i < |pre| ==> !pre[i].RunInstance?
    requires LaunchedOnceAndBound(calls, service, id)
    ensures LaunchedOnceAndBound(pre + calls, service, id)
  {
    var all := pre + calls;
    var k :| 0 <= k < |calls| - 1 && calls[k].RunInstance? && calls[k].userData == UserDataFields(service)
      && calls[k + 1] == CreateNameTag(id, TagName(service));
    assert all[|pre| + k] == calls[k] && all[|pre| + k + 1] == calls[k + 1];
    forall i, j | 0 <= i < |all| && 0 <= j < |all| && all[i].RunInstance? && all[j].RunInstance?
      ensures i == j
    {
      assert all[i] == calls[i - |pre|] && all[j] == calls[j - |pre|];
    }
    assert all[|all| - 1] == calls[|calls| - 1];
  }

  /** Launch steps that complete launched once, tagged that launch, and bound the service's address last. */
  lemma LaunchStepsCompleted(service: string, env: Env)
    requires LaunchSteps(service, env).outcome == Completed
    ensures LaunchedOnceAndBound(LaunchSteps(service, env).calls, service, env.newInstanceId)
  {
    var amisOregon := Matches(env.imagesOregon, env.nowOregon, Pattern(None, service));
    var amisVirginia := Matches(env.imagesVirginia, env.nowVirginia, Pattern(Some(GetAmiName(amisOregon).value), service));
    var rest := ProvisionSteps(service, amisVirginia[0].imageId, env);
    assert LaunchSteps(service, env) == rest;
    ProvisionShape(service, amisVirginia[0].imageId, env);
    assert rest.calls[0].RunInstance? && rest.calls[0].userData == UserDataFields(service);
  }

  /** A run that completes launched exactly one instance, tagged it for the service, and bound the service's address last. */
  lemma CompletedRun(arg: string, env: Env)
    requires RunSteps(arg, env).outcome == Completed
    ensures IsService(arg) && LaunchedOnceAndBound(RunSteps(arg, env).calls, arg, env.newInstanceId)
  {
    assert IsService(arg) && AllInspectable(env.reservations) && |Hits(env.reservations, arg)| <= 1;
    var running := Hits(env.reservations, arg);
    var teardown := if running == [] then Progress([], true) else DecommissionSteps(running[0], env.volumeReports);
    if running != [] {
      TeardownShape(running[0], env.volumeReports);
    }
    forall i | 0 <= i < |teardown.calls| ensures !teardown.calls[i].RunInstance? {
      assert teardown.calls[i] in teardown.calls;
    }
    assert teardown.finished && RunSteps(arg, env).calls == teardown.calls + LaunchSteps(arg, env).calls;
    LaunchStepsCompleted(arg, env);
    LaunchedOnceAfterPrefix(teardown.calls, LaunchSteps(arg, env).calls, arg, env.newInstanceId);
  }
}
