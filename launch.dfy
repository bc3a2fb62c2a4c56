/**
 * The whole launcher run as one sequence: validate the service, find its
 * running instance, tear it down, find the fresh image and its copy, launch
 * the replacement, tag it, wait until it runs, and bind the reserved address.
 * The provider's answers are given up front in an `Env`; the run yields its
 * outcome and the calls it made, in order.
 */
module Launch {
  import opened Outcomes
  import opened Config
  import opened Images
  import opened Instances
  import opened Naming
  import opened Trace
  import opened Teardown

  /** What the provider answers during one run. */
  datatype Env = Env(
    imagesOregon: seq<Image>,          // describe_images in us-west-2
    imagesVirginia: seq<Image>,        // describe_images in us-east-1
    nowOregon: int,                    // the clock during the first find_ami
    nowVirginia: int,                  // the clock during the second find_ami
    reservations: seq<Reservation>,    // describe_instances in us-east-1
    volumeReports: map<string, seq<string>>,  // the states each volume reports, poll by poll
    newInstanceId: string,             // the id run_instances assigns
    instanceReports: seq<string>)      // the states the new instance reports, poll by poll

  /** How a run ends: it finishes, it exits early, or it is still polling after the last answer given. */
  datatype Outcome = Completed | Exited(failure: Failure) | Stalled

  datatype Execution = Execution(outcome: Outcome, calls: seq<Call>)

  /** Everything after the decommission step: images, launch, tag, wait, address. */
  function LaunchSteps(service: string, env: Env): Execution
  {
    var amisOregon := Matches(env.imagesOregon, env.nowOregon, Pattern(None, service));
    if amisOregon == [] then Execution(Exited(NoAmis), [])
    else match GetAmiName(amisOregon)
      case Fail(f) => Execution(Exited(f), [])
      case Ok(copyName) =>
        var amisVirginia := Matches(env.imagesVirginia, env.nowVirginia, Pattern(Some(copyName), service));
        if amisVirginia == [] then Execution(Exited(NoAmis), [])
        else ProvisionSteps(service, amisVirginia[0].imageId, env)
  }

  /**
   * Launch from `imageId`, tag the instance, wait until it runs, bind the
   * address (looking it up fails, as a crash, for a service without one).
   */
  function ProvisionSteps(service: string, imageId: string, env: Env): Execution
  {
    var id := env.newInstanceId;
    var launch := [RunInstance(imageId, UserDataFields(service)), CreateNameTag(id, TagName(service))];
    var polls := InstancePolls(id, env.instanceReports[..Polled(env.instanceReports, "running")]);
    if !Reached(env.instanceReports, "running") then Execution(Stalled, launch + polls)
    else match EipAddress(service)
      case None => Execution(Exited(Crash), launch + polls)
      case Some(ip) => Execution(Completed, launch + polls + [AssociateAddress(id, ip)])
  }

  /** The run, step by step. */
  function RunSteps(arg: string, env: Env): Execution
  {
    if !IsService(arg) then Execution(Exited(UsageError), [])
    else if !AllInspectable(env.reservations) then Execution(Exited(Crash), [])
    else
      var running := Hits(env.reservations, arg);
      if |running| > 1 then Execution(Exited(ManyInstances), [])
      else
        var teardown := if running == [] then Progress([], true) else DecommissionSteps(running[0], env.volumeReports);
        if !teardown.finished then Execution(Stalled, teardown.calls)
        else
          var rest := LaunchSteps(arg, env);
          Execution(rest.outcome, teardown.calls + rest.calls)
  }

  /** The script's top level. */
  method Run(arg: string, env: Env) returns (outcome: Outcome, calls: seq<Call>)
    ensures Execution(outcome, calls) == RunSteps(arg, env)
  {
    calls := [];
    var parsed := ParseService(arg);
    if parsed.Fail? {
      return Exited(parsed.failure), calls;
    }
    var service := parsed.value;

    var running := SearchRunningInstances(env.reservations, service);
    if running.Fail? {
      return Exited(running.failure), calls;
    }
    if |running.value| > 0 {
      var finished;
      calls, finished := Decommission(running.value[0], env.volumeReports);
      if !finished {
        return Stalled, calls;
      }
    }
    var rest;
    outcome, rest := Relaunch(service, env);
    calls := calls + rest;
  }

  /** From the image lookups to the address binding. */
  method Relaunch(service: string, env: Env) returns (outcome: Outcome, calls: seq<Call>)
    ensures Execution(outcome, calls) == LaunchSteps(service, env)
  {
    calls := [];
    var amisOregon := FindAmi(env.imagesOregon, None, service, env.nowOregon);
    if amisOregon.Fail? {
      return Exited(amisOregon.failure), calls;
    }
    var copyName := GetAmiName(amisOregon.value);
    if copyName.Fail? {
      return Exited(copyName.failure), calls;
    }
    var amisVirginia := FindAmi(env.imagesVirginia, Some(copyName.value), service, env.nowVirginia);
    if amisVirginia.Fail? {
      return Exited(amisVirginia.failure), calls;
    }
    var launchAmiId := amisVirginia.value[0].imageId;
    outcome, calls := Provision(service, launchAmiId, env);
  }

  /** Launch, tag, wait for `running`, bind the address. */
  method Provision(service: string, imageId: string, env: Env) returns (outcome: Outcome, calls: seq<Call>)
    ensures Execution(outcome, calls) == ProvisionSteps(service, imageId, env)
  {
    var id := env.newInstanceId;
    var launch := [RunInstance(imageId, UserDataFields(service)), CreateNameTag(id, TagName(service))];
    var n := WaitFor(env.instanceReports, "running");
    calls := launch + InstancePolls(id, env.instanceReports[..n]);
    if !(n > 0 && env.instanceReports[n - 1] == "running") {
      return Stalled, calls;
    }
    var ip := EipAddress(service);
    if ip.None? {
      return Exited(Crash), calls;
    }
    calls := calls + [AssociateAddress(id, ip.value)];
    outcome := Completed;
  }
}
