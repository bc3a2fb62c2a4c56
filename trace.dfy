/**
 * The calls the launcher makes to the cloud provider, recorded in the order
 * it makes them, and the polling loop it runs twice: describe a resource
 * until it reports a wanted state. A poll reads the provider's answers from a
 * finite list; when the wanted state is not in the list the loop has not
 * ended by the last answer given (the script itself would keep polling).
 */
module Trace {

  /** A provider call with the part of its request or answer that matters. */
  datatype Call =
    | TerminateInstance(instanceId: string)
    | DescribeVolume(volumeId: string, state: string)
    | DeleteVolume(volumeId: string)
    | RunInstance(imageId: string, userData: seq<string>)
    | CreateNameTag(instanceId: string, value: string)
    | DescribeInstance(instanceId: string, state: string)
    | AssociateAddress(instanceId: string, publicIp: string)

  /**
   * How many answers a poll for `target` reads: it reads one, then one more
   * while the last one read is not `target`, until the answers run out.
   */
  function Polled(answers: seq<string>, target: string): (n: nat)
    ensures n <= |answers|
    ensures n == 0 <==> answers == []
    ensures forall j :: 0 <= j < n - 1 ==> answers[j] != target
    ensures 0 < n < |answers| ==> answers[n - 1] == target
    decreases |answers|
  {
    if answers == [] then 0
    else if answers[0] == target then 1
    else 1 + Polled(answers[1..], target)
  }

  /** The poll ended because it saw `target`. */
  predicate Reached(answers: seq<string>, target: string)
  {
    var n := Polled(answers, target);
    n > 0 && answers[n - 1] == target
  }

  /** A poll ends exactly when `target` is among the answers, and then it stops at the first one. */
  lemma ReachedIff(answers: seq<string>, target: string)
    ensures Reached(answers, target) <==> target in answers
    ensures Reached(answers, target) ==> target !in answers[..Polled(answers, target) - 1]
  {
  }

  /** The `while not state == target` loop: the number of answers read before it stops. */
  method WaitFor(answers: seq<string>, target: string) returns (n: nat)
    ensures n == Polled(answers, target)
  {
    if answers == [] {
      return 0;
    }
    var state := answers[0];
    n := 1;
    while state != target && n < |answers|
      invariant 1 <= n <= |answers|
      invariant state == answers[n - 1]
      invariant forall j :: 0 <= j < n - 1 ==> answers[j] != target
    {
      state := answers[n];
      n := n + 1;
    }
  }

  /** The describe-volume calls of a poll that read `states`, one per state. */
  function VolumePolls(volumeId: string, states: seq<string>): (calls: seq<Call>)
    ensures |calls| == |states|
    ensures forall k :: 0 <= k < |states| ==> calls[k] == DescribeVolume(volumeId, states[k])
    decreases |states|
  {
    if states == [] then [] else [DescribeVolume(volumeId, states[0])] + VolumePolls(volumeId, states[1..])
  }

  /** The describe-instance calls of a poll that read `states`, one per state. */
  function InstancePolls(instanceId: string, states: seq<string>): (calls: seq<Call>)
    ensures |calls| == |states|
    ensures forall k :: 0 <= k < |states| ==> calls[k] == DescribeInstance(instanceId, states[k])
    decreases |states|
  {
    if states == [] then [] else [DescribeInstance(instanceId, states[0])] + InstancePolls(instanceId, states[1..])
  }
}
