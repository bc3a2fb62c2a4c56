/**
 * The launcher's fixed configuration: the services it may be run for and the
 * reserved (Elastic IP) address that belongs to each of them.
 */
module Config {
  import opened Outcomes

  /** The only values argparse accepts for the positional `service` argument. */
  const SERVICES: seq<string> := ["stash", "confluence", "jira"]

  predicate IsService(s: string)
  {
    s in SERVICES
  }

  /** A reserved address: the public IP and its allocation id. */
  datatype Eip = Eip(ipAddress: string, allocationId: string)

  /** The reserved address table, keyed by `<service>_eip`. */
  const EIP: map<string, Eip> := map[
    "stash_eip" := Eip("192.0.2.1", "eipalloc-11111111"),
    "confluence_eip" := Eip("192.0.2.2", "eipalloc-11111111"),
    "jira_eip" := Eip("192.0.2.3", "eipalloc-11111111")
  ]

  /** argparse with `choices = SERVICES`: the argument itself, or a usage error. */
  function ParseService(arg: string): (r: Result<string>)
    ensures r.Ok? <==> IsService(arg)
    ensures r.Ok? ==> r.value == arg
    ensures r.Fail? ==> r.failure == UsageError
  {
    if arg in SERVICES then Ok(arg) else Fail(UsageError)
  }
}
