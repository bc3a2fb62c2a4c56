# launch_staging, modelled in Dafny

`aws/launch_staging.py` rebuilds the staging instance of one Atlassian
service (`stash`, `confluence` or `jira`) in the provider's us-east-1 region.
It runs once, top to bottom:

1. It validates the service argument.
2. It finds the instance currently running for the service and terminates it.
   Each EBS volume that termination leaves behind is polled until it reports
   `available`, then deleted.
3. It finds the image built for the service in the last day (us-west-2), and
   derives the name of that image's copy.
4. It finds the copy in us-east-1 and launches a new instance from it. The
   boot script carries the service's host, node and Chef role names.
5. It tags the new instance `<service> staging`, polls until the instance is
   `running`, and binds the service's reserved (Elastic IP) address to it.

The model keeps the script's decisions and the order of its provider calls.
The provider's answers are inputs: image lists, reservations, the clock and
the states the polls read. Each run yields an outcome and the list of calls
it made.

| module | file | models |
|---|---|---|
| `Outcomes` | outcomes.dfy | `Option`, `Result` and the exit statuses |
| `Config` | config.dfy | the service allow-list, the reserved address table and argument parsing |
| `Text` | text.dfy | literal `re.search` (substring) and `re.match` (prefix), `str.split('-')` with its partner `join`, and ASCII `str.title` |
| `Naming` | naming.dfy | the derived names: DNS label, hostname, node name, role, `Name` tag and address key |
| `Images` | images.dfy | `find_ami` (a loop, proved against a filter function) and `get_ami_name` |
| `Instances` | instances.dfy | `search_running_instances` (nested loops, proved against a hit function) |
| `Trace` | trace.dfy | the provider calls and the `while not state == target` polling loop |
| `Teardown` | decommission.dfy | terminating the old instance and deleting the volumes it leaves behind |
| `Launch` | launch.dfy | the whole run, as a specification function and as the methods that follow the script |
| `StepOrder` | ordering.dfy | what the run's call sequence guarantees: what comes before which exit, and what happens only after which observation |

## Model

| member | source | states |
|---|---|---|
| Text.StartsWith | aws/launch_staging.py:63 | `re.match` on a literal: a prefix test; its use is stated by Instances.HitsSound and Instances.HitsComplete |
| Text.Contains | aws/launch_staging.py:34-37 | `re.search` on a literal: a substring test; stated by Text.ContainsIffOccurs |
| Text.Split | aws/launch_staging.py:49 | `str.split`: at least one field; stated by Text.SplitLength, Text.JoinSplit and Text.SplitJoin |
| Text.Join | aws/launch_staging.py:50 | joining fields with a separator, the partner of Text.Split; stated by Text.JoinSplit and Text.SplitJoin |
| Text.Title | aws/launch_staging.py:133 | ASCII `str.title`; stated by Text.TitleKeepsLetters, Text.TitleIdempotent and Naming.TitleOfLowerWord |
| Naming.ShortName | aws/launch_staging.py:128-131 | the DNS label; stated by Naming.ShortNameRule |
| Naming.Hostname | aws/launch_staging.py:134 | the hostname; its values are in Naming.NamesOfStash, Naming.NamesOfConfluence and Naming.NamesOfJira, and Naming.DerivedNamesDistinct |
| Naming.NodeName | aws/launch_staging.py:132 | the Chef node name; its values are in the Naming.NamesOf lemmas, and Naming.DerivedNamesDistinct |
| Naming.RoleName | aws/launch_staging.py:133 | the Chef role; stated by Naming.RoleNameCapitalised and Naming.RoleNameOf |
| Naming.TagName | aws/launch_staging.py:155 | the `Name` tag value; stated by Naming.TagNameFoundOnlyByOwnService and the Naming.NamesOf lemmas |
| Naming.EipKey | aws/launch_staging.py:167 | the key of the reserved address table; stated by Naming.EipDefined |
| Naming.EipAddress | aws/launch_staging.py:166-167 | the address bound to the new instance; stated by Naming.EipDefined, Naming.EipAddressOf and Naming.DerivedNamesDistinct |
| Images.IsFresh | aws/launch_staging.py:34 | the freshness test; stated by Images.FreshIffWithinDay |
| Images.Matches | aws/launch_staging.py:31-38 | the images `find_ami` keeps; stated by Images.MatchesSound, Images.MatchesComplete, Images.MatchesAppend and Images.MatchesEmptyIff |
| Instances.TagHits | aws/launch_staging.py:62-66 | the records made for one reservation; stated by Instances.TagHitsSound and Instances.TagHitsComplete |
| Instances.Hits | aws/launch_staging.py:61-66 | the records the search collects; stated by Instances.HitsSound, Instances.HitsComplete and Instances.HitsIgnoreLaterInstances |
| Trace.Reached | aws/launch_staging.py:162-165 | the poll ended on its wanted state; stated by Trace.ReachedIff |
| Teardown.KeptVolumes | aws/launch_staging.py:109-110 | the volumes the script deletes itself; stated by Teardown.KeptVolumesSound and Teardown.VolumeStepsDeletes |
| Teardown.VolumeSteps | aws/launch_staging.py:109-118 | the calls of the volume loop; stated by Teardown.VolumeStepsDeletes, Teardown.DeleteFollowsAvailable and Teardown.VolumeStepsTouchOnlyVolumes |
| Teardown.DecommissionSteps | aws/launch_staging.py:99-118 | the calls of the teardown; stated by Teardown.TerminatesFirstAndOnce and Teardown.NeverDeletesFlagged |
| Launch.RunSteps | aws/launch_staging.py:76-168 | the whole run; stated by the StepOrder lemmas on it |
| Launch.LaunchSteps | aws/launch_staging.py:121-168 | the run after the teardown; stated by StepOrder.LaunchStepsShape and StepOrder.LaunchStepsCompleted |
| Launch.ProvisionSteps | aws/launch_staging.py:144-168 | launch, tag, poll and binding; stated by StepOrder.ProvisionShape |
| Outcomes.ExitCode | aws/launch_staging.py:40-70 | every failure exits non-zero; no image is status 2, an ambiguous image is 3, several running instances are 4 |
| Config.ParseService | aws/launch_staging.py:76-80 | the argument is accepted exactly when it is one of the three services, and then unchanged; otherwise it is a usage error |
| Text.ContainsIffOccurs | aws/launch_staging.py:34-37 | the scanning substring test holds exactly when the pattern starts at some position of the text |
| Text.ContainsInfix | aws/launch_staging.py:63 | any text with the pattern written inside it matches |
| Text.ContainsKeepsLetters | aws/launch_staging.py:63 | a text that matches a pattern holds every character of the pattern |
| Text.SplitLength | aws/launch_staging.py:49 | splitting gives one field more than the text has separators |
| Text.SplitFieldsHaveNoSeparator | aws/launch_staging.py:49 | no field of a split contains the separator |
| Text.JoinSplit | aws/launch_staging.py:49 | joining the fields of a split with the separator gives the text back |
| Text.SplitJoin | aws/launch_staging.py:49 | splitting a join of separator-free fields gives the fields back |
| Text.SplitFreeHead | aws/launch_staging.py:49 | a separator-free head of a text stays whole at the start of the first field |
| Text.ToUpper | aws/launch_staging.py:133 | upper-casing turns each lower-case letter into its own upper-case counterpart and leaves every other character alone |
| Text.ToLower | aws/launch_staging.py:133 | lower-casing turns each upper-case letter into its own lower-case counterpart and leaves every other character alone |
| Text.TitleKeepsLetters | aws/launch_staging.py:133 | title casing keeps the length, which characters are letters, and every non-letter |
| Text.TitleIdempotent | aws/launch_staging.py:133 | title casing a title-cased text changes nothing |
| Naming.ShortNameRule | aws/launch_staging.py:127-131 | the DNS label is `docs` exactly for confluence; every other service keeps its own name |
| Naming.UserDataFields | aws/launch_staging.py:135-140 | the boot script takes four values, and the first two (the hostname, twice) are the same |
| Naming.EipDefined | aws/launch_staging.py:15-17 | every allowed service has an entry in the reserved address table, so the lookup at the end of the run never raises |
| Naming.EipAddressOf | aws/launch_staging.py:15-17 | the reserved address of stash, confluence and jira |
| Naming.TitleOfLowerWord | aws/launch_staging.py:133 | title casing a lower-case word capitalises its first letter and keeps the rest |
| Naming.AffixInjective | aws/launch_staging.py:132-134 | names that share the same fixed prefix and suffix are equal only when their middle parts are |
| Naming.RoleNameLength | aws/launch_staging.py:133 | the role name is 18 characters longer than the service name |
| Naming.ServiceIsLowerWord | aws/launch_staging.py:13 | every allowed service is a non-empty lower-case word |
| Naming.RoleNameCapitalised | aws/launch_staging.py:133 | the Chef role is `Atlassian-` + the service with its first letter capitalised + `-Staging` |
| Naming.RoleNameOf | aws/launch_staging.py:133 | the Chef roles are `Atlassian-Stash-Staging`, `Atlassian-Confluence-Staging` and `Atlassian-Jira-Staging` |
| Naming.NamesOfStash | aws/launch_staging.py:127-155 | the hostname, node name, tag and address used for stash |
| Naming.NamesOfConfluence | aws/launch_staging.py:127-155 | the hostname and node name use `docs` for confluence; its tag and address |
| Naming.NamesOfJira | aws/launch_staging.py:127-155 | the hostname, node name, tag and address used for jira |
| Naming.DerivedNamesDistinct | aws/launch_staging.py:127-168 | two different services never share a hostname, node name, role or reserved address |
| Naming.TagNameFoundOnlyByOwnService | aws/launch_staging.py:155 | the `Name` tag put on a new instance is matched by the next run's instance search for the same service, and for no other service |
| Images.FreshIffWithinDay | aws/launch_staging.py:34 | `(now - created).days < 1` holds exactly when the image is less than 86400 seconds old; images dated in the future count as fresh |
| Images.Pattern | aws/launch_staging.py:33-37 | the search pattern is the given image name when it is non-empty; an absent or empty name falls back to the service |
| Images.FindAmi | aws/launch_staging.py:27-44 | the loop keeps, in input order, exactly the images that are fresh and contain the pattern; it fails with "no images" exactly when there are none |
| Images.MatchesSound | aws/launch_staging.py:31-38 | every kept entry comes from an input image that is fresh and contains the pattern, and nothing is added |
| Images.MatchesComplete | aws/launch_staging.py:31-38 | every fresh input image that contains the pattern is kept |
| Images.MatchesAppend | aws/launch_staging.py:31-38 | filtering keeps input order: the matches of two lists in a row are the matches of each, in a row |
| Images.MatchesEmptyIff | aws/launch_staging.py:40-42 | exit 2 happens exactly when no input image is both fresh and matching |
| Images.StaleImagesExcluded | aws/launch_staging.py:34 | images a day old or older are never kept |
| Images.GetAmiName | aws/launch_staging.py:47-54 | any number of images other than one is exit 3; a derived copy name always contains a `-` |
| Images.GetAmiNameOfFields | aws/launch_staging.py:48-51 | for a name made of `-`-free fields, the copy name is the second and third field joined by `-` |
| Images.GetAmiNameDefinedIff | aws/launch_staging.py:49-50 | a single image yields a copy name exactly when its name has at least two `-`; otherwise the indexing raises |
| Images.GetAmiNameExample | aws/launch_staging.py:47-51 | the image `v-jira-20240101-abc` yields the copy name `jira-20240101` |
| Instances.SearchRunningInstances | aws/launch_staging.py:58-74 | the loops collect exactly the hits; more than one is exit 4; none or one is returned; a reservation without instances or an untagged first instance raises |
| Instances.TagHitsSound | aws/launch_staging.py:62-66 | each record made for an instance comes from a `Name` tag containing the service on an instance whose state starts with `running` |
| Instances.TagHitsComplete | aws/launch_staging.py:62-66 | each such tag is recorded |
| Instances.HitsSound | aws/launch_staging.py:61-66 | each hit records the first instance of some reservation: its id, its volumes, and a `Name` tag value containing the service, while it is running |
| Instances.HitsComplete | aws/launch_staging.py:61-66 | every running first instance with such a tag is found |
| Instances.HitsIgnoreLaterInstances | aws/launch_staging.py:62-66 | only the first instance of each reservation matters: changing the others changes nothing |
| Instances.TwoRunningIsFatal | aws/launch_staging.py:68-70 | two reservations whose first instances are running and tagged `<service> staging` make the search exit 4 |
| Instances.HitsAt | aws/launch_staging.py:61-66 | a hit tag on a reservation's first instance puts its record among the hits |
| Instances.HitsSplit | aws/launch_staging.py:61-66 | the hits of a list are the hits of its front followed by those of its back |
| Instances.HitsAppend | aws/launch_staging.py:61-66 | the hits of two lists in a row are the hits of each, in a row |
| Trace.Polled | aws/launch_staging.py:160-165 | a poll reads at least one answer when there is one, never reads past the wanted state, and stops early only on it |
| Trace.ReachedIff | aws/launch_staging.py:162 | the poll ends exactly when the wanted state is among the answers, and then at its first occurrence |
| Trace.WaitFor | aws/launch_staging.py:160-165 | the loop reads exactly as many answers as the poll specification says |
| Trace.VolumePolls | aws/launch_staging.py:111-116 | one describe-volume call per state read, in order |
| Trace.InstancePolls | aws/launch_staging.py:160-165 | one describe-instance call per state read, in order |
| Teardown.Decommission | aws/launch_staging.py:99-118 | the method terminates the instance and then, volume by volume, polls and deletes, making exactly the calls of the teardown specification |
| Teardown.DeletesAppend | aws/launch_staging.py:109-118 | the deletions of two call lists in a row are the deletions of each, in a row |
| Teardown.DeletesOfVolumePolls | aws/launch_staging.py:111-116 | polling deletes nothing |
| Teardown.VolumeStepsDeletes | aws/launch_staging.py:109-118 | a finished teardown deletes exactly the volumes not marked delete-on-termination, once per mapping, in mapping order; an unfinished one has deleted a leading part of them |
| Teardown.DeleteFollowsAvailable | aws/launch_staging.py:113-118 | every deletion comes right after a describe call that saw that volume `available` |
| Teardown.VolumeStepsTouchOnlyVolumes | aws/launch_staging.py:109-118 | the volume loop only describes and deletes volumes |
| Teardown.KeptVolumesSound | aws/launch_staging.py:109-110 | every volume to delete comes from a mapping not marked delete-on-termination |
| Teardown.NeverDeletesFlagged | aws/launch_staging.py:109-110 | with distinct volume ids, a volume marked delete-on-termination is never deleted by the script |
| Teardown.TerminatesFirstAndOnce | aws/launch_staging.py:108 | the teardown's first call terminates the found instance, and no later call terminates anything |
| Launch.Run | aws/launch_staging.py:76-168 | the script's top level makes exactly the calls, and ends with exactly the outcome, of the run specification |
| Launch.Relaunch | aws/launch_staging.py:121-168 | the image lookups, launch, tag, poll and binding follow the specification of the part after the teardown |
| Launch.Provision | aws/launch_staging.py:144-168 | launch, tag, poll and binding make exactly the calls the provisioning specification lists |
| StepOrder.ProvisionShape | aws/launch_staging.py:144-168 | provisioning launches once, first, with the service's boot values; it tags next; it makes only launch-side calls; it binds only right after a `running` poll; and a completed run ends with the service's address bound |
| StepOrder.LaunchTraceShape | aws/launch_staging.py:144-168 | a launch, a tag, instance polls and at most one binding after a final `running` poll keep the launch first and the binding after `running` |
| StepOrder.LaunchStepsShape | aws/launch_staging.py:121-168 | after the teardown, the run makes only launch-side calls, launches at most once and first, and binds only after `running` |
| StepOrder.TeardownShape | aws/launch_staging.py:108-118 | the teardown only terminates, describes volumes and deletes volumes |
| StepOrder.UsageErrorFirst | aws/launch_staging.py:78-79 | an argument outside the allow-list ends the run before any provider call |
| StepOrder.ManyInstancesBeforeAnyCall | aws/launch_staging.py:68-70 | the run exits 4 exactly when more than one running instance is found, and then it has made no call |
| StepOrder.NoRunningInstanceOnlyWarns | aws/launch_staging.py:71-72 | with no running instance found, the run goes straight on to the launch, and terminates and deletes nothing |
| StepOrder.TeardownOnlyOfTheOneRunningInstance | aws/launch_staging.py:99-118 | a termination or deletion happens only when exactly one running instance was found; it terminates that instance and deletes only volumes it leaves behind |
| StepOrder.TeardownCallIsInTeardown | aws/launch_staging.py:99-118 | a termination or deletion in the run is a call of the teardown of the single running instance found |
| StepOrder.NonLaunchCallInPrefix | aws/launch_staging.py:99-168 | when only launch-side calls follow the teardown, any other call lies within the teardown |
| StepOrder.RunStepsCalls | aws/launch_staging.py:97-168 | past the instance search, the run makes the teardown's calls and then, if the teardown ends, the launch's |
| StepOrder.LaunchCallsDeleteNothing | aws/launch_staging.py:144-168 | the calls after the teardown delete no volume |
| StepOrder.RunDeletesKeptVolumes | aws/launch_staging.py:98-168 | over a whole run with one running instance found, the deleted volumes are exactly its mappings not marked delete-on-termination, once each, in order, unless the run is stuck; a stuck run has deleted a leading part of them |
| StepOrder.DeletedIsKept | aws/launch_staging.py:109-118 | a deleted volume belongs to any list that the deletions are a prefix of |
| StepOrder.ImageChecksAfterTermination | aws/launch_staging.py:98-123 | an exit at the image steps comes after the found instance was terminated and its volumes handled, with nothing launched |
| StepOrder.TwoFreshImagesExit3 | aws/launch_staging.py:121-122 | two fresh matching images give exit 3 right after the teardown, and nothing is launched |
| StepOrder.AssociateOnlyAfterRunning | aws/launch_staging.py:160-168 | the address is bound only to the new instance, and only right after it was seen `running` |
| StepOrder.AssociatesAfterPrefix | aws/launch_staging.py:160-168 | calls in front that bind nothing keep every binding right after its `running` poll |
| StepOrder.LaunchedOnceAfterPrefix | aws/launch_staging.py:144-168 | calls in front that launch nothing keep a single launch, its tag and the final binding |
| StepOrder.LaunchStepsCompleted | aws/launch_staging.py:121-168 | a completed launch part launched once with the service's boot values, tagged that launch right after it, and bound the service's address last |
| StepOrder.CompletedRun | aws/launch_staging.py:76-168 | a completed run was for an allowed service; it launched exactly once, tagged that instance `<service> staging` right after launching it, and bound the service's address as its last call |

## Left out

- The provider is not called. Its answers are inputs to the model: the listed images, the reservations, each volume's and the new instance's successive states, and the new instance's id. So are the clock readings of the two image searches. `time.sleep` has no counterpart.
- A `describe_*` call whose answer is an input is not recorded as a call: the image lists and the instance search. Only the polls' describe calls are recorded, together with the state each one read.
- A poll that never sees its wanted state would loop forever in the script. Here it reads a finite list of answers, and when the list runs out the run ends as `Stalled`.
- Creation dates are given already parsed to seconds since the epoch. `dateutil` parsing and time zones are not modelled. `timedelta.days` is floor division of the elapsed seconds by 86400.
- `re.search` and `re.match` are modelled for literal patterns only, as substring and prefix tests. The patterns used are service names and image names, which hold no regular-expression metacharacters in practice. A `.` in an image name is matched literally here.
- `str.title` is modelled for ASCII letters only.
- Printing is not modelled. The "No running instances found" warning shows up only as a run that goes on to the launch.
- The copy of each block-device mapping into `running_instance_ebs` is modelled as using the mappings directly. It keeps the same volume ids and flags in the same order.
- The launch request's fixed parameters (instance type, counts, subnet, security group, public-IP flag) and the boot script's fixed text are not modelled. The launch is recorded with the image id and the four values put into the boot script.
- The address table's allocation ids are kept but never used. This matches the script, which binds by public IP.
- As written, the `stash_eip` entry at line 15 is not valid Python (`''192.0.2.1`). The model reads it as the address `192.0.2.1`, like the two other entries.
- Launch.Provision, Launch.Relaunch: the lookup of the reserved address is modelled as a crash (status 1) when the key is missing, as a `KeyError` would be. Naming.EipDefined shows this never happens for an allowed service.
- Instances.SearchRunningInstances: a reservation without instances, or a first instance without a `Tags` key, is a crash (status 1), as the script's indexing raises there. Missing `InstanceId`, `State` or `BlockDeviceMappings` keys are not modelled: those fields are always present in the model.
- Images.GetAmiName: a name with fewer than two `-` is a crash (status 1), as the script's indexing raises there.
- Every provider call succeeds in the model, and every describe answer holds the resource asked about. Not modelled:
  - a write call that raises, such as `associate_address` with reassociation refused when the address is bound elsewhere, or a failing `terminate_instances`, `delete_volume`, `run_instances` or `create_tags`;
  - a `describe_volumes` answer with no volume, which raises at lines 112 and 116;
  - a `describe_instances` answer with no reservation right after the launch, which raises at lines 161 and 165;
  - a block-device mapping without an `Ebs` key, which raises at line 104.
  An empty list of poll answers reads as `Stalled` here, not as a crash.
- The two image searches do not run in the order of the script's reads. In the script, both image lists are fetched at lines 89-94, before the instance search. Since those reads are inputs here, only their results matter.

The image checks (lines 121-123) run after the old instance was terminated
and its volumes deleted (lines 98-118). So whenever a running instance was
found, two fresh matching images end the run with status 3 only after those
writes. Only when no running instance exists does that exit come before any
write call. See StepOrder.ImageChecksAfterTermination and
StepOrder.TwoFreshImagesExit3.
