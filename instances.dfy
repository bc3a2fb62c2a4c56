/**
 * Finding the service's running instance (`search_running_instances`) among
 * the reservations the provider lists for the account.
 */
module Instances {
  import opened Text
  import opened Outcomes

  datatype Tag = Tag(key: string, value: string)

  /** One EBS block-device mapping: the volume and whether termination deletes it. */
  datatype BlockDevice = BlockDevice(volumeId: string, deleteOnTermination: bool)

  /** An instance as listed; `tags` is `None` when the provider omits the `Tags` key. */
  datatype Instance = Instance(instanceId: string, state: string, tags: Option<seq<Tag>>, blockDevices: seq<BlockDevice>)

  datatype Reservation = Reservation(instances: seq<Instance>)

  /** What the search records of a matching instance. */
  datatype InstanceInfo = InstanceInfo(instanceId: string, instanceName: string, blockDevices: seq<BlockDevice>)

  /** The search reads only the first instance of a reservation, and its `Tags`; both must be there. */
  predicate Inspectable(r: Reservation)
  {
    |r.instances| > 0 && r.instances[0].tags.Some?
  }

  predicate AllInspectable(rs: seq<Reservation>)
  {
    forall i :: 0 <= i < |rs| ==> Inspectable(rs[i])
  }

  /** A tag of `inst` marks it as the service's running instance. */
  predicate IsHit(inst: Instance, tag: Tag, service: string)
  {
    tag.key == "Name" && Contains(tag.value, service) && StartsWith(inst.state, "running")
  }

  function Record(inst: Instance, tag: Tag): InstanceInfo
  {
    InstanceInfo(inst.instanceId, tag.value, inst.blockDevices)
  }

  /** One record per tag of `inst` that is a hit, in tag order. */
  function TagHits(inst: Instance, tags: seq<Tag>, service: string): seq<InstanceInfo>
    decreases |tags|
  {
    if tags == [] then []
    else
      var last := tags[|tags| - 1];
      TagHits(inst, tags[..|tags| - 1], service) + (if IsHit(inst, last, service) then [Record(inst, last)] else [])
  }

  /** The hits of every reservation's first instance, in reservation order. */
  function Hits(rs: seq<Reservation>, service: string): seq<InstanceInfo>
    requires AllInspectable(rs)
    decreases |rs|
  {
    if rs == [] then []
    else
      var last := rs[|rs| - 1].instances[0];
      Hits(rs[..|rs| - 1], service) + TagHits(last, last.tags.value, service)
  }

  /**
   * `search_running_instances`: the hits, of which there may be at most one
   * (more is exit 4; none is only a warning). A reservation without instances
   * or a first instance without tags makes the indexing raise.
   */
  method SearchRunningInstances(rs: seq<Reservation>, service: string) returns (r: Result<seq<InstanceInfo>>)
    ensures !AllInspectable(rs) ==> r == Fail(Crash)
    ensures AllInspectable(rs) && |Hits(rs, service)| > 1 ==> r == Fail(ManyInstances)
    ensures AllInspectable(rs) && |Hits(rs, service)| <= 1 ==> r == Ok(Hits(rs, service))
  {
    var found: seq<InstanceInfo> := [];
    for i := 0 to |rs|
      invariant AllInspectable(rs[..i])
      invariant found == Hits(rs[..i], service)
    {
      assert rs[..i + 1][..i] == rs[..i];
      if |rs[i].instances| == 0 || rs[i].instances[0].tags.None? {
        assert !Inspectable(rs[..|rs|][i]);
        return Fail(Crash);
      }
      var first := rs[i].instances[0];
      var tags := first.tags.value;
      ghost var before := found;
      for j := 0 to |tags|
        invariant found == before + TagHits(first, tags[..j], service)
      {
        assert tags[..j + 1][..j] == tags[..j];
        var tag := tags[j];
        if tag.key == "Name" && Contains(tag.value, service) && StartsWith(first.state, "running") {
          found := found + [InstanceInfo(first.instanceId, tag.value, first.blockDevices)];
        }
      }
      assert tags[..|tags|] == tags;
    }
    assert rs[..|rs|] == rs;
    if |found| > 1 {
      return Fail(ManyInstances);
    }
    return Ok(found);
  }

  /** Every hit records a running first instance whose `Name` tag contains the service. */
  lemma {:induction false} TagHitsSound(inst: Instance, tags: seq<Tag>, service: string)
    ensures |TagHits(inst, tags, service)| <= |tags|
    ensures forall h :: h in TagHits(inst, tags, service) ==>
      exists k :: 0 <= k < |tags| && IsHit(inst, tags[k], service) && h == Record(inst, tags[k])
    decreases |tags|
  {
    if tags != [] {
      var init := tags[..|tags| - 1];
      TagHitsSound(inst, init, service);
      forall h | h in TagHits(inst, tags, service)
        ensures exists k :: 0 <= k < |tags| && IsHit(inst, tags[k], service) && h == Record(inst, tags[k])
      {
        if h in TagHits(inst, init, service) {
          var k :| 0 <= k < |init| && IsHit(inst, init[k], service) && h == Record(inst, init[k]);
          assert tags[k] == init[k];
        } else {
          assert IsHit(inst, tags[|tags| - 1], service) && h == Record(inst, tags[|tags| - 1]);
        }
      }
    }
  }

  lemma {:induction false} TagHitsComplete(inst: Instance, tags: seq<Tag>, service: string, k: int)
    requires 0 <= k < |tags| && IsHit(inst, tags[k], service)
    ensures Record(inst, tags[k]) in TagHits(inst, tags, service)
    decreases |tags|
  {
    if k < |tags| - 1 {
      assert tags[..|tags| - 1][k] == tags[k];
      TagHitsComplete(inst, tags[..|tags| - 1], service, k);
    }
  }

  /** `h` records `inst` as the service's running instance. */
  predicate RecordOf(h: InstanceInfo, inst: Instance, service: string)
  {
    && h.instanceId == inst.instanceId
    && StartsWith(inst.state, "running")
    && inst.tags.Some? && Tag("Name", h.instanceName) in inst.tags.value
    && Contains(h.instanceName, service)
    && h.blockDevices == inst.blockDevices
  }

  /**
   * Each hit comes from the first instance of some reservation: it is
   * running, and the recorded name is a `Name` tag value containing the service.
   */
  lemma {:induction false} HitsSound(rs: seq<Reservation>, service: string)
    requires AllInspectable(rs)
    ensures forall h :: h in Hits(rs, service) ==>
      exists i :: 0 <= i < |rs| && RecordOf(h, rs[i].instances[0], service)
    decreases |rs|
  {
    if rs != [] {
      var init := rs[..|rs| - 1];
      assert AllInspectable(init) by {
        forall i | 0 <= i < |init| ensures Inspectable(init[i]) {
          assert init[i] == rs[i];
        }
      }
      HitsSound(init, service);
      var n := |rs| - 1;
      var last := rs[n].instances[0];
      TagHitsSound(last, last.tags.value, service);
      forall h | h in Hits(rs, service)
        ensures exists i :: 0 <= i < |rs| && RecordOf(h, rs[i].instances[0], service)
      {
        if h in Hits(init, service) {
          var i :| 0 <= i < |init| && RecordOf(h, init[i].instances[0], service);
          assert rs[i] == init[i];
        } else {
          var k :| 0 <= k < |last.tags.value| && IsHit(last, last.tags.value[k], service) && h == Record(last, last.tags.value[k]);
          assert last.tags.value[k] == Tag("Name", h.instanceName);
        }
      }
    }
  }

  /** Every running first instance with a `Name` tag containing the service is found. */
  lemma {:induction false} HitsComplete(rs: seq<Reservation>, service: string, i: int, k: int)
    requires AllInspectable(rs)
    requires 0 <= i < |rs| && 0 <= k < |rs[i].instances[0].tags.value|
    requires IsHit(rs[i].instances[0], rs[i].instances[0].tags.value[k], service)
    ensures Record(rs[i].instances[0], rs[i].instances[0].tags.value[k]) in Hits(rs, service)
    decreases |rs|
  {
    var init := rs[..|rs| - 1];
    assert AllInspectable(init) by {
      forall j | 0 <= j < |init| ensures Inspectable(init[j]) {
        assert init[j] == rs[j];
      }
    }
    if i < |rs| - 1 {
      assert init[i] == rs[i];
      HitsComplete(init, service, i, k);
    } else {
      var last := rs[i].instances[0];
      TagHitsComplete(last, last.tags.value, service, k);
    }
  }

  /** The search looks at the first instance of each reservation only: the others never matter. */
  lemma {:induction false} HitsIgnoreLaterInstances(rs: seq<Reservation>, rs': seq<Reservation>, service: string)
    requires AllInspectable(rs) && |rs'| == |rs|
    requires forall i :: 0 <= i < |rs| ==> |rs'[i].instances| > 0 && rs'[i].instances[0] == rs[i].instances[0]
    ensures AllInspectable(rs')
    ensures Hits(rs', service) == Hits(rs, service)
    decreases |rs|
  {
    if rs != [] {
      var n := |rs| - 1;
      HitsIgnoreLaterInstances(rs[..n], rs'[..n], service);
    }
  }

  /** Two reservations whose first instances are running and tagged for the service make the search exit 4. */
  lemma {:induction false} TwoRunningIsFatal(rs: seq<Reservation>, service: string, i: int, j: int)
    requires AllInspectable(rs) && 0 <= i < j < |rs|
    requires Tag("Name", service + " staging") in rs[i].instances[0].tags.value
    requires Tag("Name", service + " staging") in rs[j].instances[0].tags.value
    requires rs[i].instances[0].state == "running" && rs[j].instances[0].state == "running"
    ensures |Hits(rs, service)| > 1
  {
    var tag := Tag("Name", service + " staging");
    ContainsInfix([], service, " staging");
    assert [] + service + " staging" == service + " staging";
    assert StartsWith("running", "running");
    HitsAt(rs, service, i, tag);
    HitsAt(rs, service, j, tag);
    var hi := Record(rs[i].instances[0], tag);
    var hj := Record(rs[j].instances[0], tag);
    HitsSplit(rs, service, j);
    assert hi in Hits(rs[..j], service) by {
      assert rs[..j][i] == rs[i];
      assert AllInspectable(rs[..j]) by {
        forall m | 0 <= m < j ensures Inspectable(rs[..j][m]) {
          assert rs[..j][m] == rs[m];
        }
      }
      HitsAt(rs[..j], service, i, tag);
    }
    assert hj in Hits(rs[j..], service) by {
      assert rs[j..][0] == rs[j];
      assert AllInspectable(rs[j..]) by {
        forall m | 0 <= m < |rs| - j ensures Inspectable(rs[j..][m]) {
          assert rs[j..][m] == rs[j + m];
        }
      }
      HitsAt(rs[j..], service, 0, tag);
    }
  }

  /** A hit tag on a reservation's first instance puts its record among the hits. */
  lemma HitsAt(rs: seq<Reservation>, service: string, i: int, tag: Tag)
    requires AllInspectable(rs) && 0 <= i < |rs|
    requires tag in rs[i].instances[0].tags.value && IsHit(rs[i].instances[0], tag, service)
    ensures Record(rs[i].instances[0], tag) in Hits(rs, service)
  {
    var k :| 0 <= k < |rs[i].instances[0].tags.value| && rs[i].instances[0].tags.value[k] == tag;
    HitsComplete(rs, service, i, k);
  }

  /** The hits of a list are the hits of its front followed by those of its back. */
  lemma HitsSplit(rs: seq<Reservation>, service: string, j: int)
    requires AllInspectable(rs) && 0 <= j <= |rs|
    ensures AllInspectable(rs[..j]) && AllInspectable(rs[j..])
    ensures Hits(rs, service) == Hits(rs[..j], service) + Hits(rs[j..], service)
  {
    assert forall m :: 0 <= m < j ==> rs[..j][m] == rs[m];
    assert forall m :: 0 <= m < |rs| - j ==> rs[j..][m] == rs[j + m];
    assert rs[..j] + rs[j..] == rs;
    HitsAppend(rs[..j], rs[j..], service);
  }

  /** The hits of two lists one after the other are the hits of the first followed by those of the second. */
  lemma {:induction false} HitsAppend(a: seq<Reservation>, b: seq<Reservation>, service: string)
    requires AllInspectable(a) && AllInspectable(b)
    ensures AllInspectable(a + b)
    ensures Hits(a + b, service) == Hits(a, service) + Hits(b, service)
    decreases |b|
  {
    var c := a + b;
    forall m | 0 <= m < |c| ensures Inspectable(c[m]) {
      if m >= |a| {
        assert c[m] == b[m - |a|];
      }
    }
    if b == [] {
      assert c == a;
    } else {
      var n := |b| - 1;
      HitsAppend(a, b[..n], service);
      assert c[..|c| - 1] == a + b[..n];
      assert c[|c| - 1] == b[n];
    }
  }



}
