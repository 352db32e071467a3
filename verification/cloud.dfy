/**
 * The cloud provider as exoscale/exoscale.go exposes it: instances with their
 * labels and state, and start/stop calls. The provider is an oracle: reading one
 * instance may fail, whether a listing succeeds is part of its state, and every
 * start or stop is recorded with whether it succeeded.
 */
module Cloud {
  import opened Options

  datatype Instance = Instance(id: string, name: string, labels: map<string, string>, ip: string, state: string)

  /** Ownership is the `owner` label: present, and equal to the user's name. */
  predicate IsOwnedBy(instance: Instance, user: string) {
    "owner" in instance.labels && instance.labels["owner"] == user
  }

  /** `listed` holds the instances of `instances`, each of them exactly once, in some order. */
  ghost predicate Listing(instances: map<string, Instance>, listed: seq<Instance>) {
    && (forall k :: 0 <= k < |listed| ==> listed[k].id in instances && instances[listed[k].id] == listed[k])
    && (forall j, k :: 0 <= j < k < |listed| ==> listed[j].id != listed[k].id)
    && (forall id :: id in instances ==> exists k :: 0 <= k < |listed| && listed[k].id == id)
  }

  datatype Call = Start(id: string, ok: bool) | Stop(id: string, ok: bool)

  class Provider {
    /** The instances the provider knows, by id. */
    var instances: map<string, Instance>
    /** Every start and stop request sent, in order, with its outcome. */
    var calls: seq<Call>
    /** Whether the provider answers a request to list its instances. */
    var listable: bool

    constructor (instances: map<string, Instance>, listable: bool)
      ensures this.instances == instances && calls == [] && this.listable == listable
    {
      this.instances := instances;
      calls := [];
      this.listable := listable;
    }

    /** The instances are keyed by their own ids. */
    ghost predicate Valid()
      reads this
    {
      forall id :: id in instances ==> instances[id].id == id
    }

    /** `GetInstance(id)`: the instance, or an error (an unknown id always is one). */
    method GetInstance(id: string) returns (r: Option<Instance>)
      ensures r.Some? ==> id in instances && r.value == instances[id]
    {
      var ok: bool :| true;
      r := if ok && id in instances then Some(instances[id]) else None;
    }

    /** `GetInstances()`: every instance the provider knows, once each, in the provider's order, or an error. */
    method GetInstances() returns (r: Option<seq<Instance>>)
      requires Valid()
      ensures r.Some? <==> listable
      ensures r.Some? ==> Listing(instances, r.value)
    {
      if !listable {
        return None;
      }
      var listed: seq<Instance> := [];
      var left := instances.Keys;
      while left != {}
        invariant left <= instances.Keys
        invariant forall k :: 0 <= k < |listed| ==>
          listed[k].id in instances && listed[k].id !in left && instances[listed[k].id] == listed[k]
        invariant forall j, k :: 0 <= j < k < |listed| ==> listed[j].id != listed[k].id
        invariant forall id :: id in instances && id !in left ==> exists k :: 0 <= k < |listed| && listed[k].id == id
        decreases left
      {
        var id :| id in left;
        ghost var before := listed;
        listed := listed + [instances[id]];
        assert forall k :: 0 <= k < |before| ==> listed[k] == before[k];
        assert listed[|listed| - 1].id == id;
        left := left - {id};
      }
      r := Some(listed);
    }

    method StartInstance(id: string) returns (ok: bool)
      modifies this
      ensures calls == old(calls) + [Start(id, ok)] && instances == old(instances) && listable == old(listable)
    {
      ok :| true;
      calls := calls + [Start(id, ok)];
    }

    method StopInstance(id: string) returns (ok: bool)
      modifies this
      ensures calls == old(calls) + [Stop(id, ok)] && instances == old(instances) && listable == old(listable)
    {
      ok :| true;
      calls := calls + [Stop(id, ok)];
    }
  }
}
