/**
 * The `instance-shutdown` command of cmd/instance-shutdown/main.go: check the
 * label/value flags, resolve the user's API access and account, select the
 * running instances (optionally those carrying a given label value), stop each
 * of them and log a stop event for every stop the provider accepts.
 */
module InstanceShutdown {
  import opened Options
  import opened Cloud
  import opened Store
  import opened Endpoints

  const Running := "running"

  /** Both of the `-label` and `-value` flags are given, or neither. */
  predicate FlagsConsistent(labelName: string, labelValue: string) {
    (labelName == "") == (labelValue == "")
  }

  /** The selection rule: running, and carrying `labelName` with exactly `labelValue` when a label is given. */
  predicate Selects(instance: Instance, labelName: string, labelValue: string) {
    && instance.state == Running
    && (labelName != "" ==> labelName in instance.labels && instance.labels[labelName] == labelValue)
  }

  /** The ids of the selected instances, in list order. */
  function Selection(instances: seq<Instance>, labelName: string, labelValue: string): seq<string> {
    if instances == [] then []
    else
      var last := instances[|instances| - 1];
      Selection(instances[..|instances| - 1], labelName, labelValue) + (if Selects(last, labelName, labelValue) then [last.id] else [])
  }

  /** The selection loop: append the id of every instance the rule selects. */
  method SelectForShutdown(instances: seq<Instance>, labelName: string, labelValue: string) returns (ids: seq<string>)
    ensures ids == Selection(instances, labelName, labelValue)
  {
    ids := [];
    var i := 0;
    while i < |instances|
      invariant 0 <= i <= |instances|
      invariant ids == Selection(instances[..i], labelName, labelValue)
    {
      var instance := instances[i];
      assert instances[..i + 1][..i] == instances[..i];
      if instance.state != Running {
        i := i + 1;
        continue;
      }
      if labelName != "" {
        if labelName in instance.labels && instance.labels[labelName] == labelValue {
          ids := ids + [instance.id];
        }
      } else {
        ids := ids + [instance.id];
      }
      i := i + 1;
    }
    assert instances[..i] == instances;
  }

  /** The selection distributes over concatenation: it keeps the list order and visits each instance once. */
  lemma {:induction false} SelectionAppend(a: seq<Instance>, b: seq<Instance>, labelName: string, labelValue: string)
    ensures Selection(a + b, labelName, labelValue) == Selection(a, labelName, labelValue) + Selection(b, labelName, labelValue)
    decreases |b|
  {
    if b == [] {
      assert a + b == a;
    } else {
      var b' := b[..|b| - 1];
      assert (a + b)[..|a + b| - 1] == a + b';
      SelectionAppend(a, b', labelName, labelValue);
    }
  }

  /** An id is selected exactly when some instance of the list with that id satisfies the rule. */
  lemma {:induction false} SelectionMembers(instances: seq<Instance>, labelName: string, labelValue: string, id: string)
    ensures id in Selection(instances, labelName, labelValue) <==>
      exists i :: 0 <= i < |instances| && instances[i].id == id && Selects(instances[i], labelName, labelValue)
  {
    if instances != [] {
      var init := instances[..|instances| - 1];
      SelectionMembers(init, labelName, labelValue, id);
      assert forall i :: 0 <= i < |init| ==> init[i] == instances[i];
    }
  }

  /** Only running instances are ever selected; with a labelName, only those carrying its labelValue. */
  lemma SelectedAreRunning(instances: seq<Instance>, labelName: string, labelValue: string, id: string)
    requires id in Selection(instances, labelName, labelValue)
    ensures exists i ::
      && 0 <= i < |instances| && instances[i].id == id && instances[i].state == Running
      && (labelName != "" ==> labelName in instances[i].labels && instances[i].labels[labelName] == labelValue)
  {
    SelectionMembers(instances, labelName, labelValue, id);
  }

  /** Without a labelName every running instance is selected. */
  lemma AllRunningWithoutLabel(instances: seq<Instance>, labelValue: string, i: int)
    requires 0 <= i < |instances| && instances[i].state == Running
    ensures instances[i].id in Selection(instances, "", labelValue)
  {
    SelectionMembers(instances, "", labelValue, instances[i].id);
  }

  /** The number of ids equals the number of instances the rule selects: none is added twice. */
  lemma {:induction false} SelectionCount(instances: seq<Instance>, labelName: string, labelValue: string)
    ensures |Selection(instances, labelName, labelValue)| == |set i | 0 <= i < |instances| && Selects(instances[i], labelName, labelValue)|
  {
    if instances != [] {
      var n := |instances| - 1;
      var init := instances[..n];
      SelectionCount(init, labelName, labelValue);
      var before := set i | 0 <= i < |init| && Selects(init[i], labelName, labelValue);
      var after := set i | 0 <= i < |instances| && Selects(instances[i], labelName, labelValue);
      assert before == set i | 0 <= i < n && Selects(instances[i], labelName, labelValue);
      if Selects(instances[n], labelName, labelValue) {
        assert after == before + {n};
      } else {
        assert after == before;
      }
    }
  }

  /**
   * Over a complete listing, the selection is exactly the provider's instances
   * the rule selects: each selected running instance gets a stop request.
   */
  lemma SelectionOfListing(instances: map<string, Instance>, listed: seq<Instance>, labelName: string, labelValue: string, id: string)
    requires Listing(instances, listed)
    ensures id in Selection(listed, labelName, labelValue) <==> id in instances && Selects(instances[id], labelName, labelValue)
  {
    SelectionMembers(listed, labelName, labelValue, id);
    if id in instances {
      var k :| 0 <= k < |listed| && listed[k].id == id;
      assert listed[k] == instances[id];
    }
  }

  /** The event log entries for a run's calls: one per stop the provider accepted, in order. */
  function StopEvents(accountId: int, calls: seq<Call>): seq<Event> {
    if calls == [] then []
    else
      var last := calls[|calls| - 1];
      StopEvents(accountId, calls[..|calls| - 1])
        + (if last.Stop? && last.ok then [Event(accountId, InstanceStop, "instance", last.id)] else [])
  }

  /** A stop event names exactly the instances whose stop succeeded, and all entries are stop events of the account. */
  lemma {:induction false} StopEventsExactly(accountId: int, calls: seq<Call>)
    ensures forall e :: e in StopEvents(accountId, calls) ==>
      e.accountId == accountId && e.kind == InstanceStop && e.infoKey == "instance" && Stop(e.infoVal, true) in calls
    ensures forall id :: Stop(id, true) in calls ==> Event(accountId, InstanceStop, "instance", id) in StopEvents(accountId, calls)
  {
    if calls != [] {
      var init := calls[..|calls| - 1];
      StopEventsExactly(accountId, init);
      assert calls == init + [calls[|calls| - 1]];
    }
  }

  /**
   * The stop loop: one stop request per id, in order; a refused stop is only
   * reported, an accepted one is logged as a stop event of the account.
   */
  method StopAll(db: Database, cloud: Provider, accountId: int, ids: seq<string>) returns (ghost made: seq<Call>)
    modifies db, cloud
    ensures cloud.calls == old(cloud.calls) + made
    ensures |made| == |ids| && forall k :: 0 <= k < |ids| ==> made[k] == Stop(ids[k], made[k].ok)
    ensures db.events == old(db.events) + StopEvents(accountId, made)
    ensures db.accounts == old(db.accounts) && db.resets == old(db.resets) && db.apiKeys == old(db.apiKeys)
    ensures cloud.instances == old(cloud.instances) && cloud.listable == old(cloud.listable)
  {
    made := [];
    var i := 0;
    while i < |ids|
      invariant 0 <= i <= |ids|
      invariant cloud.calls == old(cloud.calls) + made
      invariant |made| == i && forall k :: 0 <= k < i ==> made[k] == Stop(ids[k], made[k].ok)
      invariant db.events == old(db.events) + StopEvents(accountId, made)
      invariant db.accounts == old(db.accounts) && db.resets == old(db.resets) && db.apiKeys == old(db.apiKeys)
      invariant cloud.instances == old(cloud.instances) && cloud.listable == old(cloud.listable)
    {
      var ok := cloud.StopInstance(ids[i]);
      assert (made + [Stop(ids[i], ok)])[..i] == made;
      made := made + [Stop(ids[i], ok)];
      if ok {
        db.LogEvent(Event(accountId, InstanceStop, "instance", ids[i]));
      }
      i := i + 1;
    }
  }

  /**
   * The command. Exit code 1 for inconsistent flags, a user without API access
   * or without an account, or an instance list that cannot be read; nothing is
   * stopped or logged then. Otherwise the exit code is 0, every selected
   * instance of the listing is sent one stop request, in order, a refused stop
   * does not end the loop, and the log gains one stop event per accepted stop.
   */
  method ShutdownInstances(db: Database, cloud: Provider, labelName: string, labelValue: string, user: string)
    returns (exitCode: int, ghost listed: seq<Instance>, ghost made: seq<Call>)
    requires cloud.Valid()
    modifies db, cloud
    ensures exitCode == 0 || exitCode == 1
    ensures db.accounts == old(db.accounts) && db.resets == old(db.resets) && db.apiKeys == old(db.apiKeys)
    ensures cloud.instances == old(cloud.instances) && cloud.listable == old(cloud.listable)
    ensures exitCode == 0 <==>
      && FlagsConsistent(labelName, labelValue)
      && GetAPIAccess(old(db.accounts), old(db.apiKeys), user).Some?
      && AccountByName(old(db.accounts), user).Some?
      && old(cloud.listable)
    ensures exitCode == 1 ==> cloud.calls == old(cloud.calls) && db.events == old(db.events)
    ensures exitCode == 0 ==>
      && Listing(cloud.instances, listed)
      && var ids := Selection(listed, labelName, labelValue);
      && cloud.calls == old(cloud.calls) + made
      && |made| == |ids| && (forall k :: 0 <= k < |ids| ==> made[k] == Stop(ids[k], made[k].ok))
      && db.events == old(db.events) + StopEvents(AccountByName(old(db.accounts), user).value.id, made)
  {
    listed, made := [], [];
    if !FlagsConsistent(labelName, labelValue) {
      return 1, listed, made;
    }
    var api := GetAPIAccess(db.accounts, db.apiKeys, user);
    if api.None? {
      return 1, listed, made;
    }
    var account := AccountByName(db.accounts, user);
    if account.None? {
      return 1, listed, made;
    }
    var instances := cloud.GetInstances();
    if instances.None? {
      return 1, listed, made;
    }
    listed := instances.value;
    var ids := SelectForShutdown(instances.value, labelName, labelValue);
    made := StopAll(db, cloud, account.value.id, ids);
    return 0, listed, made;
  }
}
