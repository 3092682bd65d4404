/** `AppGroup` and the group operations of `HydraBase`, as objects changed in place, against the task book. */
module HydraGroups {
  import opened Wrappers
  import opened TaskBook

  datatype Error = AssertionFailed | NameInUse | KeyMissing | Failed

  class AppGroup {
    const appName: string
    var numTasks: int
    var tasksList: seq<string>

    function View(): Group reads this { Group(appName, numTasks, tasksList) }

    constructor (appName: string, numTasks: int)
      ensures View() == Group(appName, numTasks, [])
    {
      this.appName := appName;
      this.numTasks := numTasks;
      tasksList := [];
    }

    /** Appends the tasks that are not members yet, each once; the order in which a set is walked is arbitrary. */
    method AddTasksToGroup(tasks: seq<string>)
      modifies this`tasksList
      ensures old(tasksList) <= tasksList
      ensures Elements(tasksList) == Elements(old(tasksList)) + Elements(tasks)
      ensures NoDup(old(tasksList)) ==> NoDup(tasksList)
    {
      var added := Listing(Elements(tasks) - Elements(tasksList));
      AppendApart(tasksList, added);
      tasksList := tasksList + added;
    }

    /** Pops up to `k` tasks off the end, killing each; stops at the first kill that raises. */
    method PopAndKill(k: int, killOk: string -> bool) returns (ok: bool, deleted: seq<string>)
      requires k <= |tasksList|
      modifies this`tasksList, this`numTasks
      ensures PopOutcome(old(View()), k, killOk, ok, deleted, View())
    {
      deleted := [];
      ghost var before := tasksList;
      var i := 0;
      while i < k
        invariant 0 <= i <= (if k < 0 then 0 else k) && tasksList == before[..|before| - i]
        invariant deleted == Reversed(before[|before| - i..]) && numTasks == old(numTasks) - i
        invariant AllKilled(before, i, killOk)
      {
        var last := tasksList[|tasksList| - 1];
        tasksList := tasksList[..|tasksList| - 1];
        assert before[|before| - i - 1..] == [last] + before[|before| - i..];
        assert tasksList == before[..|before| - i - 1];
        if !killOk(last) {
          assert before[|before| - (i + 1)] == last;
          return false, deleted;
        }
        numTasks := numTasks - 1;
        deleted := deleted + [last];
        i := i + 1;
      }
      ok := true;
    }

    method RemoveTasks(bad: seq<string>)
      requires NoDup(tasksList) && NoDup(bad) && Elements(bad) <= Elements(tasksList)
      modifies this`tasksList
      ensures tasksList == Without(old(tasksList), Elements(bad))
    {
      ghost var before := tasksList;
      WithoutNothing(before, {});
      assert Elements(bad[..0]) == {};
      for i := 0 to |bad|
        invariant tasksList == Without(before, Elements(bad[..i]))
      {
        ghost var done := Elements(bad[..i]);
        assert Elements(bad[..i + 1]) == done + {bad[i]};
        assert bad[i] in Elements(bad) && bad[i] !in done;
        WithoutNoDup(before, done);
        WithoutTwice(before, done, {bad[i]});
        RemoveFirstIsWithout(tasksList, bad[i]);
        tasksList := RemoveFirst(tasksList, bad[i]);
      }
      assert bad[..|bad|] == bad;
    }
  }

  /** Pings every task of a list; `None` if one of them has no address. The count of answers and the list of
      silent tasks, in order, add up to the list. */
  method PingAll(addrs: map<string, Addr>, taskList: seq<string>, pong: string -> bool)
    returns (r: Option<(nat, seq<string>)>)
    ensures r.None? <==> exists x :: x in taskList && x !in addrs
    ensures r.Some? ==> r.value.1 == Without(taskList, Answering(taskList, pong))
                        && r.value.0 + |r.value.1| == |taskList|
  {
    var cnt, removeList := 0, [];
    ghost var answering := Answering(taskList, pong);
    for i := 0 to |taskList|
      invariant forall j :: 0 <= j < i ==> taskList[j] in addrs
      invariant removeList == Without(taskList[..i], answering) && cnt + |removeList| == i && cnt >= 0
    {
      assert taskList[..i + 1][..i] == taskList[..i];
      if taskList[i] !in addrs {
        return None;
      }
      if pong(taskList[i]) {
        cnt := cnt + 1;
      } else {
        removeList := removeList + [taskList[i]];
      }
    }
    assert taskList[..|taskList|] == taskList;
    r := Some((cnt, removeList));
  }

  function Reversed(s: seq<string>): seq<string> {
    if s == [] then [] else Reversed(s[1..]) + [s[0]]
  }

  /** The deleted tasks are listed as they were popped: last first. */
  lemma {:induction false} ReversedAt(s: seq<string>, i: nat)
    requires i < |s|
    ensures |Reversed(s)| == |s| && Reversed(s)[i] == s[|s| - 1 - i]
  {
    if |s| > 1 {
      ReversedAt(s[1..], if i < |s| - 1 then i else 0);
    }
  }

  /** The effect of popping and killing the last `k` tasks. When a kill raises, the task it was for has left
      the group all the same, but the count of tasks still includes it. */
  ghost predicate PopOutcome(g: Group, k: int, killOk: string -> bool, ok: bool, deleted: seq<string>, g': Group)
    requires k <= |g.tasks|
  {
    var n, j := |g.tasks|, if k < 0 then 0 else k;
    && g'.app == g.app && g'.tasks <= g.tasks
    && if AllKilled(g.tasks, j, killOk) then
         ok && |g'.tasks| == n - j && deleted == Reversed(g.tasks[n - j..]) && g'.numTasks == g.numTasks - j
       else
         && !ok && n - j <= |g'.tasks| < n && !killOk(g.tasks[|g'.tasks|])
         && AllKilled(g.tasks, n - |g'.tasks| - 1, killOk) && g'.numTasks == g.numTasks - (n - |g'.tasks| - 1)
  }

  /** The tasks that left the group are those that were killed, and the count of tasks went down by as many,
      exactly if none of the kills asked for raises. */
  lemma PoppedAreKilledExactly(g: Group, k: int, killOk: string -> bool, ok: bool, deleted: seq<string>, g': Group)
    requires k <= |g.tasks| && PopOutcome(g, k, killOk, ok, deleted, g')
    ensures AllKilled(g.tasks, if k < 0 then 0 else k, killOk) <==>
            forall i :: |g'.tasks| <= i < |g.tasks| ==> killOk(g.tasks[i])
    ensures AllKilled(g.tasks, if k < 0 then 0 else k, killOk) <==>
            g.numTasks - g'.numTasks == |g.tasks| - |g'.tasks|
  {
  }

  /** A kill that raises, of the task at position `p` and of no other: the task still runs, but it is in the group
      no more and is still counted, and the tasks before it are not tried. */
  lemma FailingKillLosesTask(g: Group, k: nat, p: nat, killOk: string -> bool, ok: bool, deleted: seq<string>, g': Group)
    requires NoDup(g.tasks) && k <= |g.tasks| && |g.tasks| - k <= p < |g.tasks|
    requires forall i :: 0 <= i < |g.tasks| ==> (killOk(g.tasks[i]) <==> i != p)
    requires PopOutcome(g, k, killOk, ok, deleted, g')
    ensures !ok && g.tasks[p] !in g'.tasks
    ensures g' == Group(g.app, g.numTasks - (|g.tasks| - p - 1), g.tasks[..p])
  {
    assert !killOk(g.tasks[p]);
    assert !AllKilled(g.tasks, k, killOk);
    assert |g'.tasks| == p;
    assert g'.tasks == g.tasks[..p];
  }

  /** None of the kills of the last `k` tasks raises. */
  ghost predicate AllKilled(tasks: seq<string>, k: nat, killOk: string -> bool)
    requires k <= |tasks|
  {
    forall i :: |tasks| - k <= i < |tasks| ==> killOk(tasks[i])
  }

  function Answering(tasks: seq<string>, pong: string -> bool): set<string> { set x | x in tasks && pong(x) }

  function Silent(tasks: seq<string>, pong: string -> bool): set<string> { set x | x in tasks && !pong(x) }

  /** Some listing of a set. */
  method Listing(s: set<string>) returns (r: seq<string>)
    ensures NoDup(r) && Elements(r) == s && |r| == |s|
  {
    var todo := s;
    r := [];
    while todo != {}
      invariant NoDup(r) && Elements(r) !! todo && Elements(r) + todo == s
      decreases todo
    {
      var x :| x in todo;
      assert Elements(r + [x]) == Elements(r) + {x};
      r, todo := r + [x], todo - {x};
    }
    NoDupCardinality(r);
  }

  /** Random choices as positions; `Fair` says every position of every list comes up again and again. */
  ghost predicate Fair(picks: nat -> nat) {
    forall from: nat, n: nat, i: nat | i < n :: ComesUp(picks, from, n, i)
  }

  ghost predicate ComesUp(picks: nat -> nat, from: nat, n: nat, i: nat)
    requires i < n
  {
    exists k: nat :: k >= from && picks(k) % n == i
  }

  class HydraBase {
    var ports: map<string, map<string, Addr>>
    var allTaskIds: map<string, seq<string>>
    var appGroup: map<string, AppGroup>
    const picks: nat -> nat
    var draws: nat

    ghost predicate Valid() reads this`appGroup {
      forall g, h :: g in appGroup && h in appGroup && appGroup[g] == appGroup[h] ==> g == h
    }

    ghost function Groups(): map<string, Group> reads this`appGroup, appGroup.Values {
      map g | g in appGroup :: appGroup[g].View()
    }

    ghost function View(): Book reads this`ports, this`allTaskIds, this`appGroup, appGroup.Values {
      Book(ports, allTaskIds, Groups())
    }

    /** The check of one random pick, group by group. */
    method IsAcceptable(id: string, picked: seq<string>) returns (ok: bool)
      ensures ok <==> Acceptable(Groups(), picked, id)
    {
      var names := appGroup.Keys;
      ok := true;
      while names != {}
        invariant names <= appGroup.Keys
        invariant ok && forall g :: g in appGroup && g !in names ==> id !in appGroup[g].tasksList && id !in picked
        decreases names
      {
        var g :| g in names;
        if id in appGroup[g].tasksList || id in picked {
          assert g in Groups();
          ok := false;
          break;
        }
        names := names - {g};
      }
    }

    /** One turn of the sampling loop: draw until a pick is acceptable. */
    method DrawTask(ids: seq<string>, picked: seq<string>) returns (id: string)
      requires Fair(picks) && exists i :: 0 <= i < |ids| && Acceptable(Groups(), picked, ids[i])
      modifies this`draws
      ensures id in ids && Acceptable(Groups(), picked, id)
    {
      ghost var i :| 0 <= i < |ids| && Acceptable(Groups(), picked, ids[i]);
      assert ComesUp(picks, draws, |ids|, i);
      ghost var due: nat :| due >= draws && picks(due) % |ids| == i;
      while true
        invariant draws <= due
        decreases due - draws
      {
        id := ids[picks(draws) % |ids|];
        draws := draws + 1;
        var ok := IsAcceptable(id, picked);
        if ok {
          break;
        }
      }
    }

    /** Groups free tasks of an app at random. A group name in use and an unknown app are refused without any
        change. The call only returns if enough tasks are free: see `AcceptablePickExists`. */
    method CreateAppInstancesGroup(appName: string, groupName: string, num: int) returns (r: Result<AppGroup, Error>)
      requires Valid() && Good(View()) && Fair(picks)
      requires appName in ports && groupName !in appGroup ==>
                 Clamp(num, |allTaskIds[appName]|) <= |Free(allTaskIds[appName], Groups())|
      modifies this`appGroup, this`draws
      ensures Valid() && Good(View())
      ensures r.Err? ==> View() == old(View()) && r.error == if appName !in ports then AssertionFailed else NameInUse
      ensures r.Ok? <==> appName in ports && groupName !in old(appGroup)
      ensures r.Ok? ==> appGroup == old(appGroup)[groupName := r.value] && fresh(r.value)
                        && Created(old(View()), groupName, appName, num, View())
    {
      if appName !in ports {
        return Err(AssertionFailed);
      }
      if groupName in appGroup {
        return Err(NameInUse);
      }
      var group := new AppGroup(appName, num);
      ghost var before := View();
      RegisterAndFill(group, groupName, num);
      CreatedKeepsGood(before, groupName, appName, num, View());
      r := Ok(group);
    }

    method Register(group: AppGroup, groupName: string)
      requires Valid() && groupName !in appGroup && group !in appGroup.Values
      modifies this`appGroup
      ensures Valid() && appGroup == old(appGroup)[groupName := group]
      ensures View() == old(View()).(groups := old(Groups())[groupName := group.View()]) && groupName in Groups()
    {
      appGroup := appGroup[groupName := group];
    }

    method Fill(group: AppGroup, groupName: string, tasks: seq<string>)
      requires Valid() && groupName in appGroup && appGroup[groupName] == group && group.tasksList == []
      modifies group`tasksList
      ensures NoDup(group.tasksList) && Elements(group.tasksList) == Elements(tasks)
      ensures View() == old(View()).(groups := old(Groups())[groupName := group.View()])
    {
      group.AddTasksToGroup(tasks);
      assert forall g :: g in appGroup && g != groupName ==> appGroup[g] != group;
    }

    /** The new group is registered first, then filled. */
    method RegisterAndFill(group: AppGroup, groupName: string, num: int)
      requires Valid() && Fair(picks) && groupName !in appGroup && group !in appGroup.Values
      requires group.appName in allTaskIds && group.View() == Group(group.appName, num, [])
      requires Clamp(num, |allTaskIds[group.appName]|) <= |Free(allTaskIds[group.appName], Groups())|
      modifies this`appGroup, this`draws, group`tasksList
      ensures Valid() && appGroup == old(appGroup)[groupName := group]
      ensures Created(old(View()), groupName, group.appName, num, View())
    {
      ghost var before := View();
      var ids := allTaskIds[group.appName];
      RegisteringKeepsFree(ids, before.groups, groupName, group.View());
      Register(group, groupName);
      var tasksList := DrawTasks(ids, num);
      Fill(group, groupName, tasksList);
      PickedIsCreated(before, groupName, Group(group.appName, num, []), tasksList, group.View());
    }

    method DrawTasks(ids: seq<string>, num: int) returns (picked: seq<string>)
      requires Fair(picks) && Groups() != map[]
      requires Clamp(num, |ids|) <= |Free(ids, Groups())|
      modifies this`draws
      ensures PickedSoFar(ids, Groups(), picked) && |picked| == Clamp(num, |ids|)
    {
      var n := if num > |ids| then |ids| else num;
      picked := [];
      var x := 0;
      ghost var groups := Groups();
      while x < n
        invariant 0 <= x <= (if n < 0 then 0 else n) && |picked| == x
        invariant Groups() == groups && PickedSoFar(ids, groups, picked)
      {
        AcceptablePickExists(ids, groups, picked);
        var id := DrawTask(ids, picked);
        PickExtends(ids, groups, picked, id);
        picked := picked + [id];
        x := x + 1;
      }
    }

    /** Pops and kills the last `num` tasks of a group, then refreshes its app, if no kill raised. */
    method DeleteTasksFromGroup(groupName: string, group: AppGroup, num: int, killOk: string -> bool,
                                snapshot: map<string, Addr>)
      returns (r: Result<seq<string>, Error>)
      requires Valid() && Good(View()) && groupName in appGroup && appGroup[groupName] == group
      modifies this`ports, this`allTaskIds, group`tasksList, group`numTasks
      ensures Good(View())
      ensures var g, k := old(group.View()), if num > |old(group.tasksList)| then |old(group.tasksList)| else num;
              exists ok, deleted, mid: Book ::
                && PopOutcome(g, k, killOk, ok, deleted, group.View())
                && TasksPopped(old(View()), groupName, |g.tasks| - |group.tasksList|, mid)
                && if !ok then View() == mid && r == Err(Failed)
                   else if g.app !in old(ports) then View() == mid && r == Err(AssertionFailed)
                   else Refreshed(mid, g.app, View()) && ports[g.app] == snapshot
                        && r == if num < 0 then Err(Failed) else Ok(deleted)
    {
      ghost var before := View();
      ghost var tasks := group.tasksList;
      var current := |group.tasksList|;
      var k := if num > current then current else num;
      var popped, deleted := PopFromGroup(groupName, group, k, killOk);
      ghost var mid := View();
      if !popped {
        return Err(Failed);
      }
      var ok := RefreshAppInfo(group.appName, snapshot);
      if !ok {
        return Err(AssertionFailed);
      }
      OpKeepsGood(Refresh(group.appName), mid, View());
      if current - k != |group.tasksList| {
        return Err(Failed);
      }
      r := Ok(deleted);
    }

    /** The first half: popping and killing, seen from the book. */
    method PopFromGroup(groupName: string, group: AppGroup, k: int, killOk: string -> bool)
      returns (ok: bool, deleted: seq<string>)
      requires Valid() && Good(View()) && groupName in appGroup && appGroup[groupName] == group && k <= |group.tasksList|
      modifies group`tasksList, group`numTasks
      ensures Good(View())
      ensures PopOutcome(old(group.View()), k, killOk, ok, deleted, group.View())
      ensures TasksPopped(old(View()), groupName, |old(group.tasksList)| - |group.tasksList|, View())
    {
      ghost var before := View();
      ghost var n := |group.tasksList|;
      ok, deleted := group.PopAndKill(k, killOk);
      assert forall g :: g in appGroup && g != groupName ==> appGroup[g] != group;
      assert forall g :: g in Groups() && g != groupName ==> Groups()[g] == before.groups[g];
      assert Groups() == before.groups[groupName := group.View()];
      PoppedKeepsGood(before, groupName, n - |group.tasksList|, View());
    }

    method DeleteAppInstancesGroup(groupName: string) returns (ok: bool)
      requires Valid()
      modifies this`appGroup
      ensures Valid() && (ok <==> groupName in old(appGroup))
      ensures appGroup == old(appGroup) - {groupName}
      ensures View() == old(View()).(groups := old(Groups()) - {groupName})
    {
      ok := groupName in appGroup;
      if ok {
        appGroup := appGroup - {groupName};
      }
    }

    /** A new snapshot of the app's tasks; the groups are left alone, even if their tasks are gone. */
    method RefreshAppInfo(app: string, snapshot: map<string, Addr>) returns (ok: bool)
      requires Valid()
      modifies this`ports, this`allTaskIds
      ensures ok <==> app in old(ports)
      ensures ok ==> Refreshed(old(View()), app, View()) && ports[app] == snapshot
      ensures !ok ==> View() == old(View())
    {
      ok := app in ports;
      if ok {
        var keys := Listing(snapshot.Keys);
        ghost var before := View();
        ports, allTaskIds := ports[app := snapshot], allTaskIds[app := keys];
        assert View() == before.(ports := ports, ids := allTaskIds);
      }
    }

    /** A new app: known from now on, with the tasks of a first snapshot. */
    method CreateApp(app: string, snapshot: map<string, Addr>) returns (ok: bool)
      requires Valid() && Good(View())
      modifies this`ports, this`allTaskIds
      ensures Good(View()) && (ok <==> app !in old(ports))
      ensures ok ==> Launched(old(View()), app, View()) && ports[app] == snapshot
      ensures !ok ==> View() == old(View())
    {
      ok := app !in ports;
      if ok {
        ghost var before := View();
        ports := ports[app := map[]];
        ok := RefreshAppInfo(app, snapshot);
        assert View() == before.(ports := ports, ids := allTaskIds);
        OpKeepsGood(Launch(app), before, View());
      }
    }

    /** The first step of deleting an app: it is not known any more; its task list and groups are left alone. */
    method ForgetApp(app: string)
      requires Valid() && Good(View())
      modifies this`ports
      ensures Good(View()) && Does(Forget(app), old(View()), View())
    {
      if app in ports {
        ports := ports - {app};
      }
    }

    // ----- unresponsive tasks -----

    /** Takes one task out of the port map and the task list of an app. */
    method RemoveTask(name: string, item: string)
      requires name in ports && name in allTaskIds && item in allTaskIds[name] && NoDup(allTaskIds[name])
      modifies this`ports, this`allTaskIds
      ensures Gone(old(View()), name, {item}, ports, allTaskIds)
    {
      ports := ports[name := ports[name] - {item}];
      RemoveFirstIsWithout(allTaskIds[name], item);
      allTaskIds := allTaskIds[name := RemoveFirst(allTaskIds[name], item)];
    }

    /** Notes a task under every group that holds it. */
    method NoteBad(temp: map<string, seq<string>>, item: string) returns (noted: map<string, seq<string>>)
      requires temp.Keys == appGroup.Keys
      ensures noted.Keys == appGroup.Keys
      ensures forall g :: g in noted ==> noted[g] == temp[g] + if item in appGroup[g].tasksList then [item] else []
    {
      noted := temp;
      var names := appGroup.Keys;
      while names != {}
        invariant names <= appGroup.Keys && noted.Keys == temp.Keys
        invariant forall g :: g in names ==> noted[g] == temp[g]
        invariant forall g :: g in noted && g !in names ==>
                    noted[g] == temp[g] + if item in appGroup[g].tasksList then [item] else []
        decreases names
      {
        var g :| g in names;
        if item in appGroup[g].tasksList {
          noted := noted[g := noted[g] + [item]];
        }
        names := names - {g};
      }
    }

    method RemoveFromApp(name: string, removeList: seq<string>) returns (temp: map<string, seq<string>>)
      requires name in ports && name in allTaskIds && NoDup(allTaskIds[name])
      requires NoDup(removeList) && Elements(removeList) <= Elements(allTaskIds[name])
      modifies this`ports, this`allTaskIds
      ensures Gone(old(View()), name, Elements(removeList), ports, allTaskIds)
      ensures NotesFit(temp, Groups(), Elements(removeList))
    {
      temp := map g | g in appGroup :: [];
      ghost var before := View();
      GoneNothing(before, name);
      assert Elements(removeList[..0]) == {};
      for i := 0 to |removeList|
        invariant Gone(before, name, Elements(removeList[..i]), ports, allTaskIds)
        invariant NotesFit(temp, Groups(), Elements(removeList[..i]))
      {
        ghost var done := Elements(removeList[..i]);
        assert Elements(removeList[..i + 1]) == done + {removeList[i]};
        assert removeList[i] in Elements(removeList) && removeList[i] !in done;
        temp := RemoveNext(name, removeList[i], temp, before, done);
      }
      assert removeList[..|removeList|] == removeList;
    }

    method RemoveNext(name: string, item: string, temp: map<string, seq<string>>, ghost before: Book, ghost done: set<string>)
      returns (noted: map<string, seq<string>>)
      requires name in before.ports && name in before.ids && NoDup(before.ids[name])
      requires item in before.ids[name] && item !in done
      requires Gone(before, name, done, ports, allTaskIds) && NotesFit(temp, Groups(), done)
      modifies this`ports, this`allTaskIds
      ensures Gone(before, name, done + {item}, ports, allTaskIds) && NotesFit(noted, Groups(), done + {item})
    {
      WithoutNoDup(before.ids[name], done);
      ghost var mid := View();
      RemoveTask(name, item);
      GoneTwice(before, name, done, mid, {item}, ports, allTaskIds);
      noted := NoteNext(temp, item, done);
    }

    method NoteNext(temp: map<string, seq<string>>, item: string, ghost done: set<string>)
      returns (noted: map<string, seq<string>>)
      requires NotesFit(temp, Groups(), done) && item !in done
      ensures NotesFit(noted, Groups(), done + {item})
    {
      noted := NoteBad(temp, item);
      forall g | g in noted
        ensures NoDup(noted[g]) && Elements(noted[g]) == (done + {item}) * Elements(appGroup[g].tasksList)
      {
        AppendApart(temp[g], if item in appGroup[g].tasksList then [item] else []);
      }
    }

    /** The groups in `names` are as in `groups`; the others have lost the tasks in `bad`. */
    ghost predicate Cleaned(groups: map<string, Group>, names: set<string>, bad: set<string>)
      reads this`appGroup, appGroup.Values
    {
      && groups.Keys == appGroup.Keys
      && forall g :: g in appGroup ==>
           appGroup[g].View() == if g in names then groups[g] else GroupWithout(groups[g], bad)
    }

    method RemoveFromGroups(temp: map<string, seq<string>>, ghost bad: set<string>)
      requires Valid() && NotesFit(temp, Groups(), bad) && forall g :: g in Groups() ==> NoDup(Groups()[g].tasks)
      modifies appGroup.Values
      ensures Groups() == GroupsWithout(old(Groups()), bad)
    {
      RemoveFromEach(temp, Groups(), bad);
    }

    method RemoveFromEach(temp: map<string, seq<string>>, ghost groups: map<string, Group>, ghost bad: set<string>)
      requires Valid() && Cleaned(groups, temp.Keys, bad)
      requires NotesFit(temp, groups, bad) && forall g :: g in groups ==> NoDup(groups[g].tasks)
      modifies appGroup.Values
      ensures Cleaned(groups, {}, bad)
    {
      var names := temp.Keys;
      while names != {}
        invariant names <= temp.Keys && Cleaned(groups, names, bad)
        decreases names
      {
        var g :| g in names;
        RemoveFromGroup(g, temp[g], groups, names, bad);
        names := names - {g};
      }
    }

    method RemoveFromGroup(g: string, noted: seq<string>,
                           ghost groups: map<string, Group>, ghost names: set<string>, ghost bad: set<string>)
      requires Valid() && g in appGroup && g in names && Cleaned(groups, names, bad)
      requires NoDup(groups[g].tasks) && NoDup(noted) && Elements(noted) == bad * Elements(groups[g].tasks)
      modifies appGroup.Values
      ensures Cleaned(groups, names - {g}, bad)
    {
      WithoutSame(appGroup[g].tasksList, bad, Elements(noted));
      appGroup[g].RemoveTasks(noted);
    }

    /** The list a call works on: the tasks of an app, or of one group. */
    function Pinged(name: string, groupName: Option<string>): seq<string>
      requires name in allTaskIds && (groupName.Some? ==> groupName.value in appGroup)
      reads this`allTaskIds, this`appGroup, appGroup.Values
    {
      if groupName.Some? then appGroup[groupName.value].tasksList else allTaskIds[name]
    }

    /** Pings the app or one of its groups. Afterwards the silent tasks are gone from the app's task list and
        port map and from every group, everything else is as it was, in the same order; or nothing has changed,
        if the app or group is unknown or the group holds a task without an address. */
    method RemoveUnresponsiveTasks(name: string, groupName: Option<string>, pong: string -> bool)
      returns (r: Result<nat, Error>)
      requires Valid() && Good(View())
      modifies this`ports, this`allTaskIds, appGroup.Values
      ensures Good(View())
      ensures r.Err? ==> View() == old(View())
      ensures r == Err(AssertionFailed) <==> name !in old(ports) || (groupName.Some? && groupName.value !in appGroup)
      ensures r == Err(KeyMissing) <==>
                name in old(ports) && groupName.Some? && groupName.value in appGroup
                && exists x :: x in old(appGroup[groupName.value].tasksList) && x !in old(ports)[name]
      ensures r.Ok? <==> r != Err(AssertionFailed) && r != Err(KeyMissing)
      ensures r.Ok? ==> var pinged := old(Pinged(name, groupName));
                        && View() == Removed(old(View()), name, Silent(pinged, pong))
                        && r.value + |Silent(pinged, pong)| == |pinged|
    {
      if name !in ports || (groupName.Some? && groupName.value !in appGroup) {
        return Err(AssertionFailed);
      }
      PingedListGood(name, groupName);
      r := PingAndRemove(name, Pinged(name, groupName), pong);
    }

    /** Pings the tasks of a list and removes the silent ones. */
    method PingAndRemove(name: string, taskList: seq<string>, pong: string -> bool) returns (r: Result<nat, Error>)
      requires Valid() && Good(View()) && name in ports && name in allTaskIds && NoDup(taskList)
      modifies this`ports, this`allTaskIds, appGroup.Values
      ensures Good(View())
      ensures r.Err? ==> View() == old(View()) && r.error == KeyMissing
      ensures r.Err? <==> exists x :: x in taskList && x !in old(ports)[name]
      ensures r.Ok? ==> View() == Removed(old(View()), name, Silent(taskList, pong))
                        && r.value + |Silent(taskList, pong)| == |taskList|
    {
      var pinged := PingAll(ports[name], taskList, pong);
      if pinged.None? {
        return Err(KeyMissing);
      }
      var (cnt, removeList) := pinged.value;
      PingedListGood(name, None);
      SilentList(taskList, pong);
      RemovedKeepsGood(View(), name, Elements(removeList));
      RemoveSilent(name, removeList);
      r := Ok(cnt);
    }

    lemma PingedListGood(name: string, groupName: Option<string>)
      requires Good(View()) && name in ports && (groupName.Some? ==> groupName.value in appGroup)
      ensures name in allTaskIds && NoDup(allTaskIds[name]) && NoDup(Pinged(name, groupName))
      ensures forall g :: g in appGroup ==> NoDup(appGroup[g].tasksList)
      ensures groupName.None? ==> forall x :: x in Pinged(name, groupName) ==> x in ports[name]
      ensures forall x :: x in ports[name] ==> x in allTaskIds[name]
    {
      var b := View();
      assert name in b.ports;
      forall x | x in allTaskIds[name]
        ensures x in ports[name]
      {
        assert x in Elements(b.ids[name]);
      }
      forall x | x in ports[name]
        ensures x in allTaskIds[name]
      {
        assert x in Elements(b.ids[name]);
      }
      assert forall g :: g in appGroup ==> g in b.groups;
    }

    method RemoveSilent(name: string, removeList: seq<string>)
      requires Valid() && name in ports && name in allTaskIds && NoDup(allTaskIds[name])
      requires forall g :: g in appGroup ==> NoDup(appGroup[g].tasksList)
      requires NoDup(removeList) && Elements(removeList) <= Elements(allTaskIds[name])
      modifies this`ports, this`allTaskIds, appGroup.Values
      ensures View() == Removed(old(View()), name, Elements(removeList))
    {
      var temp := RemoveFromApp(name, removeList);
      RemoveFromGroups(temp, Elements(removeList));
    }
  }

  lemma SilentList(tasks: seq<string>, pong: string -> bool)
    requires NoDup(tasks)
    ensures var l := Without(tasks, Answering(tasks, pong));
            NoDup(l) && Elements(l) == Silent(tasks, pong) && |l| == |Silent(tasks, pong)|
  {
    WithoutNoDup(tasks, Answering(tasks, pong));
    NoDupCardinality(Without(tasks, Answering(tasks, pong)));
  }

  /** What pinging some of an app's tasks and removing the silent ones means for each task: one that was pinged and did
      not answer is nowhere afterwards, and any other is where it was. */
  lemma SilentGo(b: Book, app: string, tasks: seq<string>, pong: string -> bool, x: string)
    requires app in b.ports && app in b.ids
    ensures var b' := Removed(b, app, Silent(tasks, pong));
            if x in tasks && !pong(x) then
              x !in b'.ids[app] && x !in b'.ports[app] && forall g :: g in b'.groups ==> x !in b'.groups[g].tasks
            else
              && (x in b'.ids[app] <==> x in b.ids[app]) && (x in b'.ports[app] <==> x in b.ports[app])
              && forall g :: g in b.groups ==> (x in b'.groups[g].tasks <==> x in b.groups[g].tasks)
  {
    RemovedExactly(b, app, Silent(tasks, pong));
  }
}
