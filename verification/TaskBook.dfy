/** The book-keeping of tasks and groups: `ip_port_map`, `all_task_ids` and the groups' task lists, as values. */
module TaskBook {

  datatype Addr = Addr(port: int, ip: string)

  /** `numTasks` is the number asked for at creation less the tasks deleted since; it is not clamped. */
  datatype Group = Group(app: string, numTasks: int, tasks: seq<string>)

  datatype Book = Book(
    ports: map<string, map<string, Addr>>,
    ids: map<string, seq<string>>,
    groups: map<string, Group>)

  // ----- lists without duplicates -----

  ghost predicate NoDup(s: seq<string>) {
    forall i, j :: 0 <= i < j < |s| ==> s[i] != s[j]
  }

  function Elements(s: seq<string>): set<string> { set x | x in s }

  lemma AppendApart(s: seq<string>, t: seq<string>)
    ensures Elements(s + t) == Elements(s) + Elements(t)
    ensures NoDup(s) && NoDup(t) && Elements(s) !! Elements(t) ==> NoDup(s + t)
  {
    assert forall x :: x in s + t <==> x in s || x in t;
    if NoDup(s) && NoDup(t) && Elements(s) !! Elements(t) {
      forall i, j | 0 <= i < j < |s + t|
        ensures (s + t)[i] != (s + t)[j]
      {
        if i < |s| <= j {
          assert s[i] in Elements(s) && t[j - |s|] in Elements(t);
        }
      }
    }
  }

  /** `s` without the members of `bad`, in order. */
  function Without(s: seq<string>, bad: set<string>): (r: seq<string>)
    ensures forall x :: x in r <==> x in s && x !in bad
  {
    if s == [] then []
    else
      var r := Without(s[..|s| - 1], bad);
      if s[|s| - 1] in bad then r else r + [s[|s| - 1]]
  }

  lemma {:induction false} WithoutNoDup(s: seq<string>, bad: set<string>)
    requires NoDup(s)
    ensures NoDup(Without(s, bad))
  {
    if s != [] {
      WithoutNoDup(s[..|s| - 1], bad);
    }
  }

  lemma {:induction false} WithoutNothing(s: seq<string>, bad: set<string>)
    requires forall x :: x in s ==> x !in bad
    ensures Without(s, bad) == s
  {
    if s != [] {
      WithoutNothing(s[..|s| - 1], bad);
    }
  }

  lemma {:induction false} WithoutSame(s: seq<string>, a: set<string>, b: set<string>)
    requires forall x :: x in s ==> (x in a <==> x in b)
    ensures Without(s, a) == Without(s, b)
  {
    if s != [] {
      WithoutSame(s[..|s| - 1], a, b);
    }
  }

  lemma {:induction false} WithoutTwice(s: seq<string>, a: set<string>, b: set<string>)
    ensures Without(Without(s, a), b) == Without(s, a + b)
  {
    if s != [] {
      var init, last := s[..|s| - 1], s[|s| - 1];
      WithoutTwice(init, a, b);
      if last !in a {
        assert Without(s, a)[..|Without(s, a)| - 1] == Without(init, a);
      }
    }
  }

  /** Python's `list.remove`: the first occurrence goes. */
  function RemoveFirst(s: seq<string>, x: string): seq<string>
    requires x in s
  {
    var init := s[..|s| - 1];
    if x in init then RemoveFirst(init, x) + [s[|s| - 1]] else init
  }

  lemma {:induction false} RemoveFirstIsWithout(s: seq<string>, x: string)
    requires NoDup(s) && x in s
    ensures RemoveFirst(s, x) == Without(s, {x})
  {
    var init := s[..|s| - 1];
    if x in init {
      RemoveFirstIsWithout(init, x);
    } else {
      WithoutNothing(init, {x});
    }
  }

  lemma {:induction false} NoDupCardinality(s: seq<string>)
    requires NoDup(s)
    ensures |Elements(s)| == |s|
  {
    if s != [] {
      var init := s[..|s| - 1];
      NoDupCardinality(init);
      assert Elements(s) == Elements(init) + {s[|s| - 1]};
    }
  }

  // ----- invariants -----

  ghost predicate GroupsApart(b: Book) {
    && (forall g :: g in b.groups ==> NoDup(b.groups[g].tasks))
    && (forall g, h, x :: g in b.groups && h in b.groups && x in b.groups[g].tasks && x in b.groups[h].tasks ==> g == h)
  }

  ghost predicate IdsAgree(b: Book) {
    forall app :: app in b.ports ==>
      app in b.ids && NoDup(b.ids[app]) && Elements(b.ids[app]) == b.ports[app].Keys
  }

  ghost predicate Good(b: Book) { GroupsApart(b) && IdsAgree(b) }

  // ----- group creation -----

  /** The test a random pick must pass: in no list of any registered group, and not picked already. The second
      half is only looked at once per registered group. */
  predicate Acceptable(groups: map<string, Group>, picked: seq<string>, id: string) {
    forall g :: g in groups ==> id !in groups[g].tasks && id !in picked
  }

  predicate InNoGroup(groups: map<string, Group>, id: string) {
    forall g :: g in groups ==> id !in groups[g].tasks
  }

  /** Why the new group is registered before sampling: only with some group registered does the test keep a
      task from being picked twice. */
  lemma RegistrationMatters(groups: map<string, Group>)
    ensures (forall picked, id :: Acceptable(groups, picked, id) <==> InNoGroup(groups, id) && id !in picked) <==>
            groups != map[]
  {
    if groups == map[] {
      assert Acceptable(groups, ["a"], "a") && InNoGroup(groups, "a") && "a" in ["a"];
    } else {
      var g :| g in groups;
    }
  }

  /** The tasks of an app that are in no group. */
  function Free(ids: seq<string>, groups: map<string, Group>): set<string> {
    set x | x in ids && InNoGroup(groups, x)
  }

  ghost predicate PickedSoFar(ids: seq<string>, groups: map<string, Group>, picked: seq<string>) {
    NoDup(picked) && forall x :: x in picked ==> x in Free(ids, groups)
  }

  /** Pigeonhole: at each turn of the sampling loop an acceptable pick exists exactly when fewer tasks have been
      picked than are free. */
  lemma AcceptablePickExists(ids: seq<string>, groups: map<string, Group>, picked: seq<string>)
    requires groups != map[] && PickedSoFar(ids, groups, picked)
    ensures (exists i :: 0 <= i < |ids| && Acceptable(groups, picked, ids[i])) <==> |picked| < |Free(ids, groups)|
  {
    RegistrationMatters(groups);
    NoDupCardinality(picked);
    var free, taken := Free(ids, groups), Elements(picked);
    assert taken <= free;
    if |picked| < |free| {
      assert |free - taken| == |free| - |taken|;
      var x :| x in free - taken;
      var i :| 0 <= i < |ids| && ids[i] == x;
      assert Acceptable(groups, picked, ids[i]);
    }
    if i :| 0 <= i < |ids| && Acceptable(groups, picked, ids[i]) {
      assert taken + {ids[i]} <= free && ids[i] !in taken;
      SubsetSize(taken + {ids[i]}, free);
    }
  }

  /** A request for `n` tasks can be met by some picks exactly when that many are free: the condition under which
      the sampling can end at all. */
  lemma FillableExactly(ids: seq<string>, groups: map<string, Group>, n: nat)
    requires groups != map[]
    ensures (exists picked :: PickedSoFar(ids, groups, picked) && |picked| == n) <==> n <= |Free(ids, groups)|
  {
    if picked :| PickedSoFar(ids, groups, picked) && |picked| == n {
      NoDupCardinality(picked);
      SubsetSize(Elements(picked), Free(ids, groups));
    }
    if n <= |Free(ids, groups)| {
      var picked := PicksFor(ids, groups, n);
    }
  }

  lemma {:induction false} PicksFor(ids: seq<string>, groups: map<string, Group>, n: nat) returns (picked: seq<string>)
    requires groups != map[] && n <= |Free(ids, groups)|
    ensures PickedSoFar(ids, groups, picked) && |picked| == n
  {
    if n == 0 {
      picked := [];
    } else {
      picked := PicksFor(ids, groups, n - 1);
      AcceptablePickExists(ids, groups, picked);
      var i :| 0 <= i < |ids| && Acceptable(groups, picked, ids[i]);
      PickExtends(ids, groups, picked, ids[i]);
      picked := picked + [ids[i]];
    }
  }

  lemma PickExtends(ids: seq<string>, groups: map<string, Group>, picked: seq<string>, id: string)
    requires groups != map[] && PickedSoFar(ids, groups, picked) && id in ids && Acceptable(groups, picked, id)
    ensures PickedSoFar(ids, groups, picked + [id])
  {
    RegistrationMatters(groups);
  }

  /** Registering an empty group leaves the free tasks as they are. */
  lemma RegisteringKeepsFree(ids: seq<string>, groups: map<string, Group>, name: string, g: Group)
    requires name !in groups && g.tasks == []
    ensures Free(ids, groups[name := g]) == Free(ids, groups)
  {
    forall x
      ensures InNoGroup(groups[name := g], x) <==> InNoGroup(groups, x)
    {
      if InNoGroup(groups[name := g], x) {
        forall h | h in groups
          ensures x !in groups[h].tasks
        {
          assert h in groups[name := g];
        }
      }
    }
  }

  /** What registering an empty group and adding the picked tasks to it makes of the book. */
  lemma PickedIsCreated(b: Book, name: string, g0: Group, picked: seq<string>, g: Group)
    requires g.app in b.ids && name !in b.groups && g0 == g.(tasks := [])
    requires PickedSoFar(b.ids[g.app], b.groups[name := g0], picked) && |picked| == Clamp(g.numTasks, |b.ids[g.app]|)
    requires NoDup(g.tasks) && Elements(g.tasks) == Elements(picked)
    ensures Created(b, name, g.app, g.numTasks, b.(groups := b.groups[name := g0][name := g]))
  {
    NoDupCardinality(g.tasks);
    NoDupCardinality(picked);
    RegisteringKeepsFree(b.ids[g.app], b.groups, name, g0);
    assert b.groups[name := g0][name := g] == b.groups[name := g];
    forall x | x in g.tasks
      ensures x in b.ids[g.app] && InNoGroup(b.groups, x)
    {
      assert x in Elements(g.tasks);
      assert x in picked;
    }
  }

  lemma {:induction false} SubsetSize(a: set<string>, b: set<string>)
    requires a <= b
    ensures |a| <= |b|
  {
    assert b == a + (b - a);
  }

  /** The number of members a request is clamped to. */
  function Clamp(requested: int, available: nat): nat {
    if requested < 0 then 0 else if requested > available then available else requested
  }

  /** A group of the given app as creation leaves it: as many distinct free tasks of the app as asked for. */
  ghost predicate Created(b: Book, name: string, app: string, requested: int, b': Book) {
    && app in b.ids && name !in b.groups && name in b'.groups
    && var g := b'.groups[name];
    && b' == b.(groups := b.groups[name := g])
    && g.app == app && g.numTasks == requested
    && NoDup(g.tasks) && |g.tasks| == Clamp(requested, |b.ids[app]|)
    && (forall x :: x in g.tasks ==> x in b.ids[app] && InNoGroup(b.groups, x))
  }

  /** A group of all tasks of the app if more are asked for, of exactly as many as asked for if there are that many,
      and of none for a negative request. */
  lemma CreatedSize(b: Book, name: string, app: string, requested: int, b': Book)
    requires Good(b) && app in b.ports && Created(b, name, app, requested, b')
    ensures var tasks, ids := b'.groups[name].tasks, b.ids[app];
            && (requested > |ids| ==> Elements(tasks) == Elements(ids))
            && (0 <= requested <= |ids| ==> |tasks| == requested)
            && (requested < 0 ==> tasks == [])
  {
    var tasks, ids := b'.groups[name].tasks, b.ids[app];
    NoDupCardinality(tasks);
    NoDupCardinality(ids);
    assert Elements(tasks) <= Elements(ids);
    if requested > |ids| && Elements(tasks) != Elements(ids) {
      var x :| x in Elements(ids) && x !in Elements(tasks);
      SubsetSize(Elements(tasks) + {x}, Elements(ids));
    }
  }

  // ----- the other operations -----

  /** The last `k` tasks of a group are gone. */
  ghost predicate TasksPopped(b: Book, name: string, k: nat, b': Book) {
    && name in b.groups && k <= |b.groups[name].tasks| && name in b'.groups
    && var g, g' := b.groups[name], b'.groups[name];
    && b' == b.(groups := b.groups[name := g'])
    && g'.tasks == g.tasks[..|g.tasks| - k] && g'.app == g.app
  }

  /** A fresh snapshot of one app from the cluster, which leaves the groups as they are. */
  ghost predicate Refreshed(b: Book, app: string, b': Book) {
    && app in b.ports && app in b'.ports && app in b'.ids
    && b' == b.(ports := b.ports[app := b'.ports[app]], ids := b.ids[app := b'.ids[app]])
    && NoDup(b'.ids[app]) && Elements(b'.ids[app]) == b'.ports[app].Keys
  }

  /** An app that is not known yet comes up with the tasks of a first snapshot. */
  ghost predicate Launched(b: Book, app: string, b': Book) {
    && app !in b.ports && app in b'.ports && app in b'.ids
    && b' == b.(ports := b.ports[app := b'.ports[app]], ids := b.ids[app := b'.ids[app]])
    && NoDup(b'.ids[app]) && Elements(b'.ids[app]) == b'.ports[app].Keys
  }

  /** One app's port map and task list have lost exactly the tasks in `bad`. */
  ghost predicate Gone(b: Book, name: string, bad: set<string>,
                       ports: map<string, map<string, Addr>>, ids: map<string, seq<string>>)
    requires name in b.ports && name in b.ids
  {
    && ports == b.ports[name := b.ports[name] - bad]
    && ids == b.ids[name := Without(b.ids[name], bad)]
  }

  lemma GoneNothing(b: Book, name: string)
    requires name in b.ports && name in b.ids
    ensures Gone(b, name, {}, b.ports, b.ids)
  {
    WithoutNothing(b.ids[name], {});
    assert b.ports[name] - {} == b.ports[name];
  }

  lemma GoneTwice(b: Book, name: string, bad: set<string>, mid: Book, more: set<string>,
                  ports: map<string, map<string, Addr>>, ids: map<string, seq<string>>)
    requires name in b.ports && name in b.ids && name in mid.ports && name in mid.ids
    requires Gone(b, name, bad, mid.ports, mid.ids) && Gone(mid, name, more, ports, ids)
    ensures Gone(b, name, bad + more, ports, ids)
  {
    WithoutTwice(b.ids[name], bad, more);
    assert b.ports[name] - bad - more == b.ports[name] - (bad + more);
  }

  function GroupsWithout(groups: map<string, Group>, bad: set<string>): map<string, Group> {
    map g | g in groups :: GroupWithout(groups[g], bad)
  }

  /** The noted tasks of each group are the ones in `bad` that it holds. */
  ghost predicate NotesFit(temp: map<string, seq<string>>, groups: map<string, Group>, bad: set<string>) {
    && temp.Keys == groups.Keys
    && forall g :: g in temp ==> NoDup(temp[g]) && Elements(temp[g]) == bad * Elements(groups[g].tasks)
  }

  function GroupWithout(g: Group, bad: set<string>): Group { g.(tasks := Without(g.tasks, bad)) }

  /** The book with the tasks of `bad` gone from one app and from every group. */
  function Removed(b: Book, app: string, bad: set<string>): Book
    requires app in b.ports && app in b.ids
  {
    Book(b.ports[app := b.ports[app] - bad],
         b.ids[app := Without(b.ids[app], bad)],
         GroupsWithout(b.groups, bad))
  }

  /** Afterwards none of the removed tasks is in the app's lists or in any group, every other task is where it was,
      and the groups keep their app and their count. */
  lemma RemovedExactly(b: Book, app: string, bad: set<string>)
    requires app in b.ports && app in b.ids
    ensures var b' := Removed(b, app, bad);
            && (forall x :: x in b'.ids[app] <==> x in b.ids[app] && x !in bad)
            && (forall x :: x in b'.ports[app] <==> x in b.ports[app] && x !in bad)
            && (forall x :: x in b'.ports[app] ==> b'.ports[app][x] == b.ports[app][x])
            && (forall other :: other != app ==> (other in b'.ids <==> other in b.ids) && (other in b'.ports <==> other in b.ports))
            && (forall other :: other != app && other in b.ids ==> b'.ids[other] == b.ids[other])
            && (forall other :: other != app && other in b.ports ==> b'.ports[other] == b.ports[other])
            && b'.groups.Keys == b.groups.Keys
            && (forall g, x :: g in b.groups ==> (x in b'.groups[g].tasks <==> x in b.groups[g].tasks && x !in bad))
            && (forall g :: g in b.groups ==> b'.groups[g].app == b.groups[g].app && b'.groups[g].numTasks == b.groups[g].numTasks)
  {
  }

  /** What is left of a list is left in its order. */
  lemma {:induction false} WithoutConcat(s: seq<string>, t: seq<string>, bad: set<string>)
    ensures Without(s + t, bad) == Without(s, bad) + Without(t, bad)
  {
    if t == [] {
      assert s + t == s;
    } else {
      assert (s + t)[..|s + t| - 1] == s + t[..|t| - 1];
      WithoutConcat(s, t[..|t| - 1], bad);
    }
  }

  datatype Op =
    | Launch(app: string)
    | Create(name: string, app: string, requested: int)
    | Drop(name: string)
    | DeleteTasks(name: string, k: nat, app: string, refreshed: bool)
    | RemoveTasks(app: string, bad: set<string>)
    | Refresh(app: string)
    | Forget(app: string)
    | Fail

  /** One operation, as a relation between the book before and after it. */
  ghost predicate Does(op: Op, b: Book, b': Book) {
    match op
    case Launch(app) => Launched(b, app, b')
    case Create(name, app, requested) => Created(b, name, app, requested, b')
    case Drop(name) => b' == b.(groups := b.groups - {name})
    case DeleteTasks(name, k, app, refreshed) =>
      exists mid: Book :: TasksPopped(b, name, k, mid)
                          && if refreshed then Refreshed(mid, app, b') else b' == mid
    case RemoveTasks(app, bad) => app in b.ports && app in b.ids && b' == Removed(b, app, bad)
    case Refresh(app) => Refreshed(b, app, b')
    case Forget(app) => b' == b.(ports := b.ports - {app})
    case Fail => b' == b
  }

  lemma CreatedKeepsGood(b: Book, name: string, app: string, requested: int, b': Book)
    requires Good(b) && Created(b, name, app, requested, b')
    ensures Good(b')
  {
    assert forall x :: x in b'.groups[name].tasks ==> InNoGroup(b.groups, x);
  }

  lemma PoppedKeepsGood(b: Book, name: string, k: nat, b': Book)
    requires Good(b) && TasksPopped(b, name, k, b')
    ensures Good(b')
  {
    forall g, x | g in b'.groups && x in b'.groups[g].tasks
      ensures x in b.groups[g].tasks
    {
    }
  }

  lemma RemovedKeepsGood(b: Book, app: string, bad: set<string>)
    requires Good(b) && app in b.ports
    ensures Good(Removed(b, app, bad))
  {
    var b' := Removed(b, app, bad);
    WithoutNoDup(b.ids[app], bad);
    assert Elements(b'.ids[app]) == b'.ports[app].Keys;
    forall g | g in b'.groups
      ensures NoDup(b'.groups[g].tasks)
    {
      WithoutNoDup(b.groups[g].tasks, bad);
    }
  }

  lemma OpKeepsGood(op: Op, b: Book, b': Book)
    requires Good(b) && Does(op, b, b')
    ensures Good(b')
  {
    match op
    case Create(name, app, requested) => CreatedKeepsGood(b, name, app, requested, b');
    case DeleteTasks(name, k, app, refreshed) =>
      var mid: Book :| TasksPopped(b, name, k, mid)
                       && if refreshed then Refreshed(mid, app, b') else b' == mid;
      PoppedKeepsGood(b, name, k, mid);
    case RemoveTasks(app, bad) => RemovedKeepsGood(b, app, bad);
    case _ =>
  }

  /** A history: books joined by operations. */
  ghost predicate History(ops: seq<Op>, books: seq<Book>) {
    |books| == |ops| + 1 && forall i :: 0 <= i < |ops| ==> Does(ops[i], books[i], books[i + 1])
  }

  lemma {:induction false} HistoryKeepsGood(ops: seq<Op>, books: seq<Book>)
    requires History(ops, books) && Good(books[0])
    ensures forall i :: 0 <= i < |books| ==> Good(books[i])
    decreases |ops|
  {
    if ops != [] {
      var n := |ops| - 1;
      assert Does(ops[n], books[n], books[n + 1]);
      HistoryKeepsGood(ops[..n], books[..n + 1]);
      assert Good(books[..n + 1][n]);
      OpKeepsGood(ops[n], books[n], books[n + 1]);
      forall i | 0 <= i < |books|
        ensures Good(books[i])
      {
        if i <= n {
          assert Good(books[..n + 1][i]);
        }
      }
    }
  }

  const EMPTY_BOOK := Book(map[], map[], map[])

  /** From the empty book, over every sequence of launching, refreshing and deleting apps, group creation, group
      deletion, task deletion and removal of unresponsive tasks: no group holds a task twice, no task is in two
      groups, and each app's task list is its port map. */
  lemma EveryHistoryGood(ops: seq<Op>, books: seq<Book>)
    requires History(ops, books) && books[0] == EMPTY_BOOK
    ensures forall i :: 0 <= i < |books| ==> Good(books[i])
  {
    assert Good(EMPTY_BOOK);
    HistoryKeepsGood(ops, books);
  }
}
