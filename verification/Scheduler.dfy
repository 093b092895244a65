// The action scheduler of the build front end: a queue of tasks whose hard dependencies
// are queued on demand and whose order dependencies are moved forward if queued.
module Scheduler {
  type Name = string

  datatype Action = Action(dependencies: seq<Name>, orderDependencies: seq<Name>)

  // A queued task; tasks of the same action are told apart by their identity.
  datatype Task = Task(name: Name, identity: nat)

  function Names(queue: seq<Task>): set<Name> {
    set t | t in queue :: t.name
  }

  // The dictionary from names to queued tasks: the last task of a name wins.
  function TasksDict(queue: seq<Task>): (d: map<Name, Task>)
    ensures d.Keys == Names(queue)
    ensures forall n :: n in d ==> d[n] in queue && d[n].name == n
  {
    if queue == [] then map[]
    else
      var rest := queue[..|queue| - 1];
      assert queue == rest + [queue[|queue| - 1]];
      TasksDict(rest)[queue[|queue| - 1].name := queue[|queue| - 1]]
  }

  // It is the last task of that name.
  lemma {:induction false} LastTaskWins(queue: seq<Task>, i: nat)
    requires i < |queue| && forall j :: i < j < |queue| ==> queue[j].name != queue[i].name
    ensures queue[i].name in TasksDict(queue) && TasksDict(queue)[queue[i].name] == queue[i]
    decreases |queue|
  {
    if i < |queue| - 1 {
      var rest := queue[..|queue| - 1];
      LastTaskWins(rest, i);
    }
  }

  predicate Closed(actions: map<Name, Action>, s: set<Name>) {
    forall n :: n in s && n in actions ==> forall d :: d in actions[n].dependencies ==> d in s
  }

  // In every set that holds the request and is closed under hard dependencies.
  ghost predicate Needed(actions: map<Name, Action>, request: set<Name>, n: Name) {
    forall s: set<Name> :: request <= s && Closed(actions, s) ==> n in s
  }

  // Hard dependencies are known actions, and no action depends on itself through hard or
  // order dependencies.
  ghost predicate Acyclic(actions: map<Name, Action>, rank: Name -> nat) {
    forall n :: n in actions ==>
      && (forall d :: d in actions[n].dependencies ==> d in actions && rank(d) < rank(n))
      && (forall d :: d in actions[n].orderDependencies ==> rank(d) < rank(n))
  }

  function ToSet(s: seq<Name>): set<Name> {
    set n | n in s
  }

  // The queue with the given task moved to the front.
  function ToFront(queue: seq<Task>, t: Task): (r: seq<Task>)
    requires t in queue
    ensures |r| == |queue| && r[0] == t
    ensures multiset(r) == multiset(queue)
  {
    var i := IndexOf(queue, t);
    assert queue == queue[..i] + [t] + queue[i + 1..];
    [t] + queue[..i] + queue[i + 1..]
  }

  function IndexOf(queue: seq<Task>, t: Task): (i: nat)
    requires t in queue
    ensures i < |queue| && queue[i] == t && t !in queue[..i]
  {
    if queue[0] == t then 0 else 1 + IndexOf(queue[1..], t)
  }

  lemma {:induction false} IndexIs(queue: seq<Task>, t: Task, i: nat)
    requires i < |queue| && queue[i] == t && t !in queue[..i]
    ensures IndexOf(queue, t) == i
    decreases i
  {
    if i > 0 {
      assert queue[0] == queue[..i][0];
      assert queue[1..][..i - 1] == queue[..i][1..];
      IndexIs(queue[1..], t, i - 1);
    }
  }

  // Moves the given task to the front of the queue.
  method MoveToFront(queue: seq<Task>, t: Task) returns (r: seq<Task>)
    requires t in queue
    ensures r == ToFront(queue, t)
  {
    var i := 0;
    while queue[i] != t
      invariant 0 <= i < |queue| && t in queue[i..] && t !in queue[..i]
      decreases |queue| - i
    {
      i := i + 1;
    }
    IndexIs(queue, t, i);
    r := [t] + queue[..i] + queue[i + 1..];
  }

  lemma SameElements(a: seq<Task>, b: seq<Task>)
    requires multiset(a) == multiset(b)
    ensures forall t :: t in a <==> t in b
    ensures Names(a) == Names(b)
  {
    forall t
      ensures t in a <==> t in b
    {
      assert t in a <==> t in multiset(a);
      assert t in b <==> t in multiset(b);
    }
  }

  // The names that have not run yet, in the given order.
  function Missing(deps: seq<Name>, completed: set<Name>): (r: seq<Name>)
    ensures forall d :: d in r <==> d in deps && d !in completed
    decreases |deps|
  {
    if deps == [] then []
    else
      var d, rest := deps[|deps| - 1], deps[..|deps| - 1];
      assert deps == rest + [d];
      if d in completed then Missing(rest, completed) else Missing(rest, completed) + [d]
  }

  // A new task for each of the names, the last one first and under an identity of its own.
  function NewTasks(names: seq<Name>, unused: nat): (r: seq<Task>) {
    seq(|names|, i requires 0 <= i < |names| => Task(names[|names| - 1 - i], unused + |names| - 1 - i))
  }

  // Queues the hard dependencies that have not run yet, each in front of the others.
  method AddDependencies(deps: seq<Name>, queue0: seq<Task>, completed: set<Name>, unused0: nat)
    returns (queue: seq<Task>, ready: bool, unused: nat)
    ensures var missing := Missing(deps, completed);
      queue == NewTasks(missing, unused0) + queue0 && unused == unused0 + |missing|
    ensures ready <==> forall d :: d in deps ==> d in completed
    ensures ready ==> queue == queue0
    ensures !ready ==> queue != [] && queue[0].name in deps && queue[0].name !in completed
    ensures forall t :: t in queue0 ==> t in queue
    ensures Names(queue) == Names(queue0) + (ToSet(deps) - completed)
  {
    hide Names, Missing, NewTasks;
    assert deps[..0] == [];
    queue, ready, unused := queue0, true, unused0;
    NoNewTasks(queue0, completed, unused0);
    for k := 0 to |deps|
      invariant ready <==> Missing(deps[..k], completed) == []
      invariant unused == unused0 + |Missing(deps[..k], completed)|
      invariant queue == NewTasks(Missing(deps[..k], completed), unused0) + queue0
    {
      MissingNext(deps, k, completed);
      if deps[k] !in completed {
        OneNewTask(Missing(deps[..k], completed), deps[k], unused0, queue0);
        queue := [Task(deps[k], unused)] + queue;
        unused := unused + 1;
        ready := false;
      }
    }
    assert deps[..|deps|] == deps;
    AddedFacts(queue, queue0, deps, completed, unused0);
  }

  lemma NoNewTasks(queue: seq<Task>, completed: set<Name>, unused: nat)
    ensures Missing([], completed) == [] && queue == NewTasks([], unused) + queue
  {
  }

  lemma OneNewTask(names: seq<Name>, n: Name, unused: nat, queue: seq<Task>)
    ensures NewTasks(names + [n], unused) + queue == [Task(n, unused + |names|)] + (NewTasks(names, unused) + queue)
  {
  }

  lemma MissingNext(deps: seq<Name>, k: nat, completed: set<Name>)
    requires k < |deps|
    ensures var m := Missing(deps[..k], completed);
      Missing(deps[..k + 1], completed) == if deps[k] in completed then m else m + [deps[k]]
  {
    assert deps[..k + 1][..k] == deps[..k];
  }

  lemma AddedFacts(queue: seq<Task>, queue0: seq<Task>, deps: seq<Name>, completed: set<Name>, unused: nat)
    requires queue == NewTasks(Missing(deps, completed), unused) + queue0
    ensures var missing := Missing(deps, completed);
      && (missing == [] <==> forall d :: d in deps ==> d in completed)
      && (missing == [] ==> queue == queue0)
      && (missing != [] ==> queue != [] && queue[0].name in missing)
    ensures forall t :: t in queue0 ==> t in queue
    ensures Names(queue) == Names(queue0) + (ToSet(deps) - completed)
  {
    hide Missing;
    var missing := Missing(deps, completed);
    if missing != [] {
      assert missing[0] in missing;
    }
    forall n | n in Names(queue0) + (ToSet(deps) - completed)
      ensures n in Names(queue)
    {
      if n in Names(queue0) {
        var t :| t in queue0 && t.name == n;
        NameOf(queue, t);
      } else {
        var i :| 0 <= i < |missing| && missing[i] == n;
        NameOf(queue, queue[|missing| - 1 - i]);
      }
    }
    forall n | n in Names(queue)
      ensures n in Names(queue0) + (ToSet(deps) - completed)
    {
      var i :| 0 <= i < |queue| && queue[i].name == n;
      if i < |missing| {
        assert n in missing;
      } else {
        NameOf(queue0, queue0[i - |missing|]);
      }
    }
  }

  // The queue with the order dependencies moved to the front that are queued and have not run.
  function Advanced(queue0: seq<Task>, deps: seq<Name>, tasksDict: map<Name, Task>,
      completed: set<Name>): (r: seq<Task>)
    requires forall n :: n in tasksDict ==> tasksDict[n] in queue0
    ensures multiset(r) == multiset(queue0)
    decreases |deps|
  {
    if deps == [] then queue0
    else
      var d := deps[|deps| - 1];
      var q := Advanced(queue0, deps[..|deps| - 1], tasksDict, completed);
      SameElements(q, queue0);
      if d in tasksDict && d !in completed then ToFront(q, tasksDict[d]) else q
  }

  lemma AdvancedNext(queue0: seq<Task>, deps: seq<Name>, k: nat, tasksDict: map<Name, Task>, completed: set<Name>)
    requires k < |deps| && forall n :: n in tasksDict ==> tasksDict[n] in queue0
    ensures var q := Advanced(queue0, deps[..k], tasksDict, completed);
      && (deps[k] in tasksDict ==> tasksDict[deps[k]] in q)
      && Advanced(queue0, deps[..k + 1], tasksDict, completed) ==
         if deps[k] in tasksDict && deps[k] !in completed then ToFront(q, tasksDict[deps[k]]) else q
  {
    hide ToFront;
    assert deps[..k + 1][..k] == deps[..k];
    SameElements(Advanced(queue0, deps[..k], tasksDict, completed), queue0);
  }

  // Moves the queued order dependencies that have not run yet to the front.
  method AdvanceDependencies(deps: seq<Name>, queue0: seq<Task>, tasksDict: map<Name, Task>, completed: set<Name>,
      ready0: bool)
    returns (queue: seq<Task>, ready: bool)
    requires forall n :: n in tasksDict ==> tasksDict[n] in queue0 && tasksDict[n].name == n
    ensures queue == Advanced(queue0, deps, tasksDict, completed)
    ensures ready <==> ready0 && forall d :: d in deps && d in tasksDict ==> d in completed
    ensures ready ==> queue == queue0
    ensures !ready ==>
      (queue == queue0 && !ready0) || (queue != [] && queue[0].name in deps && queue[0].name !in completed)
    ensures multiset(queue) == multiset(queue0) && Names(queue) == Names(queue0)
  {
    hide Advanced, ToFront;
    assert deps[..0] == [];
    queue, ready := queue0, ready0;
    NoneAdvanced(queue0, tasksDict, completed);
    for k := 0 to |deps|
      invariant queue == Advanced(queue0, deps[..k], tasksDict, completed)
      invariant ready <==> ready0 && forall j :: 0 <= j < k && deps[j] in tasksDict ==> deps[j] in completed
      invariant ready ==> queue == queue0
      invariant !ready ==>
        (queue == queue0 && !ready0) || (queue != [] && queue[0].name in deps && queue[0].name !in completed)
    {
      AdvancedNext(queue0, deps, k, tasksDict, completed);
      if deps[k] in tasksDict && deps[k] !in completed {
        queue := MoveToFront(queue, tasksDict[deps[k]]);
        ready := false;
      }
    }
    assert deps[..|deps|] == deps;
    SameElements(queue, queue0);
  }

  lemma NoneAdvanced(queue0: seq<Task>, tasksDict: map<Name, Task>, completed: set<Name>)
    requires forall n :: n in tasksDict ==> tasksDict[n] in queue0
    ensures Advanced(queue0, [], tasksDict, completed) == queue0
  {
  }

  // ---------- the order of the queue ----------

  // The tasks of the queue that are not in the set, in order.
  function Others(queue: seq<Task>, moved: set<Task>): seq<Task> {
    if queue == [] then [] else (if queue[0] in moved then [] else [queue[0]]) + Others(queue[1..], moved)
  }

  lemma {:induction false} OthersConcat(a: seq<Task>, b: seq<Task>, moved: set<Task>)
    ensures Others(a + b, moved) == Others(a, moved) + Others(b, moved)
  {
    if a == [] {
      assert a + b == b;
    } else {
      assert (a + b)[0] == a[0] && (a + b)[1..] == a[1..] + b;
      OthersConcat(a[1..], b, moved);
      var h := if a[0] in moved then [] else [a[0]];
      assert h + (Others(a[1..], moved) + Others(b, moved)) == h + Others(a[1..], moved) + Others(b, moved);
    }
  }

  lemma OthersOne(t: Task, moved: set<Task>)
    requires t in moved
    ensures Others([t], moved) == []
  {
    assert [t][1..] == [];
  }

  lemma OthersAround(a: seq<Task>, t: Task, b: seq<Task>, moved: set<Task>)
    requires t in moved
    ensures Others(a + [t] + b, moved) == Others(a, moved) + Others(b, moved)
    ensures Others([t] + a + b, moved) == Others(a, moved) + Others(b, moved)
  {
    OthersOne(t, moved);
    hide Others;
    OthersConcat(a + [t], b, moved);
    OthersConcat(a, [t], moved);
    OthersConcat([t] + a, b, moved);
    OthersConcat([t], a, moved);
    assert Others(a, moved) + [] == Others(a, moved) == [] + Others(a, moved);
  }

  lemma OthersToFront(queue: seq<Task>, t: Task, moved: set<Task>)
    requires t in queue && t in moved
    ensures Others(ToFront(queue, t), moved) == Others(queue, moved)
  {
    hide Others;
    var i := IndexOf(queue, t);
    OthersAround(queue[..i], t, queue[i + 1..], moved);
    assert queue == queue[..i] + [t] + queue[i + 1..];
  }

  // The order dependencies that are moved, as tasks.
  function MovedTasks(deps: seq<Name>, tasksDict: map<Name, Task>, completed: set<Name>): set<Task> {
    set d | d in deps && d in tasksDict && d !in completed :: tasksDict[d]
  }

  // All other tasks keep their order.
  lemma {:induction false} OthersStay(queue0: seq<Task>, deps: seq<Name>, tasksDict: map<Name, Task>,
      completed: set<Name>, moved: set<Task>)
    requires forall n :: n in tasksDict ==> tasksDict[n] in queue0
    requires MovedTasks(deps, tasksDict, completed) <= moved
    ensures Others(Advanced(queue0, deps, tasksDict, completed), moved) == Others(queue0, moved)
    decreases |deps|
  {
    hide ToFront, Others;
    if deps != [] {
      var d, rest := deps[|deps| - 1], deps[..|deps| - 1];
      assert deps == rest + [d];
      assert MovedTasks(rest, tasksDict, completed) <= MovedTasks(deps, tasksDict, completed);
      OthersStay(queue0, rest, tasksDict, completed, moved);
      var q := Advanced(queue0, rest, tasksDict, completed);
      SameElements(q, queue0);
      if d in tasksDict && d !in completed {
        assert tasksDict[d] in MovedTasks(deps, tasksDict, completed);
        OthersToFront(q, tasksDict[d], moved);
      }
    }
  }

  // The order dependencies that are moved, in the order given.
  function Pending(deps: seq<Name>, tasksDict: map<Name, Task>, completed: set<Name>): seq<Name>
    decreases |deps|
  {
    if deps == [] then []
    else
      var d, p := deps[|deps| - 1], Pending(deps[..|deps| - 1], tasksDict, completed);
      if d in tasksDict && d !in completed then p + [d] else p
  }

  // The tasks of the names, the last one first.
  function LastFirst(names: seq<Name>, tasksDict: map<Name, Task>): (r: seq<Task>)
    requires forall n :: n in names ==> n in tasksDict
    ensures |r| == |names|
  {
    seq(|names|, i requires 0 <= i < |names| => tasksDict[names[|names| - 1 - i]])
  }

  lemma LastFirstNext(names: seq<Name>, n: Name, tasksDict: map<Name, Task>)
    requires n in tasksDict && forall m :: m in names ==> m in tasksDict
    ensures LastFirst(names + [n], tasksDict) == [tasksDict[n]] + LastFirst(names, tasksDict)
  {
  }

  lemma FrontStays(queue: seq<Task>, front: seq<Task>, t: Task)
    requires t in queue && front <= queue && t !in front
    ensures [t] + front <= ToFront(queue, t)
  {
    var k := IndexOf(queue, t);
    forall i | 0 <= i < |front|
      ensures queue[i] != t
    {
      assert front[i] in front;
    }
    assert k >= |front|;
    assert ToFront(queue, t) == [t] + front + (queue[|front|..k] + queue[k + 1..]);
  }

  // Of different order dependencies the last one comes first.
  lemma {:induction false} LastNamedFirst(queue0: seq<Task>, deps: seq<Name>, tasksDict: map<Name, Task>,
      completed: set<Name>)
    requires forall n :: n in tasksDict ==> tasksDict[n] in queue0 && tasksDict[n].name == n
    requires forall i, j :: 0 <= i < j < |deps| ==> deps[i] != deps[j]
    ensures var p := Pending(deps, tasksDict, completed);
      && (forall n :: n in p ==> n in deps && n in tasksDict)
      && LastFirst(p, tasksDict) <= Advanced(queue0, deps, tasksDict, completed)
    decreases |deps|
  {
    if deps != [] {
      var d, rest := deps[|deps| - 1], deps[..|deps| - 1];
      assert deps == rest + [d];
      LastNamedFirst(queue0, rest, tasksDict, completed);
      var p, q := Pending(rest, tasksDict, completed), Advanced(queue0, rest, tasksDict, completed);
      SameElements(q, queue0);
      if d in tasksDict && d !in completed {
        var f := LastFirst(p, tasksDict);
        forall i | 0 <= i < |f|
          ensures f[i] != tasksDict[d]
        {
          assert f[i].name in p && f[i].name in rest;
        }
        hide ToFront, LastFirst;
        FrontStays(q, f, tasksDict[d]);
        LastFirstNext(p, d, tasksDict);
      }
    }
  }

  // Of two hard dependencies that have not run, the later one is queued in front.
  lemma {:induction false} LaterFirst(deps: seq<Name>, completed: set<Name>, unused: nat, i: nat, j: nat)
    returns (a: nat, b: nat)
    requires i < j < |deps| && deps[i] !in completed && deps[j] !in completed
    ensures var r := NewTasks(Missing(deps, completed), unused);
      a < b < |r| && r[a].name == deps[j] && r[b].name == deps[i]
    decreases |deps|
  {
    var n, m := |deps| - 1, Missing(deps, completed);
    var rest := deps[..n];
    var p := Missing(rest, completed);
    if j == n {
      assert rest[i] in p;
      var k :| 0 <= k < |p| && p[k] == deps[i];
      assert m == p + [deps[j]];
      a, b := 0, |m| - 1 - k;
    } else {
      a, b := LaterFirst(rest, completed, unused, i, j);
      if deps[n] !in completed {
        assert m == p + [deps[n]];
        a, b := a + 1, b + 1;
      }
    }
  }

  // Every task named y has one named x in front of it.
  ghost predicate Ahead(queue: seq<Task>, x: Name, y: Name) {
    forall j :: 0 <= j < |queue| && queue[j].name == y ==> NamedBefore(queue, j, x)
  }

  ghost predicate NamedBefore(queue: seq<Task>, j: nat, x: Name)
    requires j <= |queue|
  {
    exists i :: 0 <= i < j && queue[i].name == x
  }

  lemma FrontNotBehind(queue: seq<Task>, x: Name, y: Name)
    requires queue != [] && queue[0].name == y
    ensures !Ahead(queue, x, y)
  {
    assert !NamedBefore(queue, 0, x);
  }

  lemma AheadAdded(tasks: seq<Task>, queue: seq<Task>, x: Name, y: Name)
    requires Ahead(queue, x, y) && forall i :: 0 <= i < |tasks| ==> tasks[i].name != y
    ensures Ahead(tasks + queue, x, y)
  {
    var q := tasks + queue;
    forall j | 0 <= j < |q| && q[j].name == y
      ensures NamedBefore(q, j, x)
    {
      assert j >= |tasks|;
      assert NamedBefore(queue, j - |tasks|, x);
      var i :| 0 <= i < j - |tasks| && queue[i].name == x;
      assert q[i + |tasks|].name == x;
    }
  }

  lemma AheadToFront(queue: seq<Task>, t: Task, x: Name, y: Name)
    requires Ahead(queue, x, y) && t in queue && t.name != y
    ensures Ahead(ToFront(queue, t), x, y)
  {
    var k, q := IndexOf(queue, t), ToFront(queue, t);
    forall j | 0 <= j < |q| && q[j].name == y
      ensures NamedBefore(q, j, x)
    {
      var o := if j <= k then j - 1 else j;
      assert queue[o].name == y && NamedBefore(queue, o, x);
      var i :| 0 <= i < o && queue[i].name == x;
      var i' := if i < k then i + 1 else if i == k then 0 else i;
      assert q[i'] == queue[i];
    }
  }

  lemma {:induction false} AheadAdvanced(queue0: seq<Task>, deps: seq<Name>, tasksDict: map<Name, Task>,
      completed: set<Name>, x: Name, y: Name)
    requires forall n :: n in tasksDict ==> tasksDict[n] in queue0 && tasksDict[n].name == n
    requires Ahead(queue0, x, y) && y !in deps
    ensures Ahead(Advanced(queue0, deps, tasksDict, completed), x, y)
    decreases |deps|
  {
    hide Ahead, ToFront;
    if deps != [] {
      var d, rest := deps[|deps| - 1], deps[..|deps| - 1];
      AheadAdvanced(queue0, rest, tasksDict, completed, x, y);
      var q := Advanced(queue0, rest, tasksDict, completed);
      SameElements(q, queue0);
      if d in tasksDict && d !in completed {
        AheadToFront(q, tasksDict[d], x, y);
      }
    }
  }

  // ---------- the loop as a state machine ----------

  // The queue, the completed tasks, and the first identity not used yet.
  datatype State = State(queue: seq<Task>, completed: set<Name>, unused: nat)

  predicate AtKnown(actions: map<Name, Action>, s: State) {
    s.queue != [] && s.queue[0].name in actions
  }

  // The task in front can run: its hard dependencies have, and so have its order dependencies
  // that are queued.
  predicate Ready(actions: map<Name, Action>, s: State)
    requires AtKnown(actions, s)
  {
    var a := actions[s.queue[0].name];
    (forall d :: d in a.dependencies ==> d in s.completed)
    && forall d :: d in a.orderDependencies && d in Names(s.queue) ==> d in s.completed
  }

  // One turn of the loop.
  function Next(actions: map<Name, Action>, s: State): State
    requires AtKnown(actions, s)
  {
    var a := actions[s.queue[0].name];
    var missing := Missing(a.dependencies, s.completed);
    if Ready(actions, s) then State(s.queue[1..], s.completed + {s.queue[0].name}, s.unused)
    else
      State(Advanced(NewTasks(missing, s.unused) + s.queue, a.orderDependencies, TasksDict(s.queue), s.completed),
        s.completed, s.unused + |missing|)
  }

  // The turn runs the action n.
  predicate Executes(actions: map<Name, Action>, s: State, n: Name) {
    AtKnown(actions, s) && Ready(actions, s) && s.queue[0].name == n && n !in s.completed
  }

  function Start(request: seq<Name>): State {
    State(seq(|request|, i requires 0 <= i < |request| => Task(request[i], i)), {}, |request|)
  }

  // Each state follows from the one before.
  ghost predicate IsRun(actions: map<Name, Action>, trace: seq<State>) {
    forall k :: 0 <= k < |trace| - 1 ==> AtKnown(actions, trace[k]) && trace[k + 1] == Next(actions, trace[k])
  }

  lemma RunExtends(actions: map<Name, Action>, trace: seq<State>)
    requires IsRun(actions, trace) && trace != [] && AtKnown(actions, trace[|trace| - 1])
    ensures IsRun(actions, trace + [Next(actions, trace[|trace| - 1])])
  {
    hide Next;
  }

  // What is queued stays queued until it has run.
  lemma NamesStay(actions: map<Name, Action>, s: State)
    requires AtKnown(actions, s)
    ensures var t := Next(actions, s); s.completed <= t.completed && Names(s.queue) <= Names(t.queue) + t.completed
  {
    var a := actions[s.queue[0].name];
    if Ready(actions, s) {
      assert s.queue == [s.queue[0]] + s.queue[1..];
      forall n | n in Names(s.queue)
        ensures n in Names(s.queue[1..]) || n == s.queue[0].name
      {
        var t :| t in s.queue && t.name == n;
      }
    } else {
      var missing, dict := Missing(a.dependencies, s.completed), TasksDict(s.queue);
      var added := NewTasks(missing, s.unused) + s.queue;
      hide NewTasks, Missing, Advanced, TasksDict;
      SameElements(Advanced(added, a.orderDependencies, dict, s.completed), added);
      forall n | n in Names(s.queue)
        ensures n in Names(added)
      {
        var t :| t in s.queue && t.name == n;
        NameOf(added, t);
      }
    }
  }

  // A turn of an action that does not name y leaves x in front of y, or runs x.
  lemma AheadTurn(actions: map<Name, Action>, s: State, x: Name, y: Name)
    requires AtKnown(actions, s) && Ahead(s.queue, x, y)
    requires var a := actions[s.queue[0].name]; y !in a.dependencies && y !in a.orderDependencies
    ensures var t := Next(actions, s); Ahead(t.queue, x, y) || x in t.completed
  {
    if Ready(actions, s) {
      if s.queue[0].name != x {
        AheadPopped(s.queue, x, y);
      }
    } else {
      var a := actions[s.queue[0].name];
      var missing := Missing(a.dependencies, s.completed);
      var added := NewTasks(missing, s.unused);
      forall i | 0 <= i < |added|
        ensures added[i].name != y
      {
        assert added[i].name in missing;
      }
      hide Ahead, NewTasks, Missing, Advanced;
      AheadAdded(added, s.queue, x, y);
      AheadAdvanced(added + s.queue, a.orderDependencies, TasksDict(s.queue), s.completed, x, y);
    }
  }

  lemma AheadPopped(queue: seq<Task>, x: Name, y: Name)
    requires queue != [] && queue[0].name != x && Ahead(queue, x, y)
    ensures Ahead(queue[1..], x, y)
  {
    var q := queue[1..];
    forall j | 0 <= j < |q| && q[j].name == y
      ensures NamedBefore(q, j, x)
    {
      assert NamedBefore(queue, j + 1, x);
      var i :| 0 <= i < j + 1 && queue[i].name == x;
      assert q[i - 1].name == x;
    }
  }

  // In a turn that runs nothing, new tasks come in front and the tasks that are not moved keep
  // their order.
  lemma TurnKeepsOrder(actions: map<Name, Action>, s: State)
    requires AtKnown(actions, s)
    ensures var a, t := actions[s.queue[0].name], Next(actions, s);
      var moved := MovedTasks(a.orderDependencies, TasksDict(s.queue), s.completed);
      var added := NewTasks(Missing(a.dependencies, s.completed), s.unused);
      if Ready(actions, s) then s.queue == [s.queue[0]] + t.queue
      else Others(t.queue, moved) == Others(added, moved) + Others(s.queue, moved)
  {
    hide NewTasks, Missing, Others, MovedTasks, Advanced;
    if !Ready(actions, s) {
      var a := actions[s.queue[0].name];
      var dict, added := TasksDict(s.queue), NewTasks(Missing(a.dependencies, s.completed), s.unused);
      var moved := MovedTasks(a.orderDependencies, dict, s.completed);
      OthersStay(added + s.queue, a.orderDependencies, dict, s.completed, moved);
      OthersConcat(added, s.queue, moved);
    }
  }

  // What is known of the queue, the completed set and the run so far.
  ghost predicate Sound(actions: map<Name, Action>, request: seq<Name>, queue: seq<Task>, completed: set<Name>) {
    && Closed(actions, completed)
    && ToSet(request) <= completed + Names(queue)
    && (forall n :: n in Names(queue) || n in completed ==> n in actions && Needed(actions, ToSet(request), n))
  }

  // What is known of the actions that have run, and of the turns that ran them.
  ghost predicate GoodRun(actions: map<Name, Action>, trace: seq<State>, executed: seq<Name>, turns: seq<nat>) {
    && trace != [] && |turns| == |executed|
    && trace[|trace| - 1].completed == ToSet(executed)
    && (forall i, j :: 0 <= i < j < |executed| ==> executed[i] != executed[j])
    && (forall i, j :: 0 <= i < j < |turns| ==> turns[i] < turns[j])
    && (forall i :: 0 <= i < |executed| ==> TurnOf(actions, trace, executed, turns, i))
    && (forall k, n :: 0 <= k < |trace| - 1 && Executes(actions, trace[k], n) ==> k in turns)
    && NothingDropped(trace)
  }

  // Whatever has been queued is still queued or has run.
  ghost predicate NothingDropped(trace: seq<State>)
    requires trace != []
  {
    forall k :: 0 <= k < |trace| ==>
      Names(trace[k].queue) <= Names(trace[|trace| - 1].queue) + trace[|trace| - 1].completed
  }

  lemma StillNothingDropped(actions: map<Name, Action>, trace: seq<State>)
    requires trace != [] && NothingDropped(trace) && AtKnown(actions, trace[|trace| - 1])
    ensures NothingDropped(trace + [Next(actions, trace[|trace| - 1])])
  {
    NamesStay(actions, trace[|trace| - 1]);
    hide Next, Names;
  }

  // Turn turns[i] runs executed[i], after those before it, all its hard dependencies, and those
  // of its order dependencies that have been queued at any time so far.
  ghost predicate TurnOf(actions: map<Name, Action>, trace: seq<State>, executed: seq<Name>, turns: seq<nat>, i: nat)
    requires i < |turns| == |executed|
  {
    && turns[i] < |trace| - 1 && Executes(actions, trace[turns[i]], executed[i])
    && trace[turns[i]].completed == ToSet(executed[..i])
    && (forall d :: d in actions[executed[i]].dependencies ==> d in executed[..i])
    && (forall k, d :: 0 <= k <= turns[i] && d in Names(trace[k].queue) ==>
          d in actions[executed[i]].orderDependencies ==> d in executed[..i])
  }

  // Hard dependencies of a needed action are needed.
  lemma NeededDependency(actions: map<Name, Action>, request: set<Name>, n: Name, d: Name)
    requires n in actions && d in actions[n].dependencies && Needed(actions, request, n)
    ensures Needed(actions, request, d)
  {
  }

  // A turn that runs nothing.
  lemma TurnPasses(actions: map<Name, Action>, trace: seq<State>, executed: seq<Name>, turns: seq<nat>)
    requires GoodRun(actions, trace, executed, turns) && AtKnown(actions, trace[|trace| - 1])
    requires var s := trace[|trace| - 1]; !Executes(actions, s, s.queue[0].name)
    ensures GoodRun(actions, trace + [Next(actions, trace[|trace| - 1])], executed, turns)
  {
    var s := trace[|trace| - 1];
    var us := trace + [Next(actions, s)];
    StillNothingDropped(actions, trace);
    assert Next(actions, s).completed == s.completed;
    assert forall n :: !Executes(actions, s, n);
    hide Next, Ready, Executes, NothingDropped, TurnOf;
    forall i | 0 <= i < |executed|
      ensures TurnOf(actions, us, executed, turns, i)
    {
      TurnStays(actions, trace, us, executed, turns, i);
    }
  }

  lemma TurnStays(actions: map<Name, Action>, trace: seq<State>, us: seq<State>, executed: seq<Name>, turns: seq<nat>,
      i: nat)
    requires i < |turns| == |executed| && TurnOf(actions, trace, executed, turns, i) && trace <= us
    ensures TurnOf(actions, us, executed, turns, i)
  {
    hide Executes, Names;
  }

  // A turn that runs an action.
  lemma TurnRuns(actions: map<Name, Action>, trace: seq<State>, executed: seq<Name>, turns: seq<nat>, n: Name)
    requires GoodRun(actions, trace, executed, turns) && Executes(actions, trace[|trace| - 1], n)
    ensures GoodRun(actions, trace + [Next(actions, trace[|trace| - 1])], executed + [n], turns + [|trace| - 1])
  {
    var s := trace[|trace| - 1];
    var us, e, ts := trace + [Next(actions, s)], executed + [n], turns + [|trace| - 1];
    StillNothingDropped(actions, trace);
    assert Next(actions, s).completed == s.completed + {n} == ToSet(e);
    hide Next, Ready;
    assert e[..|executed|] == executed;
    forall i | 0 <= i < |e|
      ensures TurnOf(actions, us, e, ts, i)
    {
      assert e[..i] == executed[..i];
      if i < |executed| {
        assert TurnOf(actions, trace, executed, turns, i);
      }
    }
    assert ts[|turns|] == |trace| - 1;
    forall i | 0 <= i < |turns|
      ensures turns[i] < |trace| - 1
    {
      assert TurnOf(actions, trace, executed, turns, i);
    }
    assert ts[|turns|] == |trace| - 1;
  }

  // One pass through the body of the loop.
  method TakeTurn(actions: map<Name, Action>, queue0: seq<Task>, completed0: set<Name>, unused0: nat)
    returns (queue: seq<Task>, completed: set<Name>, unused: nat, ran: bool)
    requires AtKnown(actions, State(queue0, completed0, unused0))
    ensures State(queue, completed, unused) == Next(actions, State(queue0, completed0, unused0))
    ensures ran <==> Executes(actions, State(queue0, completed0, unused0), queue0[0].name)
    ensures !Ready(actions, State(queue0, completed0, unused0)) ==>
      var a := actions[queue0[0].name];
      queue != [] && queue[0].name !in completed0
        && (queue[0].name in a.dependencies || queue[0].name in a.orderDependencies)
  {
    hide Names, TasksDict, NewTasks, Missing, Advanced, Next, Ready;
    ghost var s := State(queue0, completed0, unused0);
    var task := queue0[0];
    var tasksDict := TasksDict(queue0);
    var action := actions[task.name];
    var added, ready, more := AddDependencies(action.dependencies, queue0, completed0, unused0);
    var moved, ready' := AdvanceDependencies(action.orderDependencies, added, tasksDict, completed0, ready);
    TurnIs(actions, s, ready', moved, more);
    ran := ready' && task.name !in completed0;
    if ready' {
      queue, completed, unused := queue0[1..], completed0 + {task.name}, unused0;
    } else {
      queue, completed, unused := moved, completed0, more;
    }
  }

  // execute_tasks after option handling, for a non-empty request.  `executed` lists the actions
  // in the order they run; `trace` is what the loop goes through, and turns[i] the turn that
  // runs executed[i].
  method ExecuteTasks(actions: map<Name, Action>, request: seq<Name>, ghost rank: Name -> nat)
    returns (executed: seq<Name>, ghost trace: seq<State>, ghost turns: seq<nat>)
    requires Acyclic(actions, rank)
    requires forall n :: n in request ==> n in actions
    // each action runs at most once, and exactly the needed ones run
    ensures forall i, j :: 0 <= i < j < |executed| ==> executed[i] != executed[j]
    ensures ToSet(request) <= ToSet(executed) && Closed(actions, ToSet(executed))
    ensures forall n :: n in executed ==> n in actions && Needed(actions, ToSet(request), n)
    // an action runs after its hard dependencies
    ensures forall i, d :: 0 <= i < |executed| && d in actions[executed[i]].dependencies ==> d in executed[..i]
    // and after those of its order dependencies that were requested
    ensures forall i, d :: 0 <= i < |executed| && d in actions[executed[i]].orderDependencies && d in request ==>
      d in executed[..i]
    // the loop goes from the request to the empty queue
    ensures trace != [] && trace[0] == Start(request) && trace[|trace| - 1].queue == [] && IsRun(actions, trace)
    // its turns run the actions listed, each after all order dependencies queued by then
    ensures |turns| == |executed| && forall i, j :: 0 <= i < j < |turns| ==> turns[i] < turns[j]
    ensures forall i :: 0 <= i < |executed| ==> TurnOf(actions, trace, executed, turns, i)
    ensures forall k, n :: 0 <= k < |trace| - 1 && Executes(actions, trace[k], n) ==> k in turns
    // what no needed action names keeps its place in the request
    ensures forall x, y :: RequestedBefore(request, x, y) && Unnamed(actions, request, y) ==> RunsBefore(executed, x, y)
  {
    hide Names, Needed, Closed, Sound, GoodRun, Next, Ready, Executes, IsRun, TurnOf, Start;
    var queue: seq<Task> := seq(|request|, i requires 0 <= i < |request| => Task(request[i], i));
    var unused: nat := |request|;
    var completed: set<Name> := {};
    executed, turns, trace := [], [], [Start(request)];
    StartIs(request);
    StartSound(actions, request, queue);
    while queue != []
      invariant Sound(actions, request, queue, completed)
      invariant trace != [] && trace[0] == Start(request) && trace[|trace| - 1] == State(queue, completed, unused)
      invariant IsRun(actions, trace) && GoodRun(actions, trace, executed, turns)
      decreases actions.Keys - completed,
                if queue != [] && queue[0].name in completed then 1 else 0,
                if queue == [] then 0 else if queue[0].name in completed then |queue| else rank(queue[0].name)
    {
      ghost var s := State(queue, completed, unused);
      FrontKnown(actions, request, queue, completed);
      RunExtends(actions, trace);
      TurnKeepsSound(actions, request, rank, s);
      if Executes(actions, s, queue[0].name) {
        TurnRuns(actions, trace, executed, turns, queue[0].name);
      } else {
        TurnPasses(actions, trace, executed, turns);
      }
      var name, ran := queue[0].name, false;
      queue, completed, unused, ran := TakeTurn(actions, queue, completed, unused);
      if ran {
        turns := turns + [|trace| - 1];
        executed := executed + [name];
      }
      trace := trace + [Next(actions, s)];
    }
    AllRun(actions, request, completed, executed, turns, trace);
    forall x, y | RequestedBefore(request, x, y) && Unnamed(actions, request, y)
      ensures RunsBefore(executed, x, y)
    {
      OrderKept(actions, request, rank, trace, executed, turns, x, y);
    }
  }

  // x is requested in front of every request of y.
  predicate RequestedBefore(request: seq<Name>, x: Name, y: Name) {
    forall j :: 0 <= j < |request| && request[j] == y ==> x in request[..j]
  }

  // No action that the request needs names y as a dependency of either kind.
  ghost predicate Unnamed(actions: map<Name, Action>, request: seq<Name>, y: Name) {
    forall n :: n in actions && Needed(actions, ToSet(request), n) ==>
      y !in actions[n].dependencies && y !in actions[n].orderDependencies
  }

  predicate RunsBefore(executed: seq<Name>, x: Name, y: Name) {
    forall i :: 0 <= i < |executed| && executed[i] == y ==> x in executed[..i]
  }

  lemma {:induction false} RunIsSound(actions: map<Name, Action>, request: seq<Name>, rank: Name -> nat,
      trace: seq<State>, k: nat)
    requires Acyclic(actions, rank) && (forall n :: n in request ==> n in actions)
    requires k < |trace| && trace[0] == Start(request) && IsRun(actions, trace)
    ensures Sound(actions, request, trace[k].queue, trace[k].completed)
  {
    hide Sound, Next, Start, Acyclic;
    if k == 0 {
      StartIs(request);
      StartSound(actions, request, Start(request).queue);
    } else {
      RunIsSound(actions, request, rank, trace, k - 1);
      assert trace[k] == trace[k - 1 + 1] == Next(actions, trace[k - 1]);
      TurnKeepsSound(actions, request, rank, trace[k - 1]);
    }
  }

  lemma {:induction false} AheadStays(actions: map<Name, Action>, request: seq<Name>, rank: Name -> nat,
      trace: seq<State>, x: Name, y: Name, k: nat)
    requires Acyclic(actions, rank) && (forall n :: n in request ==> n in actions)
    requires k < |trace| && trace[0] == Start(request) && IsRun(actions, trace)
    requires RequestedBefore(request, x, y) && Unnamed(actions, request, y)
    ensures Ahead(trace[k].queue, x, y) || x in trace[k].completed
  {
    if k == 0 {
      AheadAtStart(request, x, y);
    } else {
      hide Acyclic, Start, Next, Ahead, Needed;
      AheadStays(actions, request, rank, trace, x, y, k - 1);
      var s := trace[k - 1];
      assert trace[k] == trace[k - 1 + 1] == Next(actions, s);
      NamesStay(actions, s);
      if Ahead(s.queue, x, y) {
        RunIsSound(actions, request, rank, trace, k - 1);
        NameOf(s.queue, s.queue[0]);
        AheadTurn(actions, s, x, y);
      }
    }
  }

  lemma AheadAtStart(request: seq<Name>, x: Name, y: Name)
    requires RequestedBefore(request, x, y)
    ensures Ahead(Start(request).queue, x, y)
  {
    var q := Start(request).queue;
    forall j | 0 <= j < |q| && q[j].name == y
      ensures NamedBefore(q, j, x)
    {
      var i :| 0 <= i < j && request[..j][i] == x;
      assert q[i].name == x;
    }
  }

  lemma OrderKept(actions: map<Name, Action>, request: seq<Name>, rank: Name -> nat, trace: seq<State>,
      executed: seq<Name>, turns: seq<nat>, x: Name, y: Name)
    requires Acyclic(actions, rank) && (forall n :: n in request ==> n in actions)
    requires trace != [] && trace[0] == Start(request) && IsRun(actions, trace) && |turns| == |executed|
    requires forall i :: 0 <= i < |executed| ==> TurnOf(actions, trace, executed, turns, i)
    requires RequestedBefore(request, x, y) && Unnamed(actions, request, y)
    ensures RunsBefore(executed, x, y)
  {
    hide Acyclic, IsRun, Start, RequestedBefore, Unnamed;
    forall i | 0 <= i < |executed| && executed[i] == y
      ensures x in executed[..i]
    {
      assert TurnOf(actions, trace, executed, turns, i);
      var s := trace[turns[i]];
      AheadStays(actions, request, rank, trace, x, y, turns[i]);
      FrontNotBehind(s.queue, x, y);
      assert x in ToSet(executed[..i]);
    }
  }

  // A turn keeps what is known of the queue and the completed set.
  lemma TurnKeepsSound(actions: map<Name, Action>, request: seq<Name>, rank: Name -> nat, s: State)
    requires Acyclic(actions, rank) && AtKnown(actions, s) && Sound(actions, request, s.queue, s.completed)
    ensures var t, n := Next(actions, s), s.queue[0].name;
      && Sound(actions, request, t.queue, t.completed)
      && (if Ready(actions, s) then t.queue == s.queue[1..] && t.completed == s.completed + {n}
        else t.completed == s.completed)
  {
    hide Needed, Closed, Sound;
    var n := s.queue[0].name;
    if Ready(actions, s) {
      Popped(actions, request, s.queue, s.completed);
    } else {
      NextNames(actions, s);
      NameOf(s.queue, s.queue[0]);
      Requeued(actions, request, s.queue, s.completed, n, Next(actions, s).queue);
    }
  }

  lemma NextNames(actions: map<Name, Action>, s: State)
    requires AtKnown(actions, s) && !Ready(actions, s)
    ensures Names(Next(actions, s).queue)
      == Names(s.queue) + (ToSet(actions[s.queue[0].name].dependencies) - s.completed)
  {
    var a := actions[s.queue[0].name];
    var added := NewTasks(Missing(a.dependencies, s.completed), s.unused) + s.queue;
    AddedFacts(added, s.queue, a.dependencies, s.completed, s.unused);
    hide NewTasks, Missing, Advanced, TasksDict;
    SameElements(Advanced(added, a.orderDependencies, TasksDict(s.queue), s.completed), added);
  }

  // What the two dependency loops find is what a turn goes by.
  lemma TurnIs(actions: map<Name, Action>, s: State, ready: bool, moved: seq<Task>, unused: nat)
    requires AtKnown(actions, s)
    requires var a, dict := actions[s.queue[0].name], TasksDict(s.queue);
      var missing := Missing(a.dependencies, s.completed);
      && (ready <==>
            && (forall d :: d in a.dependencies ==> d in s.completed)
            && forall d :: d in a.orderDependencies && d in dict ==> d in s.completed)
      && moved == Advanced(NewTasks(missing, s.unused) + s.queue, a.orderDependencies, dict, s.completed)
      && unused == s.unused + |missing|
    ensures ready <==> Ready(actions, s)
    ensures Next(actions, s) ==
      if ready then State(s.queue[1..], s.completed + {s.queue[0].name}, s.unused)
        else State(moved, s.completed, unused)
  {
    hide Missing, NewTasks, Advanced, TasksDict, Names;
  }

  lemma AllRun(actions: map<Name, Action>, request: seq<Name>, completed: set<Name>, executed: seq<Name>,
      turns: seq<nat>, trace: seq<State>)
    requires Sound(actions, request, [], completed) && GoodRun(actions, trace, executed, turns)
    requires trace[0] == Start(request) && trace[|trace| - 1].completed == completed
    ensures forall i, j :: 0 <= i < j < |executed| ==> executed[i] != executed[j]
    ensures ToSet(request) <= ToSet(executed) && Closed(actions, ToSet(executed))
    ensures forall n :: n in executed ==> n in actions && Needed(actions, ToSet(request), n)
    ensures forall i, d :: 0 <= i < |executed| && d in actions[executed[i]].dependencies ==> d in executed[..i]
    ensures forall i, d :: 0 <= i < |executed| && d in actions[executed[i]].orderDependencies && d in request ==>
      d in executed[..i]
    ensures |turns| == |executed| && forall i, j :: 0 <= i < j < |turns| ==> turns[i] < turns[j]
    ensures forall i :: 0 <= i < |executed| ==> TurnOf(actions, trace, executed, turns, i)
    ensures forall k, n :: 0 <= k < |trace| - 1 && Executes(actions, trace[k], n) ==> k in turns
  {
    hide Executes;
    forall n | n in executed
      ensures n in ToSet(executed)
    {
    }
    forall i | 0 <= i < |executed|
      ensures executed[i] in actions
      ensures forall d :: d in actions[executed[i]].dependencies ==> d in executed[..i]
      ensures forall d :: d in actions[executed[i]].orderDependencies && d in request ==> d in executed[..i]
    {
      assert TurnOf(actions, trace, executed, turns, i);
      StartNames(request);
    }
  }

  lemma StartIs(request: seq<Name>)
    ensures Start(request) == State(seq(|request|, i requires 0 <= i < |request| => Task(request[i], i)), {}, |request|)
  {
  }

  lemma StartNames(request: seq<Name>)
    ensures forall n :: n in request ==> n in Names(Start(request).queue)
  {
    var q := Start(request).queue;
    forall n | n in request
      ensures n in Names(q)
    {
      var i :| 0 <= i < |request| && request[i] == n;
      NameOf(q, q[i]);
    }
  }

  lemma FrontKnown(actions: map<Name, Action>, request: seq<Name>, queue: seq<Task>, completed: set<Name>)
    requires Sound(actions, request, queue, completed) && queue != []
    ensures queue[0].name in actions && queue[0].name in Names(queue)
    ensures ToSet(request) <= completed + Names(queue) && completed <= actions.Keys
  {
    NameOf(queue, queue[0]);
  }

  lemma NameOf(queue: seq<Task>, t: Task)
    requires t in queue
    ensures t.name in Names(queue)
  {
  }

  lemma StartSound(actions: map<Name, Action>, request: seq<Name>, queue: seq<Task>)
    requires (forall n :: n in request ==> n in actions) && queue == Start(request).queue
    ensures Sound(actions, request, queue, {}) && IsRun(actions, [Start(request)])
    ensures GoodRun(actions, [Start(request)], [], [])
  {
    StartNames(request);
  }

  // The front task can leave the queue when its hard dependencies have run.
  lemma Popped(actions: map<Name, Action>, request: seq<Name>, queue: seq<Task>, completed: set<Name>)
    requires Sound(actions, request, queue, completed) && queue != [] && queue[0].name in actions
    requires forall d :: d in actions[queue[0].name].dependencies ==> d in completed
    ensures Sound(actions, request, queue[1..], completed + {queue[0].name})
  {
    NameOf(queue, queue[0]);
    assert queue == [queue[0]] + queue[1..];
    forall n | n in Names(queue)
      ensures n in Names(queue[1..]) || n == queue[0].name
    {
      var t :| t in queue && t.name == n;
    }
  }

  lemma Requeued(actions: map<Name, Action>, request: seq<Name>, queue: seq<Task>, completed: set<Name>, n: Name,
      moved: seq<Task>)
    requires Sound(actions, request, queue, completed) && n in actions && n in Names(queue)
    requires forall d :: d in actions[n].dependencies ==> d in actions
    requires Names(queue) <= Names(moved)
    requires forall d :: d in Names(moved) ==> d in Names(queue) || d in actions[n].dependencies
    ensures Sound(actions, request, moved, completed)
  {
    forall d | d in Names(moved)
      ensures d in actions && Needed(actions, ToSet(request), d)
    {
      if d !in Names(queue) {
        NeededDependency(actions, ToSet(request), n, d);
      }
    }
  }
}
