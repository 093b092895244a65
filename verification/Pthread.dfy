// POSIX threads on RTOS tasks: the list of thread descriptors and the steps of create, join,
// detach and exit that run under the list mutex.  Tasks interleave between steps, so every
// step starts from and restores the invariant of the list.
module Pthread {
  type Desc = nat
  type Task = nat
  type Value = int

  datatype Option<T> = None | Some(value: T)

  datatype TaskState = RUN | EXIT

  datatype Entry = Entry(desc: Desc, handle: Task, joinTask: Option<Task>, state: TaskState, detached: bool,
      retval: Value)

  datatype Error = OK | ESRCH | EDEADLK | EINVAL

  // ---------- the thread list ----------

  ghost predicate Listed(ts: seq<Entry>, d: Desc) {
    exists i :: 0 <= i < |ts| && ts[i].desc == d
  }

  ghost predicate HasTask(ts: seq<Entry>, t: Task) {
    exists i :: 0 <= i < |ts| && ts[i].handle == t
  }

  // Task t is the registered joiner of descriptor d.
  ghost predicate Joins(ts: seq<Entry>, t: Task, d: Desc) {
    exists i :: 0 <= i < |ts| && ts[i].desc == d && ts[i].joinTask == Some(t)
  }

  ghost predicate Distinct(ts: seq<Entry>) {
    forall i, j :: 0 <= i < j < |ts| ==> ts[i].desc != ts[j].desc && ts[i].handle != ts[j].handle
  }

  function Without(ts: seq<Entry>, i: nat): seq<Entry>
    requires i < |ts|
  {
    ts[..i] + ts[i + 1..]
  }

  // What the tasks are doing: those that exist, those inside pthread_join between its two
  // locked sections, those of them with a pending notification, and those suspended in
  // pthread_exit with the value they passed.
  datatype Tasks = Tasks(alive: set<Task>, waiting: map<Task, Desc>, notified: set<Task>, exited: map<Task, Value>)

  ghost predicate EntryOk(e: Entry, k: Tasks) {
    && e.handle in k.alive
    && (e.detached ==> e.joinTask.None? && e.state.RUN?)
    && (e.state.EXIT? ==> e.joinTask.None?)
    && (e.joinTask.None? ==> (e.handle in k.exited <==> e.state.EXIT?))
    && (e.handle in k.exited ==> e.retval == k.exited[e.handle])
    && (e.joinTask.Some? ==>
        && e.joinTask.value != e.handle
        && e.joinTask.value in k.waiting && k.waiting[e.joinTask.value] == e.desc
        && (e.joinTask.value in k.notified <==> e.handle in k.exited))
  }

  // No two threads wait to join each other.
  ghost predicate NoMutualJoin(ts: seq<Entry>) {
    forall i, j :: 0 <= i < |ts| && 0 <= j < |ts| && ts[i].joinTask == Some(ts[j].handle) ==>
      ts[j].joinTask != Some(ts[i].handle)
  }

  ghost predicate TasksOk(ts: seq<Entry>, k: Tasks) {
    && k.waiting.Keys <= k.alive && k.notified <= k.waiting.Keys
    && (forall t :: t in k.waiting ==> Joins(ts, t, k.waiting[t]) && t !in k.exited)
    && (forall t :: t in k.exited ==> HasTask(ts, t))
  }

  ghost predicate Inv(ts: seq<Entry>, k: Tasks) {
    && Distinct(ts)
    && (forall i :: 0 <= i < |ts| ==> EntryOk(ts[i], k))
    && TasksOk(ts, k)
    && NoMutualJoin(ts)
  }

  // A task that is executing code of its own.
  ghost predicate Runs(k: Tasks, t: Task) {
    t in k.alive && t !in k.waiting && t !in k.exited
  }

  lemma ListedCons(ts: seq<Entry>, e: Entry)
    ensures forall d :: Listed([e] + ts, d) <==> d == e.desc || Listed(ts, d)
    ensures forall t, d :: Joins(ts, t, d) ==> Joins([e] + ts, t, d)
  {
    var us := [e] + ts;
    assert us[0] == e && forall i :: 0 <= i < |ts| ==> us[i + 1] == ts[i];
    forall d
      ensures Listed(us, d) <==> d == e.desc || Listed(ts, d)
    {
    }
  }

  lemma ListedWithout(ts: seq<Entry>, i: nat)
    requires Distinct(ts) && i < |ts|
    ensures forall d :: Listed(Without(ts, i), d) <==> Listed(ts, d) && d != ts[i].desc
    ensures forall t, d :: Joins(ts, t, d) && d != ts[i].desc ==> Joins(Without(ts, i), t, d)
  {
    var us := Without(ts, i);
    forall d: Desc
      ensures Listed(us, d) <==> Listed(ts, d) && d != ts[i].desc
    {
      ListedWithoutAt(ts, i, d);
    }
    forall t: Task, d: Desc | Joins(ts, t, d) && d != ts[i].desc
      ensures Joins(us, t, d)
    {
      var j :| 0 <= j < |ts| && ts[j].desc == d && ts[j].joinTask == Some(t);
      assert us[if j < i then j else j - 1] == ts[j];
    }
  }

  lemma ListedWithoutAt(ts: seq<Entry>, i: nat, d: Desc)
    requires Distinct(ts) && i < |ts|
    ensures Listed(Without(ts, i), d) <==> Listed(ts, d) && d != ts[i].desc
  {
    var us := Without(ts, i);
    if Listed(us, d) {
      var j :| 0 <= j < |us| && us[j].desc == d;
      assert ts[if j < i then j else j + 1] == us[j];
    }
    if Listed(ts, d) && d != ts[i].desc {
      var j :| 0 <= j < |ts| && ts[j].desc == d;
      assert us[if j < i then j else j - 1] == ts[j];
    }
  }

  // ---------- the steps keep the invariant ----------

  lemma ExitedIsAlive(ts: seq<Entry>, k: Tasks, t: Task)
    requires Inv(ts, k)
    ensures t in k.exited ==> t in k.alive
  {
    if HasTask(ts, t) {
      var i :| 0 <= i < |ts| && ts[i].handle == t;
      assert EntryOk(ts[i], k);
    }
  }

  lemma CreateKeepsEntry(ts: seq<Entry>, k: Tasks, e: Entry, j: nat)
    requires Inv(ts, k) && !Listed(ts, e.desc) && e.handle !in k.alive && j < |ts|
    ensures EntryOk(ts[j], k.(alive := k.alive + {e.handle}))
    ensures ts[j].desc != e.desc && ts[j].handle != e.handle && ts[j].joinTask != Some(e.handle)
  {
    hide NoMutualJoin;
    assert EntryOk(ts[j], k);
  }

  lemma InvCreate(ts: seq<Entry>, k: Tasks, e: Entry)
    requires Inv(ts, k) && !Listed(ts, e.desc) && e.handle !in k.alive
    requires e.joinTask.None? && e.state.RUN?
    ensures Inv([e] + ts, k.(alive := k.alive + {e.handle}))
  {
    var us, k' := [e] + ts, k.(alive := k.alive + {e.handle});
    ExitedIsAlive(ts, k, e.handle);
    assert EntryOk(e, k');
    hide EntryOk;
    forall j | 0 <= j < |us|
      ensures EntryOk(us[j], k')
      ensures j > 0 ==>
        us[j] == ts[j - 1] && us[j].desc != e.desc && us[j].handle != e.handle && us[j].joinTask != Some(e.handle)
    {
      if j > 0 {
        CreateKeepsEntry(ts, k, e, j - 1);
      }
    }
    assert Distinct(us);
    assert NoMutualJoin(us) by {
      hide Distinct;
    }
    hide Distinct, NoMutualJoin;
    forall t | t in k.waiting
      ensures Joins(us, t, k.waiting[t])
    {
      var i :| 0 <= i < |ts| && ts[i].desc == k.waiting[t] && ts[i].joinTask == Some(t);
      assert us[i + 1].joinTask == Some(t);
    }
    forall t | t in k.exited
      ensures HasTask(us, t)
    {
      var i :| 0 <= i < |ts| && ts[i].handle == t;
      assert us[i + 1].handle == t;
    }
  }

  lemma JoinWaitKeepsEntry(ts: seq<Entry>, k: Tasks, i: nat, t: Task, j: nat)
    requires Inv(ts, k) && i < |ts| && j < |ts| && Runs(k, t)
    requires ts[i].joinTask.None? && !ts[i].detached && ts[i].state.RUN? && ts[i].handle != t
    ensures EntryOk(ts[i := ts[i].(joinTask := Some(t))][j], k.(waiting := k.waiting[t := ts[i].desc]))
  {
    hide NoMutualJoin;
    assert EntryOk(ts[j], k) && EntryOk(ts[i], k);
  }

  // A running task becomes the joiner of a running thread that has none.
  lemma InvJoinWait(ts: seq<Entry>, k: Tasks, i: nat, t: Task)
    requires Inv(ts, k) && i < |ts| && Runs(k, t)
    requires ts[i].joinTask.None? && !ts[i].detached && ts[i].state.RUN? && ts[i].handle != t
    requires forall j :: 0 <= j < |ts| && ts[j].handle == t ==> ts[j].joinTask != Some(ts[i].handle)
    ensures Inv(ts[i := ts[i].(joinTask := Some(t))], k.(waiting := k.waiting[t := ts[i].desc]))
  {
    hide EntryOk;
    var us, k' := ts[i := ts[i].(joinTask := Some(t))], k.(waiting := k.waiting[t := ts[i].desc]);
    forall j | 0 <= j < |us|
      ensures EntryOk(us[j], k')
    {
      JoinWaitKeepsEntry(ts, k, i, t, j);
    }
    assert Distinct(us) && NoMutualJoin(us);
    hide Distinct, NoMutualJoin;
    forall w | w in k'.waiting
      ensures Joins(us, w, k'.waiting[w]) && w !in k'.exited
    {
      if w == t {
        assert us[i].joinTask == Some(t);
      } else {
        var j :| 0 <= j < |ts| && ts[j].desc == k.waiting[w] && ts[j].joinTask == Some(w);
        assert us[j].joinTask == Some(w);
      }
    }
    forall w | w in k.exited
      ensures HasTask(us, w)
    {
      var j :| 0 <= j < |ts| && ts[j].handle == w;
      assert us[j].handle == w;
    }
  }

  // A descriptor is deleted and its task with it.
  lemma InvDelete(ts: seq<Entry>, k: Tasks, i: nat)
    requires Inv(ts, k) && i < |ts| && ts[i].joinTask.None? && ts[i].handle !in k.waiting
    ensures Inv(Without(ts, i), k.(alive := k.alive - {ts[i].handle}, exited := k.exited - {ts[i].handle}))
  {
    InvRemove(ts, k, i, k.(alive := k.alive - {ts[i].handle}, exited := k.exited - {ts[i].handle}));
  }

  // A woken joiner takes the value and deletes the descriptor and the task it joined.
  lemma InvJoinEnd(ts: seq<Entry>, k: Tasks, i: nat, t: Task)
    requires Inv(ts, k) && i < |ts| && ts[i].joinTask == Some(t) && t in k.notified
    ensures Inv(Without(ts, i), Joined(k, t, ts[i].handle))
  {
    assert EntryOk(ts[i], k);
    InvRemove(ts, k, i, Joined(k, t, ts[i].handle));
  }

  function Joined(k: Tasks, t: Task, joined: Task): Tasks {
    Tasks(k.alive - {joined}, k.waiting - {t}, k.notified - {t}, k.exited - {joined})
  }

  // What remains when the descriptor at i and its task are gone, and its joiner moves on.
  ghost predicate Removed(e: Entry, k: Tasks, k': Tasks) {
    && e.handle !in k.waiting
    && k'.alive == k.alive - {e.handle} && k'.exited == k.exited - {e.handle}
    && match e.joinTask
       case None => k'.waiting == k.waiting && k'.notified == k.notified
       case Some(t) => k'.waiting == k.waiting - {t} && k'.notified == k.notified - {t}
  }

  lemma RemoveKeepsEntry(ts: seq<Entry>, k: Tasks, i: nat, j: nat, k': Tasks)
    requires Inv(ts, k) && i < |ts| && j < |ts| && j != i && Removed(ts[i], k, k')
    ensures EntryOk(ts[j], k')
  {
    assert EntryOk(ts[j], k) && EntryOk(ts[i], k);
    hide TasksOk, NoMutualJoin;
  }

  lemma RemoveKeepsTasks(ts: seq<Entry>, k: Tasks, i: nat, k': Tasks)
    requires Inv(ts, k) && i < |ts| && Removed(ts[i], k, k')
    ensures TasksOk(Without(ts, i), k')
  {
    hide EntryOk, Distinct, NoMutualJoin;
    var us := Without(ts, i);
    forall w | w in k'.waiting
      ensures Joins(us, w, k'.waiting[w])
    {
      var j :| 0 <= j < |ts| && ts[j].desc == k.waiting[w] && ts[j].joinTask == Some(w);
      assert us[if j < i then j else j - 1] == ts[j];
    }
    forall w | w in k'.exited
      ensures HasTask(us, w)
    {
      var j :| 0 <= j < |ts| && ts[j].handle == w;
      assert us[if j < i then j else j - 1] == ts[j];
    }
  }

  lemma InvRemove(ts: seq<Entry>, k: Tasks, i: nat, k': Tasks)
    requires Inv(ts, k) && i < |ts| && Removed(ts[i], k, k')
    ensures Inv(Without(ts, i), k')
  {
    var us := Without(ts, i);
    RemoveKeepsTasks(ts, k, i, k');
    assert forall j :: 0 <= j < |us| ==> us[j] == ts[if j < i then j else j + 1];
    forall j | 0 <= j < |us|
      ensures EntryOk(us[j], k')
    {
      RemoveKeepsEntry(ts, k, i, if j < i then j else j + 1, k');
    }
    hide EntryOk, TasksOk;
    assert Distinct(us);
    hide Distinct;
    assert NoMutualJoin(us);
  }

  // A joinable thread exits: it is suspended, and its joiner, if any, is notified.
  function ExitEntry(e: Entry, v: Value): Entry {
    if e.joinTask.Some? then e.(retval := v) else e.(retval := v, state := EXIT)
  }

  function ExitTasks(k: Tasks, e: Entry, v: Value): Tasks {
    k.(exited := k.exited[e.handle := v],
      notified := if e.joinTask.Some? then k.notified + {e.joinTask.value} else k.notified)
  }

  lemma ExitKeepsEntry(ts: seq<Entry>, k: Tasks, i: nat, v: Value, j: nat)
    requires Inv(ts, k) && i < |ts| && j < |ts| && !ts[i].detached && Runs(k, ts[i].handle)
    ensures EntryOk(ts[i := ExitEntry(ts[i], v)][j], ExitTasks(k, ts[i], v))
    ensures ExitTasks(k, ts[i], v).notified <= k.waiting.Keys
  {
    hide NoMutualJoin;
    assert EntryOk(ts[i], k) && EntryOk(ts[j], k);
  }

  lemma InvExit(ts: seq<Entry>, k: Tasks, i: nat, v: Value)
    requires Inv(ts, k) && i < |ts| && !ts[i].detached && Runs(k, ts[i].handle)
    ensures Inv(ts[i := ExitEntry(ts[i], v)], ExitTasks(k, ts[i], v))
  {
    var us, k' := ts[i := ExitEntry(ts[i], v)], ExitTasks(k, ts[i], v);
    forall j | 0 <= j < |us|
      ensures EntryOk(us[j], k')
    {
      ExitKeepsEntry(ts, k, i, v, j);
    }
    ExitKeepsEntry(ts, k, i, v, i);
    hide EntryOk;
    assert Distinct(us) && NoMutualJoin(us);
    hide Distinct, NoMutualJoin;
    forall w | w in k'.waiting
      ensures Joins(us, w, k'.waiting[w]) && w !in k'.exited
    {
      var j :| 0 <= j < |ts| && ts[j].desc == k.waiting[w] && ts[j].joinTask == Some(w);
      assert us[j].joinTask == Some(w) && us[j].desc == ts[j].desc;
    }
    forall w | w in k'.exited
      ensures HasTask(us, w)
    {
      if w == ts[i].handle {
        assert us[i].handle == w;
      } else {
        var j :| 0 <= j < |ts| && ts[j].handle == w;
        assert us[j].handle == w;
      }
    }
  }

  lemma ChangeKeepsListed(ts: seq<Entry>, i: nat, e: Entry)
    requires i < |ts| && e.desc == ts[i].desc
    requires ts[i].joinTask.Some? ==> e.joinTask == ts[i].joinTask
    ensures forall d :: Listed(ts[i := e], d) <==> Listed(ts, d)
    ensures forall t, d :: Joins(ts, t, d) ==> Joins(ts[i := e], t, d)
  {
    var us := ts[i := e];
    assert forall j :: 0 <= j < |ts| ==> us[j].desc == ts[j].desc;
    forall t: Task, d: Desc | Joins(ts, t, d)
      ensures Joins(us, t, d)
    {
      var j :| 0 <= j < |ts| && ts[j].desc == d && ts[j].joinTask == Some(t);
      assert us[j].desc == d && us[j].joinTask == Some(t);
    }
  }

  // A running thread nobody joins becomes detached.
  lemma InvDetach(ts: seq<Entry>, k: Tasks, i: nat)
    requires Inv(ts, k) && i < |ts| && ts[i].joinTask.None? && ts[i].state.RUN?
    ensures Inv(ts[i := ts[i].(detached := true)], k)
    ensures forall d :: Listed(ts[i := ts[i].(detached := true)], d) <==> Listed(ts, d)
    ensures forall t, d :: Joins(ts, t, d) ==> Joins(ts[i := ts[i].(detached := true)], t, d)
  {
    var us := ts[i := ts[i].(detached := true)];
    ChangeKeepsListed(ts, i, us[i]);
    forall j | 0 <= j < |us|
      ensures EntryOk(us[j], k)
    {
      assert EntryOk(ts[j], k);
    }
    hide EntryOk;
    forall w | w in k.exited
      ensures HasTask(us, w)
    {
      var j :| 0 <= j < |ts| && ts[j].handle == w;
      assert us[j].handle == w;
    }
  }

  lemma JoinWaits(ts: seq<Entry>, k: Tasks, i: nat, t: Task)
    requires Inv(ts, k) && i < |ts| && Runs(k, t) && MayJoin(ts, i, t) && ts[i].state.RUN?
    ensures Inv(ts[i := ts[i].(joinTask := Some(t))], k.(waiting := k.waiting[t := ts[i].desc]))
    ensures forall d :: Listed(ts[i := ts[i].(joinTask := Some(t))], d) <==> Listed(ts, d)
    ensures forall u, d :: Joins(ts, u, d) ==> Joins(ts[i := ts[i].(joinTask := Some(t))], u, d)
  {
    InvJoinWait(ts, k, i, t);
    ChangeKeepsListed(ts, i, ts[i].(joinTask := Some(t)));
  }

  // ---------- what the invariant means ----------

  // A waiting task's descriptor is still in the list, nobody else waits for it, and the task is
  // woken exactly when the thread it joins has exited.
  lemma WaiterIsSafe(ts: seq<Entry>, k: Tasks, t: Task)
    requires Inv(ts, k) && t in k.waiting
    ensures Listed(ts, k.waiting[t])
    ensures forall u :: u in k.waiting && k.waiting[u] == k.waiting[t] ==> u == t
    ensures forall i :: 0 <= i < |ts| && ts[i].desc == k.waiting[t] ==>
      (t in k.notified <==> ts[i].handle in k.exited) && (t in k.notified ==> ts[i].retval == k.exited[ts[i].handle])
  {
    assert Joins(ts, t, k.waiting[t]);
    var j :| 0 <= j < |ts| && ts[j].desc == k.waiting[t] && ts[j].joinTask == Some(t);
    assert EntryOk(ts[j], k);
    hide EntryOk, NoMutualJoin;
    forall u | u in k.waiting && k.waiting[u] == k.waiting[t]
      ensures u == t
    {
      assert Joins(ts, u, k.waiting[u]);
      var l :| 0 <= l < |ts| && ts[l].desc == k.waiting[u] && ts[l].joinTask == Some(u);
      assert l == j;
    }
    hide TasksOk;
    assert forall i :: 0 <= i < |ts| && ts[i].desc == k.waiting[t] ==> i == j;
  }

  lemma ListedAt(ts: seq<Entry>, k: Tasks, i: nat)
    requires Inv(ts, k) && i < |ts|
    ensures Listed(ts, ts[i].desc)
    ensures Runs(k, ts[i].handle) ==> ts[i].handle !in k.notified
    ensures forall j :: 0 <= j < |ts| && ts[j].handle == ts[i].handle ==> j == i
    ensures forall j :: 0 <= j < |ts| && ts[j].desc == ts[i].desc ==> j == i
  {
    hide EntryOk, NoMutualJoin;
  }

  // Looking at its own descriptor, a woken joiner finds it.
  lemma JoinerFinds(ts: seq<Entry>, k: Tasks, t: Task, i: nat)
    requires Inv(ts, k) && t in k.waiting && i <= |ts|
    requires if i < |ts| then ts[i].desc == k.waiting[t] else !Listed(ts, k.waiting[t])
    ensures i < |ts| && ts[i].joinTask == Some(t) && Distinct(ts)
    ensures t in k.notified ==> ts[i].handle in k.exited && ts[i].retval == k.exited[ts[i].handle]
  {
    assert Joins(ts, t, k.waiting[t]);
    var j :| 0 <= j < |ts| && ts[j].desc == k.waiting[t] && ts[j].joinTask == Some(t);
    assert EntryOk(ts[j], k);
  }

  // Two threads never wait for each other, and none waits for itself.
  lemma NobodyWaitsInPairs(ts: seq<Entry>, k: Tasks, i: nat, j: nat)
    requires Inv(ts, k) && i < |ts| && j < |ts|
    ensures !(k.waiting.Keys >= {ts[i].handle, ts[j].handle}
              && k.waiting[ts[i].handle] == ts[j].desc && k.waiting[ts[j].handle] == ts[i].desc)
  {
    if ts[i].handle in k.waiting && ts[j].handle in k.waiting {
      assert Joins(ts, ts[i].handle, k.waiting[ts[i].handle]) && Joins(ts, ts[j].handle, k.waiting[ts[j].handle]);
      assert EntryOk(ts[i], k);
    }
  }

  // ---------- circles ----------

  // Task t is registered to join the thread of task u.
  ghost predicate WaitsOn(ts: seq<Entry>, t: Task, u: Task) {
    exists i :: 0 <= i < |ts| && ts[i].joinTask == Some(t) && ts[i].handle == u
  }

  ghost predicate WaitsAmong(ts: seq<Entry>, t: Task, s: set<Task>) {
    exists u :: u in s && WaitsOn(ts, t, u)
  }

  // Tasks that all wait for threads among themselves.
  ghost predicate Circle(ts: seq<Entry>, s: set<Task>) {
    s != {} && forall t :: t in s ==> WaitsAmong(ts, t, s)
  }

  ghost predicate KeepsCircles(ts: seq<Entry>, us: seq<Entry>) {
    forall s :: Circle(ts, s) ==> Circle(us, s)
  }

  // The entry a task of a circle waits on.
  lemma CircleNext(ts: seq<Entry>, s: set<Task>, t: Task) returns (i: nat)
    requires Circle(ts, s) && t in s
    ensures i < |ts| && ts[i].joinTask == Some(t) && ts[i].handle in s
  {
    assert WaitsAmong(ts, t, s);
    hide Circle;
    var u :| u in s && WaitsOn(ts, t, u);
    var j :| 0 <= j < |ts| && ts[j].joinTask == Some(t) && ts[j].handle == u;
    i := j;
  }

  lemma JoinerWaits(ts: seq<Entry>, k: Tasks, i: nat)
    requires Inv(ts, k) && i < |ts| && ts[i].joinTask.Some?
    ensures ts[i].joinTask.value in k.waiting && (ts[i].joinTask.value in k.notified ==> ts[i].handle !in k.waiting)
  {
    assert EntryOk(ts[i], k);
    hide NoMutualJoin;
  }

  // No task of a circle is ever notified: its thread has not exited, since it waits as well.
  lemma NeverNotified(ts: seq<Entry>, k: Tasks, s: set<Task>, t: Task)
    requires Inv(ts, k) && Circle(ts, s) && t in s
    ensures t in k.waiting && t !in k.notified
  {
    hide Inv, Circle;
    var i := CircleNext(ts, s, t);
    var j := CircleNext(ts, s, ts[i].handle);
    JoinerWaits(ts, k, i);
    JoinerWaits(ts, k, j);
  }

  lemma CircleMoves(ts: seq<Entry>, us: seq<Entry>, s: set<Task>)
    requires Circle(ts, s) && forall t, u :: t in s && WaitsOn(ts, t, u) ==> WaitsOn(us, t, u)
    ensures Circle(us, s)
  {
    hide WaitsOn;
    forall t | t in s
      ensures WaitsAmong(us, t, s)
    {
      assert WaitsAmong(ts, t, s);
    }
  }

  lemma CirclesCons(ts: seq<Entry>, e: Entry)
    ensures KeepsCircles(ts, [e] + ts)
  {
    hide Circle;
    var us := [e] + ts;
    assert forall i :: 0 <= i < |ts| ==> us[i + 1] == ts[i];
    forall s | Circle(ts, s)
      ensures Circle(us, s)
    {
      forall t: Task, u: Task | WaitsOn(ts, t, u)
        ensures WaitsOn(us, t, u)
      {
        var i :| 0 <= i < |ts| && ts[i].joinTask == Some(t) && ts[i].handle == u;
        assert us[i + 1] == ts[i];
      }
      CircleMoves(ts, us, s);
    }
  }

  lemma CirclesChange(ts: seq<Entry>, i: nat, e: Entry)
    requires i < |ts| && e.handle == ts[i].handle && (ts[i].joinTask.Some? ==> e.joinTask == ts[i].joinTask)
    ensures KeepsCircles(ts, ts[i := e])
  {
    hide Circle;
    var us := ts[i := e];
    forall s | Circle(ts, s)
      ensures Circle(us, s)
    {
      forall t: Task, u: Task | WaitsOn(ts, t, u)
        ensures WaitsOn(us, t, u)
      {
        var j :| 0 <= j < |ts| && ts[j].joinTask == Some(t) && ts[j].handle == u;
        assert us[j].joinTask == Some(t) && us[j].handle == u;
      }
      CircleMoves(ts, us, s);
    }
  }

  // A descriptor that goes is unjoined, or its joiner has been notified: it is in no circle.
  lemma CirclesWithout(ts: seq<Entry>, k: Tasks, i: nat)
    requires Inv(ts, k) && i < |ts| && (ts[i].joinTask.Some? ==> ts[i].joinTask.value in k.notified)
    ensures KeepsCircles(ts, Without(ts, i))
  {
    hide Inv, Circle;
    var us := Without(ts, i);
    forall s | Circle(ts, s)
      ensures Circle(us, s)
    {
      forall t: Task, u: Task | t in s && WaitsOn(ts, t, u)
        ensures WaitsOn(us, t, u)
      {
        NeverNotified(ts, k, s, t);
        var j :| 0 <= j < |ts| && ts[j].joinTask == Some(t) && ts[j].handle == u;
        assert us[if j < i then j else j - 1] == ts[j];
      }
      CircleMoves(ts, us, s);
    }
  }

  // A chain of waiting tasks, each waiting for the thread of the next.
  ghost predicate Chain(ts: seq<Entry>, p: seq<Task>) {
    |p| >= 2 && forall i :: 0 <= i < |p| - 1 ==> WaitsOn(ts, p[i], p[i + 1])
  }

  // Task t waits for the thread of u, directly or through others.
  ghost predicate Reaches(ts: seq<Entry>, t: Task, u: Task) {
    exists p :: Chain(ts, p) && p[0] == t && p[|p| - 1] == u
  }

  // A task that waits for itself through others is in a circle.
  lemma ReachesIsCircle(ts: seq<Entry>, t: Task)
    requires Reaches(ts, t, t)
    ensures exists s :: Circle(ts, s) && t in s
  {
    hide WaitsOn;
    var p :| Chain(ts, p) && p[0] == t && p[|p| - 1] == t;
    var q := p[..|p| - 1];
    var s := set x | x in q;
    forall x | x in s
      ensures WaitsAmong(ts, x, s)
    {
      var i :| 0 <= i < |q| && q[i] == x;
      ChainStep(ts, p, i);
      assert p[i + 1] == q[if i + 1 < |q| then i + 1 else 0];
    }
    assert q[0] in s;
  }

  lemma ChainStep(ts: seq<Entry>, p: seq<Task>, i: nat)
    requires Chain(ts, p) && i < |p| - 1
    ensures WaitsOn(ts, p[i], p[i + 1])
  {
  }

  // After one more join, of the thread of h by t, exactly the one pair is new.
  lemma OneMoreWaits(ts: seq<Entry>, i: nat, t: Task)
    requires i < |ts| && ts[i].joinTask.None?
    ensures var us := ts[i := ts[i].(joinTask := Some(t))];
      forall x, y :: WaitsOn(us, x, y) <==> WaitsOn(ts, x, y) || (x == t && y == ts[i].handle)
  {
    var us := ts[i := ts[i].(joinTask := Some(t))];
    forall x: Task, y: Task
      ensures WaitsOn(us, x, y) <==> WaitsOn(ts, x, y) || (x == t && y == ts[i].handle)
    {
      if WaitsOn(us, x, y) {
        var j :| 0 <= j < |us| && us[j].joinTask == Some(x) && us[j].handle == y;
        assert j != i ==> ts[j] == us[j];
      }
      if WaitsOn(ts, x, y) {
        var j :| 0 <= j < |ts| && ts[j].joinTask == Some(x) && ts[j].handle == y;
        assert us[j] == ts[j];
      }
      assert us[i].joinTask == Some(t) && us[i].handle == ts[i].handle;
    }
  }

  lemma ChainExtends(us: seq<Entry>, p: seq<Task>, t: Task)
    requires Chain(us, p) && WaitsOn(us, t, p[0])
    ensures Chain(us, [t] + p)
  {
    hide WaitsOn;
    var q := [t] + p;
    forall j | 0 <= j < |q| - 1
      ensures WaitsOn(us, q[j], q[j + 1])
    {
      if j > 0 {
        assert WaitsOn(us, p[j - 1], p[j - 1 + 1]);
      }
    }
  }

  lemma ChainReturns(ts: seq<Entry>, us: seq<Entry>, p: seq<Task>, t: Task, h: Task) returns (q: seq<Task>)
    requires Chain(us, p) && p[0] == t && p[|p| - 1] == t && h != t && !WaitsOn(ts, t, p[1])
    requires forall x, y :: WaitsOn(us, x, y) <==> WaitsOn(ts, x, y) || (x == t && y == h)
    ensures Chain(ts, q) && q[0] == h && q[|q| - 1] == t
  {
    hide WaitsOn;
    assert WaitsOn(us, p[0], p[0 + 1]);
    q := FirstReturn(p[1..], t);
    forall j | 0 <= j < |q| - 1
      ensures WaitsOn(ts, q[j], q[j + 1])
    {
      assert q[j] == p[j + 1] && q[j + 1] == p[j + 1 + 1] && WaitsOn(us, p[j + 1], p[j + 1 + 1]);
      assert q[j] in q[..|q| - 1];
    }
  }

  // A join closes a circle through the joiner if and only if the thread it joins already waits
  // for it, directly or through others.
  lemma JoinClosesCircle(ts: seq<Entry>, k: Tasks, i: nat, t: Task)
    requires Inv(ts, k) && i < |ts| && Runs(k, t) && ts[i].joinTask.None? && ts[i].handle != t
    ensures Reaches(ts[i := ts[i].(joinTask := Some(t))], t, t) <==> Reaches(ts, ts[i].handle, t)
  {
    hide Inv, WaitsOn;
    var us, h := ts[i := ts[i].(joinTask := Some(t))], ts[i].handle;
    OneMoreWaits(ts, i, t);
    RunningWaitsOnNobody(ts, k, t);
    if Reaches(ts, h, t) {
      var p :| Chain(ts, p) && p[0] == h && p[|p| - 1] == t;
      assert Chain(us, p);
      ChainExtends(us, p, t);
      assert ([t] + p)[|p|] == t;
    }
    if Reaches(us, t, t) {
      var p :| Chain(us, p) && p[0] == t && p[|p| - 1] == t;
      var q := ChainReturns(ts, us, p, t, h);
    }
  }

  // The part of a sequence up to the first t.
  lemma {:induction false} FirstReturn(p: seq<Task>, t: Task) returns (q: seq<Task>)
    requires t in p && p[0] != t
    ensures q <= p && |q| >= 2 && q[|q| - 1] == t && t !in q[..|q| - 1]
  {
    if p[1] == t {
      q := p[..2];
    } else {
      var r := FirstReturn(p[1..], t);
      q := [p[0]] + r;
    }
  }

  lemma RunningWaitsOnNobody(ts: seq<Entry>, k: Tasks, t: Task)
    requires Inv(ts, k) && t !in k.waiting
    ensures forall u :: !WaitsOn(ts, t, u)
  {
    forall i | 0 <= i < |ts|
      ensures ts[i].joinTask != Some(t)
    {
      assert EntryOk(ts[i], k);
    }
  }

  // ---------- the operations ----------

  // A join that is not refused: the thread is joinable and not yet joined, and is neither the
  // caller nor waiting for the caller.
  ghost predicate MayJoin(ts: seq<Entry>, i: nat, self: Task)
    requires i < |ts|
  {
    && !ts[i].detached && ts[i].joinTask.None? && ts[i].handle != self
    && forall j :: 0 <= j < |ts| && ts[j].handle == self ==> ts[j].joinTask != Some(ts[i].handle)
  }

  class Pthreads {
    var threads: seq<Entry>
    ghost var tasks: Tasks
    ghost var created: multiset<Desc>   // every descriptor handed out and every one freed,
    ghost var freed: multiset<Desc>     // counting an address again when it is reused

    ghost predicate Valid()
      reads this
    {
      && Inv(threads, tasks)
      && forall d :: created[d] == freed[d] + (if Listed(threads, d) then 1 else 0)
    }

    constructor (main: Task)
      ensures Valid() && threads == [] && tasks == Tasks({main}, map[], {}, map[])
    {
      threads := [];
      tasks := Tasks({main}, map[], {}, map[]);
      created, freed := multiset{}, multiset{};
    }

    method FindDesc(d: Desc) returns (i: nat)
      ensures i <= |threads|
      ensures if i < |threads| then threads[i].desc == d else !Listed(threads, d)
    {
      i := 0;
      while i < |threads|
        invariant i <= |threads| && forall j :: 0 <= j < i ==> threads[j].desc != d
      {
        if threads[i].desc == d {
          return;
        }
        i := i + 1;
      }
    }

    method FindTask(t: Task) returns (i: nat)
      ensures i <= |threads|
      ensures if i < |threads| then threads[i].handle == t else !HasTask(threads, t)
    {
      i := 0;
      while i < |threads|
        invariant i <= |threads| && forall j :: 0 <= j < i ==> threads[j].handle != t
      {
        if threads[i].handle == t {
          return;
        }
        i := i + 1;
      }
    }

    // Unlinks and frees a listed descriptor.
    method Delete(i: nat)
      requires Distinct(threads) && i < |threads|
      requires forall d :: created[d] == freed[d] + (if Listed(threads, d) then 1 else 0)
      modifies this`threads, this`freed
      ensures threads == Without(old(threads), i)
      ensures freed == old(freed) + multiset{old(threads)[i].desc}
      ensures forall d :: created[d] == freed[d] + (if Listed(threads, d) then 1 else 0)
    {
      ListedWithout(threads, i);
      freed := freed + multiset{threads[i].desc};
      threads := threads[..i] + threads[i + 1..];
    }

    // A fresh descriptor address and a fresh task, as the allocators give them.
    method Create(desc: Desc, handle: Task, detached: bool)
      requires Valid() && !Listed(threads, desc) && handle !in tasks.alive
      modifies this
      ensures Valid()
      ensures threads == [Entry(desc, handle, None, RUN, detached, 0)] + old(threads)
      ensures tasks == old(tasks).(alive := old(tasks).alive + {handle})
      ensures created == old(created) + multiset{desc} && freed == old(freed)
      ensures forall t, d :: Joins(old(threads), t, d) ==> Joins(threads, t, d)
      ensures KeepsCircles(old(threads), threads)
    {
      var e := Entry(desc, handle, None, RUN, detached, 0);
      hide Inv, KeepsCircles;
      InvCreate(threads, tasks, e);
      ListedCons(threads, e);
      CirclesCons(threads, e);
      tasks := tasks.(alive := tasks.alive + {handle});
      created := created + multiset{desc};
      threads := [e] + threads;
    }

    // The first locked section of pthread_join: the call is refused, or the caller becomes the
    // joiner and waits, or the thread has already exited and is taken at once.
    method JoinBegin(self: Task, thread: Desc) returns (ret: Error, wait: bool, value: Value, ghost i: nat)
      requires Valid() && Runs(tasks, self)
      modifies this
      ensures Valid() && created == old(created)
      ensures ret.ESRCH? <==> !Listed(old(threads), thread)
      ensures !ret.ESRCH? ==> i < |old(threads)| && old(threads)[i].desc == thread
      ensures !ret.ESRCH? ==> (ret.OK? <==> MayJoin(old(threads), i, self))
      ensures ret.EINVAL? <==> !ret.ESRCH? && !old(threads)[i].detached && old(threads)[i].joinTask.Some?
      ensures !ret.OK? ==> threads == old(threads) && tasks == old(tasks) && freed == old(freed)
      ensures ret.OK? ==> (wait <==> old(threads)[i].handle !in old(tasks).exited)
      ensures ret.OK? && wait ==>
        && threads == old(threads)[i := old(threads)[i].(joinTask := Some(self))]
        && tasks == old(tasks).(waiting := old(tasks).waiting[self := thread]) && freed == old(freed)
        && (Reaches(threads, self, self) <==> Reaches(old(threads), old(threads)[i].handle, self))
      ensures ret.OK? && !wait ==>
        && var task := old(threads)[i].handle;
        && value == old(tasks).exited[task]
        && threads == Without(old(threads), i) && freed == old(freed) + multiset{thread}
        && tasks == old(tasks).(alive := old(tasks).alive - {task}, exited := old(tasks).exited - {task})
      ensures forall t, d :: Joins(old(threads), t, d) ==> Joins(threads, t, d)
      ensures KeepsCircles(old(threads), threads)
    {
      hide Reaches, Circle;
      wait, value := false, 0;
      var at := FindDesc(thread);
      i := at;
      if at == |threads| {
        return ESRCH, wait, value, i;
      }
      assert EntryOk(threads[at], tasks);
      if threads[at].detached {
        return EDEADLK, wait, value, i;
      } else if threads[at].joinTask.Some? {
        return EINVAL, wait, value, i;
      } else if threads[at].handle == self {
        return EDEADLK, wait, value, i;
      }
      var cur := FindTask(self);
      if cur < |threads| && threads[cur].joinTask == Some(threads[at].handle) {
        return EDEADLK, wait, value, i;
      }
      ret := OK;
      if threads[at].state.RUN? {
        JoinWaits(threads, tasks, at, self);
        JoinClosesCircle(threads, tasks, at, self);
        CirclesChange(threads, at, threads[at].(joinTask := Some(self)));
        threads := threads[at := threads[at].(joinTask := Some(self))];
        tasks := tasks.(waiting := tasks.waiting[self := thread]);
        wait := true;
      } else {
        value := threads[at].retval;
        InvDelete(threads, tasks, at);
        ListedWithout(threads, at);
        CirclesWithout(threads, tasks, at);
        tasks := tasks.(alive := tasks.alive - {threads[at].handle}, exited := tasks.exited - {threads[at].handle});
        Delete(at);
      }
    }

    // The second locked section: the caller has been notified.  Its descriptor is still there
    // and holds the value its thread passed to pthread_exit.
    method JoinEnd(self: Task, thread: Desc) returns (value: Value, ghost i: nat)
      requires Valid() && self in tasks.waiting && tasks.waiting[self] == thread && self in tasks.notified
      modifies this
      ensures Valid() && created == old(created)
      ensures i < |old(threads)| && old(threads)[i].desc == thread && old(threads)[i].joinTask == Some(self)
      ensures old(threads)[i].handle in old(tasks).exited && value == old(tasks).exited[old(threads)[i].handle]
      ensures threads == Without(old(threads), i) && freed == old(freed) + multiset{thread}
      ensures tasks == Joined(old(tasks), self, old(threads)[i].handle)
      ensures forall t, d :: Joins(old(threads), t, d) && t != self ==> Joins(threads, t, d)
      ensures KeepsCircles(old(threads), threads)
    {
      var at := FindDesc(thread);
      i := at;
      JoinerFinds(threads, tasks, self, at);
      value := threads[at].retval;
      hide Inv, Without;
      InvJoinEnd(threads, tasks, at, self);
      ListedWithout(threads, at);
      CirclesWithout(threads, tasks, at);
      tasks := Joined(tasks, self, threads[at].handle);
      Delete(at);
    }

    method Detach(thread: Desc) returns (ret: Error, ghost i: nat)
      requires Valid()
      modifies this
      ensures Valid() && created == old(created)
      ensures ret.ESRCH? <==> !Listed(old(threads), thread)
      ensures !ret.ESRCH? ==> i < |old(threads)| && old(threads)[i].desc == thread
      ensures !ret.ESRCH? ==> (ret.OK? <==> !old(threads)[i].detached && old(threads)[i].joinTask.None?)
      ensures ret.OK? || ret.ESRCH? || ret.EINVAL?
      ensures !ret.OK? ==> threads == old(threads) && tasks == old(tasks) && freed == old(freed)
      ensures ret.OK? && old(threads)[i].handle !in old(tasks).exited ==>
        threads == old(threads)[i := old(threads)[i].(detached := true)] && tasks == old(tasks) && freed == old(freed)
      ensures ret.OK? && old(threads)[i].handle in old(tasks).exited ==>
        && var task := old(threads)[i].handle;
        && threads == Without(old(threads), i) && freed == old(freed) + multiset{thread}
        && tasks == old(tasks).(alive := old(tasks).alive - {task}, exited := old(tasks).exited - {task})
      ensures forall t, d :: Joins(old(threads), t, d) ==> Joins(threads, t, d)
      ensures KeepsCircles(old(threads), threads)
    {
      var at := FindDesc(thread);
      i := at;
      if at == |threads| {
        return ESRCH, i;
      }
      assert EntryOk(threads[at], tasks);
      if threads[at].detached {
        return EINVAL, i;
      } else if threads[at].joinTask.Some? {
        return EINVAL, i;
      }
      ret := OK;
      if threads[at].state.RUN? {
        InvDetach(threads, tasks, at);
        CirclesChange(threads, at, threads[at].(detached := true));
        threads := threads[at := threads[at].(detached := true)];
      } else {
        InvDelete(threads, tasks, at);
        ListedWithout(threads, at);
        CirclesWithout(threads, tasks, at);
        tasks := tasks.(alive := tasks.alive - {threads[at].handle}, exited := tasks.exited - {threads[at].handle});
        Delete(at);
      }
    }

    // The caller is a thread of the list; it ends, and if nobody can join it, it is deleted.
    method Exit(self: Task, value: Value) returns (ghost i: nat)
      requires Valid() && Runs(tasks, self) && HasTask(threads, self)
      modifies this
      ensures Valid() && created == old(created)
      ensures i < |old(threads)| && old(threads)[i].handle == self
      ensures old(threads)[i].detached ==>
        && threads == Without(old(threads), i) && freed == old(freed) + multiset{old(threads)[i].desc}
        && tasks == old(tasks).(alive := old(tasks).alive - {self}, exited := old(tasks).exited - {self})
      ensures !old(threads)[i].detached ==>
        && threads == old(threads)[i := ExitEntry(old(threads)[i], value)] && freed == old(freed)
        && tasks == ExitTasks(old(tasks), old(threads)[i], value)
      ensures forall t, d :: Joins(old(threads), t, d) ==> Joins(threads, t, d)
      ensures KeepsCircles(old(threads), threads)
    {
      var at := FindTask(self);
      i := at;
      assert EntryOk(threads[at], tasks);
      if threads[at].detached {
        InvDelete(threads, tasks, at);
        ListedWithout(threads, at);
        CirclesWithout(threads, tasks, at);
        tasks := tasks.(alive := tasks.alive - {self}, exited := tasks.exited - {self});
        Delete(at);
      } else {
        ghost var e := threads[at];
        InvExit(threads, tasks, at, value);
        ChangeKeepsListed(threads, at, ExitEntry(e, value));
        CirclesChange(threads, at, ExitEntry(e, value));
        tasks := ExitTasks(tasks, e, value);
        hide Inv;
        ghost var after := threads[at := ExitEntry(e, value)];
        threads := threads[at := threads[at].(retval := value)];
        if threads[at].joinTask.None? {
          threads := threads[at := threads[at].(state := EXIT)];
        }
        assert threads == after;
      }
    }

    // Longer circles are not detected: three running threads can each be told to join the next
    // and every call is accepted.  From then on, whatever the other tasks do, none of the three
    // is ever woken: they are a circle, and every operation keeps circles.
    method JoinInACircle(a: nat, b: nat, c: nat)
      requires Valid() && a < |threads| && b < |threads| && c < |threads| && a != b && b != c && a != c
      requires forall i :: i in {a, b, c} ==>
        Runs(tasks, threads[i].handle) && !threads[i].detached && threads[i].joinTask.None?
      modifies this
      ensures Valid() && |threads| == |old(threads)|
      ensures threads[a].joinTask == Some(threads[c].handle) && threads[b].joinTask == Some(threads[a].handle)
        && threads[c].joinTask == Some(threads[b].handle)
      ensures Circle(threads, {threads[a].handle, threads[b].handle, threads[c].handle})
      ensures forall i :: i in {a, b, c} ==> threads[i].handle in tasks.waiting && threads[i].handle !in tasks.notified
    {
      hide Inv, Listed, Joins, Circle, KeepsCircles, Reaches;
      forall i | i in {a, b, c}
        ensures Listed(threads, threads[i].desc) && threads[i].handle !in tasks.notified
        ensures forall j :: 0 <= j < |threads| && threads[j].handle == threads[i].handle ==> j == i
        ensures forall j :: 0 <= j < |threads| && threads[j].desc == threads[i].desc ==> j == i
      {
        ListedAt(threads, tasks, i);
      }
      ghost var i;
      var ret, wait, value;
      ret, wait, value, i := JoinBegin(threads[a].handle, threads[b].desc);
      ListedAt(threads, tasks, c);
      ret, wait, value, i := JoinBegin(threads[b].handle, threads[c].desc);
      ListedAt(threads, tasks, a);
      ret, wait, value, i := JoinBegin(threads[c].handle, threads[a].desc);
      CircleOfThree(threads, a, b, c);
    }

    // A task of a circle waits, and has not been notified, in every state from then on.
    lemma CircleWaits(s: set<Task>, t: Task)
      requires Valid() && Circle(threads, s) && t in s
      ensures t in tasks.waiting && t !in tasks.notified
    {
      NeverNotified(threads, tasks, s, t);
    }
  }

  lemma CircleOfThree(ts: seq<Entry>, a: nat, b: nat, c: nat)
    requires a < |ts| && b < |ts| && c < |ts|
    requires ts[a].joinTask == Some(ts[c].handle) && ts[b].joinTask == Some(ts[a].handle)
      && ts[c].joinTask == Some(ts[b].handle)
    ensures Circle(ts, {ts[a].handle, ts[b].handle, ts[c].handle})
  {
    var s := {ts[a].handle, ts[b].handle, ts[c].handle};
    assert WaitsOn(ts, ts[a].handle, ts[b].handle) && WaitsOn(ts, ts[b].handle, ts[c].handle)
      && WaitsOn(ts, ts[c].handle, ts[a].handle);
    assert forall t :: t in s ==> WaitsAmong(ts, t, s);
  }
}
