// The handler registry of an event loop: a list of loop nodes, each with loop-level
// handlers and a list of base nodes, each with base-level handlers and a list of id
// nodes.  Dispatch over this tree is proved to agree with filtering the flat log.
module EventLoop {
  import opened EventTrace

  datatype Instance = Instance(handler: nat, arg: nat)
  datatype IdNode = IdNode(id: int, handlers: seq<Instance>)
  datatype BaseNode = BaseNode(base: Base, handlers: seq<Instance>, ids: seq<IdNode>)
  datatype LoopNode = LoopNode(handlers: seq<Instance>, bases: seq<BaseNode>)

  // ---------- the calls each level makes for an event ----------

  function RunList(base: Base, id: int, hs: seq<Instance>): (t: seq<Reg>)
    ensures |t| == |hs|
    ensures forall k :: 0 <= k < |hs| ==> t[k] == Reg(base, id, hs[k].handler, hs[k].arg)
  {
    seq(|hs|, k requires 0 <= k < |hs| => Reg(base, id, hs[k].handler, hs[k].arg))
  }

  // Only the first id node with the event's id is run.
  function RunIds(base: Base, ids: seq<IdNode>, evId: int): seq<Reg> {
    if ids == [] then []
    else if ids[0].id == evId then RunList(base, evId, ids[0].handlers)
    else RunIds(base, ids[1..], evId)
  }

  function RunBase(node: BaseNode, evBase: Base, evId: int): seq<Reg> {
    if node.base == evBase then RunList(node.base, ANY_ID, node.handlers) + RunIds(node.base, node.ids, evId) else []
  }

  function RunBases(nodes: seq<BaseNode>, evBase: Base, evId: int): seq<Reg> {
    if nodes == [] then [] else RunBase(nodes[0], evBase, evId) + RunBases(nodes[1..], evBase, evId)
  }

  function RunLoop(node: LoopNode, evBase: Base, evId: int): seq<Reg> {
    RunList(AnyBase, ANY_ID, node.handlers) + RunBases(node.bases, evBase, evId)
  }

  function RunLoops(nodes: seq<LoopNode>, evBase: Base, evId: int): seq<Reg> {
    if nodes == [] then [] else RunLoop(nodes[0], evBase, evId) + RunLoops(nodes[1..], evBase, evId)
  }

  // ---------- well-formed nodes ----------

  predicate UniqueHandlers(hs: seq<Instance>) {
    forall j, k :: 0 <= j < k < |hs| ==> hs[j].handler != hs[k].handler
  }

  predicate Holds(hs: seq<Instance>, handler: nat) {
    exists k :: 0 <= k < |hs| && hs[k].handler == handler
  }

  predicate GoodId(n: IdNode) {
    n.id != ANY_ID && n.handlers != [] && UniqueHandlers(n.handlers)
  }

  predicate GoodIds(ids: seq<IdNode>) {
    && (forall k :: 0 <= k < |ids| ==> GoodId(ids[k]))
    && (forall j, k :: 0 <= j < k < |ids| ==> ids[j].id != ids[k].id)
  }

  // A base node that may be empty while it is being filled or emptied.
  predicate GoodBase(n: BaseNode) {
    n.base.Named? && UniqueHandlers(n.handlers) && GoodIds(n.ids)
  }

  predicate EmptyBase(n: BaseNode) {
    n.handlers == [] && n.ids == []
  }

  predicate GoodLoop(n: LoopNode) {
    && UniqueHandlers(n.handlers)
    && forall k :: 0 <= k < |n.bases| ==> GoodBase(n.bases[k]) && !EmptyBase(n.bases[k])
  }

  predicate EmptyLoop(n: LoopNode) {
    n.handlers == [] && n.bases == []
  }

  predicate GoodLoops(nodes: seq<LoopNode>) {
    forall k :: 0 <= k < |nodes| ==> GoodLoop(nodes[k]) && !EmptyLoop(nodes[k])
  }

  // ---------- handler lists ----------

  // Appends a handler, or overwrites its argument if the list already has it.
  method HandlerInstancesAdd(hs: seq<Instance>, handler: nat, arg: nat) returns (r: seq<Instance>)
    requires UniqueHandlers(hs)
    ensures UniqueHandlers(r) && r != []
    ensures !Holds(hs, handler) ==> r == hs + [Instance(handler, arg)]
    ensures Holds(hs, handler) ==>
      forall base: Base, id: int :: RunList(base, id, r) == Rearmed(RunList(base, id, hs), base, id, handler, arg)
  {
    var it := 0;
    while it < |hs|
      invariant 0 <= it <= |hs|
      invariant forall k :: 0 <= k < it ==> hs[k].handler != handler
    {
      if hs[it].handler == handler {
        return hs[it := Instance(handler, arg)];
      }
      it := it + 1;
    }
    r := hs + [Instance(handler, arg)];
  }

  method HandlerInstancesRemove(hs: seq<Instance>, handler: nat) returns (found: bool, r: seq<Instance>)
    requires UniqueHandlers(hs)
    ensures found <==> Holds(hs, handler)
    ensures UniqueHandlers(r)
    ensures forall base: Base, id: int :: RunList(base, id, r) == Without(RunList(base, id, hs), base, id, handler)
    ensures !found ==> r == hs
  {
    var it := 0;
    while it < |hs|
      invariant 0 <= it <= |hs|
      invariant forall k :: 0 <= k < it ==> hs[k].handler != handler
    {
      if hs[it].handler == handler {
        r := hs[..it] + hs[it + 1..];
        forall base: Base, id: int
          ensures RunList(base, id, r) == Without(RunList(base, id, hs), base, id, handler)
        {
          ListWithout(base, id, hs, it);
        }
        return true, r;
      }
      it := it + 1;
    }
    forall base: Base, id: int
      ensures RunList(base, id, hs) == Without(RunList(base, id, hs), base, id, handler)
    {
      WithoutAbsent(RunList(base, id, hs), base, id, handler);
    }
    return false, hs;
  }

  lemma ListConcat(base: Base, id: int, a: seq<Instance>, b: seq<Instance>)
    ensures RunList(base, id, a + b) == RunList(base, id, a) + RunList(base, id, b)
  {
  }

  lemma ListWithout(base: Base, id: int, hs: seq<Instance>, k: nat)
    requires UniqueHandlers(hs) && k < |hs|
    ensures RunList(base, id, hs[..k] + hs[k + 1..]) == Without(RunList(base, id, hs), base, id, hs[k].handler)
  {
    WithoutOnce(RunList(base, id, hs), k, base, id, hs[k].handler);
  }

  // ---------- base nodes ----------

  lemma {:induction false} RunIdsAt(base: Base, ids: seq<IdNode>, k: nat)
    requires k < |ids| && forall j :: 0 <= j < k ==> ids[j].id != ids[k].id
    ensures RunIds(base, ids, ids[k].id) == RunList(base, ids[k].id, ids[k].handlers)
  {
    if k > 0 {
      RunIdsAt(base, ids[1..], k - 1);
    }
  }

  lemma {:induction false} RunIdsNone(base: Base, ids: seq<IdNode>, evId: int)
    requires forall j :: 0 <= j < |ids| ==> ids[j].id != evId
    ensures RunIds(base, ids, evId) == []
  {
    if ids != [] {
      RunIdsNone(base, ids[1..], evId);
    }
  }

  // Two lists of id nodes that agree on an id run the same handlers for it.
  lemma RunIdsAgree(base: Base, a: seq<IdNode>, b: seq<IdNode>, evId: int)
    requires GoodIds(a) && GoodIds(b)
    requires forall n: IdNode :: n.id == evId ==> (n in a <==> n in b)
    ensures RunIds(base, a, evId) == RunIds(base, b, evId)
  {
    if k :| 0 <= k < |a| && a[k].id == evId {
      var j :| 0 <= j < |b| && b[j] == a[k];
      RunIdsAt(base, a, k);
      RunIdsAt(base, b, j);
    } else {
      RunIdsNone(base, a, evId);
      forall j | 0 <= j < |b|
        ensures b[j].id != evId
      {
        assert b[j] in b;
      }
      RunIdsNone(base, b, evId);
    }
  }

  predicate HoldsInBase(n: BaseNode, id: int, handler: nat) {
    if id == ANY_ID then Holds(n.handlers, handler)
    else exists k :: 0 <= k < |n.ids| && n.ids[k].id == id && Holds(n.ids[k].handlers, handler)
  }

  // The call a registration at (base, id) makes for an event of that base.
  function Call(base: Base, id: int, handler: nat, arg: nat, evId: int): seq<Reg> {
    if id == ANY_ID || id == evId then [Reg(base, id, handler, arg)] else []
  }

  // What adding does to the calls for one event: a new call comes last, while a handler
  // that is already there keeps its place and gets the new argument.
  predicate Added(node: BaseNode, id: int, handler: nat, arg: nat, r: BaseNode, evId: int) {
    RunBase(r, node.base, evId) ==
      if HoldsInBase(node, id, handler) then Rearmed(RunBase(node, node.base, evId), node.base, id, handler, arg)
      else RunBase(node, node.base, evId) + Call(node.base, id, handler, arg, evId)
  }

  method BaseNodeAddHandler(node: BaseNode, id: int, handler: nat, arg: nat) returns (r: BaseNode)
    requires GoodBase(node) && (id == ANY_ID ==> node.ids == [])
    ensures r.base == node.base && GoodBase(r) && !EmptyBase(r)
    ensures forall evId: int :: evId != ANY_ID ==> Added(node, id, handler, arg, r, evId)
    ensures id == ANY_ID ==> r.ids == node.ids
  {
    if id == ANY_ID {
      var hs := HandlerInstancesAdd(node.handlers, handler, arg);
      r := node.(handlers := hs);
      forall evId: int | evId != ANY_ID
        ensures Added(node, id, handler, arg, r, evId)
      {
        assert RunIds(node.base, [], evId) == [];
        ListConcat(node.base, ANY_ID, node.handlers, [Instance(handler, arg)]);
      }
      return;
    }
    var it := 0;
    var found := -1;
    while it < |node.ids|
      invariant 0 <= it <= |node.ids| && -1 <= found < it
      invariant found >= 0 ==> node.ids[found].id == id
      invariant found < 0 ==> forall k :: 0 <= k < it ==> node.ids[k].id != id
    {
      if node.ids[it].id == id {
        found := it;
      }
      it := it + 1;
    }
    if found < 0 {
      var hs := HandlerInstancesAdd([], handler, arg);
      r := node.(ids := node.ids + [IdNode(id, hs)]);
      forall evId: int | evId != ANY_ID
        ensures Added(node, id, handler, arg, r, evId)
      {
        if evId == id {
          RunIdsAt(node.base, r.ids, |node.ids|);
          RunIdsNone(node.base, node.ids, id);
        } else {
          RunIdsAgree(node.base, node.ids, r.ids, evId);
        }
      }
    } else {
      var hs := HandlerInstancesAdd(node.ids[found].handlers, handler, arg);
      r := node.(ids := node.ids[found := IdNode(id, hs)]);
      forall evId: int | evId != ANY_ID
        ensures Added(node, id, handler, arg, r, evId)
      {
        IdReplaced(node, found, hs, handler, arg, evId);
      }
    }
  }

  lemma IdReplaced(node: BaseNode, k: nat, hs: seq<Instance>, handler: nat, arg: nat, evId: int)
    requires GoodBase(node) && k < |node.ids| && hs != [] && UniqueHandlers(hs) && evId != ANY_ID
    requires !Holds(node.ids[k].handlers, handler) ==> hs == node.ids[k].handlers + [Instance(handler, arg)]
    requires Holds(node.ids[k].handlers, handler) ==>
      RunList(node.base, node.ids[k].id, hs)
        == Rearmed(RunList(node.base, node.ids[k].id, node.ids[k].handlers), node.base, node.ids[k].id, handler, arg)
    ensures Added(node, node.ids[k].id, handler, arg, node.(ids := node.ids[k := IdNode(node.ids[k].id, hs)]), evId)
  {
    var id := node.ids[k].id;
    var ids := node.ids[k := IdNode(id, hs)];
    assert HoldsInBase(node, id, handler) <==> Holds(node.ids[k].handlers, handler);
    var own, rest := RunList(node.base, ANY_ID, node.handlers), RunIds(node.base, node.ids, evId);
    RearmedConcat(own, rest, node.base, id, handler, arg);
    RearmedAbsent(own, node.base, id, handler, arg);
    if evId == id {
      RunIdsAt(node.base, node.ids, k);
      RunIdsAt(node.base, ids, k);
      ListConcat(node.base, id, node.ids[k].handlers, [Instance(handler, arg)]);
    } else {
      forall n: IdNode | n.id == evId
        ensures n in ids <==> n in node.ids
      {
        if n in node.ids {
          var j :| 0 <= j < |node.ids| && node.ids[j] == n;
          assert ids[j] == n;
        }
      }
      RunIdsAgree(node.base, node.ids, ids, evId);
      RunIdsTagged(node.base, node.ids, evId);
      RearmedAbsent(rest, node.base, id, handler, arg);
    }
  }

  lemma {:induction false} RunIdsTagged(base: Base, ids: seq<IdNode>, evId: int)
    ensures forall k :: 0 <= k < |RunIds(base, ids, evId)| ==>
      RunIds(base, ids, evId)[k].base == base && RunIds(base, ids, evId)[k].id == evId
  {
    if ids != [] {
      RunIdsTagged(base, ids[1..], evId);
    }
  }

  // ---------- loop nodes ----------

  lemma {:induction false} RunBasesConcat(a: seq<BaseNode>, b: seq<BaseNode>, evBase: Base, evId: int)
    ensures RunBases(a + b, evBase, evId) == RunBases(a, evBase, evId) + RunBases(b, evBase, evId)
  {
    if a == [] {
      assert a + b == b;
    } else {
      assert (a + b)[1..] == a[1..] + b;
      RunBasesConcat(a[1..], b, evBase, evId);
    }
  }

  lemma RunBasesSplit(nodes: seq<BaseNode>, k: nat, n: BaseNode, evBase: Base, evId: int)
    requires k < |nodes|
    ensures RunBases(nodes[k := n], evBase, evId)
         == RunBases(nodes[..k], evBase, evId) + RunBase(n, evBase, evId) + RunBases(nodes[k + 1..], evBase, evId)
  {
    assert nodes[k := n] == nodes[..k] + [n] + nodes[k + 1..];
    RunBasesConcat(nodes[..k] + [n], nodes[k + 1..], evBase, evId);
    RunBasesConcat(nodes[..k], [n], evBase, evId);
    assert RunBases([n], evBase, evId) == RunBase(n, evBase, evId);
  }

  lemma {:induction false} RunBasesOther(nodes: seq<BaseNode>, evBase: Base, evId: int)
    requires forall k :: 0 <= k < |nodes| ==> nodes[k].base != evBase
    ensures RunBases(nodes, evBase, evId) == []
  {
    if nodes != [] {
      RunBasesOther(nodes[1..], evBase, evId);
    }
  }

  // Base nodes only make calls registered for the event's own base.
  lemma {:induction false} RunBasesTagged(nodes: seq<BaseNode>, base: Base, id: int, handler: nat, evBase: Base,
      evId: int)
    requires base != evBase || (id != ANY_ID && id != evId)
    ensures !Has(RunBases(nodes, evBase, evId), base, id, handler)
  {
    if nodes != [] {
      RunBasesTagged(nodes[1..], base, id, handler, evBase, evId);
      RunIdsTagged(nodes[0].base, nodes[0].ids, evId);
      HasConcat(RunBase(nodes[0], evBase, evId), RunBases(nodes[1..], evBase, evId), base, id, handler);
    }
  }

  // ---------- trees with registrations of one level ----------

  // All events, all events of a base, or single events.
  datatype Level = LoopLevel | BaseLevel | IdLevel

  predicate KeyAt(level: Level, base: Base, id: int) {
    match level
    case LoopLevel => base.AnyBase? && id == ANY_ID
    case BaseLevel => base.Named? && id == ANY_ID
    case IdLevel => base.Named? && id != ANY_ID
  }

  // No base has two nodes; for the upper levels there is nothing below them.
  predicate NodeAt(n: LoopNode, level: Level) {
    && (forall j, k :: 0 <= j < k < |n.bases| ==> n.bases[j].base != n.bases[k].base)
    && (level.LoopLevel? ==> n.bases == [])
    && (level.BaseLevel? ==> forall k :: 0 <= k < |n.bases| ==> n.bases[k].ids == [])
  }

  lemma SameBasesAt(n: LoopNode, r: LoopNode)
    requires r.bases == n.bases
    ensures forall level :: NodeAt(n, level) ==> NodeAt(r, level)
  {
  }

  lemma AppendedAt(n: LoopNode, base: Base, id: int, b: BaseNode)
    requires b.base == base && (id == ANY_ID ==> b.ids == []) && base.Named? && ReusedBase(n.bases, base, id) < 0
    ensures forall level :: KeyAt(level, base, id) && NodeAt(n, level) ==> NodeAt(n.(bases := n.bases + [b]), level)
  {
  }

  lemma ReplacedAt(n: LoopNode, t: nat, id: int, b: BaseNode)
    requires t < |n.bases| && b.base == n.bases[t].base && (id == ANY_ID ==> b.ids == n.bases[t].ids)
    ensures forall level :: KeyAt(level, b.base, id) && NodeAt(n, level) ==> NodeAt(n.(bases := n.bases[t := b]), level)
  {
  }

  lemma ShrunkAt(n: LoopNode, t: nat, b: BaseNode)
    requires t < |n.bases| && b.base == n.bases[t].base && (n.bases[t].ids == [] ==> b.ids == [])
    ensures forall level :: NodeAt(n, level) ==> NodeAt(n.(bases := n.bases[t := b]), level)
    ensures forall level :: NodeAt(n, level) ==> NodeAt(n.(bases := n.bases[..t] + n.bases[t + 1..]), level)
  {
  }

  // The base node a registration is added to, or -1 if a new one is made.
  function ReusedBase(bases: seq<BaseNode>, base: Base, id: int): int {
    var t := LastWithBase(bases, base);
    if t < 0 || (id == ANY_ID && bases[t].ids != [])
      || (bases[|bases| - 1].base != base && bases[|bases| - 1].ids != [] && id == ANY_ID) then -1
    else t
  }

  function LastWithBase(bases: seq<BaseNode>, base: Base): (t: int)
    ensures -1 <= t < |bases|
    ensures t >= 0 ==> bases[t].base == base
    ensures forall k :: t < k < |bases| ==> bases[k].base != base
  {
    if bases == [] then -1
    else if bases[|bases| - 1].base == base then |bases| - 1
    else LastWithBase(bases[..|bases| - 1], base)
  }

  predicate HoldsInLoop(n: LoopNode, base: Base, id: int, handler: nat) {
    if base.AnyBase? then Holds(n.handlers, handler)
    else
      var t := ReusedBase(n.bases, base, id);
      t >= 0 && HoldsInBase(n.bases[t], id, handler)
  }

  function NewCall(base: Base, id: int, handler: nat, arg: nat, evBase: Base, evId: int): seq<Reg> {
    if Matches(base, id, evBase, evId) then [Reg(base, id, handler, arg)] else []
  }

  predicate AddedToLoop(n: LoopNode, base: Base, id: int, handler: nat, arg: nat, r: LoopNode, evBase: Base,
      evId: int) {
    RunLoop(r, evBase, evId) ==
      if HoldsInLoop(n, base, id, handler) then Rearmed(RunLoop(n, evBase, evId), base, id, handler, arg)
      else RunLoop(n, evBase, evId) + NewCall(base, id, handler, arg, evBase, evId)
  }

  method LoopNodeAddHandler(node: LoopNode, base: Base, id: int, handler: nat, arg: nat) returns (r: LoopNode)
    requires GoodLoop(node) && LegalKey(base, id) && (base.AnyBase? ==> node.bases == [])
    requires forall evBase: Base, evId: int :: IsEvent(evBase, evId) ==> Distinct(RunLoop(node, evBase, evId))
    ensures GoodLoop(r) && !EmptyLoop(r)
    ensures forall evBase: Base, evId: int :: IsEvent(evBase, evId) ==>
      AddedToLoop(node, base, id, handler, arg, r, evBase, evId)
    ensures forall level :: KeyAt(level, base, id) && NodeAt(node, level) ==> NodeAt(r, level)
  {
    hide NodeAt, KeyAt;
    if base.AnyBase? && id == ANY_ID {
      var hs := HandlerInstancesAdd(node.handlers, handler, arg);
      r := node.(handlers := hs);
      forall evBase: Base, evId: int | IsEvent(evBase, evId)
        ensures AddedToLoop(node, base, id, handler, arg, r, evBase, evId)
      {
        ListConcat(base, ANY_ID, node.handlers, [Instance(handler, arg)]);
        assert RunBases(node.bases, evBase, evId) == [];
      }
      SameBasesAt(node, r);
      return;
    }
    var it, found := 0, -1;
    while it < |node.bases|
      invariant 0 <= it <= |node.bases| && -1 <= found < it
      invariant found >= 0 ==> node.bases[found].base == base
      invariant forall k :: found < k < it ==> node.bases[k].base != base
    {
      if node.bases[it].base == base {
        found := it;
      }
      it := it + 1;
    }
    assert found == LastWithBase(node.bases, base);
    if found < 0 || (node.bases[found].ids != [] && id == ANY_ID)
      || (node.bases[|node.bases| - 1].base != base && node.bases[|node.bases| - 1].ids != [] && id == ANY_ID)
    {
      var n := BaseNodeAddHandler(BaseNode(base, [], []), id, handler, arg);
      r := node.(bases := node.bases + [n]);
      forall evBase: Base, evId: int | IsEvent(evBase, evId)
        ensures AddedToLoop(node, base, id, handler, arg, r, evBase, evId)
      {
        NewBaseAdded(node, base, id, handler, arg, n, evBase, evId);
      }
      AppendedAt(node, base, id, n);
    } else {
      var n := BaseNodeAddHandler(node.bases[found], id, handler, arg);
      r := node.(bases := node.bases[found := n]);
      forall evBase: Base, evId: int | IsEvent(evBase, evId)
        ensures AddedToLoop(node, base, id, handler, arg, r, evBase, evId)
      {
        OldBaseAdded(node, found, id, handler, arg, n, evBase, evId);
      }
      ReplacedAt(node, found, id, n);
    }
  }

  lemma NewBaseAdded(node: LoopNode, base: Base, id: int, handler: nat, arg: nat, n: BaseNode, evBase: Base, evId: int)
    requires base.Named? && IsEvent(evBase, evId) && n.base == base && ReusedBase(node.bases, base, id) < 0
    requires Added(BaseNode(base, [], []), id, handler, arg, n, evId)
    ensures AddedToLoop(node, base, id, handler, arg, node.(bases := node.bases + [n]), evBase, evId)
  {
    RunBasesConcat(node.bases, [n], evBase, evId);
    assert [n][1..] == [];
    assert RunBases([n], evBase, evId) == RunBase(n, evBase, evId);
    assert !HoldsInBase(BaseNode(base, [], []), id, handler);
    assert RunBase(BaseNode(base, [], []), base, evId) == [];
  }

  lemma OldBaseAdded(node: LoopNode, t: nat, id: int, handler: nat, arg: nat, n: BaseNode, evBase: Base, evId: int)
    requires t < |node.bases| && node.bases[t].base.Named? && IsEvent(evBase, evId) && n.base == node.bases[t].base
    requires ReusedBase(node.bases, n.base, id) == t
    requires Added(node.bases[t], id, handler, arg, n, evId) && GoodBase(node.bases[t])
    requires Distinct(RunLoop(node, evBase, evId))
    ensures AddedToLoop(node, n.base, id, handler, arg, node.(bases := node.bases[t := n]), evBase, evId)
  {
    hide RunLoop, RunBases, Rearmed, Distinct, HoldsInBase, GoodBase;
    var base, was := n.base, node.bases[t];
    var a := RunList(AnyBase, ANY_ID, node.handlers) + RunBases(node.bases[..t], evBase, evId);
    var c := RunBases(node.bases[t + 1..], evBase, evId);
    RunLoopSplit(node, t, was, evBase, evId);
    RunLoopSplit(node, t, n, evBase, evId);
    assert node.bases == node.bases[t := was];
    if HoldsInBase(was, id, handler) {
      OtherBasesLack(node, t, id, handler, evBase, evId);
      RearmedAround(a, RunBase(was, evBase, evId), c, base, id, handler, arg);
      RearmedAbsent([], base, id, handler, arg);
    } else if evBase == base {
      RunBasesOther(node.bases[t + 1..], evBase, evId);
      assert a + (RunBase(was, evBase, evId) + Call(base, id, handler, arg, evId)) + []
          == a + RunBase(was, evBase, evId) + [] + Call(base, id, handler, arg, evId);
    }
  }

  lemma RunLoopSplit(node: LoopNode, t: nat, n: BaseNode, evBase: Base, evId: int)
    requires t < |node.bases|
    ensures RunLoop(node.(bases := node.bases[t := n]), evBase, evId) ==
      RunList(AnyBase, ANY_ID, node.handlers) + RunBases(node.bases[..t], evBase, evId)
        + RunBase(n, evBase, evId) + RunBases(node.bases[t + 1..], evBase, evId)
  {
    RunBasesSplit(node.bases, t, n, evBase, evId);
  }

  lemma RearmedAround(a: seq<Reg>, b: seq<Reg>, c: seq<Reg>, base: Base, id: int, handler: nat, arg: nat)
    requires !Has(a, base, id, handler) && !Has(c, base, id, handler)
    ensures Rearmed(a + b + c, base, id, handler, arg) == a + Rearmed(b, base, id, handler, arg) + c
  {
    RearmedConcat(a + b, c, base, id, handler, arg);
    RearmedConcat(a, b, base, id, handler, arg);
    RearmedAbsent(a, base, id, handler, arg);
    RearmedAbsent(c, base, id, handler, arg);
  }

  // A handler that base node t holds is found nowhere else in a distinct loop node.
  lemma OtherBasesLack(node: LoopNode, t: nat, id: int, handler: nat, evBase: Base, evId: int)
    requires t < |node.bases| && IsEvent(evBase, evId) && node.bases[t].base.Named?
    requires GoodBase(node.bases[t]) && HoldsInBase(node.bases[t], id, handler)
    requires Distinct(RunLoop(node, evBase, evId))
    ensures var base := node.bases[t].base;
      && !Has(RunList(AnyBase, ANY_ID, node.handlers) + RunBases(node.bases[..t], evBase, evId), base, id, handler)
      && !Has(RunBases(node.bases[t + 1..], evBase, evId), base, id, handler)
  {
    hide RunBases, RunBase, GoodBase, HoldsInBase, Distinct;
    var base, was := node.bases[t].base, node.bases[t];
    var top := RunList(AnyBase, ANY_ID, node.handlers);
    assert !Has(top, base, id, handler);
    hide Has, RunList;
    var pre, mid, post :=
      RunBases(node.bases[..t], evBase, evId), RunBase(was, evBase, evId), RunBases(node.bases[t + 1..], evBase, evId);
    if evBase == base && (id == ANY_ID || id == evId) {
      assert node.bases == node.bases[t := was];
      RunBasesSplit(node.bases, t, was, evBase, evId);
      assert RunLoop(node, evBase, evId) == (top + pre) + mid + post;
      HeldIsRun(was, id, handler, evId);
      DistinctElsewhere(top + pre, mid, post, base, id, handler);
    } else {
      RunBasesTagged(node.bases[..t], base, id, handler, evBase, evId);
      RunBasesTagged(node.bases[t + 1..], base, id, handler, evBase, evId);
      HasConcat(top, pre, base, id, handler);
    }
  }

  lemma HeldIsRun(n: BaseNode, id: int, handler: nat, evId: int)
    requires GoodBase(n) && HoldsInBase(n, id, handler) && evId != ANY_ID && (id == ANY_ID || id == evId)
    ensures Has(RunBase(n, n.base, evId), n.base, id, handler)
  {
    var own, rest := RunList(n.base, ANY_ID, n.handlers), RunIds(n.base, n.ids, evId);
    HasConcat(own, rest, n.base, id, handler);
    if id == ANY_ID {
      var k :| 0 <= k < |n.handlers| && n.handlers[k].handler == handler;
      assert SameKey(own[k], n.base, id, handler);
    } else {
      var k :| 0 <= k < |n.ids| && n.ids[k].id == id && Holds(n.ids[k].handlers, handler);
      RunIdsAt(n.base, n.ids, k);
      var j :| 0 <= j < |n.ids[k].handlers| && n.ids[k].handlers[j].handler == handler;
      assert SameKey(rest[j], n.base, id, handler);
    }
  }

  // ---------- unregistering ----------

  // The handler of a base or id list is gone.  The result says so only if no list for the id is
  // left: for an id list that stays non-empty it is "not found".
  method BaseNodeRemoveHandler(node: BaseNode, id: int, handler: nat) returns (ok: bool, r: BaseNode)
    requires GoodBase(node)
    ensures r.base == node.base && GoodBase(r)
    ensures forall evId: int :: evId != ANY_ID ==>
      RunBase(r, node.base, evId) == Without(RunBase(node, node.base, evId), node.base, id, handler)
    ensures ok <==> HoldsInBase(node, id, handler) && (id == ANY_ID || NoList(r.ids, id))
    ensures EmptyBase(r) && !EmptyBase(node) ==> ok
    ensures !HoldsInBase(node, id, handler) ==> r == node
    ensures node.ids == [] ==> r.ids == []
  {
    if id == ANY_ID {
      var hs;
      ok, hs := HandlerInstancesRemove(node.handlers, handler);
      r := node.(handlers := hs);
      BaseListRemoved(node, hs, handler);
      return;
    }
    hide RunBase, RunList, RunIds, Without;
    // Ids are unique within a base node: the walk ends at the first match.
    var it := 0;
    while it < |node.ids|
      invariant 0 <= it <= |node.ids|
      invariant forall k :: 0 <= k < it ==> node.ids[k].id != id
    {
      if node.ids[it].id == id {
        var found, hs := HandlerInstancesRemove(node.ids[it].handlers, handler);
        var ids := if found && hs == [] then node.ids[..it] + node.ids[it + 1..] else node.ids[it := IdNode(id, hs)];
        IdListRemoved(node, it, hs, ids, handler);
        return found && hs == [], node.(ids := ids);
      }
      it := it + 1;
    }
    forall evId: int | evId != ANY_ID
      ensures RunBase(node, node.base, evId) == Without(RunBase(node, node.base, evId), node.base, id, handler)
    {
      IdAbsent(node, id, handler, evId);
    }
    return false, node;
  }

  predicate NoList(ids: seq<IdNode>, id: int) {
    forall k :: 0 <= k < |ids| ==> ids[k].id != id
  }

  lemma BaseListRemoved(node: BaseNode, hs: seq<Instance>, handler: nat)
    requires GoodBase(node)
    requires RunList(node.base, ANY_ID, hs)
      == Without(RunList(node.base, ANY_ID, node.handlers), node.base, ANY_ID, handler)
    ensures forall evId: int :: evId != ANY_ID ==>
      RunBase(node.(handlers := hs), node.base, evId)
        == Without(RunBase(node, node.base, evId), node.base, ANY_ID, handler)
  {
    forall evId: int | evId != ANY_ID
      ensures RunBase(node.(handlers := hs), node.base, evId)
        == Without(RunBase(node, node.base, evId), node.base, ANY_ID, handler)
    {
      var own, rest := RunList(node.base, ANY_ID, node.handlers), RunIds(node.base, node.ids, evId);
      RunIdsTagged(node.base, node.ids, evId);
      WithoutConcat(own, rest, node.base, ANY_ID, handler);
      WithoutAbsent(rest, node.base, ANY_ID, handler);
    }
  }

  // What the removal from the id list at k means for the base node.
  lemma IdListRemoved(node: BaseNode, k: nat, hs: seq<Instance>, ids: seq<IdNode>, handler: nat)
    requires GoodBase(node) && k < |node.ids| && node.ids[k].id != ANY_ID && UniqueHandlers(hs)
    requires !Holds(node.ids[k].handlers, handler) ==> hs == node.ids[k].handlers
    requires ids == if Holds(node.ids[k].handlers, handler) && hs == [] then node.ids[..k] + node.ids[k + 1..]
                    else node.ids[k := IdNode(node.ids[k].id, hs)]
    requires forall base: Base, id: int ::
      RunList(base, id, hs) == Without(RunList(base, id, node.ids[k].handlers), base, id, handler)
    ensures GoodBase(node.(ids := ids))
    ensures forall evId: int :: evId != ANY_ID ==>
      RunBase(node.(ids := ids), node.base, evId)
        == Without(RunBase(node, node.base, evId), node.base, node.ids[k].id, handler)
    ensures HoldsInBase(node, node.ids[k].id, handler) <==> Holds(node.ids[k].handlers, handler)
    ensures hs == [] ==> Holds(node.ids[k].handlers, handler)
    ensures NoList(ids, node.ids[k].id) <==> hs == []
    ensures ids == [] ==> hs == []
    ensures !Holds(node.ids[k].handlers, handler) ==> ids == node.ids
  {
    hide RunBase, RunList, RunIds, Without;
    assert GoodId(node.ids[k]);
    IdRemoved(node, k, hs, ids, handler, 0);
    forall evId: int | evId != ANY_ID
      ensures RunBase(node.(ids := ids), node.base, evId)
        == Without(RunBase(node, node.base, evId), node.base, node.ids[k].id, handler)
    {
      IdRemoved(node, k, hs, ids, handler, evId);
    }
    if hs != [] {
      assert ids[k].id == node.ids[k].id;
    }
  }

  lemma IdAbsent(node: BaseNode, id: int, handler: nat, evId: int)
    requires GoodBase(node) && id != ANY_ID && evId != ANY_ID
    requires forall k :: 0 <= k < |node.ids| ==> node.ids[k].id != id
    ensures RunBase(node, node.base, evId) == Without(RunBase(node, node.base, evId), node.base, id, handler)
  {
    if evId == id {
      RunIdsNone(node.base, node.ids, id);
    } else {
      RunIdsTagged(node.base, node.ids, evId);
    }
    WithoutAbsent(RunBase(node, node.base, evId), node.base, id, handler);
  }

  lemma IdRemoved(node: BaseNode, k: nat, hs: seq<Instance>, ids: seq<IdNode>, handler: nat, evId: int)
    requires GoodBase(node) && k < |node.ids| && evId != ANY_ID
    requires UniqueHandlers(hs) && (hs == [] ==> Holds(node.ids[k].handlers, handler))
    requires ids == if hs == [] then node.ids[..k] + node.ids[k + 1..] else node.ids[k := IdNode(node.ids[k].id, hs)]
    requires RunList(node.base, node.ids[k].id, hs)
          == Without(RunList(node.base, node.ids[k].id, node.ids[k].handlers), node.base, node.ids[k].id, handler)
    ensures GoodIds(ids)
    ensures RunBase(node.(ids := ids), node.base, evId)
         == Without(RunBase(node, node.base, evId), node.base, node.ids[k].id, handler)
  {
    var id := node.ids[k].id;
    var own, rest := RunList(node.base, ANY_ID, node.handlers), RunIds(node.base, node.ids, evId);
    hide RunIds, Without;
    assert GoodIds(ids);
    assert !Has(own, node.base, id, handler) by {
      assert GoodId(node.ids[k]);
    }
    assert evId != id ==> !Has(rest, node.base, id, handler) by {
      RunIdsTagged(node.base, node.ids, evId);
    }
    hide Has, Holds, RunList;
    WithoutConcat(own, rest, node.base, id, handler);
    WithoutAbsent(own, node.base, id, handler);
    if evId == id {
      RunIdsAt(node.base, node.ids, k);
      if hs == [] {
        RunIdsNone(node.base, ids, id);
      } else {
        RunIdsAt(node.base, ids, k);
      }
    } else {
      hide GoodBase;
      forall n: IdNode | n.id == evId
        ensures n in ids <==> n in node.ids
      {
        SameOthers(node.ids, k, ids, n);
      }
      RunIdsAgree(node.base, node.ids, ids, evId);
      WithoutAbsent(rest, node.base, id, handler);
    }
  }

  lemma SameOthers(a: seq<IdNode>, k: nat, b: seq<IdNode>, n: IdNode)
    requires k < |a| && n.id != a[k].id
    requires b == a[..k] + a[k + 1..] || (|b| == |a| && b == a[k := b[k]] && b[k].id == a[k].id)
    ensures n in b <==> n in a
  {
    if n in a {
      var j :| 0 <= j < |a| && a[j] == n;
      if |b| == |a| {
        assert b[j] == n;
      } else {
        assert b[if j < k then j else j - 1] == n;
      }
    }
  }

  // The nodes that can make calls for a registration: loop nodes, seen as a list.
  predicate RunsWithout(n: LoopNode, r: LoopNode, base: Base, id: int, handler: nat, evBase: Base, evId: int) {
    RunLoop(r, evBase, evId) == Without(RunLoop(n, evBase, evId), base, id, handler)
  }

  method LoopNodeRemoveHandler(node: LoopNode, base: Base, id: int, handler: nat) returns (ok: bool, r: LoopNode)
    requires GoodLoop(node) && LegalKey(base, id)
    requires forall evBase: Base, evId: int :: IsEvent(evBase, evId) ==> Distinct(RunLoop(node, evBase, evId))
    ensures GoodLoop(r)
    ensures forall evBase: Base, evId: int :: IsEvent(evBase, evId) ==>
      RunsWithout(node, r, base, id, handler, evBase, evId)
    ensures ok ==> forall evBase: Base, evId: int :: IsEvent(evBase, evId) && Matches(base, id, evBase, evId) ==>
      Has(RunLoop(node, evBase, evId), base, id, handler)
    ensures EmptyLoop(r) && !EmptyLoop(node) ==> ok
    ensures forall level :: NodeAt(node, level) ==> NodeAt(r, level)
  {
    hide NodeAt;
    if base.AnyBase? && id == ANY_ID {
      var hs;
      ok, hs := HandlerInstancesRemove(node.handlers, handler);
      r := node.(handlers := hs);
      forall evBase: Base, evId: int | IsEvent(evBase, evId)
        ensures RunsWithout(node, r, base, id, handler, evBase, evId)
        ensures ok ==> Has(RunLoop(node, evBase, evId), base, id, handler)
      {
        TopRemoved(node, hs, handler, evBase, evId);
      }
      SameBasesAt(node, r);
      return;
    }
    var bases := node.bases;
    var it := 0;
    while it < |bases|
      invariant 0 <= it <= |bases| == |node.bases| && bases[it..] == node.bases[it..]
      invariant GoodLoop(node.(bases := bases))
      invariant forall level :: NodeAt(node, level) ==> NodeAt(node.(bases := bases), level)
      invariant forall evBase: Base, evId: int :: IsEvent(evBase, evId) ==>
        RunBases(bases[..it], evBase, evId) == Without(RunBases(node.bases[..it], evBase, evId), base, id, handler)
    {
      assert bases[it] == node.bases[it];
      if bases[it].base == base {
        var res, n := BaseNodeRemoveHandler(bases[it], id, handler);
        ShrunkAt(node.(bases := bases), it, n);
        forall evBase: Base, evId: int | IsEvent(evBase, evId)
          ensures RunBase(n, evBase, evId) == Without(RunBase(bases[it], evBase, evId), base, id, handler)
        {
          assert evBase != base ==> RunBase(bases[it], evBase, evId) == [];
        }
        if res && EmptyBase(n) {
          r := node.(bases := bases[..it] + bases[it + 1..]);
          forall evBase: Base, evId: int | IsEvent(evBase, evId)
            ensures RunsWithout(node, r, base, id, handler, evBase, evId)
            ensures Matches(base, id, evBase, evId) ==> Has(RunLoop(node, evBase, evId), base, id, handler)
          {
            BaseRemoved(node, bases, it, n, id, handler, evBase, evId);
          }
          return true, r;
        }
        forall evBase: Base, evId: int | IsEvent(evBase, evId)
          ensures RunBases(bases[it := n][..it + 1], evBase, evId)
               == Without(RunBases(node.bases[..it + 1], evBase, evId), base, id, handler)
        {
          PrefixStep(node.bases, bases, it, n, base, id, handler, evBase, evId);
        }
        bases := bases[it := n];
      } else {
        forall evBase: Base, evId: int | IsEvent(evBase, evId)
          ensures RunBases(bases[..it + 1], evBase, evId)
               == Without(RunBases(node.bases[..it + 1], evBase, evId), base, id, handler)
        {
          OtherBaseStep(node.bases, bases, it, base, id, handler, evBase, evId);
        }
      }
      it := it + 1;
    }
    r := node.(bases := bases);
    assert bases[..|bases|] == bases && node.bases[..|bases|] == node.bases;
    forall evBase: Base, evId: int | IsEvent(evBase, evId)
      ensures RunsWithout(node, r, base, id, handler, evBase, evId)
    {
      var top := RunList(AnyBase, ANY_ID, node.handlers);
      WithoutConcat(top, RunBases(node.bases, evBase, evId), base, id, handler);
      WithoutAbsent(top, base, id, handler);
    }
    return false, r;
  }

  lemma TopRemoved(node: LoopNode, hs: seq<Instance>, handler: nat, evBase: Base, evId: int)
    requires IsEvent(evBase, evId)
    requires RunList(AnyBase, ANY_ID, hs) == Without(RunList(AnyBase, ANY_ID, node.handlers), AnyBase, ANY_ID, handler)
    ensures RunsWithout(node, node.(handlers := hs), AnyBase, ANY_ID, handler, evBase, evId)
    ensures Holds(node.handlers, handler) ==> Has(RunLoop(node, evBase, evId), AnyBase, ANY_ID, handler)
  {
    var top, rest := RunList(AnyBase, ANY_ID, node.handlers), RunBases(node.bases, evBase, evId);
    RunBasesTagged(node.bases, AnyBase, ANY_ID, handler, evBase, evId);
    WithoutConcat(top, rest, AnyBase, ANY_ID, handler);
    WithoutAbsent(rest, AnyBase, ANY_ID, handler);
    HasConcat(top, rest, AnyBase, ANY_ID, handler);
    if k :| 0 <= k < |node.handlers| && node.handlers[k].handler == handler {
      assert SameKey(top[k], AnyBase, ANY_ID, handler);
    }
  }

  lemma PrefixStep(was: seq<BaseNode>, bases: seq<BaseNode>, it: nat, n: BaseNode,
                   base: Base, id: int, handler: nat, evBase: Base, evId: int)
    requires it < |was| == |bases|
    requires RunBases(bases[..it], evBase, evId) == Without(RunBases(was[..it], evBase, evId), base, id, handler)
    requires RunBase(n, evBase, evId) == Without(RunBase(was[it], evBase, evId), base, id, handler)
    ensures RunBases(bases[it := n][..it + 1], evBase, evId)
         == Without(RunBases(was[..it + 1], evBase, evId), base, id, handler)
  {
    assert bases[it := n][..it + 1] == bases[..it] + [n];
    assert was[..it + 1] == was[..it] + [was[it]];
    RunBasesConcat(bases[..it], [n], evBase, evId);
    RunBasesConcat(was[..it], [was[it]], evBase, evId);
    assert [n][1..] == [] && [was[it]][1..] == [];
    assert RunBases([n], evBase, evId) == RunBase(n, evBase, evId);
    assert RunBases([was[it]], evBase, evId) == RunBase(was[it], evBase, evId);
    WithoutConcat(RunBases(was[..it], evBase, evId), RunBase(was[it], evBase, evId), base, id, handler);
  }

  lemma OtherBaseStep(was: seq<BaseNode>, bases: seq<BaseNode>, it: nat,
                      base: Base, id: int, handler: nat, evBase: Base, evId: int)
    requires it < |was| == |bases| && bases[it] == was[it] && was[it].base != base
    requires RunBases(bases[..it], evBase, evId) == Without(RunBases(was[..it], evBase, evId), base, id, handler)
    ensures RunBases(bases[..it + 1], evBase, evId)
         == Without(RunBases(was[..it + 1], evBase, evId), base, id, handler)
  {
    RunIdsTagged(was[it].base, was[it].ids, evId);
    WithoutAbsent(RunBase(was[it], evBase, evId), base, id, handler);
    assert bases[it := was[it]] == bases;
    PrefixStep(was, bases, it, was[it], base, id, handler, evBase, evId);
  }

  // Dropping an emptied base node: the nodes behind it never held the handler.
  lemma BaseRemoved(node: LoopNode, bases: seq<BaseNode>, it: nat, n: BaseNode, id: int, handler: nat, evBase: Base,
      evId: int)
    requires it < |bases| == |node.bases| && bases[it..] == node.bases[it..] && IsEvent(evBase, evId)
    requires GoodBase(node.bases[it]) && n.base == node.bases[it].base && EmptyBase(n)
    requires HoldsInBase(node.bases[it], id, handler) && Distinct(RunLoop(node, evBase, evId))
    requires RunBases(bases[..it], evBase, evId)
      == Without(RunBases(node.bases[..it], evBase, evId), n.base, id, handler)
    requires RunBase(n, evBase, evId) == Without(RunBase(node.bases[it], evBase, evId), n.base, id, handler)
    ensures RunsWithout(node, node.(bases := bases[..it] + bases[it + 1..]), n.base, id, handler, evBase, evId)
    ensures Matches(n.base, id, evBase, evId) ==> Has(RunLoop(node, evBase, evId), n.base, id, handler)
  {
    var base := n.base;
    var top, post := RunList(AnyBase, ANY_ID, node.handlers), RunBases(node.bases[it + 1..], evBase, evId);
    OtherBasesLack(node, it, id, handler, evBase, evId);
    assert bases[it + 1..] == bases[it..][1..] == node.bases[it + 1..];
    RunBasesConcat(bases[..it], bases[it + 1..], evBase, evId);
    assert RunBase(n, evBase, evId) == [];
    assert node.bases == node.bases[it := node.bases[it]];
    RunLoopSplit(node, it, node.bases[it], evBase, evId);
    var pre, mid := RunBases(node.bases[..it], evBase, evId), RunBase(node.bases[it], evBase, evId);
    assert RunLoop(node, evBase, evId) == top + pre + mid + post;
    WithoutParts(top, pre, mid, post, base, id, handler);
    if Matches(base, id, evBase, evId) {
      HeldIsRun(node.bases[it], id, handler, evId);
      HasConcat(top + pre, mid, base, id, handler);
      HasConcat(top + pre + mid, post, base, id, handler);
    }
  }

  lemma WithoutParts(top: seq<Reg>, pre: seq<Reg>, mid: seq<Reg>, post: seq<Reg>, base: Base, id: int, handler: nat)
    requires !Has(top + pre, base, id, handler) && !Has(post, base, id, handler)
    requires Without(mid, base, id, handler) == []
    ensures Without(top + pre + mid + post, base, id, handler) == top + (Without(pre, base, id, handler) + post)
  {
    hide Without, Has;
    WithoutConcat(top + pre + mid, post, base, id, handler);
    WithoutConcat(top + pre, mid, base, id, handler);
    WithoutConcat(top, pre, base, id, handler);
    WithoutAbsent(post, base, id, handler);
    HasConcat(top, pre, base, id, handler);
    WithoutAbsent(top, base, id, handler);
  }

  // ---------- the loop ----------

  lemma {:induction false} RunLoopsConcat(a: seq<LoopNode>, b: seq<LoopNode>, evBase: Base, evId: int)
    ensures RunLoops(a + b, evBase, evId) == RunLoops(a, evBase, evId) + RunLoops(b, evBase, evId)
  {
    if a == [] {
      assert a + b == b;
    } else {
      assert (a + b)[1..] == a[1..] + b;
      RunLoopsConcat(a[1..], b, evBase, evId);
    }
  }

  lemma RunLoopsAt(nodes: seq<LoopNode>, k: nat, evBase: Base, evId: int)
    requires k < |nodes|
    ensures RunLoops(nodes, evBase, evId)
         == RunLoops(nodes[..k], evBase, evId) + RunLoop(nodes[k], evBase, evId)
           + RunLoops(nodes[k + 1..], evBase, evId)
  {
    assert nodes == nodes[..k] + [nodes[k]] + nodes[k + 1..];
    RunLoopsConcat(nodes[..k] + [nodes[k]], nodes[k + 1..], evBase, evId);
    RunLoopsConcat(nodes[..k], [nodes[k]], evBase, evId);
    assert [nodes[k]][1..] == [];
    assert RunLoops([nodes[k]], evBase, evId) == RunLoop(nodes[k], evBase, evId);
  }

  lemma EmptyRuns(evBase: Base, evId: int, base: Base, id: int, handler: nat)
    ensures GoodLoop(LoopNode([], [])) && Distinct(RunLoop(LoopNode([], []), evBase, evId))
    ensures RunLoops([], evBase, evId) == Without([], base, id, handler) == []
  {
  }

  // Every node runs something: a registry without registrations has no nodes left.
  lemma SomethingRuns(nodes: seq<LoopNode>) returns (evBase: Base, evId: int)
    requires GoodLoops(nodes) && nodes != []
    ensures IsEvent(evBase, evId) && RunLoops(nodes, evBase, evId) != []
  {
    var n := nodes[0];
    assert GoodLoop(n) && !EmptyLoop(n);
    evBase, evId := Named(0), 0;
    if n.handlers == [] {
      var b := n.bases[0];
      assert GoodBase(b) && !EmptyBase(b);
      evBase := b.base;
      if b.handlers == [] {
        assert GoodId(b.ids[0]);
        evId := b.ids[0].id;
      }
      assert RunBase(b, evBase, evId) != [];
    }
    assert RunLoop(n, evBase, evId) != [];
  }

  datatype Error = Ok | InvalidArg | Fail

  class Loop {
    var nodes: seq<LoopNode>
    ghost var log: seq<Reg>    // the registrations in force, oldest first

    // Dispatch over the tree is filtering the log.
    ghost predicate Agrees()
      reads this
    {
      forall evBase: Base, evId: int :: IsEvent(evBase, evId) ==>
        RunLoops(nodes, evBase, evId) == Matching(log, evBase, evId)
    }

    ghost predicate Valid()
      reads this
    {
      GoodLoops(nodes) && Agrees() && Distinct(log)
    }

    constructor ()
      ensures Valid() && log == [] && nodes == []
    {
      nodes, log := [], [];
    }

    // The registration would go to a handler list that already has the handler.
    predicate TargetHolds(base: Base, id: int, handler: nat)
      reads this
    {
      nodes != [] && !(base.AnyBase? && nodes[|nodes| - 1].bases != [])
        && HoldsInLoop(nodes[|nodes| - 1], base, id, handler)
    }

    // At most one loop node, which has at most one node for each base.
    predicate At(level: Level)
      reads this
    {
      |nodes| <= 1 && forall k :: 0 <= k < |nodes| ==> NodeAt(nodes[k], level)
    }

    lemma FoundAgain(base: Base, id: int, handler: nat)
      requires Valid()
      ensures forall level :: At(level) && KeyAt(level, base, id) ==>
        && (TargetHolds(base, id, handler) <==> Has(log, base, id, handler))
        && (base.AnyBase? && nodes != [] ==> nodes[|nodes| - 1].bases == [])
      ensures forall level :: NodeAt(LoopNode([], []), level)
    {
      forall level | At(level) && KeyAt(level, base, id)
        ensures TargetHolds(base, id, handler) <==> Has(log, base, id, handler)
      {
        TargetIffInLog(this, level, base, id, handler);
      }
    }

    lemma NodeDistinct(k: nat, evBase: Base, evId: int)
      requires Valid() && k < |nodes| && IsEvent(evBase, evId)
      ensures Distinct(RunLoop(nodes[k], evBase, evId))
    {
      RunLoopsAt(nodes, k, evBase, evId);
      DistinctMatching(log, evBase, evId);
      DistinctPart(RunLoops(nodes[..k], evBase, evId), RunLoop(nodes[k], evBase, evId),
        RunLoops(nodes[k + 1..], evBase, evId));
    }

    // esp_event_handler_register_with.  A new registration goes last for every event it
    // matches.  A repeated one overwrites the argument if it reaches the list that has the
    // handler, and is otherwise stored a second time, so that the log is no longer distinct.
    method Register(base: Base, id: int, handler: nat, arg: nat) returns (err: Error)
      requires Valid()
      modifies this
      ensures err == if LegalKey(base, id) then Ok else InvalidArg
      ensures err != Ok ==> nodes == old(nodes) && log == old(log)
      ensures GoodLoops(nodes) && Agrees()
      ensures err == Ok ==> log == if old(TargetHolds(base, id, handler)) then old(Rearmed(log, base, id, handler, arg))
                                   else old(log) + [Reg(base, id, handler, arg)]
      ensures err == Ok ==> (Valid() <==> !old(Has(log, base, id, handler)) || old(TargetHolds(base, id, handler)))
      // where there are only registrations of this level, a repetition is always found
      ensures forall level :: old(At(level)) && KeyAt(level, base, id) ==>
        && At(level) && Valid()
        && log == if old(Has(log, base, id, handler)) then old(Rearmed(log, base, id, handler, arg))
                  else old(log) + [Reg(base, id, handler, arg)]
    {
      FoundAgain(base, id, handler);
      hide Has, Distinct, Rearmed, Matching, RunLoops, HoldsInLoop, GoodLoop, RunLoop, NodeAt, Agrees;
      if base.AnyBase? && id != ANY_ID {
        return InvalidArg;
      }
      var isLoopLevel := base.AnyBase? && id == ANY_ID;
      if nodes == [] || (nodes[|nodes| - 1].bases != [] && isLoopLevel) {
        AddNode(base, id, handler, arg);
      } else {
        AddToLast(base, id, handler, arg);
      }
      return Ok;
    }

    // A new loop node behind the others.
    method AddNode(base: Base, id: int, handler: nat, arg: nat)
      requires Valid() && LegalKey(base, id)
      modifies this
      ensures GoodLoops(nodes) && Agrees() && log == old(log) + [Reg(base, id, handler, arg)]
      ensures Distinct(log) <==> !old(Has(log, base, id, handler))
      ensures |nodes| == |old(nodes)| + 1 && forall level :: KeyAt(level, base, id) ==>
        NodeAt(nodes[|nodes| - 1], level)
    {
      hide Has, Distinct, Rearmed, Matching, RunLoops, HoldsInLoop, GoodLoop, AddedToLoop, EmptyLoop, RunLoop;
      ghost var before := nodes;
      forall evBase: Base, evId: int
        ensures GoodLoop(LoopNode([], [])) && Distinct(RunLoop(LoopNode([], []), evBase, evId))
      {
        EmptyRuns(evBase, evId, base, id, handler);
      }
      EmptyRuns(base, id, base, id, handler);
      var n := LoopNodeAddHandler(LoopNode([], []), base, id, handler, arg);
      nodes := nodes + [n];
      log := log + [Reg(base, id, handler, arg)];
      forall evBase: Base, evId: int | IsEvent(evBase, evId)
        ensures RunLoops(nodes, evBase, evId) == Matching(log, evBase, evId)
      {
        assert AddedToLoop(LoopNode([], []), base, id, handler, arg, n, evBase, evId);
        NewLoopRuns(before, n, old(log), base, id, handler, arg, evBase, evId);
      }
      DistinctSnoc(old(log), Reg(base, id, handler, arg));
    }

    // In the last loop node.
    method AddToLast(base: Base, id: int, handler: nat, arg: nat)
      requires Valid() && LegalKey(base, id) && nodes != [] && (base.AnyBase? ==> nodes[|nodes| - 1].bases == [])
      modifies this
      ensures GoodLoops(nodes) && Agrees()
      ensures log == if old(TargetHolds(base, id, handler)) then old(Rearmed(log, base, id, handler, arg))
                     else old(log) + [Reg(base, id, handler, arg)]
      ensures Distinct(log) <==> !old(Has(log, base, id, handler)) || old(TargetHolds(base, id, handler))
      ensures |nodes| == |old(nodes)|
      ensures forall level :: KeyAt(level, base, id) && old(NodeAt(nodes[|nodes| - 1], level)) ==>
        NodeAt(nodes[|nodes| - 1], level)
    {
      hide Has, Distinct, Rearmed, Matching, RunLoops, HoldsInLoop, GoodLoop, AddedToLoop, EmptyLoop, RunLoop;
      ghost var before, holds := nodes, TargetHolds(base, id, handler);
      var last := |nodes| - 1;
      forall evBase: Base, evId: int | IsEvent(evBase, evId)
        ensures Distinct(RunLoop(nodes[last], evBase, evId))
      {
        NodeDistinct(last, evBase, evId);
      }
      var n := LoopNodeAddHandler(nodes[last], base, id, handler, arg);
      nodes := nodes[last := n];
      log := if holds then Rearmed(log, base, id, handler, arg) else log + [Reg(base, id, handler, arg)];
      forall evBase: Base, evId: int | IsEvent(evBase, evId)
        ensures RunLoops(nodes, evBase, evId) == Matching(log, evBase, evId)
      {
        assert AddedToLoop(before[last], base, id, handler, arg, n, evBase, evId);
        OldLoopRuns(before, n, old(log), base, id, handler, arg, evBase, evId);
      }
      DistinctSnoc(old(log), Reg(base, id, handler, arg));
      DistinctRearmed(old(log), base, id, handler, arg);
    }

    // esp_event_handler_unregister_with: the registration leaves the log and with it the calls.
    method Unregister(base: Base, id: int, handler: nat) returns (err: Error)
      requires Valid()
      modifies this
      ensures err == if LegalKey(base, id) then Ok else Fail
      ensures Valid()
      ensures log == if LegalKey(base, id) then old(Without(log, base, id, handler)) else old(log)
      ensures log == [] ==> nodes == []
      ensures forall level :: old(At(level)) ==> At(level)
    {
      hide Has, Distinct, Matching, RunLoops, GoodLoop, RunLoop, Without, Matches;
      if base.AnyBase? && id != ANY_ID {
        NoLeftovers();
        return Fail;
      }
      ghost var before := nodes;
      forall k, evBase: Base, evId: int | 0 <= k < |nodes| && IsEvent(evBase, evId)
        ensures Distinct(RunLoop(before[k], evBase, evId))
      {
        NodeDistinct(k, evBase, evId);
      }
      forall evBase: Base, evId: int
        ensures RunLoops([], evBase, evId) == Without(RunLoops([], evBase, evId), base, id, handler)
      {
        EmptyRuns(evBase, evId, base, id, handler);
      }
      var it := 0;
      while it < |nodes|
        invariant 0 <= it <= |nodes| == |before| && nodes[it..] == before[it..] && log == old(log)
        invariant GoodLoops(nodes)
        invariant forall level :: old(At(level)) ==> At(level)
        invariant forall evBase: Base, evId: int :: IsEvent(evBase, evId) ==>
          RunLoops(nodes[..it], evBase, evId) == Without(RunLoops(before[..it], evBase, evId), base, id, handler)
      {
        assert nodes[it] == before[it] && GoodLoop(nodes[it]);
        var res, n := LoopNodeRemoveHandler(nodes[it], base, id, handler);
        if res && EmptyLoop(n) {
          forall evBase: Base, evId: int | IsEvent(evBase, evId)
            ensures RunLoops(nodes[..it] + nodes[it + 1..], evBase, evId)
                 == Without(RunLoops(before, evBase, evId), base, id, handler)
          {
            assert RunsWithout(before[it], n, base, id, handler, evBase, evId);
            LoopRemoved(before, nodes, log, it, n, base, id, handler, evBase, evId);
          }
          nodes := nodes[..it] + nodes[it + 1..];
          Unregistered(before, base, id, handler);
          return Ok;
        }
        forall evBase: Base, evId: int | IsEvent(evBase, evId)
          ensures RunLoops(nodes[it := n][..it + 1], evBase, evId)
               == Without(RunLoops(before[..it + 1], evBase, evId), base, id, handler)
        {
          assert RunsWithout(before[it], n, base, id, handler, evBase, evId);
          LoopPrefixStep(before, nodes, it, n, base, id, handler, evBase, evId);
        }
        nodes := nodes[it := n];
        it := it + 1;
      }
      assert nodes[..|nodes|] == nodes && before[..|nodes|] == before;
      Unregistered(before, base, id, handler);
      return Ok;
    }

    ghost method Unregistered(before: seq<LoopNode>, base: Base, id: int, handler: nat)
      requires GoodLoops(nodes) && Distinct(log)
      requires forall evBase: Base, evId: int :: IsEvent(evBase, evId) ==>
        RunLoops(before, evBase, evId) == Matching(log, evBase, evId)
      requires forall evBase: Base, evId: int :: IsEvent(evBase, evId) ==>
        RunLoops(nodes, evBase, evId) == Without(RunLoops(before, evBase, evId), base, id, handler)
      modifies this`log
      ensures log == old(Without(log, base, id, handler)) && Valid() && (log == [] ==> nodes == [])
    {
      DistinctWithout(log, base, id, handler);
      forall evBase: Base, evId: int | IsEvent(evBase, evId)
        ensures RunLoops(nodes, evBase, evId) == Matching(Without(log, base, id, handler), evBase, evId)
      {
        MatchingWithout(log, base, id, handler, evBase, evId);
      }
      log := Without(log, base, id, handler);
      NoLeftovers();
    }

    lemma NoLeftovers()
      requires Valid()
      ensures log == [] ==> nodes == []
    {
      if nodes != [] {
        var evBase, evId := SomethingRuns(nodes);
        assert Matching(log, evBase, evId) != [];
      }
    }

    // One turn of esp_event_loop_run: all handlers the event concerns, in log order.
    method Dispatch(evBase: Base, evId: int) returns (calls: seq<Reg>, exec: bool)
      requires IsEvent(evBase, evId)
      ensures calls == RunLoops(nodes, evBase, evId)
      ensures Agrees() ==> calls == Matching(log, evBase, evId)
      ensures exec <==> calls != []
    {
      calls, exec := [], false;
      var it := 0;
      while it < |nodes|
        invariant 0 <= it <= |nodes|
        invariant calls == RunLoops(nodes[..it], evBase, evId)
        invariant exec <==> calls != []
      {
        var more := DispatchLoop(nodes[it], evBase, evId);
        assert nodes[..it + 1][..it] == nodes[..it] && nodes[..it + 1][it + 1..] == [];
        RunLoopsAt(nodes[..it + 1], it, evBase, evId);
        calls := calls + more;
        exec := exec || more != [];
        it := it + 1;
      }
      assert nodes[..|nodes|] == nodes;
    }
  }

  // ---------- dispatch, level by level ----------

  method ExecuteAll(base: Base, id: int, hs: seq<Instance>) returns (calls: seq<Reg>)
    ensures calls == RunList(base, id, hs)
  {
    calls := [];
    for it := 0 to |hs|
      invariant calls == RunList(base, id, hs)[..it]
    {
      calls := calls + [Reg(base, id, hs[it].handler, hs[it].arg)];
    }
  }

  method DispatchBase(node: BaseNode, evBase: Base, evId: int) returns (calls: seq<Reg>)
    ensures calls == RunBase(node, evBase, evId)
  {
    if node.base != evBase {
      return [];
    }
    calls := ExecuteAll(node.base, ANY_ID, node.handlers);
    var it := 0;
    while it < |node.ids|
      invariant 0 <= it <= |node.ids|
      invariant calls + RunIds(node.base, node.ids[it..], evId) == RunBase(node, evBase, evId)
    {
      if node.ids[it].id == evId {
        var more := ExecuteAll(node.base, evId, node.ids[it].handlers);
        return calls + more;
      }
      it := it + 1;
    }
  }

  method DispatchLoop(node: LoopNode, evBase: Base, evId: int) returns (calls: seq<Reg>)
    ensures calls == RunLoop(node, evBase, evId)
  {
    hide RunBase, RunList;
    calls := ExecuteAll(AnyBase, ANY_ID, node.handlers);
    var it := 0;
    assert node.bases[0..] == node.bases;
    while it < |node.bases|
      invariant 0 <= it <= |node.bases|
      invariant calls + RunBases(node.bases[it..], evBase, evId) == RunLoop(node, evBase, evId)
    {
      var more := DispatchBase(node.bases[it], evBase, evId);
      assert node.bases[it..][1..] == node.bases[it + 1..];
      calls := calls + more;
      it := it + 1;
    }
  }

  lemma LoopPrefixStep(was: seq<LoopNode>, nodes: seq<LoopNode>, it: nat, n: LoopNode,
                       base: Base, id: int, handler: nat, evBase: Base, evId: int)
    requires it < |was| == |nodes|
    requires RunLoops(nodes[..it], evBase, evId) == Without(RunLoops(was[..it], evBase, evId), base, id, handler)
    requires RunsWithout(was[it], n, base, id, handler, evBase, evId)
    ensures RunLoops(nodes[it := n][..it + 1], evBase, evId)
         == Without(RunLoops(was[..it + 1], evBase, evId), base, id, handler)
  {
    assert nodes[it := n][..it + 1] == nodes[..it] + [n];
    assert was[..it + 1] == was[..it] + [was[it]];
    RunLoopsConcat(nodes[..it], [n], evBase, evId);
    RunLoopsConcat(was[..it], [was[it]], evBase, evId);
    assert [n][1..] == [] && [was[it]][1..] == [];
    assert RunLoops([n], evBase, evId) == RunLoop(n, evBase, evId);
    assert RunLoops([was[it]], evBase, evId) == RunLoop(was[it], evBase, evId);
    WithoutConcat(RunLoops(was[..it], evBase, evId), RunLoop(was[it], evBase, evId), base, id, handler);
  }

  // Dropping an emptied loop node and stopping: the nodes behind it never held the handler.
  lemma LoopRemoved(was: seq<LoopNode>, nodes: seq<LoopNode>, log: seq<Reg>, it: nat, n: LoopNode,
                    base: Base, id: int, handler: nat, evBase: Base, evId: int)
    requires it < |was| == |nodes| && nodes[it..] == was[it..] && IsEvent(evBase, evId) && EmptyLoop(n)
    requires Distinct(log) && RunLoops(was, evBase, evId) == Matching(log, evBase, evId)
    requires RunLoops(nodes[..it], evBase, evId) == Without(RunLoops(was[..it], evBase, evId), base, id, handler)
    requires RunsWithout(was[it], n, base, id, handler, evBase, evId)
    requires Matches(base, id, evBase, evId) ==> Has(RunLoop(was[it], evBase, evId), base, id, handler)
    ensures RunLoops(nodes[..it] + nodes[it + 1..], evBase, evId)
         == Without(RunLoops(was, evBase, evId), base, id, handler)
  {
    hide Has, Distinct, Matching, RunLoops, Without, Matches;
    var pre, mid, post :=
      RunLoops(was[..it], evBase, evId), RunLoop(was[it], evBase, evId), RunLoops(was[it + 1..], evBase, evId);
    RunLoopsAt(was, it, evBase, evId);
    RunLoopsConcat(nodes[..it], nodes[it + 1..], evBase, evId);
    assert nodes[it + 1..] == nodes[it..][1..] == was[it + 1..];
    if Matches(base, id, evBase, evId) {
      DistinctMatching(log, evBase, evId);
      DistinctElsewhere(pre, mid, post, base, id, handler);
    } else {
      UnmatchedLacks(log, base, id, handler, evBase, evId);
      HasConcat(pre + mid, post, base, id, handler);
    }
    assert RunLoop(n, evBase, evId) == [];
    WithoutConcat(pre + mid, post, base, id, handler);
    WithoutConcat(pre, mid, base, id, handler);
    WithoutAbsent(post, base, id, handler);
  }

  lemma HeldInLoopRuns(n: LoopNode, base: Base, id: int, handler: nat, evBase: Base, evId: int)
    requires GoodLoop(n) && LegalKey(base, id) && HoldsInLoop(n, base, id, handler)
    requires IsEvent(evBase, evId) && Matches(base, id, evBase, evId)
    ensures Has(RunLoop(n, evBase, evId), base, id, handler)
  {
    var top, rest := RunList(AnyBase, ANY_ID, n.handlers), RunBases(n.bases, evBase, evId);
    HasConcat(top, rest, base, id, handler);
    if base.AnyBase? {
      var k :| 0 <= k < |n.handlers| && n.handlers[k].handler == handler;
      assert SameKey(top[k], base, id, handler);
    } else {
      var t := ReusedBase(n.bases, base, id);
      assert n.bases == n.bases[t := n.bases[t]];
      RunBasesSplit(n.bases, t, n.bases[t], evBase, evId);
      HeldIsRun(n.bases[t], id, handler, evId);
      HasConcat(RunBases(n.bases[..t], evBase, evId), RunBase(n.bases[t], evBase, evId), base, id, handler);
      HasConcat(RunBases(n.bases[..t], evBase, evId) + RunBase(n.bases[t], evBase, evId),
                RunBases(n.bases[t + 1..], evBase, evId), base, id, handler);
    }
  }

  lemma NewLoopRuns(nodes: seq<LoopNode>, n: LoopNode, log: seq<Reg>, base: Base, id: int, handler: nat, arg: nat,
      evBase: Base, evId: int)
    requires IsEvent(evBase, evId) && RunLoops(nodes, evBase, evId) == Matching(log, evBase, evId)
    requires AddedToLoop(LoopNode([], []), base, id, handler, arg, n, evBase, evId)
    ensures RunLoops(nodes + [n], evBase, evId) == Matching(log + [Reg(base, id, handler, arg)], evBase, evId)
  {
    var r := Reg(base, id, handler, arg);
    MatchingOne(r, evBase, evId);
    assert RunLoop(LoopNode([], []), evBase, evId) == [];
    assert !HoldsInLoop(LoopNode([], []), base, id, handler);
    hide HoldsInLoop, RunLoop, Matching, NewCall;
    RunLoopsConcat(nodes, [n], evBase, evId);
    MatchingConcat(log, [r], evBase, evId);
    assert [n][1..] == [];
    assert RunLoops([n], evBase, evId) == RunLoop(n, evBase, evId);
    assert [] + Matching([r], evBase, evId) == Matching([r], evBase, evId);
  }

  lemma MatchingOne(r: Reg, evBase: Base, evId: int)
    ensures Matching([r], evBase, evId) == NewCall(r.base, r.id, r.handler, r.arg, evBase, evId)
  {
    assert [r][1..] == [];
  }

  lemma OldLoopRuns(nodes: seq<LoopNode>, n: LoopNode, log: seq<Reg>, base: Base, id: int, handler: nat, arg: nat,
      evBase: Base, evId: int)
    requires nodes != [] && IsEvent(evBase, evId) && RunLoops(nodes, evBase, evId) == Matching(log, evBase, evId)
    requires GoodLoop(nodes[|nodes| - 1]) && LegalKey(base, id) && Distinct(log)
    requires AddedToLoop(nodes[|nodes| - 1], base, id, handler, arg, n, evBase, evId)
    ensures RunLoops(nodes[|nodes| - 1 := n], evBase, evId) == Matching(
      if HoldsInLoop(nodes[|nodes| - 1], base, id, handler) then Rearmed(log, base, id, handler, arg)
      else log + [Reg(base, id, handler, arg)], evBase, evId)
  {
    hide RunLoop, Matching, NewCall, Rearmed, Has, HoldsInLoop, GoodLoop, LegalKey, Distinct, Matches;
    var last := |nodes| - 1;
    var pre, mid := RunLoops(nodes[..last], evBase, evId), RunLoop(nodes[last], evBase, evId);
    var after := nodes[last := n];
    RunLoopsAt(nodes, last, evBase, evId);
    RunLoopsAt(after, last, evBase, evId);
    assert after[..last] == nodes[..last] && after[last + 1..] == [] && nodes[last + 1..] == [];
    assert pre + mid == Matching(log, evBase, evId);
    if HoldsInLoop(nodes[last], base, id, handler) {
      MatchingRearmed(log, base, id, handler, arg, evBase, evId);
      if Matches(base, id, evBase, evId) {
        HeldInLoopRuns(nodes[last], base, id, handler, evBase, evId);
        DistinctMatching(log, evBase, evId);
        assert pre + mid + [] == pre + mid;
        DistinctElsewhere(pre, mid, [], base, id, handler);
      } else {
        UnmatchedLacks(log, base, id, handler, evBase, evId);
        HasConcat(pre, mid, base, id, handler);
      }
      RearmedConcat(pre, mid, base, id, handler, arg);
      RearmedAbsent(pre, base, id, handler, arg);
    } else {
      var r := Reg(base, id, handler, arg);
      MatchingConcat(log, [r], evBase, evId);
      MatchingOne(r, evBase, evId);
    }
  }

  // What is found where a registration would go is in the log.
  lemma TargetInLog(l: Loop, base: Base, id: int, handler: nat)
    requires l.Valid() && LegalKey(base, id) && l.TargetHolds(base, id, handler)
    ensures Has(l.log, base, id, handler)
  {
    hide HoldsInLoop, RunLoop, RunLoops, Matching, Distinct, GoodLoop;
    var evBase := if base.AnyBase? then Named(0) else base;
    var evId := if id == ANY_ID then 0 else id;
    var last := |l.nodes| - 1;
    assert GoodLoop(l.nodes[last]);
    HeldInLoopRuns(l.nodes[last], base, id, handler, evBase, evId);
    RunLoopsAt(l.nodes, last, evBase, evId);
    var a, b, c :=
      RunLoops(l.nodes[..last], evBase, evId), RunLoop(l.nodes[last], evBase, evId),
      RunLoops(l.nodes[last + 1..], evBase, evId);
    HasConcat(a, b, base, id, handler);
    HasConcat(a + b, c, base, id, handler);
    HasMatching(l.log, base, id, handler, evBase, evId);
  }

  // With registrations of one level only, a repeated one reaches the handler it repeats.
  lemma TargetIffInLog(l: Loop, level: Level, base: Base, id: int, handler: nat)
    requires l.Valid() && l.At(level) && KeyAt(level, base, id)
    ensures l.TargetHolds(base, id, handler) <==> Has(l.log, base, id, handler)
  {
    if l.TargetHolds(base, id, handler) {
      TargetInLog(l, base, id, handler);
    }
    if Has(l.log, base, id, handler) {
      var evBase := if base.AnyBase? then Named(0) else base;
      var evId := if id == ANY_ID then 0 else id;
      HasMatching(l.log, base, id, handler, evBase, evId);
      assert RunLoops(l.nodes, evBase, evId) == Matching(l.log, evBase, evId);
      OneNodeRuns(l.nodes, evBase, evId, base, id, handler);
      hide RunLoops, RunLoop, Has, Matching, HoldsInLoop;
      HeldWhereRun(l.nodes[0], level, base, id, handler, evBase, evId);
    }
  }

  lemma OneNodeRuns(nodes: seq<LoopNode>, evBase: Base, evId: int, base: Base, id: int, handler: nat)
    requires |nodes| <= 1 && Has(RunLoops(nodes, evBase, evId), base, id, handler)
    ensures nodes != [] && Has(RunLoop(nodes[0], evBase, evId), base, id, handler)
  {
    NoNodesRun(evBase, evId);
    if nodes != [] {
      assert nodes[1..] == [];
      assert RunLoops(nodes, evBase, evId) == RunLoop(nodes[0], evBase, evId) + [];
    }
  }

  // A registration of its level that an event runs is held where it would go again.
  lemma HeldWhereRun(n: LoopNode, level: Level, base: Base, id: int, handler: nat, evBase: Base, evId: int)
    requires GoodLoop(n) && NodeAt(n, level) && KeyAt(level, base, id) && IsEvent(evBase, evId)
    requires Matches(base, id, evBase, evId) && Has(RunLoop(n, evBase, evId), base, id, handler)
    ensures HoldsInLoop(n, base, id, handler)
  {
    var top, rest := RunList(AnyBase, ANY_ID, n.handlers), RunBases(n.bases, evBase, evId);
    HasConcat(top, rest, base, id, handler);
    hide RunBases;
    if base.AnyBase? {
      RunBasesTagged(n.bases, base, id, handler, evBase, evId);
      var k :| 0 <= k < |top| && SameKey(top[k], base, id, handler);
      assert n.handlers[k].handler == handler;
    } else {
      assert !Has(top, base, id, handler);
      var t := BaseThatRuns(n.bases, evBase, evId, base, id, handler);
      HeldInBaseWhereRun(n.bases[t], id, handler, evId);
      OnlyWithBase(n.bases, base, t);
    }
  }

  lemma {:induction false} BaseThatRuns(bases: seq<BaseNode>, evBase: Base, evId: int, base: Base, id: int,
      handler: nat)
    returns (t: nat)
    requires Has(RunBases(bases, evBase, evId), base, id, handler)
    ensures t < |bases| && bases[t].base == evBase && Has(RunBase(bases[t], evBase, evId), base, id, handler)
  {
    hide RunBase;
    HasConcat(RunBase(bases[0], evBase, evId), RunBases(bases[1..], evBase, evId), base, id, handler);
    if Has(RunBase(bases[0], evBase, evId), base, id, handler) {
      t := 0;
      RunsOwnBase(bases[0], evBase, evId);
    } else {
      var k := BaseThatRuns(bases[1..], evBase, evId, base, id, handler);
      t := k + 1;
    }
  }

  lemma RunsOwnBase(n: BaseNode, evBase: Base, evId: int)
    ensures n.base != evBase ==> RunBase(n, evBase, evId) == []
  {
  }

  lemma HeldInBaseWhereRun(n: BaseNode, id: int, handler: nat, evId: int)
    requires GoodBase(n) && evId != ANY_ID && (id == ANY_ID || id == evId)
    requires Has(RunBase(n, n.base, evId), n.base, id, handler)
    ensures HoldsInBase(n, id, handler)
  {
    var own, rest := RunList(n.base, ANY_ID, n.handlers), RunIds(n.base, n.ids, evId);
    HasConcat(own, rest, n.base, id, handler);
    RunIdsTagged(n.base, n.ids, evId);
    hide RunIds;
    if id == ANY_ID {
      var k :| 0 <= k < |own| && SameKey(own[k], n.base, id, handler);
      assert n.handlers[k].handler == handler;
    } else {
      var k := ListThatRuns(n.base, n.ids, evId, handler);
    }
  }

  lemma {:induction false} ListThatRuns(base: Base, ids: seq<IdNode>, evId: int, handler: nat) returns (k: nat)
    requires Has(RunIds(base, ids, evId), base, evId, handler)
    ensures k < |ids| && ids[k].id == evId && Holds(ids[k].handlers, handler)
  {
    if ids[0].id == evId {
      var t := RunList(base, evId, ids[0].handlers);
      var j :| 0 <= j < |t| && SameKey(t[j], base, evId, handler);
      assert ids[0].handlers[j].handler == handler;
      k := 0;
    } else {
      var j := ListThatRuns(base, ids[1..], evId, handler);
      k := j + 1;
    }
  }

  lemma OnlyWithBase(bases: seq<BaseNode>, base: Base, t: nat)
    requires t < |bases| && bases[t].base == base
    requires forall j, k :: 0 <= j < k < |bases| ==> bases[j].base != bases[k].base
    ensures LastWithBase(bases, base) == t
  {
  }

  // ---------- whole runs of one level ----------

  datatype Op = Add(base: Base, id: int, handler: nat, arg: nat) | Remove(base: Base, id: int, handler: nat)

  // The registrations in force: a repetition overwrites the argument.
  function LogAfter(ops: seq<Op>): seq<Reg>
    decreases |ops|
  {
    if ops == [] then []
    else
      var log := LogAfter(ops[..|ops| - 1]);
      match ops[|ops| - 1]
      case Add(base, id, handler, arg) =>
        if Has(log, base, id, handler) then Rearmed(log, base, id, handler, arg)
        else log + [Reg(base, id, handler, arg)]
      case Remove(base, id, handler) => Without(log, base, id, handler)
  }

  // A loop that only ever sees registrations and removals of one level never stores a
  // repetition, and runs what is in force.
  method RunOfLevel(level: Level, ops: seq<Op>) returns (l: Loop)
    requires forall i :: 0 <= i < |ops| ==> KeyAt(level, ops[i].base, ops[i].id)
    ensures fresh(l) && l.Valid() && l.At(level) && l.log == LogAfter(ops)
  {
    l := new Loop();
    assert l.At(level);
    hide l.Valid, l.At, Has, Rearmed, Without;
    assert ops[..0] == [];
    for i := 0 to |ops|
      invariant fresh(l) && l.Valid() && l.At(level) && l.log == LogAfter(ops[..i])
    {
      var err;
      assert ops[..i + 1][..i] == ops[..i];
      match ops[i]
      case Add(base, id, handler, arg) => err := l.Register(base, id, handler, arg);
      case Remove(base, id, handler) => err := l.Unregister(base, id, handler);
    }
    assert ops[..|ops|] == ops;
  }

  // A loop whose last node has loop-level handlers only runs one of them last.
  lemma LastNodeRunsLast(nodes: seq<LoopNode>, evBase: Base, evId: int)
    requires GoodLoops(nodes) && nodes != [] && nodes[|nodes| - 1].bases == []
    ensures var calls := RunLoops(nodes, evBase, evId); calls != [] && calls[|calls| - 1].base.AnyBase?
  {
    var last := |nodes| - 1;
    RunLoopsAt(nodes, last, evBase, evId);
    hide RunLoops;
    assert nodes[last + 1..] == [] && GoodLoop(nodes[last]) && !EmptyLoop(nodes[last]);
    NoNodesRun(evBase, evId);
    assert RunLoop(nodes[last], evBase, evId) == RunList(AnyBase, ANY_ID, nodes[last].handlers);
  }

  lemma NoNodesRun(evBase: Base, evId: int)
    ensures RunLoops([], evBase, evId) == []
  {
  }

  const LOOP_CALL: Reg := Reg(AnyBase, ANY_ID, 1, 0)
  const ID_CALL: Reg := Reg(Named(0), 5, 2, 0)

  // A handler is registered for all events, another one for a single event, and the first one
  // once more: it is stored again, and the event runs it twice.
  method RegisteredTwice() returns (l: Loop, calls: seq<Reg>)
    ensures fresh(l) && !l.Valid() && l.log == [LOOP_CALL, ID_CALL, LOOP_CALL]
    ensures calls == [LOOP_CALL, ID_CALL, LOOP_CALL]
  {
    hide l.Agrees, Matching, RunLoops, HoldsInLoop, GoodLoop, l.TargetHolds, l.Valid;
    var err, exec;
    l := new Loop();
    TargetNotHeld(l, AnyBase, ANY_ID, 1);
    err := l.Register(AnyBase, ANY_ID, 1, 0);
    TargetNotHeld(l, Named(0), 5, 2);
    err := l.Register(Named(0), 5, 2, 0);
    RepeatedNotHeld(l);
    err := l.Register(AnyBase, ANY_ID, 1, 0);
    calls, exec := l.Dispatch(Named(0), 5);
    AllThreeMatch();
  }

  lemma TargetNotHeld(l: Loop, base: Base, id: int, handler: nat)
    requires l.Valid() && LegalKey(base, id) && !Has(l.log, base, id, handler)
    ensures !l.TargetHolds(base, id, handler)
  {
    hide l.Valid, l.TargetHolds;
    if l.TargetHolds(base, id, handler) {
      TargetInLog(l, base, id, handler);
    }
  }

  lemma RepeatedNotHeld(l: Loop)
    requires l.Valid() && l.log == [LOOP_CALL, ID_CALL]
    ensures !l.TargetHolds(AnyBase, ANY_ID, 1) && Has(l.log, AnyBase, ANY_ID, 1)
  {
    hide RunLoops, GoodLoop, HoldsInLoop;
    assert SameKey(l.log[0], AnyBase, ANY_ID, 1);
    if l.nodes != [] && l.nodes[|l.nodes| - 1].bases == [] {
      LastNodeRunsLast(l.nodes, Named(0), 5);
      TwoMatch();
    }
  }

  lemma TwoMatch()
    ensures Matching([LOOP_CALL, ID_CALL], Named(0), 5) == [LOOP_CALL, ID_CALL]
  {
    assert [LOOP_CALL, ID_CALL] == [LOOP_CALL] + [ID_CALL];
    MatchingConcat([LOOP_CALL], [ID_CALL], Named(0), 5);
    MatchingOne(LOOP_CALL, Named(0), 5);
    MatchingOne(ID_CALL, Named(0), 5);
  }

  lemma AllThreeMatch()
    ensures Matching([LOOP_CALL, ID_CALL, LOOP_CALL], Named(0), 5) == [LOOP_CALL, ID_CALL, LOOP_CALL]
  {
    assert [LOOP_CALL, ID_CALL, LOOP_CALL] == [LOOP_CALL, ID_CALL] + [LOOP_CALL];
    MatchingConcat([LOOP_CALL, ID_CALL], [LOOP_CALL], Named(0), 5);
    TwoMatch();
    MatchingOne(LOOP_CALL, Named(0), 5);
  }

  // A handler registered for a base, followed by one for an id of that base, is not found
  // again by a repeated registration: it would be stored, and run, a second time.
  lemma RepeatMissesEarlierHandler()
    ensures var n := LoopNode([], [BaseNode(Named(0), [Instance(1, 0)], [IdNode(5, [Instance(2, 0)])])]);
      && GoodLoop(n) && !EmptyLoop(n)
      && Has(RunLoop(n, Named(0), 5), Named(0), ANY_ID, 1) && !HoldsInLoop(n, Named(0), ANY_ID, 1)
  {
    var b := BaseNode(Named(0), [Instance(1, 0)], [IdNode(5, [Instance(2, 0)])]);
    var n := LoopNode([], [b]);
    assert GoodId(b.ids[0]) && GoodBase(b);
    assert RunBase(b, Named(0), 5)[0] == Reg(Named(0), ANY_ID, 1, 0);
    assert RunLoop(n, Named(0), 5)[0] == Reg(Named(0), ANY_ID, 1, 0);
  }
}
