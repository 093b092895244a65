// The flat view of an event loop: a log of registrations, and the calls an event makes.
module EventTrace {
  datatype Base = AnyBase | Named(name: nat)

  const ANY_ID: int := -1

  // One registration, and also one call made when an event is dispatched.
  datatype Reg = Reg(base: Base, id: int, handler: nat, arg: nat)

  // The levels at which a handler can be registered.
  predicate LegalKey(base: Base, id: int) {
    base.AnyBase? ==> id == ANY_ID
  }

  predicate SameKey(r: Reg, base: Base, id: int, handler: nat) {
    r.base == base && r.id == id && r.handler == handler
  }

  predicate Matches(base: Base, id: int, evBase: Base, evId: int) {
    base.AnyBase? || (base == evBase && (id == ANY_ID || id == evId))
  }

  predicate IsEvent(evBase: Base, evId: int) {
    evBase.Named? && evId != ANY_ID
  }

  // The registrations an event concerns, in the order of the log.
  function Matching(log: seq<Reg>, evBase: Base, evId: int): seq<Reg> {
    if log == [] then []
    else (if Matches(log[0].base, log[0].id, evBase, evId) then [log[0]] else []) + Matching(log[1..], evBase, evId)
  }

  function Without(log: seq<Reg>, base: Base, id: int, handler: nat): seq<Reg> {
    if log == [] then []
    else (if SameKey(log[0], base, id, handler) then [] else [log[0]]) + Without(log[1..], base, id, handler)
  }

  function Rearmed(log: seq<Reg>, base: Base, id: int, handler: nat, arg: nat): (r: seq<Reg>)
    ensures |r| == |log|
    ensures forall k :: 0 <= k < |log| ==>
      r[k] == if SameKey(log[k], base, id, handler) then log[k].(arg := arg) else log[k]
  {
    seq(|log|, k requires 0 <= k < |log| => if SameKey(log[k], base, id, handler) then log[k].(arg := arg) else log[k])
  }

  predicate Has(log: seq<Reg>, base: Base, id: int, handler: nat) {
    exists k :: 0 <= k < |log| && SameKey(log[k], base, id, handler)
  }

  // No registration is made twice.
  predicate Distinct(log: seq<Reg>) {
    forall j, k :: 0 <= j < k < |log| ==> !SameKey(log[j], log[k].base, log[k].id, log[k].handler)
  }

  lemma {:induction false} MatchingConcat(a: seq<Reg>, b: seq<Reg>, evBase: Base, evId: int)
    ensures Matching(a + b, evBase, evId) == Matching(a, evBase, evId) + Matching(b, evBase, evId)
  {
    hide Matches;
    if a == [] {
      assert a + b == b;
    } else {
      assert (a + b)[0] == a[0] && (a + b)[1..] == a[1..] + b;
      MatchingConcat(a[1..], b, evBase, evId);
      var x, y := Matching(a[1..], evBase, evId), Matching(b, evBase, evId);
      assert [a[0]] + (x + y) == [a[0]] + x + y;
    }
  }

  lemma {:induction false} WithoutConcat(a: seq<Reg>, b: seq<Reg>, base: Base, id: int, handler: nat)
    ensures Without(a + b, base, id, handler) == Without(a, base, id, handler) + Without(b, base, id, handler)
  {
    if a == [] {
      assert a + b == b;
    } else {
      assert (a + b)[1..] == a[1..] + b;
      WithoutConcat(a[1..], b, base, id, handler);
    }
  }

  lemma {:induction false} WithoutAbsent(a: seq<Reg>, base: Base, id: int, handler: nat)
    requires !Has(a, base, id, handler)
    ensures Without(a, base, id, handler) == a
  {
    if a != [] {
      assert !SameKey(a[0], base, id, handler);
      assert forall k :: 0 <= k < |a[1..]| ==> a[1..][k] == a[k + 1];
      WithoutAbsent(a[1..], base, id, handler);
    }
  }

  // Removing a registration that occurs once cuts it out.
  lemma {:induction false} WithoutOnce(a: seq<Reg>, k: nat, base: Base, id: int, handler: nat)
    requires k < |a| && SameKey(a[k], base, id, handler)
    requires forall j :: 0 <= j < |a| && j != k ==> !SameKey(a[j], base, id, handler)
    ensures Without(a, base, id, handler) == a[..k] + a[k + 1..]
  {
    hide SameKey;
    if k == 0 {
      WithoutAbsent(a[1..], base, id, handler);
    } else {
      WithoutOnce(a[1..], k - 1, base, id, handler);
      assert a[..k] == [a[0]] + a[1..][..k - 1] && a[1..][k..] == a[k + 1..];
    }
  }

  lemma RearmedConcat(a: seq<Reg>, b: seq<Reg>, base: Base, id: int, handler: nat, arg: nat)
    ensures Rearmed(a + b, base, id, handler, arg)
      == Rearmed(a, base, id, handler, arg) + Rearmed(b, base, id, handler, arg)
  {
  }

  lemma RearmedAbsent(a: seq<Reg>, base: Base, id: int, handler: nat, arg: nat)
    requires !Has(a, base, id, handler)
    ensures Rearmed(a, base, id, handler, arg) == a
  {
  }

  // Filtering by event commutes with removing and with re-arming a registration.
  lemma {:induction false} MatchingWithout(log: seq<Reg>, base: Base, id: int, handler: nat, evBase: Base, evId: int)
    ensures Matching(Without(log, base, id, handler), evBase, evId)
      == Without(Matching(log, evBase, evId), base, id, handler)
  {
    if log != [] {
      var head := if SameKey(log[0], base, id, handler) then [] else [log[0]];
      MatchingConcat(head, Without(log[1..], base, id, handler), evBase, evId);
      var m := if Matches(log[0].base, log[0].id, evBase, evId) then [log[0]] else [];
      WithoutConcat(m, Matching(log[1..], evBase, evId), base, id, handler);
      MatchingWithout(log[1..], base, id, handler, evBase, evId);
    }
  }

  lemma {:induction false} MatchingRearmed(log: seq<Reg>, base: Base, id: int, handler: nat, arg: nat, evBase: Base,
      evId: int)
    ensures Matching(Rearmed(log, base, id, handler, arg), evBase, evId)
         == Rearmed(Matching(log, evBase, evId), base, id, handler, arg)
  {
    if log != [] {
      assert Rearmed(log, base, id, handler, arg)[1..] == Rearmed(log[1..], base, id, handler, arg);
      var m := if Matches(log[0].base, log[0].id, evBase, evId) then [log[0]] else [];
      RearmedConcat(m, Matching(log[1..], evBase, evId), base, id, handler, arg);
      MatchingRearmed(log[1..], base, id, handler, arg, evBase, evId);
    }
  }

  // A registration is in the log iff every event it matches sees it.
  lemma {:induction false} HasMatching(log: seq<Reg>, base: Base, id: int, handler: nat, evBase: Base, evId: int)
    requires Matches(base, id, evBase, evId)
    ensures Has(Matching(log, evBase, evId), base, id, handler) <==> Has(log, base, id, handler)
  {
    if log != [] {
      HasMatching(log[1..], base, id, handler, evBase, evId);
      var m := if Matches(log[0].base, log[0].id, evBase, evId) then [log[0]] else [];
      HasConcat(m, Matching(log[1..], evBase, evId), base, id, handler);
      HasConcat([log[0]], log[1..], base, id, handler);
      assert log == [log[0]] + log[1..];
      HasOne(log[0], base, id, handler);
    }
  }

  lemma HasOne(r: Reg, base: Base, id: int, handler: nat)
    ensures Has([r], base, id, handler) <==> SameKey(r, base, id, handler)
  {
    if SameKey(r, base, id, handler) {
      assert SameKey([r][0], base, id, handler);
    }
  }

  lemma HasConcat(a: seq<Reg>, b: seq<Reg>, base: Base, id: int, handler: nat)
    ensures Has(a + b, base, id, handler) <==> Has(a, base, id, handler) || Has(b, base, id, handler)
  {
    if Has(a, base, id, handler) {
      var k :| 0 <= k < |a| && SameKey(a[k], base, id, handler);
      assert SameKey((a + b)[k], base, id, handler);
    }
    if Has(b, base, id, handler) {
      var k :| 0 <= k < |b| && SameKey(b[k], base, id, handler);
      assert SameKey((a + b)[|a| + k], base, id, handler);
    }
  }

  // A registration found in the middle of a distinct log is in no other part of it.
  lemma DistinctElsewhere(a: seq<Reg>, b: seq<Reg>, c: seq<Reg>, base: Base, id: int, handler: nat)
    requires Distinct(a + b + c) && Has(b, base, id, handler)
    ensures !Has(a, base, id, handler) && !Has(c, base, id, handler)
  {
    var log := a + b + c;
    var k :| 0 <= k < |b| && SameKey(b[k], base, id, handler);
    assert log[|a| + k] == b[k];
    assert forall j :: 0 <= j < |a| ==> log[j] == a[j];
    assert forall j :: 0 <= j < |c| ==> log[|a| + |b| + j] == c[j];
  }

  lemma DistinctPart(a: seq<Reg>, b: seq<Reg>, c: seq<Reg>)
    requires Distinct(a + b + c)
    ensures Distinct(b)
  {
    var log := a + b + c;
    assert forall j :: 0 <= j < |b| ==> log[|a| + j] == b[j];
  }

  lemma {:induction false} HasWithout(log: seq<Reg>, base: Base, id: int, handler: nat, b: Base, i: int, h: nat)
    ensures Has(Without(log, base, id, handler), b, i, h) <==>
      Has(log, b, i, h) && !(b == base && i == id && h == handler)
  {
    if log != [] {
      HasWithout(log[1..], base, id, handler, b, i, h);
      HasOne(log[0], b, i, h);
      HasConcat([log[0]], log[1..], b, i, h);
      assert log == [log[0]] + log[1..];
      var head := if SameKey(log[0], base, id, handler) then [] else [log[0]];
      HasConcat(head, Without(log[1..], base, id, handler), b, i, h);
    }
  }

  lemma DistinctCons(r: Reg, rest: seq<Reg>)
    ensures Distinct([r] + rest) <==> Distinct(rest) && !Has(rest, r.base, r.id, r.handler)
  {
    var log := [r] + rest;
    assert forall k :: 0 <= k < |rest| ==> log[k + 1] == rest[k];
    if Distinct(log) {
      forall k | 0 <= k < |rest|
        ensures !SameKey(rest[k], r.base, r.id, r.handler)
      {
        assert log[0] == r && log[k + 1] == rest[k];
      }
    }
  }

  lemma {:induction false} DistinctWithout(log: seq<Reg>, base: Base, id: int, handler: nat)
    requires Distinct(log)
    ensures Distinct(Without(log, base, id, handler))
  {
    if log != [] {
      assert log == [log[0]] + log[1..];
      DistinctCons(log[0], log[1..]);
      DistinctWithout(log[1..], base, id, handler);
      var r := log[0];
      HasWithout(log[1..], base, id, handler, r.base, r.id, r.handler);
      DistinctCons(r, Without(log[1..], base, id, handler));
    }
  }

  lemma {:induction false} DistinctMatching(log: seq<Reg>, evBase: Base, evId: int)
    requires Distinct(log)
    ensures Distinct(Matching(log, evBase, evId))
  {
    if log != [] {
      assert log == [log[0]] + log[1..];
      var r := log[0];
      DistinctCons(r, log[1..]);
      DistinctMatching(log[1..], evBase, evId);
      if Matches(r.base, r.id, evBase, evId) {
        HasMatching(log[1..], r.base, r.id, r.handler, evBase, evId);
        DistinctCons(r, Matching(log[1..], evBase, evId));
      }
    }
  }

  // Appending keeps the log distinct exactly if the registration is new.
  lemma DistinctSnoc(log: seq<Reg>, r: Reg)
    requires Distinct(log)
    ensures Distinct(log + [r]) <==> !Has(log, r.base, r.id, r.handler)
  {
    if Has(log, r.base, r.id, r.handler) {
      var k :| 0 <= k < |log| && SameKey(log[k], r.base, r.id, r.handler);
      assert (log + [r])[k] == log[k] && (log + [r])[|log|] == r;
    }
  }

  // An event it does not concern never sees a registration.
  lemma {:induction false} UnmatchedLacks(log: seq<Reg>, base: Base, id: int, handler: nat, evBase: Base, evId: int)
    requires !Matches(base, id, evBase, evId)
    ensures !Has(Matching(log, evBase, evId), base, id, handler)
  {
    if log != [] {
      UnmatchedLacks(log[1..], base, id, handler, evBase, evId);
      var m := if Matches(log[0].base, log[0].id, evBase, evId) then [log[0]] else [];
      HasConcat(m, Matching(log[1..], evBase, evId), base, id, handler);
    }
  }

  lemma DistinctRearmed(log: seq<Reg>, base: Base, id: int, handler: nat, arg: nat)
    requires Distinct(log)
    ensures Distinct(Rearmed(log, base, id, handler, arg))
  {
  }
}
