// Laying out the rows of a partition CSV and checking the result: offsets left open are filled
// in, sizes given as an end address are resolved, and overlaps are refused.
module PartitionLayout {
  import opened Arith

  const PARTITION_TABLE_SIZE: nat := 0x1000
  const APP_TYPE: int := 0

  datatype Option<T> = None | Some(value: T)

  // A row of the table; `size` below zero means "up to that address" until it is resolved.
  datatype Row = Row(name: string, type_: int, subtype: int, offset: Option<int>, size: int, encrypted: bool)

  datatype LayoutError = Fine | OverlapsTable | Overlap

  datatype Verdict = Good | Misaligned | DuplicateName | BelowTable | Overlapping

  // Row equality as the table compares rows: the flag does not take part.
  predicate SameRow(a: Row, b: Row) {
    a.name == b.name && a.type_ == b.type_ && a.subtype == b.subtype && a.offset == b.offset && a.size == b.size
  }

  function Pad(r: Row): (n: nat)
    ensures n > 0
  {
    if r.type_ == APP_TYPE then 0x1000 else 4
  }

  // The least multiple of n that is not below x.
  function RoundUp(x: int, n: nat): (y: int)
    requires n > 0
    ensures x <= y < x + n && y % n == 0
    ensures forall z :: x <= z < y ==> z % n != 0
  {
    RoundUpIsLeast(x, n);
    if x % n != 0 then x + (n - x % n) else x
  }

  lemma RoundUpIsLeast(x: int, n: nat)
    requires n > 0
    ensures x % n != 0 ==> (x + (n - x % n)) % n == 0
    ensures forall z :: x <= z < x + (n - x % n) ==> (z % n == 0 ==> z == x && x % n == 0)
  {
    var q := x / n;
    assert x == q * n + x % n;
    MulLe(q, q + 1, n);
    assert (q + 1) * n == q * n + n;
    MultipleHasNoRest(q + 1, n);
    forall z | x <= z < x + (n - x % n) && z % n == 0
      ensures z == x && x % n == 0
    {
      assert z == (z / n) * n;
      if z / n <= q {
        MulLe(z / n, q, n);
      } else {
        MulLe(q + 1, z / n, n);
      }
    }
  }

  lemma MultipleHasNoRest(k: int, n: nat)
    requires n > 0
    ensures (k * n) % n == 0
  {
    var d := k * n / n;
    assert k * n == d * n + (k * n) % n;
    assert (k - d) * n == k * n - d * n;
    MulSign(k - d, n);
  }

  function End(r: Row): int
    requires r.offset.Some?
  {
    r.offset.value + r.size
  }

  // ---------- filling in ----------

  // Where a row goes when everything before it ends at lastEnd.
  function Placed(r: Row, lastEnd: int): Row {
    var offset := if r.offset.Some? then r.offset.value else RoundUp(lastEnd, Pad(r));
    r.(offset := Some(offset), size := if r.size < 0 then -r.size - offset else r.size)
  }

  // The end of the table's own sector or of row i - 1.
  function EndBefore(rows: seq<Row>, i: nat, start: int): int
    requires i <= |rows| && forall j :: 0 <= j < i ==> rows[j].offset.Some?
  {
    if i == 0 then start else End(rows[i - 1])
  }

  // The first n rows are where they belong.
  ghost predicate LaidOut(given: seq<Row>, rows: seq<Row>, n: nat, start: int)
    requires n <= |rows| == |given|
  {
    && (forall i :: 0 <= i < n ==> rows[i].offset.Some?)
    && forall i :: 0 <= i < n ==>
         && rows[i] == Placed(given[i], EndBefore(rows, i, start))
         && (given[i].offset.Some? ==> given[i].offset.value >= EndBefore(rows, i, start))
  }

  // The pass over the rows, in place.  It stops at the first given offset that lies below the
  // end of what comes before.
  method FixUp(rows: array<Row>, offsetPartTable: int) returns (err: LayoutError, ghost at: nat)
    modifies rows
    ensures at <= rows.Length && (err.Fine? <==> at == rows.Length)
    ensures rows[at..] == old(rows[at..])
    ensures LaidOut(old(rows[..]), rows[..], at, offsetPartTable + PARTITION_TABLE_SIZE)
    ensures !err.Fine? ==>
      rows[at].offset.Some? && rows[at].offset.value < EndBefore(rows[..], at, offsetPartTable + PARTITION_TABLE_SIZE)
    ensures !err.Fine? ==> (err.OverlapsTable? <==> SameRow(rows[at], rows[0]))
  {
    hide RoundUp, Pad, LaidOut;
    var start := offsetPartTable + PARTITION_TABLE_SIZE;
    LaidOutNone(rows[..], start);
    var lastEnd := start;
    at := 0;
    ghost var given := rows[..];
    for i := 0 to rows.Length
      invariant at == i && rows[i..] == given[i..]
      invariant forall j :: 0 <= j < i ==> rows[j].offset.Some?
      invariant LaidOut(given, rows[..], i, start)
      invariant lastEnd == EndBefore(rows[..], i, start)
    {
      assert rows[i..][0] == given[i..][0];
      var e := rows[i];
      if e.offset.Some? && e.offset.value < lastEnd {
        if SameRow(e, rows[0]) {
          return OverlapsTable, i;
        } else {
          return Overlap, i;
        }
      }
      ghost var before := rows[..];
      if e.offset.None? {
        var padTo := Pad(e);
        RoundUpAs(lastEnd, padTo);
        if lastEnd % padTo != 0 {
          lastEnd := lastEnd + (padTo - lastEnd % padTo);
        }
        e := e.(offset := Some(lastEnd));
      }
      if e.size < 0 {
        e := e.(size := -e.size - e.offset.value);
      }
      PlacedKeeps(given, before, i, start);
      assert e == Placed(given[i], EndBefore(before, i, start));
      rows[i] := e;
      assert rows[..] == before[i := e];
      lastEnd := e.offset.value + e.size;
      at := i + 1;
    }
    err := Fine;
  }

  lemma LaidOutNone(rows: seq<Row>, start: int)
    ensures LaidOut(rows, rows, 0, start)
  {
  }

  lemma RoundUpAs(x: int, n: nat)
    requires n > 0
    ensures RoundUp(x, n) == if x % n != 0 then x + (n - x % n) else x
  {
  }

  lemma PlacedKeeps(given: seq<Row>, rows: seq<Row>, i: nat, start: int)
    requires i < |rows| == |given| && LaidOut(given, rows, i, start) && rows[i..] == given[i..]
    requires given[i].offset.Some? ==> given[i].offset.value >= EndBefore(rows, i, start)
    ensures forall j :: 0 <= j < i ==> rows[j].offset.Some?
    ensures
      var rows' := rows[i := Placed(given[i], EndBefore(rows, i, start))];
      LaidOut(given, rows', i + 1, start) && rows'[i + 1..] == given[i + 1..]
  {
    var rows' := rows[i := Placed(given[i], EndBefore(rows, i, start))];
    assert rows[i..][1..] == rows[i + 1..] && given[i..][1..] == given[i + 1..];
    forall j | 0 <= j <= i
      ensures EndBefore(rows', j, start) == EndBefore(rows, j, start)
    {
    }
  }

  ghost predicate Resolved(rows: seq<Row>) {
    forall i :: 0 <= i < |rows| ==> rows[i].offset.Some?
  }

  // Two rows share no address.
  ghost predicate Apart(a: Row, b: Row)
    requires a.offset.Some? && b.offset.Some?
  {
    forall x :: !(InRow(a, x) && InRow(b, x))
  }

  ghost predicate InRow(r: Row, x: int)
    requires r.offset.Some?
  {
    r.offset.value <= x < End(r)
  }

  // Row by row: a given offset is kept and lies behind what comes before; an open one becomes the
  // least aligned address behind it; a negative size makes the row end at that address.
  lemma RowPlaced(given: seq<Row>, rows: seq<Row>, start: int, j: nat)
    requires |given| == |rows| && LaidOut(given, rows, |rows|, start) && j < |rows|
    ensures EndBefore(rows, j, start) <= rows[j].offset.value
    ensures given[j].offset.Some? ==> rows[j].offset == given[j].offset
    ensures given[j].offset.None? ==> rows[j].offset.value % Pad(rows[j]) == 0
    ensures given[j].offset.None? ==> forall x :: EndBefore(rows, j, start) <= x < rows[j].offset.value ==>
      x % Pad(rows[j]) != 0
    ensures given[j].size < 0 ==> End(rows[j]) == -given[j].size
    ensures given[j].size >= 0 ==> rows[j].size == given[j].size
  {
    hide RoundUp;
    assert rows[j] == Placed(given[j], EndBefore(rows, j, start));
  }

  // Every row starts behind the row before, the first behind the table's own sector.
  ghost predicate InOrder(rows: seq<Row>, start: int)
    requires Resolved(rows)
  {
    forall j :: 0 <= j < |rows| ==> rows[j].offset.value >= (if j == 0 then start else End(rows[j - 1]))
  }

  lemma LaidOutInOrder(given: seq<Row>, rows: seq<Row>, start: int)
    requires |given| == |rows| && LaidOut(given, rows, |rows|, start)
    ensures Resolved(rows) && InOrder(rows, start)
  {
    forall j | 0 <= j < |rows|
      ensures rows[j].offset.value >= if j == 0 then start else End(rows[j - 1])
    {
      RowPlaced(given, rows, start, j);
    }
  }

  // A layout that comes out with sizes of at least zero is in order and above the table's
  // sector, and its rows share no address.
  lemma LayoutIsDisjoint(given: seq<Row>, rows: seq<Row>, start: int)
    requires |given| == |rows| && LaidOut(given, rows, |rows|, start)
    requires forall k :: 0 <= k < |rows| ==> rows[k].size >= 0
    ensures Resolved(rows) && AboveTable(rows, start) && PairwiseApart(rows)
    ensures forall i, j :: 0 <= i < j < |rows| ==> End(rows[i]) <= rows[j].offset.value
  {
    LaidOutInOrder(given, rows, start);
    hide LaidOut;
    forall i, j | 0 <= i < j < |rows|
      ensures End(rows[i]) <= rows[j].offset.value
    {
      ChainedPairs(rows, i, j);
    }
    forall i | 0 <= i < |rows|
      ensures rows[i].offset.value >= start
    {
      if i > 0 {
        ChainedPairs(rows, 0, i);
      }
    }
  }

  // In terms of the rows as given: every end address lies at or behind the place where its row
  // is put.
  ghost predicate EndsBehind(given: seq<Row>, rows: seq<Row>)
    requires |given| == |rows| && Resolved(rows)
  {
    forall k :: 0 <= k < |rows| && given[k].size < 0 ==> rows[k].offset.value <= -given[k].size
  }

  // That is exactly when the resulting sizes are at least zero, and so it makes a layout disjoint.
  lemma LayoutOfEndAddresses(given: seq<Row>, rows: seq<Row>, start: int)
    requires |given| == |rows| && LaidOut(given, rows, |rows|, start)
    ensures Resolved(rows)
    ensures EndsBehind(given, rows) <==> forall k :: 0 <= k < |rows| ==> rows[k].size >= 0
    ensures EndsBehind(given, rows) ==> AboveTable(rows, start) && PairwiseApart(rows)
  {
    LaidOutInOrder(given, rows, start);
    forall k | 0 <= k < |rows|
      ensures rows[k].size >= 0 <==> given[k].size >= 0 || rows[k].offset.value <= -given[k].size
    {
      RowPlaced(given, rows, start, k);
    }
    if EndsBehind(given, rows) {
      LayoutIsDisjoint(given, rows, start);
    }
  }

  // Without that condition the pass accepts overlapping rows: an end address below the row's
  // own offset gives a negative size, and the next row may start below it.  Checking the table
  // afterwards refuses it, as it refuses all overlaps.
  lemma NegativeSizeOverlaps()
    ensures
      var given := [
        Row("a", 1, 2, Some(0x9000), 0x2000, false),
        Row("b", 1, 2, Some(0x20000), -0x9000, false),
        Row("c", 1, 2, Some(0x9000), 0x1000, false)];
      var rows := given[1 := given[1].(size := 0x9000 - 0x20000)];
      && LaidOut(given, rows, 3, 0x9000)
      && !Apart(rows[0], rows[2])
      && UniqueNames(rows) && !Chained(SortByOffset(rows))
  {
    var given := [
      Row("a", 1, 2, Some(0x9000), 0x2000, false),
      Row("b", 1, 2, Some(0x20000), -0x9000, false),
      Row("c", 1, 2, Some(0x9000), 0x1000, false)];
    var rows := given[1 := given[1].(size := 0x9000 - 0x20000)];
    assert rows[1] == Placed(given[1], EndBefore(rows, 1, 0x9000));
    assert InRow(rows[0], 0x9000) && InRow(rows[2], 0x9000);
    assert rows[0].name[0] == 'a' && rows[1].name[0] == 'b' && rows[2].name[0] == 'c';
    hide SortByOffset, LaidOut, Apart;
    if Chained(SortByOffset(rows)) {
      VerifiedIsDisjoint(rows);
    }
  }

  // ---------- checking ----------

  // A stable sort by offset.
  function Insert(r: Row, rows: seq<Row>): (s: seq<Row>)
    requires r.offset.Some? && Resolved(rows)
    ensures Resolved(s) && |s| == |rows| + 1 && multiset(s) == multiset(rows) + multiset{r}
  {
    if rows == [] || r.offset.value <= rows[0].offset.value then [r] + rows
    else
      assert rows == [rows[0]] + rows[1..];
      [rows[0]] + Insert(r, rows[1..])
  }

  function SortByOffset(rows: seq<Row>): (s: seq<Row>)
    requires Resolved(rows)
    ensures Resolved(s) && |s| == |rows| && multiset(s) == multiset(rows)
  {
    if rows == [] then []
    else
      assert rows == [rows[0]] + rows[1..];
      Insert(rows[0], SortByOffset(rows[1..]))
  }

  ghost predicate Ascending(rows: seq<Row>)
    requires Resolved(rows)
  {
    forall i, j :: 0 <= i < j < |rows| ==> rows[i].offset.value <= rows[j].offset.value
  }

  lemma {:induction false} InsertAbove(r: Row, rows: seq<Row>, v: int)
    requires r.offset.Some? && Resolved(rows) && r.offset.value >= v
    requires forall i :: 0 <= i < |rows| ==> rows[i].offset.value >= v
    ensures forall i :: 0 <= i <= |rows| ==> Insert(r, rows)[i].offset.value >= v
  {
    if rows != [] && r.offset.value > rows[0].offset.value {
      InsertAbove(r, rows[1..], v);
    }
  }

  lemma {:induction false} InsertAscends(r: Row, rows: seq<Row>)
    requires r.offset.Some? && Resolved(rows) && Ascending(rows)
    ensures Ascending(Insert(r, rows))
  {
    if rows != [] && r.offset.value > rows[0].offset.value {
      InsertAscends(r, rows[1..]);
      InsertAbove(r, rows[1..], rows[0].offset.value);
      var s := Insert(r, rows[1..]);
      assert Insert(r, rows) == [rows[0]] + s;
      hide Insert;
      assert Ascending([rows[0]] + s);
    }
  }

  lemma {:induction false} SortAscends(rows: seq<Row>)
    requires Resolved(rows)
    ensures Ascending(SortByOffset(rows))
  {
    if rows != [] {
      SortAscends(rows[1..]);
      InsertAscends(rows[0], SortByOffset(rows[1..]));
    }
  }

  ghost predicate UniqueNames(rows: seq<Row>) {
    forall i, j :: 0 <= i < j < |rows| ==> rows[i].name != rows[j].name
  }

  // Each row starts at or behind the end of its neighbour, in order of offset.
  ghost predicate Chained(sorted: seq<Row>)
    requires Resolved(sorted)
  {
    forall i :: 0 < i < |sorted| ==> End(sorted[i - 1]) <= sorted[i].offset.value
  }

  ghost predicate Aligned(rows: seq<Row>, secure: bool)
    requires Resolved(rows)
  {
    forall i :: 0 <= i < |rows| ==>
      rows[i].offset.value % Pad(rows[i]) == 0 && (secure ==> rows[i].size % Pad(rows[i]) == 0)
  }

  ghost predicate AboveTable(rows: seq<Row>, start: int)
    requires Resolved(rows)
  {
    forall i :: 0 <= i < |rows| ==> rows[i].offset.value >= start
  }

  lemma SameRows(a: seq<Row>, b: seq<Row>)
    requires multiset(a) == multiset(b)
    ensures forall r :: r in a <==> r in b
  {
    forall r
      ensures r in a <==> r in b
    {
      assert r in a <==> r in multiset(a);
      assert r in b <==> r in multiset(b);
    }
  }

  lemma SortKeepsAbove(rows: seq<Row>, start: int)
    requires Resolved(rows)
    ensures AboveTable(SortByOffset(rows), start) <==> AboveTable(rows, start)
  {
    var s := SortByOffset(rows);
    SameRows(rows, s);
    assert (forall i :: 0 <= i < |rows| ==> rows[i] in s) && forall i :: 0 <= i < |s| ==> s[i] in rows;
  }

  method VerifyRows(rows: seq<Row>, secure: bool) returns (ok: bool)
    requires Resolved(rows)
    ensures ok <==> Aligned(rows, secure)
  {
    hide Pad;
    for i := 0 to |rows|
      invariant Aligned(rows[..i], secure)
    {
      if rows[i].offset.value % Pad(rows[i]) != 0 || (rows[i].size % Pad(rows[i]) != 0 && secure) {
        return false;
      }
    }
    ok := true;
  }

  method NamesAreUnique(rows: seq<Row>) returns (ok: bool)
    ensures ok <==> UniqueNames(rows)
  {
    for i := 0 to |rows|
      invariant forall k, l :: 0 <= k < i && k < l < |rows| ==> rows[k].name != rows[l].name
    {
      for j := i + 1 to |rows|
        invariant forall l :: i < l < j ==> rows[i].name != rows[l].name
      {
        if rows[i].name == rows[j].name {
          return false;
        }
      }
    }
    ok := true;
  }

  method Verify(rows: seq<Row>, offsetPartTable: int, secure: bool) returns (v: Verdict)
    requires Resolved(rows)
    ensures v.Good? <==>
      && Aligned(rows, secure) && UniqueNames(rows)
      && AboveTable(rows, offsetPartTable + PARTITION_TABLE_SIZE)
      && Chained(SortByOffset(rows))
    ensures v.Misaligned? <==> !Aligned(rows, secure)
    ensures v.DuplicateName? <==> Aligned(rows, secure) && !UniqueNames(rows)
    ensures v.BelowTable? <==>
      Aligned(rows, secure) && UniqueNames(rows) && !AboveTable(rows, offsetPartTable + PARTITION_TABLE_SIZE)
  {
    hide Pad, Aligned, UniqueNames, SortByOffset;
    var aligned := VerifyRows(rows, secure);
    if !aligned {
      return Misaligned;
    }
    var unique := NamesAreUnique(rows);
    if !unique {
      return DuplicateName;
    }
    var sorted := SortByOffset(rows);
    SortKeepsAbove(rows, offsetPartTable + PARTITION_TABLE_SIZE);
    SortAscends(rows);
    for i := 0 to |sorted|
      invariant AboveTable(sorted[..i], offsetPartTable + PARTITION_TABLE_SIZE)
      invariant forall j :: 0 < j < i ==> End(sorted[j - 1]) <= sorted[j].offset.value
    {
      if sorted[i].offset.value < offsetPartTable + PARTITION_TABLE_SIZE {
        return BelowTable;
      }
      if i > 0 && sorted[i].offset.value < End(sorted[i - 1]) {
        FirstIsAbove(sorted, offsetPartTable + PARTITION_TABLE_SIZE);
        return Overlapping;
      }
    }
    assert sorted[..|sorted|] == sorted;
    v := Good;
  }

  lemma FirstIsAbove(sorted: seq<Row>, start: int)
    requires Resolved(sorted) && Ascending(sorted) && sorted != [] && sorted[0].offset.value >= start
    ensures AboveTable(sorted, start)
  {
  }

  // Application partitions have to be aligned to 4096 bytes, all others to 4.
  lemma AlignmentByType(rows: seq<Row>, secure: bool)
    requires Resolved(rows)
    ensures Aligned(rows, secure) <==>
      forall i :: 0 <= i < |rows| ==>
        var n := if rows[i].type_ == 0 then 4096 else 4;
        rows[i].offset.value % n == 0 && (secure ==> rows[i].size % n == 0)
  {
  }

  // An open offset becomes the least one behind the row before that is aligned for its type.
  lemma PlacedByType(given: seq<Row>, rows: seq<Row>, start: int, j: nat)
    requires |given| == |rows| && LaidOut(given, rows, |rows|, start) && j < |rows| && given[j].offset.None?
    ensures rows[j].type_ == given[j].type_ && rows[j].offset.Some?
    ensures var n, before := if given[j].type_ == 0 then 4096 else 4, EndBefore(rows, j, start);
      && rows[j].offset.value % n == 0 && before <= rows[j].offset.value
      && forall x :: before <= x < rows[j].offset.value ==> x % n != 0
  {
    RowPlaced(given, rows, start, j);
  }

  // ---------- what the adjacent check is worth ----------

  // With sizes of at least zero, checking neighbours is checking all pairs.
  lemma {:induction false} ChainedPairs(s: seq<Row>, i: nat, j: nat)
    requires Resolved(s) && Chained(s) && i < j < |s|
    requires forall k :: 0 <= k < |s| ==> s[k].size >= 0
    ensures End(s[i]) <= s[j].offset.value
  {
    if i + 1 < j {
      ChainedPairs(s, i, j - 1);
    }
    assert End(s[j - 1]) <= s[j].offset.value;
  }

  ghost predicate PairwiseApart(rows: seq<Row>)
    requires Resolved(rows)
  {
    forall i, j :: 0 <= i < j < |rows| ==> Apart(rows[i], rows[j])
  }

  lemma OnceInSort(rows: seq<Row>, i: nat, j: nat) returns (a: nat, b: nat)
    requires Resolved(rows) && i < |rows| && j < |rows| && rows[i] != rows[j]
    ensures a < |rows| && b < |rows| && a != b
    ensures SortByOffset(rows)[a] == rows[i] && SortByOffset(rows)[b] == rows[j]
  {
    var s := SortByOffset(rows);
    SameRows(rows, s);
    assert rows[i] in s && rows[j] in s;
    a :| 0 <= a < |s| && s[a] == rows[i];
    b :| 0 <= b < |s| && s[b] == rows[j];
  }

  // In order of offset, checking neighbours is checking all pairs, whatever the sizes.
  lemma SortedPairs(s: seq<Row>, i: nat, j: nat)
    requires Resolved(s) && Chained(s) && Ascending(s) && i < j < |s|
    ensures End(s[i]) <= s[j].offset.value
  {
    assert End(s[i + 1 - 1]) <= s[i + 1].offset.value;
  }

  // A verified table is pairwise disjoint, whatever its order, negative sizes included.
  lemma VerifiedIsDisjoint(rows: seq<Row>)
    requires Resolved(rows) && UniqueNames(rows) && Chained(SortByOffset(rows))
    ensures PairwiseApart(rows)
  {
    SortAscends(rows);
    forall i, j | 0 <= i < j < |rows|
      ensures Apart(rows[i], rows[j])
    {
      UniqueAt(rows, i, j);
      PairApart(rows, i, j);
    }
  }

  lemma PairApart(rows: seq<Row>, i: nat, j: nat)
    requires Resolved(rows) && i < |rows| && j < |rows| && rows[i] != rows[j]
    requires Chained(SortByOffset(rows)) && Ascending(SortByOffset(rows))
    ensures Apart(rows[i], rows[j])
  {
    hide SortByOffset, Chained, Ascending;
    var a, b := OnceInSort(rows, i, j);
    if a < b {
      SortedPairs(SortByOffset(rows), a, b);
    } else {
      SortedPairs(SortByOffset(rows), b, a);
    }
  }

  lemma SortedRows(rows: seq<Row>)
    requires Resolved(rows)
    ensures forall k :: 0 <= k < |rows| ==> SortByOffset(rows)[k] in rows
  {
    var s := SortByOffset(rows);
    SameRows(rows, s);
    assert forall k :: 0 <= k < |s| ==> s[k] in s;
  }

  // And the check refuses nothing it should not: a table of uniquely named, non-empty, pairwise
  // disjoint rows passes it.
  lemma DisjointIsChained(rows: seq<Row>)
    requires Resolved(rows) && UniqueNames(rows) && PairwiseApart(rows)
    requires forall k :: 0 <= k < |rows| ==> rows[k].size > 0
    ensures Chained(SortByOffset(rows))
  {
    hide SortByOffset, UniqueNames, PairwiseApart, Ascending;
    var s := SortByOffset(rows);
    SortAscends(rows);
    SortKeepsNames(rows);
    SortedRows(rows);
    forall i | 0 < i < |s|
      ensures End(s[i - 1]) <= s[i].offset.value
    {
      var a :| 0 <= a < |rows| && rows[a] == s[i - 1];
      var b :| 0 <= b < |rows| && rows[b] == s[i];
      UniqueAt(s, i - 1, i);
      ApartAt(rows, a, b);
      AscendingAt(s, i - 1, i);
    }
  }

  lemma UniqueAt(rows: seq<Row>, i: nat, j: nat)
    requires UniqueNames(rows) && i < j < |rows|
    ensures rows[i] != rows[j]
  {
    assert rows[i].name != rows[j].name;
  }

  // Of two disjoint rows that are not empty, the lower one ends before the other begins.
  lemma ApartAt(rows: seq<Row>, a: nat, b: nat)
    requires Resolved(rows) && PairwiseApart(rows) && a < |rows| && b < |rows| && a != b
    requires rows[a].offset.value <= rows[b].offset.value && rows[b].size > 0
    ensures End(rows[a]) <= rows[b].offset.value
  {
    if a < b {
      assert Apart(rows[a], rows[b]);
    } else {
      assert Apart(rows[b], rows[a]);
    }
    assert InRow(rows[b], rows[b].offset.value);
  }

  lemma {:induction false} SortKeepsNames(rows: seq<Row>)
    requires Resolved(rows) && UniqueNames(rows)
    ensures UniqueNames(SortByOffset(rows))
  {
    if rows != [] {
      var s := SortByOffset(rows[1..]);
      SortKeepsNames(rows[1..]);
      SameRows(rows[1..], s);
      assert forall i :: 0 <= i < |s| ==> s[i] in rows[1..];
      InsertKeepsNames(rows[0], s);
    }
  }

  lemma {:induction false} InsertAvoids(r: Row, rows: seq<Row>, name: string)
    requires r.offset.Some? && Resolved(rows) && r.name != name
    requires forall i :: 0 <= i < |rows| ==> rows[i].name != name
    ensures forall i :: 0 <= i <= |rows| ==> Insert(r, rows)[i].name != name
  {
    if rows != [] && r.offset.value > rows[0].offset.value {
      InsertAvoids(r, rows[1..], name);
    }
  }

  lemma {:induction false} InsertKeepsNames(r: Row, rows: seq<Row>)
    requires r.offset.Some? && Resolved(rows) && UniqueNames(rows)
    requires forall i :: 0 <= i < |rows| ==> rows[i].name != r.name
    ensures UniqueNames(Insert(r, rows))
  {
    if rows != [] && r.offset.value > rows[0].offset.value {
      InsertKeepsNames(r, rows[1..]);
      InsertAvoids(r, rows[1..], rows[0].name);
      var s := Insert(r, rows[1..]);
      assert Insert(r, rows) == [rows[0]] + s;
      hide Insert;
      assert UniqueNames([rows[0]] + s);
    }
  }

  // ---------- flash size ----------

  // The first row, in table order, among those with the largest offset.
  ghost predicate IsLast(rows: seq<Row>, k: nat)
    requires Resolved(rows)
  {
    && k < |rows|
    && (forall i :: 0 <= i < |rows| ==> rows[i].offset.value <= rows[k].offset.value)
    && forall i :: 0 <= i < k ==> rows[i].offset.value < rows[k].offset.value
  }

  // Python's reversed sort keeps the table order of rows with equal offsets.
  method FlashSize(rows: seq<Row>) returns (size: int)
    requires Resolved(rows)
    ensures rows == [] ==> size == 0
    ensures rows != [] ==> exists k: nat :: IsLast(rows, k)
    ensures forall k: nat :: IsLast(rows, k) ==> size == End(rows[k])
  {
    if rows == [] {
      return 0;
    }
    var k := 0;
    for i := 1 to |rows|
      invariant k < i && IsLast(rows[..i], k)
    {
      if rows[i].offset.value > rows[k].offset.value {
        k := i;
      }
    }
    assert rows[..|rows|] == rows;
    forall l: nat | IsLast(rows, l)
      ensures l == k
    {
      assert rows[l].offset.value == rows[k].offset.value;
    }
    return End(rows[k]);
  }

  // On a verified table whose last row has no negative size, the reported size covers every row
  // exactly when that row is not an empty one in front of a non-empty one.
  lemma FlashSizeCovers(rows: seq<Row>, k: nat)
    requires Resolved(rows) && UniqueNames(rows) && Chained(SortByOffset(rows)) && IsLast(rows, k)
    requires rows[k].size >= 0
    ensures (forall i :: 0 <= i < |rows| ==> End(rows[i]) <= End(rows[k])) <==>
      (rows[k].size > 0 || forall i :: 0 <= i < |rows| && rows[i].offset == rows[k].offset ==> rows[i].size <= 0)
  {
    hide Chained, SortByOffset, UniqueNames;
    forall i | 0 <= i < |rows| && i != k
      ensures if rows[i].offset == rows[k].offset then rows[i].size <= 0 || rows[k].size <= 0
        else End(rows[i]) <= rows[k].offset.value
    {
      BehindOrEmpty(rows, i, k);
    }
  }

  lemma BehindOrEmpty(rows: seq<Row>, i: nat, k: nat)
    requires Resolved(rows) && UniqueNames(rows) && Chained(SortByOffset(rows)) && i < |rows| && k < |rows| && i != k
    requires rows[i].offset.value <= rows[k].offset.value
    ensures if rows[i].offset == rows[k].offset then rows[i].size <= 0 || rows[k].size <= 0
      else End(rows[i]) <= rows[k].offset.value
  {
    UniqueAt(rows, if i < k then i else k, if i < k then k else i);
    hide SortByOffset, UniqueNames, Chained, Ascending;
    SortAscends(rows);
    var a, b := OnceInSort(rows, i, k);
    OneBehind(SortByOffset(rows), a, b);
  }

  lemma OneBehind(s: seq<Row>, a: nat, b: nat)
    requires Resolved(s) && Chained(s) && Ascending(s) && a < |s| && b < |s| && a != b
    requires s[a].offset.value <= s[b].offset.value
    ensures if s[a].offset == s[b].offset then s[a].size <= 0 || s[b].size <= 0 else End(s[a]) <= s[b].offset.value
  {
    hide Chained, Ascending;
    if a < b {
      SortedPairs(s, a, b);
    } else {
      SortedPairs(s, b, a);
      AscendingAt(s, b, a);
    }
  }

  lemma AscendingAt(s: seq<Row>, i: nat, j: nat)
    requires Resolved(s) && Ascending(s) && i <= j < |s|
    ensures s[i].offset.value <= s[j].offset.value
  {
  }

  lemma SortOfTwo(a: Row, b: Row)
    requires a.offset.Some? && b.offset.Some? && a.offset.value <= b.offset.value
    ensures SortByOffset([a, b]) == [a, b]
  {
    assert [a, b][1..] == [b] && [b][1..] == [];
    assert SortByOffset([b]) == [b];
  }

  lemma FlashSizeMissesARow()
    ensures
      var rows := [Row("a", 1, 2, Some(0x9000), 0, false), Row("b", 1, 2, Some(0x9000), 0x1000, false)];
      && Aligned(rows, true) && UniqueNames(rows) && AboveTable(rows, 0x9000) && Chained(SortByOffset(rows))
      && IsLast(rows, 0) && End(rows[0]) < End(rows[1])
  {
    hide SortByOffset;
    var a, b := Row("a", 1, 2, Some(0x9000), 0, false), Row("b", 1, 2, Some(0x9000), 0x1000, false);
    SortOfTwo(a, b);
    assert a.name[0] != b.name[0];
  }

  // If the last row has a negative size, the reported size can even lie below every row of a
  // verified table.
  lemma FlashSizeBelowTable()
    ensures
      var rows := [Row("a", 1, 2, Some(0x9000), 0x1000, false), Row("b", 1, 2, Some(0x20000), 0x8000 - 0x20000, false)];
      && Aligned(rows, true) && UniqueNames(rows) && AboveTable(rows, 0x9000) && Chained(SortByOffset(rows))
      && IsLast(rows, 1) && End(rows[1]) == 0x8000 < rows[0].offset.value
  {
    hide SortByOffset;
    var a, b := Row("a", 1, 2, Some(0x9000), 0x1000, false), Row("b", 1, 2, Some(0x20000), 0x8000 - 0x20000, false);
    SortOfTwo(a, b);
    assert a.name[0] != b.name[0];
  }
}
