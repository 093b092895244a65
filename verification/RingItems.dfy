// What a ring-buffer layout means: where a new item goes, which parts are waiting
// to be read, which are held by the application, and how parts make up items.
module RingItems {
  import opened Bytes
  import opened RingLayout

  // ---------- placement of a new item ----------

  function SpanAt(g: Geometry, pos: nat, len: nat): int
    requires GeometryOk(g)
  {
    Span(g, Slot(pos, false, false, false, seq(len, i => 0)))
  }

  // The slots that sending `data` adds when the write pointer is at `pos`.
  function NewSlots(g: Geometry, allowSplit: bool, pos: nat, data: seq<byte>): seq<Slot>
    requires GeometryOk(g) && ValidPos(g, pos)
  {
    var rem := g.size - pos;
    if rem >= AlignUp(g.align, |data|) + HEADER_SIZE then
      [Slot(pos, false, false, false, data)]
    else if allowSplit && rem > HEADER_SIZE then
      SplitLeavesRest(g, pos, |data|);
      [Slot(pos, false, true, false, data[..rem - HEADER_SIZE]),
       Slot(0, false, false, false, data[rem - HEADER_SIZE..])]
    else
      [Slot(pos, true, false, false, []), Slot(0, false, false, false, data)]
  }

  // A split always leaves bytes for the second part, and padding is not split.
  lemma SplitLeavesRest(g: Geometry, pos: nat, len: nat)
    requires GeometryOk(g) && ValidPos(g, pos)
    requires HEADER_SIZE < g.size - pos < AlignUp(g.align, len) + HEADER_SIZE
    ensures 0 < g.size - pos - HEADER_SIZE < len
    ensures Aligned(g.align, g.size - pos - HEADER_SIZE)
    ensures AlignUp(g.align, g.size - pos - HEADER_SIZE) == g.size - pos - HEADER_SIZE
    ensures AlignUp(g.align, len - (g.size - pos - HEADER_SIZE)) == AlignUp(g.align, len) - (g.size - pos - HEADER_SIZE)
  {
    hide Aligned, AlignUp;
    AlignedConsts(g.align);
    AlignedSum(g.align, g.size, pos);
    AlignedSum(g.align, g.size - pos, HEADER_SIZE);
    AlignSub(g.align, len, g.size - pos - HEADER_SIZE);
  }

  // The storage an item of `len` bytes needs at write position `pos`.
  function Needed(g: Geometry, allowSplit: bool, pos: nat, len: nat): int
    requires GeometryOk(g) && ValidPos(g, pos)
  {
    var rem := g.size - pos;
    if rem >= AlignUp(g.align, len) + HEADER_SIZE then SpanAt(g, pos, len)
    else if allowSplit && rem > HEADER_SIZE then
      SplitLeavesRest(g, pos, len);
      rem + SpanAt(g, 0, len - (rem - HEADER_SIZE))
    else rem + SpanAt(g, 0, len)
  }

  ghost predicate HasRoom(g: Geometry, allowSplit: bool, free: nat, slots: seq<Slot>, len: nat)
    requires GeometryOk(g) && Tiled(g, free, slots) && ValidPos(g, WritePos(g, free, slots))
  {
    Used(g, free, slots) + Needed(g, allowSplit, WritePos(g, free, slots), len) <= g.size
  }

  // The largest item the buffer accepts (xMaxItemSize); negative where the C code underflows.
  function MaxItem(g: Geometry, allowSplit: bool): int
    requires GeometryOk(g)
  {
    if allowSplit then g.size - 2 * HEADER_SIZE else AlignUp(g.align, g.size / 2) - HEADER_SIZE
  }

  // The buffers that are too small for that: there the unsigned subtraction wraps around and
  // every item is taken for small enough.
  lemma MaxItemUnderflows(g: Geometry, allowSplit: bool)
    requires GeometryOk(g)
    ensures MaxItem(g, allowSplit) < 0 <==>
      if allowSplit then g.size < 2 * HEADER_SIZE else g.align == 4 && g.size == HEADER_SIZE
  {
    if g.align == 8 {
      assert g.size / 2 == 4 * (g.size / 8);
    } else {
      assert g.size / 2 == 2 * (g.size / 4);
    }
  }

  // ---------- parts and items ----------

  datatype Part = Part(data: seq<byte>, split: bool)

  function Parts(slots: seq<Slot>): (ps: seq<Part>)
    ensures |ps| == CountParts(slots)
  {
    if slots == [] then []
    else (if slots[0].dummy then [] else [Part(slots[0].data, slots[0].split)]) + Parts(slots[1..])
  }

  lemma PartsConcat(a: seq<Slot>, b: seq<Slot>)
    ensures Parts(a + b) == Parts(a) + Parts(b)
  {
    if a == [] {
      assert a + b == b;
    } else {
      assert (a + b)[1..] == a[1..] + b;
      PartsConcat(a[1..], b);
    }
  }

  // Every first half is followed by its non-empty second half.
  predicate Paired(ps: seq<Part>) {
    forall i :: 0 <= i < |ps| && ps[i].split ==>
      i + 1 < |ps| && !ps[i + 1].split && ps[i].data != [] && ps[i + 1].data != []
  }

  // The items the parts stand for: two halves are joined.
  function Items(ps: seq<Part>): seq<seq<byte>> {
    if ps == [] then []
    else if ps[0].split && |ps| > 1 then [ps[0].data + ps[1].data] + Items(ps[2..])
    else [ps[0].data] + Items(ps[1..])
  }

  // No part is half an item.
  ghost predicate Whole(ps: seq<Part>) {
    forall i :: 0 <= i < |ps| ==> !ps[i].split
  }

  // Whole parts are the items, one by one, and the first n of them the first n items.
  lemma {:induction false} WholeItems(ps: seq<Part>, n: nat)
    requires Whole(ps) && n <= |ps|
    ensures |Items(ps)| == |ps| && Items(ps[..n]) == Items(ps)[..n]
    ensures n < |ps| ==> Items(ps)[n] == ps[n].data
  {
    if ps != [] {
      WholeItems(ps[1..], if n == 0 then 0 else n - 1);
      if n > 0 {
        assert ps[..n][1..] == ps[1..][..n - 1];
      }
    }
  }

  lemma WholeGrows(taken: seq<Part>, waiting: seq<Part>, more: seq<Part>)
    ensures Whole(taken + waiting) && Whole(more) ==> Whole(taken + (waiting + more))
  {
    if Whole(taken + waiting) && Whole(more) {
      assert taken + (waiting + more) == (taken + waiting) + more;
    }
  }

  lemma PairedTail(ps: seq<Part>, k: nat)
    requires Paired(ps) && k <= |ps|
    ensures Paired(ps[k..])
  {
  }

  lemma PairedConcat(a: seq<Part>, b: seq<Part>)
    requires Paired(a) && Paired(b)
    ensures Paired(a + b)
  {
    forall i | 0 <= i < |a + b| && (a + b)[i].split
      ensures i + 1 < |a + b| && !(a + b)[i + 1].split && (a + b)[i].data != [] && (a + b)[i + 1].data != []
    {
      if i < |a| {
        assert a[i].split && (a + b)[i + 1] == a[i + 1];
      } else {
        assert b[i - |a|].split && (a + b)[i + 1] == b[i - |a| + 1];
      }
    }
  }

  lemma {:induction false} ItemsConcat(a: seq<Part>, b: seq<Part>)
    requires Paired(a)
    ensures Items(a + b) == Items(a) + Items(b)
  {
    if a == [] {
      assert a + b == b;
    } else {
      var k := if a[0].split then 2 else 1;
      assert (a + b)[0] == a[0] && (a + b)[k - 1] == a[k - 1];
      assert (a + b)[k..] == a[k..] + b;
      PairedTail(a, k);
      ItemsConcat(a[k..], b);
    }
  }

  // Sending an item adds parts that stand for exactly that item; if it is stored in
  // two parts, neither is empty.
  lemma NewSlotsCarryItem(g: Geometry, allowSplit: bool, pos: nat, data: seq<byte>)
    requires GeometryOk(g) && ValidPos(g, pos)
    ensures Items(Parts(NewSlots(g, allowSplit, pos, data))) == [data]
    ensures Paired(Parts(NewSlots(g, allowSplit, pos, data)))
    ensures !allowSplit ==> Parts(NewSlots(g, allowSplit, pos, data)) == [Part(data, false)]
  {
    var ns := NewSlots(g, allowSplit, pos, data);
    if |ns| == 1 {
      assert Parts(ns) == [Part(data, false)];
    } else {
      assert ns[1..] == [ns[1]];
      assert Parts(ns[1..]) == [Part(ns[1].data, false)];
      if ns[0].dummy {
        assert Parts(ns) == [Part(data, false)];
      } else {
        SplitLeavesRest(g, pos, |data|);
        assert Parts(ns) == [Part(ns[0].data, true), Part(ns[1].data, false)];
        assert ns[0].data + ns[1].data == data;
      }
    }
  }

  // ---------- items held by the application ----------

  predicate InUse(s: Slot) {
    !s.dummy && !s.freed
  }

  // Received and not yet returned: pointer handed out |-> payload.
  function Held(slots: seq<Slot>, r: nat): (m: map<nat, seq<byte>>)
    requires r <= |slots|
  {
    if r == 0 then map[]
    else
      var rest := Held(slots, r - 1);
      if InUse(slots[r - 1]) then rest[slots[r - 1].pos + HEADER_SIZE := slots[r - 1].data] else rest
  }

  // Every held pointer belongs to a slot in use that has been read.
  lemma {:induction false} HeldIndex(slots: seq<Slot>, r: nat, h: nat) returns (i: nat)
    requires r <= |slots| && h in Held(slots, r)
    ensures i < r && InUse(slots[i]) && slots[i].pos + HEADER_SIZE == h
    ensures Held(slots, r)[h] == slots[i].data
  {
    i := r - 1;
    if !(InUse(slots[i]) && slots[i].pos + HEADER_SIZE == h) {
      i := HeldIndex(slots, r - 1, h);
    }
  }

  ghost predicate DistinctPos(slots: seq<Slot>) {
    forall i, j :: 0 <= i < j < |slots| ==> slots[i].pos != slots[j].pos
  }

  lemma TiledDistinct(g: Geometry, free: nat, slots: seq<Slot>)
    requires GeometryOk(g) && Tiled(g, free, slots)
    ensures DistinctPos(slots)
  {
    hide Aligned, AlignUp;
  }

  lemma {:induction false} HeldValue(slots: seq<Slot>, r: nat, i: nat)
    requires DistinctPos(slots) && i < r <= |slots| && InUse(slots[i])
    ensures slots[i].pos + HEADER_SIZE in Held(slots, r)
    ensures Held(slots, r)[slots[i].pos + HEADER_SIZE] == slots[i].data
  {
    if i < r - 1 {
      HeldValue(slots, r - 1, i);
    }
  }

  lemma {:induction false} HeldPrefix(a: seq<Slot>, b: seq<Slot>, r: nat)
    requires r <= |a| && r <= |b| && a[..r] == b[..r]
    ensures Held(a, r) == Held(b, r)
  {
    if r > 0 {
      assert a[..r][r - 1] == b[..r][r - 1];
      assert a[..r - 1] == a[..r][..r - 1] == b[..r][..r - 1] == b[..r - 1];
      HeldPrefix(a, b, r - 1);
    }
  }

  // Dropping leading slots that nobody holds changes nothing.
  lemma {:induction false} HeldDrop(slots: seq<Slot>, r: nat, k: nat)
    requires k <= r <= |slots|
    requires forall i :: 0 <= i < k ==> !InUse(slots[i])
    ensures Held(slots[k..], r - k) == Held(slots, r)
  {
    if r > k {
      assert slots[k..][r - 1 - k] == slots[r - 1];
      HeldDrop(slots, r - 1, k);
    } else if r > 0 {
      HeldDrop(slots, r - 1, k - 1);
    }
  }

  // Marking a held slot as free removes exactly that pointer.
  lemma {:induction false} HeldMark(slots: seq<Slot>, r: nat, k: nat)
    requires DistinctPos(slots) && k < r <= |slots| && InUse(slots[k])
    ensures Held(slots[k := slots[k].(freed := true, split := false)], r)
      == Held(slots, r) - {slots[k].pos + HEADER_SIZE}
  {
    var b := slots[k := slots[k].(freed := true, split := false)];
    if k == r - 1 {
      HeldPrefix(slots, b, k);
      if slots[k].pos + HEADER_SIZE in Held(slots, k) {
        var i := HeldIndex(slots, k, slots[k].pos + HEADER_SIZE);
        assert false;
      }
    } else {
      HeldMark(slots, r - 1, k);
    }
  }

  // ---------- the admission test ----------

  lemma NeededFacts(g: Geometry, allowSplit: bool, pos: nat, len: nat)
    requires GeometryOk(g) && ValidPos(g, pos)
    ensures var total := AlignUp(g.align, len) + HEADER_SIZE; var rem := g.size - pos;
      var second := if allowSplit && rem > HEADER_SIZE then total + HEADER_SIZE - rem else total;
      Needed(g, allowSplit, pos, len) ==
        if rem >= total then (if rem - total < HEADER_SIZE then rem else total)
        else rem + (if g.size - second < HEADER_SIZE then g.size else second)
  {
    hide Aligned, AlignUp;
    if HEADER_SIZE < g.size - pos < AlignUp(g.align, len) + HEADER_SIZE {
      SplitLeavesRest(g, pos, len);
    }
  }

  // The branches of the admission test decide exactly whether the item has room.
  lemma FitsExact(g: Geometry, allowSplit: bool, free: nat, slots: seq<Slot>, len: nat)
    requires GeometryOk(g) && Tiled(g, free, slots)
    ensures ValidPos(g, WritePos(g, free, slots))
    ensures var w := WritePos(g, free, slots); var total := AlignUp(g.align, len) + HEADER_SIZE;
      var room := HasRoom(g, allowSplit, free, slots, len);
      && (w == free && slots != [] ==> !room)
      && (w == free && slots == [] && len <= MaxItem(g, allowSplit) ==> room)
      && (free > w ==> (room <==> total <= free - w))
      && (w > free && total <= g.size - w ==> room)
      && (w > free && total > g.size - w ==>
            (room <==> if allowSplit then total + HEADER_SIZE <= g.size - (w - free) else total <= free))
  {
    hide Aligned, AlignUp, Needed;
    WritePosValid(g, free, slots);
    var w := WritePos(g, free, slots);
    NeededFacts(g, allowSplit, w, len);
    if len <= MaxItem(g, allowSplit) {
      MaxItemFits(g, allowSplit, w, len);
    }
  }

  // An empty buffer takes every item up to the advertised maximum, wherever its
  // write pointer stands.
  lemma MaxItemFits(g: Geometry, allowSplit: bool, pos: nat, len: nat)
    requires GeometryOk(g) && ValidPos(g, pos) && len <= MaxItem(g, allowSplit)
    ensures Needed(g, allowSplit, pos, len) <= g.size
  {
    hide Needed, Aligned, AlignUp;
    NeededFacts(g, allowSplit, pos, len);
    var up, half := AlignUp(g.align, len), AlignUp(g.align, g.size / 2);
    AlignedConsts(g.align);
    AlignedSum(g.align, g.size, pos);
    AlignedSum(g.align, g.size, 2 * HEADER_SIZE);
    AlignedSum(g.align, up, HEADER_SIZE);
    HalfRoundedUp(g.align, g.size);
    if g.size - pos < up + HEADER_SIZE {
      AlignedGap(g.align, g.size - pos, up + HEADER_SIZE);
      if allowSplit {
        if up > g.size - 2 * HEADER_SIZE {
          AlignedGap(g.align, g.size - 2 * HEADER_SIZE, up);
        }
      } else {
        if up + HEADER_SIZE > half {
          AlignedGap(g.align, half, up + HEADER_SIZE);
        }
      }
    }
  }

  // The advertised maximum is exact: it is the largest size an empty buffer can take
  // at every position its write pointer may have.
  lemma MaxItemExact(g: Geometry, allowSplit: bool, len: nat)
    requires GeometryOk(g) && MaxItem(g, allowSplit) >= 0
    ensures len <= MaxItem(g, allowSplit) <==>
      forall pos: nat :: ValidPos(g, pos) ==> Needed(g, allowSplit, pos, len) <= g.size
  {
    hide Needed, Aligned, AlignUp;
    forall pos: nat | ValidPos(g, pos) && len <= MaxItem(g, allowSplit)
      ensures Needed(g, allowSplit, pos, len) <= g.size
    {
      MaxItemFits(g, allowSplit, pos, len);
    }
    if len > MaxItem(g, allowSplit) {
      var pos := WorstPos(g, allowSplit, len);
      assert !(Needed(g, allowSplit, pos, len) <= g.size);
    }
  }

  // A write position at which a larger item does not fit an empty buffer.
  lemma WorstPos(g: Geometry, allowSplit: bool, len: nat) returns (pos: nat)
    requires GeometryOk(g) && 0 <= MaxItem(g, allowSplit) < len
    ensures ValidPos(g, pos) && Needed(g, allowSplit, pos, len) > g.size
  {
    hide Needed, Aligned, AlignUp;
    var up, half := AlignUp(g.align, len), AlignUp(g.align, g.size / 2);
    HalfRoundedUp(g.align, g.size);
    AlignedConsts(g.align);
    AlignedSum(g.align, g.size, HEADER_SIZE);
    AlignedSum(g.align, g.size, 2 * HEADER_SIZE);
    AlignedSum(g.align, half, HEADER_SIZE);
    AlignedGap(g.align, MaxItem(g, allowSplit), up);
    if allowSplit {
      pos := g.size - HEADER_SIZE;
    } else if up + HEADER_SIZE > g.size {
      pos := 0;
    } else {
      pos := g.size - (up + HEADER_SIZE - g.align);
      AlignedSum(g.align, up, HEADER_SIZE);
      AlignedSum(g.align, up + HEADER_SIZE, g.align);
      AlignedSum(g.align, g.size, up + HEADER_SIZE - g.align);
    }
    NeededFacts(g, allowSplit, pos, len);
  }


  // The state after writing slot s at the write pointer.
  function PutImage(g: Geometry, im: Image, s: Slot): Image
    requires GeometryOk(g) && s.pos + HEADER_SIZE + |s.data| <= |im.mem| && |s.data| < 0x1_0000_0000
  {
    Image(Splice(Splice(im.mem, s.pos, EncodeHeader(HeaderOf(s))), s.pos + HEADER_SIZE, s.data),
          im.free, im.read, NextPos(g, s), NextPos(g, s) == im.free, im.waiting + if s.dummy then 0 else 1)
  }

  lemma PutKeepsLayout(g: Geometry, im: Image, slots: seq<Slot>, r: nat, s: Slot)
    requires GeometryOk(g) && Layout(g, im, slots, r)
    requires Placed(g, s) && s.pos == im.write && !s.freed
    requires Used(g, im.free, slots) + Span(g, s) <= g.size
    ensures ValidPos(g, s.pos) && s.pos + HEADER_SIZE + |s.data| <= |im.mem| && |s.data| < 0x1_0000_0000
    ensures Layout(g, PutImage(g, im, s), slots + [s], r)
    ensures Tiled(g, im.free, slots + [s]) && Used(g, im.free, slots + [s]) == Used(g, im.free, slots) + Span(g, s)
    ensures PutImage(g, im, s).full <==> Used(g, im.free, slots) + Span(g, s) == g.size
  {
    hide Aligned, AlignUp, Layout, Stored, HeaderOf;
    LayoutTiled(g, im, slots, r);
    NextPosValid(g, s);
    PutFits(g, s);
    StoredAfterWrite(im.mem, s);
    TiledAppend(g, im.free, slots, s);
    WritePosValid(g, im.free, slots + [s]);
    LayoutAppend(g, im, slots, r, s, PutImage(g, im, s));
  }

  lemma LayoutTiled(g: Geometry, im: Image, slots: seq<Slot>, r: nat)
    requires GeometryOk(g) && Layout(g, im, slots, r)
    ensures Tiled(g, im.free, slots) && im.write == WritePos(g, im.free, slots) && |im.mem| == g.size
    ensures im.free < g.size && 0 <= Used(g, im.free, slots)
    ensures im.full <==> Used(g, im.free, slots) == g.size
  {
    WritePosValid(g, im.free, slots);
  }

  lemma PutFits(g: Geometry, s: Slot)
    requires GeometryOk(g) && Placed(g, s)
    ensures s.pos + HEADER_SIZE + |s.data| <= EndPos(g, s) <= g.size
  {
  }

  // An admitted item that fits before the end of the storage.
  lemma RoomWhole(g: Geometry, allowSplit: bool, w: nat, used: int, s: Slot)
    requires GeometryOk(g) && ValidPos(g, w) && used + Needed(g, allowSplit, w, |s.data|) <= g.size
    requires s.pos == w && !s.dummy && g.size - w >= AlignUp(g.align, |s.data|) + HEADER_SIZE
    ensures Placed(g, s) && used + Span(g, s) <= g.size
  {
    hide Aligned, AlignUp, Needed;
    NeededFacts(g, allowSplit, w, |s.data|);
  }

  // An admitted item that continues at the start of the storage: a dummy or a first
  // part fills the tail, the rest goes to position 0.
  lemma RoomWrapped(g: Geometry, allowSplit: bool, w: nat, used: int, len: nat, first: Slot, second: Slot)
    requires GeometryOk(g) && ValidPos(g, w) && 0 <= used && used + Needed(g, allowSplit, w, len) <= g.size
    requires g.size - w < AlignUp(g.align, len) + HEADER_SIZE
    requires first.pos == w && second.pos == 0 && !second.dummy
    requires if allowSplit && g.size - w > HEADER_SIZE
      then !first.dummy && |first.data| == g.size - w - HEADER_SIZE && |second.data| == len - |first.data|
      else first.dummy && first.data == [] && !first.split && |second.data| == len
    ensures Placed(g, first) && Placed(g, second) && NextPos(g, first) == 0
    ensures Span(g, first) == g.size - w && used + Span(g, first) < g.size
    ensures used + Span(g, first) + Span(g, second) <= g.size
  {
    hide Aligned, AlignUp, Needed;
    NeededFacts(g, allowSplit, w, len);
    AlignedConsts(g.align);
    if allowSplit && g.size - w > HEADER_SIZE {
      SplitLeavesRest(g, w, len);
    }
  }

  predicate Fitting(g: Geometry, s: Slot)
    requires GeometryOk(g)
  {
    s.pos + HEADER_SIZE + |s.data| <= EndPos(g, s) <= g.size
  }

  // The state after storing the one or two slots of an item.
  function CopyImage(g: Geometry, im: Image, ns: seq<Slot>): Image
    requires GeometryOk(g) && |im.mem| == g.size && 1 <= |ns| <= 2
    requires forall i :: 0 <= i < |ns| ==> Fitting(g, ns[i])
  {
    assert Fitting(g, ns[0]) && Fitting(g, ns[|ns| - 1]);
    if |ns| == 1 then PutImage(g, im, ns[0]) else PutImage(g, PutImage(g, im, ns[0]), ns[1])
  }

  lemma CopyWhole(g: Geometry, im: Image, slots: seq<Slot>, r: nat, s: Slot, allowSplit: bool)
    requires GeometryOk(g) && Layout(g, im, slots, r) && ValidPos(g, im.write)
    requires HasRoom(g, allowSplit, im.free, slots, |s.data|)
    requires s == Slot(im.write, false, false, false, s.data)
    requires g.size - im.write >= AlignUp(g.align, |s.data|) + HEADER_SIZE
    ensures |im.mem| == g.size && !im.full && Fitting(g, s)
    ensures Layout(g, PutImage(g, im, s), slots + [s], r)
  {
    hide Aligned, AlignUp, Layout, Tiled, Needed, Placed, Span, PutImage;
    LayoutTiled(g, im, slots, r);
    RoomWhole(g, allowSplit, im.write, Used(g, im.free, slots), s);
    PutKeepsLayout(g, im, slots, r, s);
    PutFits(g, s);
    NextPosValid(g, s);
  }

  lemma CopyWrapped(g: Geometry, im: Image, slots: seq<Slot>, r: nat, first: Slot, second: Slot, len: nat,
      allowSplit: bool)
    requires GeometryOk(g) && Layout(g, im, slots, r) && ValidPos(g, im.write)
    requires HasRoom(g, allowSplit, im.free, slots, len)
    requires g.size - im.write < AlignUp(g.align, len) + HEADER_SIZE
    requires first.pos == im.write && !first.freed && second == Slot(0, false, false, false, second.data)
    requires if allowSplit && g.size - im.write > HEADER_SIZE
      then !first.dummy && |first.data| == g.size - im.write - HEADER_SIZE && |second.data| == len - |first.data|
      else first.dummy && first.data == [] && !first.split && |second.data| == len
    ensures |im.mem| == g.size && !im.full && Fitting(g, first) && Fitting(g, second)
    ensures Layout(g, PutImage(g, PutImage(g, im, first), second), slots + [first] + [second], r)
  {
    hide Aligned, AlignUp, Layout, Tiled, Needed, Placed, Span;
    LayoutTiled(g, im, slots, r);
    RoomWrapped(g, allowSplit, im.write, Used(g, im.free, slots), len, first, second);
    PutKeepsLayout(g, im, slots, r, first);
    PutFits(g, first);
    PutFits(g, second);
    PutKeepsLayout(g, PutImage(g, im, first), slots + [first], r, second);
  }

  // Storing an admitted item keeps the layout and adds exactly its slots.
  lemma CopyKeepsLayout(g: Geometry, allowSplit: bool, im: Image, slots: seq<Slot>, r: nat, item: seq<byte>)
    requires GeometryOk(g) && Layout(g, im, slots, r) && ValidPos(g, im.write)
    requires HasRoom(g, allowSplit, im.free, slots, |item|)
    ensures var ns := NewSlots(g, allowSplit, im.write, item);
      && |im.mem| == g.size && !im.full
      && (forall i :: 0 <= i < |ns| ==> Fitting(g, ns[i]))
      && Layout(g, CopyImage(g, im, ns), slots + ns, r)
  {
    hide Aligned, AlignUp, Layout, Tiled, HasRoom, Fitting, PutImage;
    var ns := NewSlots(g, allowSplit, im.write, item);
    if |ns| == 1 {
      CopyWhole(g, im, slots, r, ns[0], allowSplit);
      assert ns == [ns[0]];
    } else {
      if allowSplit && g.size - im.write > HEADER_SIZE {
        SplitLeavesRest(g, im.write, |item|);
      }
      CopyWrapped(g, im, slots, r, ns[0], ns[1], |item|, allowSplit);
      assert ns == [ns[0], ns[1]];
      assert slots + ns == slots + [ns[0]] + [ns[1]];
    }
  }

  lemma LayoutStored(g: Geometry, im: Image, slots: seq<Slot>, r: nat)
    requires GeometryOk(g) && Layout(g, im, slots, r)
    ensures r <= |slots| && |im.mem| == g.size
    ensures forall i :: 0 <= i < |slots| ==> Stored(im.mem, slots[i])
  {
  }

  // At the start of the storage every admissible item is stored in one piece.
  lemma WholeAtHead(g: Geometry, allowSplit: bool, len: nat)
    requires GeometryOk(g) && len <= MaxItem(g, allowSplit)
    ensures AlignUp(g.align, len) + HEADER_SIZE <= g.size
  {
    hide Aligned, AlignUp, Needed;
    AlignedConsts(g.align);
    MaxItemFits(g, allowSplit, 0, len);
    NeededFacts(g, allowSplit, 0, len);
  }

  // Sending adds one item at the back of the queue and touches nothing that is held.
  lemma QueueGrows(slots: seq<Slot>, r: nat, taken: seq<Part>, sent: seq<seq<byte>>, ns: seq<Slot>, item: seq<byte>)
    requires r <= |slots| && Items(Parts(ns)) == [item] && Paired(Parts(ns))
    requires Paired(taken + Parts(slots[r..])) && Items(taken + Parts(slots[r..])) == sent
    ensures Parts((slots + ns)[r..]) == Parts(slots[r..]) + Parts(ns)
    ensures Paired(taken + Parts((slots + ns)[r..])) && Items(taken + Parts((slots + ns)[r..])) == sent + [item]
    ensures Held(slots + ns, r) == Held(slots, r)
  {
    hide Paired, Items, Parts, Held;
    assert (slots + ns)[r..] == slots[r..] + ns;
    PartsConcat(slots[r..], ns);
    var ps := taken + Parts(slots[r..]);
    assert taken + (Parts(slots[r..]) + Parts(ns)) == ps + Parts(ns);
    PairedConcat(ps, Parts(ns));
    ItemsConcat(ps, Parts(ns));
    assert (slots + ns)[..r] == slots[..r];
    HeldPrefix(slots + ns, slots, r);
  }

  // ---------- returning a part ----------

  // The slot a held pointer belongs to, and its header as it stands in the storage.
  lemma ReturnTarget(g: Geometry, im: Image, slots: seq<Slot>, r: nat, item: nat) returns (k: nat)
    requires GeometryOk(g) && Layout(g, im, slots, r) && r <= |slots| && item in Held(slots, r)
    ensures k < r && InUse(slots[k]) && item == slots[k].pos + HEADER_SIZE
    ensures |im.mem| == g.size && item <= g.size
    ensures DecodeHeader(im.mem[item - HEADER_SIZE..item]) == HeaderOf(slots[k])
  {
    hide Aligned, AlignUp, Layout, Held, Tiled;
    k := HeldIndex(slots, r, item);
    LayoutStored(g, im, slots, r);
    StoredBytes(im.mem, slots[k]);
  }

  lemma StoredBytes(mem: seq<byte>, s: Slot)
    requires Stored(mem, s)
    ensures s.pos + HEADER_SIZE + |s.data| <= |mem|
    ensures DecodeHeader(mem[s.pos..s.pos + HEADER_SIZE]) == HeaderOf(s)
    ensures mem[s.pos + HEADER_SIZE..s.pos + HEADER_SIZE + |s.data|] == s.data
  {
  }

  // The free pointer has moved past the first j slots, none of them in use any more.
  ghost predicate Releasing(g: Geometry, mem: seq<byte>, free0: nat, slots: seq<Slot>, j: nat, free: nat)
    requires GeometryOk(g)
  {
    && Tiled(g, free0, slots) && j <= |slots| && |mem| == g.size
    && free == PosOf(g, free0, slots, j) && ValidPos(g, free)
    && (forall i :: 0 <= i < j ==> !InUse(slots[i]))
    && (forall i :: j <= i < |slots| ==> Stored(mem, slots[i]))
  }

  lemma ReleaseStart(g: Geometry, im: Image, slots: seq<Slot>, r: nat)
    requires GeometryOk(g) && Layout(g, im, slots, r)
    ensures Releasing(g, im.mem, im.free, slots, 0, im.free)
  {
    hide Aligned, AlignUp;
  }

  lemma LayoutRead(g: Geometry, im: Image, slots: seq<Slot>, r: nat)
    requires GeometryOk(g) && Layout(g, im, slots, r)
    ensures r <= |slots| && im.read == PosOf(g, im.free, slots, r)
  {
  }

  // What the header at the free pointer says about the next slot.
  lemma ReleaseHeader(g: Geometry, mem: seq<byte>, free0: nat, slots: seq<Slot>, j: nat, free: nat)
    requires GeometryOk(g) && Releasing(g, mem, free0, slots, j, free)
    ensures free + HEADER_SIZE <= g.size && |mem| == g.size && j <= |slots| && free == PosOf(g, free0, slots, j)
    ensures forall i :: 0 <= i < j ==> !InUse(slots[i])
    ensures j < |slots| ==> free == slots[j].pos && Placed(g, slots[j]) && EndPos(g, slots[j]) <= g.size
    ensures j < |slots| ==> DecodeHeader(mem[free..free + HEADER_SIZE]) == HeaderOf(slots[j])
  {
    hide Aligned, AlignUp, DecodeHeader;
  }

  // The bytes of a dummy that is skipped; other slots keep theirs.
  function SkipMem(mem: seq<byte>, s: Slot): seq<byte>
    requires s.pos + HEADER_SIZE <= |mem| && |s.data| < 0x1_0000_0000
  {
    if s.dummy then Splice(mem, s.pos, EncodeHeader(HeaderOf(s).(isFree := true))) else mem
  }

  lemma ReleaseStep(g: Geometry, mem: seq<byte>, free0: nat, slots: seq<Slot>, j: nat, free: nat)
    requires GeometryOk(g) && Releasing(g, mem, free0, slots, j, free) && j < |slots| && !InUse(slots[j])
    ensures slots[j].pos + HEADER_SIZE <= |mem| && |slots[j].data| < 0x1_0000_0000
    ensures Releasing(g, SkipMem(mem, slots[j]), free0, slots, j + 1, NextPos(g, slots[j]))
  {
    hide Aligned, AlignUp, Tiled;
    ReleaseHeader(g, mem, free0, slots, j, free);
    NextPosValid(g, slots[j]);
    PosNext(g, free0, slots, j);
    var mem' := SkipMem(mem, slots[j]);
    forall i | j + 1 <= i < |slots|
      ensures Stored(mem', slots[i])
    {
      StoredMarkOther(g, free0, slots, mem, j, mem', i);
    }
  }

  lemma PosNext(g: Geometry, free: nat, slots: seq<Slot>, j: nat)
    requires GeometryOk(g) && Tiled(g, free, slots) && j < |slots|
    ensures PosOf(g, free, slots, j + 1) == NextPos(g, slots[j])
  {
  }

  // Read and free pointer coincide behind a read slot only in a full, fully read buffer.
  lemma Lapped(g: Geometry, im: Image, slots: seq<Slot>, r: nat)
    requires GeometryOk(g) && Layout(g, im, slots, r) && r > 0 && im.free == im.read
    ensures r == |slots| && im.full && im.write == im.free && im.waiting == 0
    ensures Layout(g, Image(im.mem, im.free, im.read, im.write, false, 0), [], 0)
    ensures !Layout(g, im.(full := false), slots, r)
  {
    hide Aligned, AlignUp;
    PosInjective(g, im.free, slots, 0, r);
    WritePosValid(g, im.free, slots);
    assert im.waiting == CountParts([]);
  }

  // Where the free pointer comes to rest, the layout of the remaining slots is intact.
  lemma ReleaseDone(g: Geometry, im: Image, slots: seq<Slot>, r: nat, j: nat, im': Image)
    requires GeometryOk(g) && Layout(g, im, slots, r) && im.free != im.read && j <= r
    requires Releasing(g, im'.mem, im.free, slots, j, im'.free)
    requires im'.free == im.read || (j < |slots| && InUse(slots[j]))
    requires im' == Image(im'.mem, im'.free, im.read, im.write,
                          im.full && im'.free == im.write && im'.free != im.read, im.waiting)
    ensures Layout(g, im', slots[j..], r - j)
    ensures r <= |slots| && (j < r ==> InUse(slots[j]))
  {
    hide Aligned, AlignUp, Tiled, Stored, CountParts;
    LayoutTiled(g, im, slots, r);
    if j == 0 {
      assert slots[0..] == slots;
      WritePosValid(g, im.free, slots);
    } else {
      ReleaseFull(g, im, slots, r, j);
      LayoutDrop(g, im, slots, r, j, im');
    }
    if j < r && im'.free == im.read {
      PosInjective(g, im.free, slots, j, r);
    }
  }

  // Once the free pointer has moved, the buffer is not full, and the flag test sees it.
  lemma ReleaseFull(g: Geometry, im: Image, slots: seq<Slot>, r: nat, j: nat)
    requires GeometryOk(g) && Layout(g, im, slots, r) && 0 < j <= r
    ensures j <= |slots|
    ensures PosOf(g, im.free, slots, j) == im.write ==> PosOf(g, im.free, slots, j) == im.read
  {
    hide Aligned, AlignUp, Stored, CountParts;
    if j < |slots| && PosOf(g, im.free, slots, j) == PosOf(g, im.free, slots, |slots|) {
      PosInjective(g, im.free, slots, j, |slots|);
    }
  }

  // ---------- what goes wrong when a full, fully read buffer is returned piecemeal ----------

  // Pointers that read as "empty" are right only if nothing is stored at all.
  lemma EmptyPointersHoldNothing(g: Geometry, im: Image, slots: seq<Slot>, r: nat)
    requires GeometryOk(g) && Layout(g, im, slots, r) && im.free == im.write && !im.full
    ensures slots == [] && Held(slots, 0) == map[]
  {
    hide Aligned, AlignUp;
    WritePosValid(g, im.free, slots);
  }

  // The next item written there destroys the header of a part that is still held.
  lemma HeldPartOverwritten(g: Geometry, im: Image, s: Slot, item: Slot)
    requires GeometryOk(g) && s.pos == item.pos && |item.data| != |s.data| && |item.data| < 0x1_0000_0000
    requires |im.mem| == g.size && item.pos + HEADER_SIZE + |item.data| <= g.size
    ensures !Stored(PutImage(g, im, item).mem, s)
  {
    hide Aligned, AlignUp, DecodeHeader, EncodeHeader;
    StoredAfterWrite(im.mem, item);
  }

  lemma FullWitness() returns (g: Geometry, im: Image, slots: seq<Slot>)
    ensures g == Geometry(32, 4) && Layout(g, im, slots, 0)
    ensures im.full && im.free == im.read == im.write == 0 && im.waiting == 2
    ensures |slots| == 2 && slots[0] == Slot(0, false, false, false, slots[0].data)
    ensures slots[1] == Slot(16, false, false, false, slots[1].data)
  {
    hide Stored, Splice, EncodeHeader;
    g := Geometry(32, 4);
    var payload: seq<byte> := [1, 2, 3, 4, 5, 6, 7, 8];
    var a, b := Slot(0, false, false, false, payload), Slot(16, false, false, false, payload);
    var im0 := Image(seq(32, i => 0), 0, 0, 0, false, 0);
    assert AlignUp(4, 8) == 8;
    PutKeepsLayout(g, im0, [], 0, a);
    PutKeepsLayout(g, PutImage(g, im0, a), [] + [a], 0, b);
    im := PutImage(g, PutImage(g, im0, a), b);
    slots := [] + [a] + [b];
  }

  // A buffer of 32 bytes with two read items of 8 bytes each is such a state.
  lemma FullyReadWitness() returns (g: Geometry, im: Image, slots: seq<Slot>)
    ensures GeometryOk(g) && Layout(g, im, slots, |slots|)
    ensures im.full && im.free == im.read == im.write && Held(slots, |slots|).Keys == {8, 24}
  {
    hide Layout;
    g, im, slots := FullWitness();
    LayoutAdvance(g, im, slots, 0);
    im := im.(read := PosOf(g, 0, slots, 1), waiting := 1);
    LayoutAdvance(g, im, slots, 1);
    im := im.(read := PosOf(g, 0, slots, 2), waiting := 0);
    LayoutTiled(g, im, slots, 2);
    assert Held(slots, 1) == Held(slots, 0)[8 := slots[0].data];
    assert Held(slots, 2) == Held(slots, 1)[24 := slots[1].data];
  }

  // ---------- the size a caller may send now ----------

  lemma AlignUpLe(a: nat, s: nat, t: int)
    requires IsAlignment(a) && Aligned(a, t)
    ensures AlignUp(a, s) <= t <==> s <= t
  {
    hide AlignUp, Aligned;
    if s <= t < AlignUp(a, s) {
      AlignedGap(a, t, AlignUp(a, s));
    }
  }

  lemma HalfFits(g: Geometry, w: nat)
    requires GeometryOk(g) && ValidPos(g, w)
    ensures AlignUp(g.align, g.size / 2) <= if g.size - w > w then g.size - w else w
  {
    hide Aligned, AlignUp;
    AlignedSum(g.align, g.size, w);
    var m := if g.size - w > w then g.size - w else w;
    AlignUpLe(g.align, g.size / 2, m);
  }

  // The largest item that fits now, in terms of the pointers alone.
  function Largest(g: Geometry, allowSplit: bool, free: nat, w: nat): int {
    if w < free then free - w - HEADER_SIZE
    else if !allowSplit then (if g.size - w > free then g.size - w else free) - HEADER_SIZE
    else if free >= HEADER_SIZE || w == free then free + (g.size - w) - 2 * HEADER_SIZE
    else g.size - w - HEADER_SIZE
  }

  lemma LargestExact(g: Geometry, allowSplit: bool, free: nat, slots: seq<Slot>, s: nat)
    requires GeometryOk(g) && Tiled(g, free, slots) && Used(g, free, slots) < g.size
    requires s <= MaxItem(g, allowSplit)
    ensures ValidPos(g, WritePos(g, free, slots))
    ensures HasRoom(g, allowSplit, free, slots, s) <==> s <= Largest(g, allowSplit, free, WritePos(g, free, slots))
  {
    hide Aligned, AlignUp, HasRoom, Tiled, Used;
    FitsExact(g, allowSplit, free, slots, s);
    var w := WritePos(g, free, slots);
    WritePosValid(g, free, slots);
    AlignedConsts(g.align);
    HalfFits(g, w);
    FreeValid(g, free, slots);
    AlignedSum(g.align, free, w);
    AlignedSum(g.align, free - w, HEADER_SIZE);
    AlignedSum(g.align, g.size, w);
    AlignedSum(g.align, g.size - w, HEADER_SIZE);
    AlignedSum(g.align, g.size - w, free);
    AlignedSum(g.align, g.size - w + free, 2 * HEADER_SIZE);
    AlignedSum(g.align, free, HEADER_SIZE);
    AlignUpLe(g.align, s, free - w - HEADER_SIZE);
    AlignUpLe(g.align, s, g.size - w - HEADER_SIZE);
    AlignUpLe(g.align, s, free - HEADER_SIZE);
    AlignUpLe(g.align, s, g.size - w + free - 2 * HEADER_SIZE);
  }

  lemma FreeValid(g: Geometry, free: nat, slots: seq<Slot>)
    requires GeometryOk(g) && Tiled(g, free, slots)
    ensures ValidPos(g, free)
  {
  }

  lemma FullHasNoRoom(g: Geometry, allowSplit: bool, free: nat, slots: seq<Slot>, s: nat)
    requires GeometryOk(g) && Tiled(g, free, slots) && Used(g, free, slots) == g.size
    ensures ValidPos(g, WritePos(g, free, slots)) && !HasRoom(g, allowSplit, free, slots, s)
  {
    hide Aligned, AlignUp, Needed;
    WritePosValid(g, free, slots);
    NeededFacts(g, allowSplit, WritePos(g, free, slots), s);
  }
}
