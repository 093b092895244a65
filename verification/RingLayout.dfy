// The in-band layout of a no-split / allow-split ring buffer: slots (header plus
// payload, or a dummy that pads to the end of the storage) tile the used region
// that runs circularly from the free pointer to the write pointer.
module RingLayout {
  import opened Bytes

  const HEADER_SIZE: nat := 8

  // The storage size in bytes and the port's byte alignment (4 on the ESP8266).
  datatype Geometry = Geometry(size: nat, align: nat)

  predicate IsAlignment(a: nat) {
    a == 4 || a == 8
  }

  predicate Aligned(a: nat, x: int)
    requires IsAlignment(a)
  {
    if a == 8 then x % 8 == 0 else x % 4 == 0
  }

  function AlignUp(a: nat, x: nat): (r: nat)
    requires IsAlignment(a)
    ensures x <= r < x + a && Aligned(a, r)
  {
    if a == 8 then (x + 7) / 8 * 8 else (x + 3) / 4 * 4
  }

  // ---------- alignment arithmetic ----------

  lemma AlignedConsts(a: nat)
    requires IsAlignment(a)
    ensures Aligned(a, 0) && Aligned(a, HEADER_SIZE) && Aligned(a, 2 * HEADER_SIZE) && Aligned(a, a)
  {
  }

  lemma AlignedSum(a: nat, x: int, y: int)
    requires IsAlignment(a) && Aligned(a, x) && Aligned(a, y)
    ensures Aligned(a, x + y) && Aligned(a, x - y)
  {
    if a == 8 {
      AlignedSum8(x, y);
    } else {
      AlignedSum4(x, y);
    }
  }

  lemma AlignedSum8(x: int, y: int)
    requires x % 8 == 0 && y % 8 == 0
    ensures (x + y) % 8 == 0 && (x - y) % 8 == 0
  {
  }

  lemma AlignedSum4(x: int, y: int)
    requires x % 4 == 0 && y % 4 == 0
    ensures (x + y) % 4 == 0 && (x - y) % 4 == 0
  {
  }

  lemma AlignedGap(a: nat, x: int, y: int)
    requires IsAlignment(a) && Aligned(a, x) && Aligned(a, y) && x < y
    ensures x + a <= y
  {
  }

  // Removing an aligned prefix commutes with rounding up.
  lemma AlignSub(a: nat, len: nat, x: nat)
    requires IsAlignment(a) && Aligned(a, x) && x < AlignUp(a, len)
    ensures x < len
    ensures AlignUp(a, x) == x && AlignUp(a, len - x) == AlignUp(a, len) - x
  {
    assert x < len;
    if a == 8 {
      assert (len - x + 7) / 8 == (len + 7) / 8 - x / 8;
    } else {
      assert (len - x + 3) / 4 == (len + 3) / 4 - x / 4;
    }
  }

  lemma HalfRoundedUp(a: nat, size: nat)
    requires IsAlignment(a) && Aligned(a, size)
    ensures size <= 2 * AlignUp(a, size / 2) <= size + a
  {
    if a == 8 {
      HalfRoundedUp8(size / 8, size);
    } else {
      HalfRoundedUp4(size / 4, size);
    }
  }

  lemma HalfRoundedUp8(k: nat, size: nat)
    requires size == 8 * k
    ensures size <= 2 * ((size / 2 + 7) / 8 * 8) <= size + 8
  {
    assert size / 2 == 4 * k;
    assert (4 * k + 7) / 8 == (k + 1) / 2;
  }

  lemma HalfRoundedUp4(k: nat, size: nat)
    requires size == 4 * k
    ensures size <= 2 * ((size / 2 + 3) / 4 * 4) <= size + 4
  {
    assert size / 2 == 2 * k;
    assert (2 * k + 3) / 4 == (k + 1) / 2;
  }

  predicate GeometryOk(g: Geometry) {
    IsAlignment(g.align) && Aligned(g.align, g.size) && HEADER_SIZE <= g.size < 0x8000_0000
  }

  // ---------- headers in the byte storage ----------

  datatype Header = Header(len: nat, isFree: bool, isDummy: bool, isSplit: bool)

  function FlagByte(h: Header): byte {
    (if h.isFree then 1 else 0) + (if h.isDummy then 2 else 0) + (if h.isSplit then 4 else 0)
  }

  function EncodeHeader(h: Header): (s: seq<byte>)
    requires h.len < 0x1_0000_0000
    ensures |s| == HEADER_SIZE
  {
    EncodeWord(h.len) + [FlagByte(h), 0, 0, 0]
  }

  function DecodeHeader(s: seq<byte>): (h: Header)
    requires |s| == HEADER_SIZE
    ensures h.len < 0x1_0000_0000
  {
    Header(DecodeWord(s[..4]), s[4] % 2 == 1, s[4] / 2 % 2 == 1, s[4] / 4 % 2 == 1)
  }

  lemma HeaderRoundTrip(h: Header)
    requires h.len < 0x1_0000_0000
    ensures DecodeHeader(EncodeHeader(h)) == h
  {
    WordRoundTrip(h.len);
    assert EncodeHeader(h)[..4] == EncodeWord(h.len);
  }

  // The length is the first word, lowest byte first; the flags are the lowest three bits of the
  // second: 1 for free, 2 for dummy data, 4 for split.
  lemma HeaderLayout(h: Header)
    requires h.len < 0x1_0000_0000
    ensures var s := EncodeHeader(h);
      && WordAt(s, 0, h.len)
      && WordAt(s, 4, (if h.isFree then 1 else 0) + (if h.isDummy then 2 else 0) + (if h.isSplit then 4 else 0))
  {
    var s := EncodeHeader(h);
    assert s[0..4] == EncodeWord(h.len);
    WordLayout(s, 0, h.len);
  }

  // ---------- slots ----------

  datatype Slot = Slot(pos: nat, dummy: bool, split: bool, freed: bool, data: seq<byte>)

  // One past the last byte the slot's header and padded payload occupy.
  function EndPos(g: Geometry, s: Slot): nat
    requires GeometryOk(g)
  {
    if s.dummy then g.size else s.pos + HEADER_SIZE + AlignUp(g.align, |s.data|)
  }

  // Where the following header goes: a tail too short for a header is skipped.
  function NextPos(g: Geometry, s: Slot): nat
    requires GeometryOk(g)
  {
    if g.size - EndPos(g, s) < HEADER_SIZE then 0 else EndPos(g, s)
  }

  // The bytes the slot keeps from other slots, a skipped tail included.
  function Span(g: Geometry, s: Slot): int
    requires GeometryOk(g)
  {
    (if g.size - EndPos(g, s) < HEADER_SIZE then g.size else EndPos(g, s)) - s.pos
  }

  predicate Placed(g: Geometry, s: Slot)
    requires GeometryOk(g)
  {
    && Aligned(g.align, s.pos)
    && s.pos + HEADER_SIZE <= EndPos(g, s) <= g.size
    && (s.dummy ==> s.data == [] && !s.split)
  }

  // Circular distance from one storage position to another.
  function Dist(g: Geometry, from: nat, p: nat): (d: nat)
    requires from < g.size && p < g.size
    ensures d < g.size
  {
    if p >= from then p - from else p + g.size - from
  }

  function Used(g: Geometry, free: nat, slots: seq<Slot>): int
    requires GeometryOk(g) && free < g.size
    requires forall i :: 0 <= i < |slots| ==> Placed(g, slots[i])
  {
    if slots == [] then 0
    else assert Placed(g, slots[|slots| - 1]); Dist(g, free, slots[|slots| - 1].pos) + Span(g, slots[|slots| - 1])
  }

  function WritePos(g: Geometry, free: nat, slots: seq<Slot>): nat
    requires GeometryOk(g)
  {
    if slots == [] then free else NextPos(g, slots[|slots| - 1])
  }

  // The position of the i-th slot, or of the next one to be written.
  function PosOf(g: Geometry, free: nat, slots: seq<Slot>, i: nat): nat
    requires GeometryOk(g) && i <= |slots|
  {
    if i < |slots| then slots[i].pos else WritePos(g, free, slots)
  }

  predicate ValidPos(g: Geometry, p: nat)
    requires GeometryOk(g)
  {
    Aligned(g.align, p) && p + HEADER_SIZE <= g.size
  }

  // The slots lie end to end from the free position, in order, within one lap.
  ghost predicate Tiled(g: Geometry, free: nat, slots: seq<Slot>)
    requires GeometryOk(g)
  {
    && ValidPos(g, free)
    && (forall i :: 0 <= i < |slots| ==> Placed(g, slots[i]))
    && (slots != [] ==> slots[0].pos == free)
    && (forall i :: 0 <= i < |slots| - 1 ==> slots[i + 1].pos == NextPos(g, slots[i]))
    && (forall i, j :: 0 <= i < j < |slots| ==>
          Dist(g, free, slots[i].pos) + Span(g, slots[i]) <= Dist(g, free, slots[j].pos))
    && Used(g, free, slots) <= g.size
  }

  function HeaderOf(s: Slot): Header {
    Header(|s.data|, s.freed, s.dummy, s.split)
  }

  predicate Stored(mem: seq<byte>, s: Slot) {
    && s.pos + HEADER_SIZE + |s.data| <= |mem|
    && DecodeHeader(mem[s.pos..s.pos + HEADER_SIZE]) == HeaderOf(s)
    && mem[s.pos + HEADER_SIZE..s.pos + HEADER_SIZE + |s.data|] == s.data
  }

  // The mutable fields of the C structure.
  datatype Image = Image(mem: seq<byte>, free: nat, read: nat, write: nat, full: bool, waiting: int)

  function CountParts(slots: seq<Slot>): (n: nat) {
    if slots == [] then 0 else (if slots[0].dummy then 0 else 1) + CountParts(slots[1..])
  }

  // The representation invariant: `slots` is the content between the free and the
  // write pointer, of which the first r have been passed by the read pointer.
  ghost predicate Layout(g: Geometry, im: Image, slots: seq<Slot>, r: nat)
    requires GeometryOk(g)
  {
    && |im.mem| == g.size
    && Tiled(g, im.free, slots)
    && r <= |slots|
    && im.write == WritePos(g, im.free, slots)
    && im.read == PosOf(g, im.free, slots, r)
    && im.full == (Used(g, im.free, slots) == g.size)
    && im.waiting == CountParts(slots[r..])
    && (forall i :: 0 <= i < |slots| ==> Stored(im.mem, slots[i]))
    && (forall i :: r <= i < |slots| ==> !slots[i].freed)
  }

  // ---------- basic facts ----------

  lemma NextPosValid(g: Geometry, s: Slot)
    requires GeometryOk(g) && Placed(g, s)
    ensures ValidPos(g, NextPos(g, s))
    ensures NextPos(g, s) == if s.pos + Span(g, s) >= g.size then 0 else s.pos + Span(g, s)
    ensures Span(g, s) >= HEADER_SIZE
  {
    hide Aligned, AlignUp;
    AlignedConsts(g.align);
    AlignedSum(g.align, s.pos, HEADER_SIZE);
    AlignedSum(g.align, s.pos + HEADER_SIZE, AlignUp(g.align, |s.data|));
  }

  lemma WritePosValid(g: Geometry, free: nat, slots: seq<Slot>)
    requires GeometryOk(g) && Tiled(g, free, slots)
    ensures ValidPos(g, WritePos(g, free, slots))
    ensures slots == [] <==> Used(g, free, slots) == 0
    ensures slots != [] ==> Used(g, free, slots) >= HEADER_SIZE
    ensures WritePos(g, free, slots) ==
      (var e := free + Used(g, free, slots); if e >= g.size then e - g.size else e)
  {
    hide Aligned, AlignUp;
    if slots != [] {
      NextPosValid(g, slots[|slots| - 1]);
    }
  }

  lemma PosBounds(g: Geometry, free: nat, slots: seq<Slot>, i: nat)
    requires GeometryOk(g) && Tiled(g, free, slots) && i <= |slots|
    ensures ValidPos(g, PosOf(g, free, slots, i))
    ensures i < |slots| ==> Dist(g, free, slots[i].pos) + Span(g, slots[i]) <= Used(g, free, slots)
  {
    WritePosValid(g, free, slots);
  }

  // Two positions of the layout coincide only at the two ends of a full buffer.
  lemma PosInjective(g: Geometry, free: nat, slots: seq<Slot>, i: nat, j: nat)
    requires GeometryOk(g) && Tiled(g, free, slots) && i < j <= |slots|
    requires PosOf(g, free, slots, i) == PosOf(g, free, slots, j)
    ensures i == 0 && j == |slots| && Used(g, free, slots) == g.size
  {
    WritePosValid(g, free, slots);
    PosBounds(g, free, slots, i);
  }

  // The bytes of two different slots never overlap.
  lemma SlotsDisjoint(g: Geometry, free: nat, slots: seq<Slot>, i: nat, j: nat)
    requires GeometryOk(g) && Tiled(g, free, slots) && i < |slots| && j < |slots| && i != j
    ensures EndPos(g, slots[i]) <= slots[j].pos || EndPos(g, slots[j]) <= slots[i].pos
  {
    PosBounds(g, free, slots, i);
    PosBounds(g, free, slots, j);
  }

  lemma CountPartsConcat(a: seq<Slot>, b: seq<Slot>)
    ensures CountParts(a + b) == CountParts(a) + CountParts(b)
  {
    if a == [] {
      assert a + b == b;
    } else {
      assert (a + b)[1..] == a[1..] + b;
      CountPartsConcat(a[1..], b);
    }
  }

  lemma CountPartsAppend(slots: seq<Slot>, s: Slot, r: nat)
    requires r <= |slots|
    ensures CountParts((slots + [s])[r..]) == CountParts(slots[r..]) + if s.dummy then 0 else 1
  {
    assert (slots + [s])[r..] == slots[r..] + [s];
    CountPartsConcat(slots[r..], [s]);
    assert CountParts([s]) == if s.dummy then 0 else 1;
  }

  lemma StoredFrame(mem: seq<byte>, mem': seq<byte>, s: Slot, lo: nat, hi: nat)
    requires Stored(mem, s) && |mem'| == |mem| && lo <= hi <= |mem|
    requires forall i :: 0 <= i < lo || hi <= i < |mem| ==> mem'[i] == mem[i]
    requires s.pos + HEADER_SIZE + |s.data| <= lo || hi <= s.pos
    ensures Stored(mem', s)
  {
    assert mem'[s.pos..s.pos + HEADER_SIZE] == mem[s.pos..s.pos + HEADER_SIZE];
    assert mem'[s.pos + HEADER_SIZE..s.pos + HEADER_SIZE + |s.data|]
        == mem[s.pos + HEADER_SIZE..s.pos + HEADER_SIZE + |s.data|];
  }

  // Writing a header and a payload stores the slot.
  lemma StoredAfterWrite(mem: seq<byte>, s: Slot)
    requires s.pos + HEADER_SIZE + |s.data| <= |mem| < 0x1_0000_0000
    ensures Stored(Splice(Splice(mem, s.pos, EncodeHeader(HeaderOf(s))), s.pos + HEADER_SIZE, s.data), s)
  {
    HeaderRoundTrip(HeaderOf(s));
    var m1 := Splice(mem, s.pos, EncodeHeader(HeaderOf(s)));
    var m2 := Splice(m1, s.pos + HEADER_SIZE, s.data);
    assert m2[s.pos..s.pos + HEADER_SIZE] == m1[s.pos..s.pos + HEADER_SIZE];
  }

  // ---------- appending a slot ----------

  lemma TiledAppend(g: Geometry, free: nat, slots: seq<Slot>, s: Slot)
    requires GeometryOk(g) && Tiled(g, free, slots)
    requires Placed(g, s) && s.pos == WritePos(g, free, slots)
    requires Used(g, free, slots) < g.size
    requires Used(g, free, slots) + Span(g, s) <= g.size
    ensures Tiled(g, free, slots + [s])
    ensures Used(g, free, slots + [s]) == Used(g, free, slots) + Span(g, s)
    ensures WritePos(g, free, slots + [s]) == NextPos(g, s)
  {
    hide Aligned, AlignUp;
    WritePosValid(g, free, slots);
    assert Dist(g, free, s.pos) == Used(g, free, slots);
    forall i | 0 <= i < |slots|
      ensures Dist(g, free, slots[i].pos) + Span(g, slots[i]) <= Dist(g, free, s.pos)
    {
      PosBounds(g, free, slots, i);
    }
  }

  // A write at the write pointer that stays inside the new slot disturbs no other slot.
  lemma StoredAppend(g: Geometry, free: nat, slots: seq<Slot>, s: Slot, mem: seq<byte>, mem': seq<byte>)
    requires GeometryOk(g) && Tiled(g, free, slots + [s])
    requires |mem| == |mem'| == g.size
    requires forall i :: 0 <= i < s.pos || EndPos(g, s) <= i < g.size ==> mem'[i] == mem[i]
    requires forall i :: 0 <= i < |slots| ==> Stored(mem, slots[i])
    ensures forall i :: 0 <= i < |slots| ==> Stored(mem', slots[i])
  {
    hide Aligned;
    var all := slots + [s];
    assert Placed(g, all[|slots|]);
    forall i | 0 <= i < |slots|
      ensures Stored(mem', slots[i])
    {
      assert Placed(g, all[i]) && all[i] == slots[i];
      SlotsDisjoint(g, free, all, i, |slots|);
      StoredFrame(mem, mem', slots[i], s.pos, EndPos(g, s));
    }
  }

  // Placing slot s at the write pointer keeps the layout; nothing that was stored moves.
  lemma LayoutAppend(g: Geometry, im: Image, slots: seq<Slot>, r: nat, s: Slot, im': Image)
    requires GeometryOk(g) && Layout(g, im, slots, r)
    requires Placed(g, s) && s.pos == im.write && !s.freed
    requires Used(g, im.free, slots) < g.size
    requires Used(g, im.free, slots) + Span(g, s) <= g.size
    requires |im'.mem| == g.size && Stored(im'.mem, s)
    requires forall i :: 0 <= i < s.pos || EndPos(g, s) <= i < g.size ==> im'.mem[i] == im.mem[i]
    requires im' == Image(im'.mem, im.free, im.read, NextPos(g, s), Used(g, im.free, slots) + Span(g, s) == g.size,
                          im.waiting + (if s.dummy then 0 else 1))
    ensures Layout(g, im', slots + [s], r)
  {
    hide Aligned, AlignUp, Span, NextPos, EndPos, Tiled, Placed, Dist, Stored, CountParts, Used, WritePos;
    TiledAppend(g, im.free, slots, s);
    StoredAppend(g, im.free, slots, s, im.mem, im'.mem);
    CountPartsAppend(slots, s, r);
  }

  // ---------- reading, marking and dropping slots ----------

  lemma LayoutAdvance(g: Geometry, im: Image, slots: seq<Slot>, r: nat)
    requires GeometryOk(g) && Layout(g, im, slots, r) && r < |slots|
    ensures Layout(g, im.(read := PosOf(g, im.free, slots, r + 1),
                          waiting := im.waiting - if slots[r].dummy then 0 else 1), slots, r + 1)
  {
    hide Tiled, Used, WritePos, Stored;
    assert slots[r..][0] == slots[r] && slots[r..][1..] == slots[r + 1..];
  }

  // The slot with its free flag set (and its split flag cleared).
  function Marked(s: Slot): Slot {
    s.(freed := true, split := false)
  }

  ghost predicate SameShape(a: seq<Slot>, b: seq<Slot>) {
    |a| == |b| && forall i :: 0 <= i < |a| ==>
      a[i].pos == b[i].pos && a[i].dummy == b[i].dummy && a[i].data == b[i].data && (b[i].split ==> a[i].split)
  }

  lemma TiledSameShape(g: Geometry, free: nat, a: seq<Slot>, b: seq<Slot>)
    requires GeometryOk(g) && Tiled(g, free, a) && SameShape(a, b)
    ensures Tiled(g, free, b)
    ensures Used(g, free, b) == Used(g, free, a) && WritePos(g, free, b) == WritePos(g, free, a)
  {
    hide Aligned, AlignUp, Dist;
    forall i | 0 <= i < |a|
      ensures Span(g, b[i]) == Span(g, a[i]) && NextPos(g, b[i]) == NextPos(g, a[i]) && Placed(g, b[i])
    {
      assert Placed(g, a[i]);
    }
  }

  lemma StoredMark(g: Geometry, free: nat, a: seq<Slot>, b: seq<Slot>, mem: seq<byte>, k: nat)
    requires GeometryOk(g) && Tiled(g, free, a) && k < |a| && |mem| == g.size
    requires b == a[k := Marked(a[k])] && a[k].pos + HEADER_SIZE <= g.size
    requires forall i :: 0 <= i < |a| ==> Stored(mem, a[i])
    ensures forall i :: 0 <= i < |a| ==> Stored(Splice(mem, a[k].pos, EncodeHeader(HeaderOf(b[k]))), b[i])
  {
    hide Aligned;
    HeaderRoundTrip(HeaderOf(b[k]));
    var mem' := Splice(mem, a[k].pos, EncodeHeader(HeaderOf(b[k])));
    forall i | 0 <= i < |a|
      ensures Stored(mem', b[i])
    {
      if i == k {
        var lo, hi := a[k].pos + HEADER_SIZE, a[k].pos + HEADER_SIZE + |a[k].data|;
        assert mem'[lo..hi] == mem[lo..hi];
      } else {
        StoredMarkOther(g, free, a, mem, k, mem', i);
      }
    }
  }

  lemma StoredMarkOther(g: Geometry, free: nat, a: seq<Slot>, mem: seq<byte>, k: nat, mem': seq<byte>, i: nat)
    requires GeometryOk(g) && Tiled(g, free, a) && k < |a| && i < |a| && i != k
    requires Stored(mem, a[i]) && |mem| == |mem'| == g.size && a[k].pos + HEADER_SIZE <= g.size
    requires forall j :: 0 <= j < a[k].pos || a[k].pos + HEADER_SIZE <= j < g.size ==> mem'[j] == mem[j]
    ensures Stored(mem', a[i])
  {
    assert Placed(g, a[i]) && Placed(g, a[k]);
    SlotsDisjoint(g, free, a, i, k);
    StoredFrame(mem, mem', a[i], a[k].pos, a[k].pos + HEADER_SIZE);
  }

  lemma CountPartsMark(slots: seq<Slot>, k: nat, r: nat)
    requires k < r <= |slots|
    ensures slots[k := Marked(slots[k])][r..] == slots[r..]
  {
  }

  lemma LayoutMark(g: Geometry, im: Image, slots: seq<Slot>, r: nat, k: nat, im': Image)
    requires GeometryOk(g) && Layout(g, im, slots, r) && k < r
    requires slots[k].pos + HEADER_SIZE <= g.size
    requires im' == im.(mem := Splice(im.mem, slots[k].pos, EncodeHeader(HeaderOf(Marked(slots[k])))))
    ensures Layout(g, im', slots[k := Marked(slots[k])], r)
  {
    hide Tiled, Used, WritePos, Stored, CountParts;
    TiledSameShape(g, im.free, slots, slots[k := Marked(slots[k])]);
    StoredMark(g, im.free, slots, slots[k := Marked(slots[k])], im.mem, k);
    CountPartsMark(slots, k, r);
  }

  // Distances measured from a later slot are shorter by the distance to that slot.
  lemma DistShift(g: Geometry, free: nat, slots: seq<Slot>, k: nat, j: nat)
    requires GeometryOk(g) && Tiled(g, free, slots) && k <= j < |slots|
    ensures slots[k].pos < g.size && slots[j].pos < g.size
    ensures Dist(g, slots[k].pos, slots[j].pos) == Dist(g, free, slots[j].pos) - Dist(g, free, slots[k].pos)
  {
    hide Aligned, AlignUp;
    assert Placed(g, slots[k]) && Placed(g, slots[j]);
    NextPosValid(g, slots[k]);
    assert k < j ==> Dist(g, free, slots[k].pos) + Span(g, slots[k]) <= Dist(g, free, slots[j].pos);
  }

  lemma TiledDrop(g: Geometry, free: nat, slots: seq<Slot>, k: nat)
    requires GeometryOk(g) && Tiled(g, free, slots) && 0 < k <= |slots|
    ensures Tiled(g, PosOf(g, free, slots, k), slots[k..])
    ensures WritePos(g, PosOf(g, free, slots, k), slots[k..]) == WritePos(g, free, slots)
    ensures Used(g, PosOf(g, free, slots, k), slots[k..]) < g.size
  {
    hide Aligned, AlignUp;
    PosBounds(g, free, slots, k);
    if k < |slots| {
      TiledDropSome(g, free, slots, k);
    }
  }

  lemma TiledDropSome(g: Geometry, free: nat, slots: seq<Slot>, k: nat)
    requires GeometryOk(g) && Tiled(g, free, slots) && 0 < k < |slots|
    ensures Tiled(g, slots[k].pos, slots[k..])
    ensures Used(g, slots[k].pos, slots[k..]) < g.size
  {
    hide Aligned, AlignUp, Span, NextPos, Dist;
    PosBounds(g, free, slots, k);
    var b := slots[k..];
    forall j | 0 <= j < |b|
      ensures b[j] == slots[k + j] && Placed(g, b[j]) && b[j].pos < g.size
      ensures Dist(g, slots[k].pos, b[j].pos) == Dist(g, free, slots[k + j].pos) - Dist(g, free, slots[k].pos)
    {
      DistShift(g, free, slots, k, k + j);
    }
    assert b[|b| - 1] == slots[|slots| - 1];
    NextPosValid(g, slots[0]);
    assert Dist(g, free, slots[0].pos) + Span(g, slots[0]) <= Dist(g, free, slots[k].pos);
  }

  // Moving the free pointer past k slots that were read leaves the layout of the rest;
  // the bytes of the dropped slots no longer matter.
  lemma LayoutDrop(g: Geometry, im: Image, slots: seq<Slot>, r: nat, k: nat, im': Image)
    requires GeometryOk(g) && Layout(g, im, slots, r) && 0 < k <= r
    requires |im'.mem| == g.size && (forall i :: k <= i < |slots| ==> Stored(im'.mem, slots[i]))
    requires im' == im.(mem := im'.mem, free := PosOf(g, im.free, slots, k), full := false)
    ensures Layout(g, im', slots[k..], r - k)
  {
    hide Tiled, Used, WritePos, Stored, CountParts;
    TiledDrop(g, im.free, slots, k);
    assert slots[k..][r - k..] == slots[r..];
    forall i | 0 <= i < |slots[k..]|
      ensures Stored(im'.mem, slots[k..][i])
    {
      assert slots[k..][i] == slots[i + k];
    }
    forall i | r - k <= i < |slots[k..]|
      ensures !slots[k..][i].freed
    {
      assert slots[k..][i] == slots[i + k];
    }
  }
}
