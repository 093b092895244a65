// The no-split and allow-split ring buffers: one byte array, three positions, a full
// flag and a count, proved against a first-in first-out queue of items whose payloads
// stay in place until the application returns them.
module ItemRing {
  import opened Bytes
  import opened RingLayout
  import opened RingItems

  // Facts about the slots that the byte layout alone does not give: sizes, what follows
  // a dummy, and where the second part of a split item lies.
  predicate SlotShape(slots: seq<Slot>, i: nat, maxItemSize: int)
    requires i < |slots|
  {
    && |slots[i].data| <= maxItemSize
    && (slots[i].dummy ==> i + 1 < |slots| && !slots[i + 1].dummy)
    && (slots[i].split ==>
          i + 1 < |slots| && !slots[i + 1].dummy && !slots[i + 1].split && slots[i + 1].pos == 0 < slots[i].pos)
  }

  ghost predicate Shape(slots: seq<Slot>, maxItemSize: int) {
    forall i :: 0 <= i < |slots| ==> SlotShape(slots, i, maxItemSize)
  }

  lemma ShapeConcat(a: seq<Slot>, b: seq<Slot>, maxItemSize: int)
    requires Shape(a, maxItemSize) && Shape(b, maxItemSize)
    ensures Shape(a + b, maxItemSize)
  {
    forall i | 0 <= i < |a + b|
      ensures SlotShape(a + b, i, maxItemSize)
    {
      if i < |a| {
        assert SlotShape(a, i, maxItemSize);
      } else {
        assert SlotShape(b, i - |a|, maxItemSize);
      }
    }
  }

  lemma ShapeAppend(g: Geometry, allowSplit: bool, slots: seq<Slot>, pos: nat, item: seq<byte>, maxItemSize: nat)
    requires GeometryOk(g) && ValidPos(g, pos) && Shape(slots, maxItemSize) && |item| <= maxItemSize
    requires pos != 0 || g.size - pos >= AlignUp(g.align, |item|) + HEADER_SIZE
    ensures Shape(slots + NewSlots(g, allowSplit, pos, item), maxItemSize)
  {
    hide Aligned, AlignUp;
    var ns := NewSlots(g, allowSplit, pos, item);
    if HEADER_SIZE < g.size - pos < AlignUp(g.align, |item|) + HEADER_SIZE {
      SplitLeavesRest(g, pos, |item|);
    }
    assert SlotShape(ns, 0, maxItemSize);
    assert |ns| == 2 ==> SlotShape(ns, 1, maxItemSize);
    ShapeConcat(slots, ns, maxItemSize);
  }

  // The maximum item size as the constructor computes it, in unsigned 32-bit arithmetic.
  function Advertised(g: Geometry, allowSplit: bool): nat
    requires IsAlignment(g.align)
  {
    var n := if allowSplit then g.size - 2 * HEADER_SIZE else AlignUp(g.align, g.size / 2) - HEADER_SIZE;
    if n < 0 then n + 0x1_0000_0000 else n
  }

  // The storage is large enough for the headers the maximum subtracts.
  predicate RoomForHeaders(g: Geometry, allowSplit: bool) {
    if allowSplit then 2 * HEADER_SIZE <= g.size else HEADER_SIZE < g.size || (g.size == HEADER_SIZE && g.align == 8)
  }

  // Every size within the advertised maximum fits the storage if and only if that is so;
  // otherwise sizes beyond the whole storage pass the test against the maximum.
  lemma AdvertisedFits(g: Geometry, allowSplit: bool)
    requires IsAlignment(g.align) && Aligned(g.align, g.size) && g.size < 0x8000_0000
    ensures (forall len: nat :: len <= Advertised(g, allowSplit) ==> AlignUp(g.align, len) + HEADER_SIZE <= g.size)
      <==> RoomForHeaders(g, allowSplit)
    ensures !RoomForHeaders(g, allowSplit) ==> g.size < Advertised(g, allowSplit)
  {
    if RoomForHeaders(g, allowSplit) {
      forall len: nat | len <= Advertised(g, allowSplit)
        ensures AlignUp(g.align, len) + HEADER_SIZE <= g.size
      {
        AdvertisedFitsAt(g, allowSplit, len);
      }
    } else {
      assert AlignUp(g.align, g.size) >= g.size;
    }
  }

  lemma AdvertisedFitsAt(g: Geometry, allowSplit: bool, len: nat)
    requires IsAlignment(g.align) && Aligned(g.align, g.size) && RoomForHeaders(g, allowSplit)
      && len <= Advertised(g, allowSplit)
    ensures AlignUp(g.align, len) + HEADER_SIZE <= g.size
  {
  }

  class RingBuffer {
    const size: nat
    const align: nat
    const allowSplit: bool
    const maxItemSize: nat
    const buf: array<byte>
    var write: nat
    var read: nat
    var free: nat
    var full: bool
    var itemsWaiting: int

    ghost var slots: seq<Slot>        // content from the free to the write pointer
    ghost var passed: nat             // how many of them the read pointer has passed
    ghost var taken: seq<Part>        // every part received so far
    ghost var sent: seq<seq<byte>>    // every item sent so far

    function G(): Geometry {
      Geometry(size, align)
    }

    ghost function Snapshot(): Image
      reads this, buf
    {
      Image(buf[..], free, read, write, full, itemsWaiting)
    }

    ghost predicate Valid()
      reads this, buf
    {
      && GeometryOk(G()) && buf.Length == size && maxItemSize == MaxItem(G(), allowSplit)
      && Layout(G(), Snapshot(), slots, passed)
      && Shape(slots, maxItemSize)
      && Paired(taken + Waiting())
      && Items(taken + Waiting()) == sent
      && (!allowSplit ==> Whole(taken + Waiting()))
    }

    lemma ValidQueue()
      requires Valid()
      ensures passed <= |slots| && Waiting() == Parts(slots[passed..]) && Outstanding() == Held(slots, passed)
      ensures Paired(taken + Waiting()) && Items(taken + Waiting()) == sent
      ensures !allowSplit ==> Whole(taken + Waiting())
      ensures Shape(slots, maxItemSize)
    {
      hide Layout, Shape, Paired, Items, Whole;
      LayoutStored(G(), Snapshot(), slots, passed);
    }

    // The parts that can still be received, oldest first.
    ghost function Waiting(): seq<Part>
      reads this
    {
      if passed <= |slots| then Parts(slots[passed..]) else []
    }

    // Received and not yet returned: pointer |-> payload.
    ghost function Outstanding(): map<nat, seq<byte>>
      reads this
    {
      if passed <= |slots| then Held(slots, passed) else map[]
    }

    // A pointer handed out and not returned still points at the bytes that were sent.
    lemma HeldBytes(item: nat)
      requires Valid() && item in Outstanding()
      ensures var data := Outstanding()[item]; item + |data| <= size && buf[item..item + |data|] == data
    {
      hide Aligned, AlignUp, Layout, Held, Shape, Items, Paired, Tiled, MaxItem;
      LayoutStored(G(), Snapshot(), slots, passed);
      var k := HeldIndex(slots, passed, item);
      StoredBytes(buf[..], slots[k]);
    }

    // Any size is accepted; the buffer is sound unless the unsigned maximum wraps around.
    constructor (bufferSize: nat, align: nat, allowSplit: bool)
      requires IsAlignment(align) && AlignUp(align, bufferSize) < 0x8000_0000
      ensures size == AlignUp(align, bufferSize) && this.align == align && this.allowSplit == allowSplit
      ensures fresh(buf) && buf.Length == size && maxItemSize == Advertised(G(), allowSplit)
      ensures Valid() <==> RoomForHeaders(G(), allowSplit)
      ensures sent == [] && taken == [] && Outstanding() == map[] && !full && free == write == 0
      ensures slots == [] && passed == 0
    {
      var g := Geometry(AlignUp(align, bufferSize), align);
      size := g.size;
      this.align := align;
      this.allowSplit := allowSplit;
      maxItemSize := Advertised(g, allowSplit);
      buf := new byte[g.size];
      write, read, free, full, itemsWaiting := 0, 0, 0, false, 0;
      slots, passed, taken, sent := [], 0, [], [];
      new;
      AlignedConsts(align);
      if GeometryOk(g) {
        MaxItemUnderflows(g, allowSplit);
      }
    }

    // ---------- writing into the storage ----------

    method PutHeader(p: nat, h: Header)
      requires p + HEADER_SIZE <= buf.Length && h.len < 0x1_0000_0000
      modifies buf
      ensures buf[..] == Splice(old(buf[..]), p, EncodeHeader(h))
    {
      CopyBytes(p, EncodeHeader(h));
    }

    // memcpy into the storage.
    method CopyBytes(p: nat, data: seq<byte>)
      requires p + |data| <= buf.Length
      modifies buf
      ensures buf[..] == Splice(old(buf[..]), p, data)
    {
      forall i | 0 <= i < |data| {
        buf[p + i] := data[i];
      }
    }

    method HeaderAt(p: nat) returns (h: Header)
      requires p + HEADER_SIZE <= buf.Length
      ensures h == DecodeHeader(buf[p..p + HEADER_SIZE])
    {
      h := DecodeHeader(buf[p..p + HEADER_SIZE]);
    }

    // ---------- sending ----------

    method GetFreeSize() returns (n: nat)
      requires Valid()
      ensures n == size - Used(G(), free, slots)
    {
      hide Aligned, AlignUp;
      WritePosValid(G(), free, slots);
      if full {
        n := 0;
      } else {
        var d: int := free - write;
        if d <= 0 {
          d := d + size;
        }
        n := d;
      }
    }

    method CheckItemFits(itemSize: nat) returns (fits: bool)
      requires IsAlignment(align)
      ensures Valid() && itemSize <= maxItemSize ==>
        ValidPos(G(), write) && (fits <==> HasRoom(G(), allowSplit, free, slots, itemSize))
      ensures write == free ==> fits == !full
    {
      hide Aligned, AlignUp, Needed;
      if Valid() {
        FitsExact(G(), allowSplit, free, slots, itemSize);
        WritePosValid(G(), free, slots);
      }
      var total := AlignUp(align, itemSize) + HEADER_SIZE;
      if write == free {
        return !full;
      }
      if free > write {
        return total <= free - write;
      }
      if total <= size - write {
        return true;
      }
      if allowSplit {
        return total + HEADER_SIZE <= size - (write - free);
      } else {
        return total <= free;
      }
    }

    // Header, payload and pointer advance of one part; the full flag is left to the caller.
    method PutPart(data: seq<byte>, isSplit: bool)
      requires GeometryOk(G()) && buf.Length == size && ValidPos(G(), write)
      requires write + HEADER_SIZE + AlignUp(align, |data|) <= size
      modifies this`write, this`itemsWaiting, buf
      ensures Snapshot().(full := write == free)
        == PutImage(G(), old(Snapshot()), Slot(old(write), false, isSplit, false, data))
    {
      hide Aligned, AlignUp;
      PutHeader(write, Header(|data|, false, false, isSplit));
      write := write + HEADER_SIZE;
      CopyBytes(write, data);
      itemsWaiting := itemsWaiting + 1;
      write := write + AlignUp(align, |data|);
      if size - write < HEADER_SIZE {
        write := 0;
      }
    }

    // Marks the rest of the storage as dummy data and wraps the write pointer.
    method PutDummy()
      requires GeometryOk(G()) && buf.Length == size && ValidPos(G(), write)
      modifies this`write, buf
      ensures Snapshot().(full := write == free)
        == PutImage(G(), old(Snapshot()), Slot(old(write), true, false, false, []))
    {
      hide Aligned, AlignUp;
      PutHeader(write, Header(0, false, true, false));
      assert buf[..] == Splice(buf[..], write + HEADER_SIZE, []);
      write := 0;
    }

    method CopyItemNoSplit(item: seq<byte>)
      requires GeometryOk(G()) && buf.Length == size && ValidPos(G(), write) && !full && !allowSplit
      requires forall i :: 0 <= i < |NewSlots(G(), allowSplit, write, item)| ==>
        Fitting(G(), NewSlots(G(), allowSplit, write, item)[i])
      modifies this`write, this`itemsWaiting, this`full, buf
      ensures Snapshot() == CopyImage(G(), old(Snapshot()), NewSlots(G(), allowSplit, old(write), item))
    {
      hide Aligned, AlignUp;
      ghost var ns := NewSlots(G(), allowSplit, write, item);
      assert Fitting(G(), ns[0]) && Fitting(G(), ns[|ns| - 1]);
      var aligned := AlignUp(align, |item|);
      var remLen := size - write;
      if remLen < aligned + HEADER_SIZE {
        PutDummy();
      }
      AlignedConsts(align);
      PutPart(item, false);
      if write == free {
        full := true;
      }
    }

    method CopyItemAllowSplit(item: seq<byte>)
      requires GeometryOk(G()) && buf.Length == size && ValidPos(G(), write) && !full && allowSplit
      requires forall i :: 0 <= i < |NewSlots(G(), allowSplit, write, item)| ==>
        Fitting(G(), NewSlots(G(), allowSplit, write, item)[i])
      modifies this`write, this`itemsWaiting, this`full, buf
      ensures Snapshot() == CopyImage(G(), old(Snapshot()), NewSlots(G(), allowSplit, old(write), item))
    {
      hide Aligned, AlignUp, Splice, EncodeHeader;
      ghost var im, ns := Snapshot(), NewSlots(G(), allowSplit, write, item);
      assert Fitting(G(), ns[0]) && Fitting(G(), ns[|ns| - 1]);
      var rest := item;
      var aligned := AlignUp(align, |item|);
      var remLen := size - write;
      AlignedConsts(align);
      if remLen < aligned + HEADER_SIZE {
        remLen := remLen - HEADER_SIZE;
        if remLen > 0 {
          SplitLeavesRest(G(), write, |item|);
          PutPart(item[..remLen], true);
          rest := item[remLen..];
        } else {
          PutDummy();
        }
        assert write == 0 && Snapshot().(full := write == free) == PutImage(G(), im, ns[0]);
      }
      ghost var mid := Snapshot();
      assert Slot(write, false, false, false, rest) == ns[|ns| - 1];
      PutPart(rest, false);
      assert Snapshot().(full := write == free) == PutImage(G(), mid, ns[|ns| - 1]);
      if write == free {
        full := true;
      }
    }

    // ---------- the free-size queries ----------

    // What the queries make of a negative int compared with the unsigned maximum.
    function Limited(n: int): nat {
      if n < 0 || n > maxItemSize then maxItemSize else n
    }

    // A reported size is exact if the non-empty items a send accepts now are those up to it.
    ghost predicate ExactSize(n: nat)
      requires Valid()
      reads this, buf
    {
      forall s: nat :: 0 < s ==> (s <= maxItemSize && Room(s) <==> s <= n)
    }

    lemma RoomIsLargest(s: nat)
      requires Valid() && s <= maxItemSize
      ensures Room(s) <==> !full && s <= Largest(G(), allowSplit, free, write)
    {
      hide Aligned, AlignUp, Layout, Shape, Items, Paired, MaxItem, Largest;
      LayoutTiled(G(), Snapshot(), slots, passed);
      if full {
        FullHasNoRoom(G(), allowSplit, free, slots, s);
      } else {
        LargestExact(G(), allowSplit, free, slots, s);
      }
    }

    lemma QueryFacts()
      requires Valid()
      ensures free < size && write < size && free + HEADER_SIZE <= size && write + HEADER_SIZE <= size
      ensures !full && write == free ==> Largest(G(), allowSplit, free, write) >= maxItemSize
      ensures write > free ==> write >= HEADER_SIZE && !full
      ensures maxItemSize == MaxItem(G(), allowSplit)
    {
      hide Aligned, AlignUp, Layout, Shape, Items, Paired;
      LayoutTiled(G(), Snapshot(), slots, passed);
      WritePosValid(G(), free, slots);
      HalfFits(G(), write);
    }

    // prvGetCurMaxSizeNoSplit: exact unless less than a header is left between the write
    // and the free pointer; then it reports the maximum although nothing fits.
    method GetCurMaxSizeNoSplit() returns (n: nat)
      requires Valid() && !allowSplit
      ensures n <= maxItemSize
      ensures ExactSize(n) <==> full || maxItemSize == 0 || !(0 < free - write < HEADER_SIZE)
      ensures !full && 0 < free - write < HEADER_SIZE ==>
        n == maxItemSize && forall s: nat :: 0 < s <= maxItemSize ==> !Room(s)
    {
      hide Valid, Room, Aligned, AlignUp;
      QueryFacts();
      forall s: nat | 0 < s <= maxItemSize
        ensures Room(s) <==> !full && s <= Largest(G(), allowSplit, free, write)
      {
        RoomIsLargest(s);
      }
      if full {
        return 0;
      }
      var freeSize: int;
      if write < free {
        freeSize := free - write;
      } else {
        var size1, size2 := size - write, free;
        freeSize := if size1 > size2 then size1 else size2;
      }
      freeSize := freeSize - HEADER_SIZE;
      n := Limited(freeSize);
      if maxItemSize > 0 && 0 < free - write < HEADER_SIZE {
        assert !Room(maxItemSize);
      }
    }

    // prvGetCurMaxSizeAllowSplit: exact if the free space is one piece with room for a header,
    // or if it wraps and its front part has room for one.  Otherwise the query subtracts a
    // second header that no item would need, or reports the maximum because the difference is
    // negative, which is right only if the maximum happens to fit behind the write pointer.
    method GetCurMaxSizeAllowSplit() returns (n: nat)
      requires Valid() && allowSplit
      ensures n <= maxItemSize
      ensures ExactSize(n) <==>
        || full || maxItemSize == 0 || write == free
        || HEADER_SIZE <= free - write
        || (write > free && (HEADER_SIZE <= free || (free + (size - write) < 2 * HEADER_SIZE && write <= HEADER_SIZE)))
      ensures write > free && free < HEADER_SIZE && 2 * HEADER_SIZE <= free + (size - write) ==>
        ExactSize(n + HEADER_SIZE - free)
      ensures write > free && free + (size - write) < 2 * HEADER_SIZE ==> n == maxItemSize
    {
      hide Valid, Room, Aligned, AlignUp;
      QueryFacts();
      forall s: nat | 0 < s <= maxItemSize
        ensures Room(s) <==> !full && s <= Largest(G(), allowSplit, free, write)
      {
        RoomIsLargest(s);
      }
      if full {
        return 0;
      }
      var freeSize: int;
      if write == 0 && free == 0 {
        freeSize := size - HEADER_SIZE;
      } else if write < free {
        freeSize := (free - write) - HEADER_SIZE;
      } else {
        freeSize := free + (size - write) - (HEADER_SIZE * 2);
      }
      n := Limited(freeSize);
      if maxItemSize > 0 && write != free {
        assert Room(maxItemSize) <==> maxItemSize <= Largest(G(), allowSplit, free, write);
        if write > free && free < HEADER_SIZE && freeSize >= 0 {
          assert Room(n + 1);
        }
      }
    }

    ghost predicate Room(n: nat)
      requires Valid()
      reads this, buf
    {
      ValidPos(G(), write) && HasRoom(G(), allowSplit, free, slots, n)
    }

    // xRingbufferSend without blocking: one pass of its critical section.
    method Send(item: seq<byte>) returns (ok: bool)
      requires Valid()
      modifies this`write, this`itemsWaiting, this`full, this`slots, this`sent, buf
      ensures Valid()
      ensures ok <==> |item| <= maxItemSize && old(Room(|item|))
      ensures !ok ==> Snapshot() == old(Snapshot()) && slots == old(slots) && sent == old(sent)
      ensures ok ==> sent == old(sent) + [item]
      ensures ok ==> old(ValidPos(G(), write)) && slots == old(slots) + old(NewSlots(G(), allowSplit, write, item))
      ensures Outstanding() == old(Outstanding()) && old(Waiting()) <= Waiting()
      ensures forall i :: 0 <= i < |old(slots)| ==> Stored(buf[..], old(slots)[i])
    {
      hide Aligned, AlignUp, Layout, Shape, Tiled, Stored, CopyImage, NewSlots, HasRoom, MaxItem, Paired, Items;
      if |item| > maxItemSize {
        assert Layout(G(), Snapshot(), slots, passed);
        LayoutStored(G(), Snapshot(), slots, passed);
        return false;
      }
      var fits := CheckItemFits(|item|);
      LayoutStored(G(), Snapshot(), slots, passed);
      if !fits {
        return false;
      }
      ghost var ns := NewSlots(G(), allowSplit, write, item);
      CopyKeepsLayout(G(), allowSplit, Snapshot(), slots, passed, item);
      SendShape(item);
      if allowSplit {
        CopyItemAllowSplit(item);
      } else {
        CopyItemNoSplit(item);
      }
      LayoutStored(G(), Snapshot(), slots + ns, passed);
      NewSlotsCarryItem(G(), allowSplit, old(write), item);
      QueueGrows(slots, passed, taken, sent, ns, item);
      assert forall i :: 0 <= i < |slots| ==> (slots + ns)[i] == slots[i];
      WholeGrows(taken, Parts(slots[passed..]), Parts(ns));
      slots := slots + ns;
      sent := sent + [item];
      return true;
    }

    lemma SendShape(item: seq<byte>)
      requires Valid() && |item| <= maxItemSize && Room(|item|)
      ensures Shape(slots + NewSlots(G(), allowSplit, write, item), maxItemSize)
    {
      hide Aligned, AlignUp, Layout, HasRoom, NewSlots;
      WholeAtHead(G(), allowSplit, |item|);
      ShapeAppend(G(), allowSplit, slots, write, item, maxItemSize);
    }

    // ---------- receiving ----------

    method CheckItemAvail() returns (avail: bool)
      requires Valid()
      ensures avail <==> Waiting() != []
    {
      hide Aligned, AlignUp, Items, Paired, Shape, Stored;
      avail := itemsWaiting > 0 && (read != write || full);
      if itemsWaiting > 0 && read == write {
        assert slots[passed..] != [];
        PosInjective(G(), free, slots, passed, |slots|);
      }
    }

    // A dummy at the read pointer means the next part is at the start of the storage.
    method SkipDummy()
      requires Valid() && Waiting() != []
      modifies this`read, this`passed
      ensures Valid() && passed < |slots| && !slots[passed].dummy
      ensures Waiting() == old(Waiting()) && Outstanding() == old(Outstanding())
      ensures passed >= old(passed) && (old(passed) < |slots| && !slots[old(passed)].dummy ==> passed == old(passed))
    {
      hide Aligned, AlignUp, Layout, Items, Paired, Whole, Parts, Held, Shape, MaxItem;
      DummyFacts(G(), Snapshot(), slots, passed, maxItemSize);
      var h := HeaderAt(read);
      assert h.len <= maxItemSize || h.isDummy;
      if h.isDummy {
        read := 0;
        passed := passed + 1;
      }
    }

    // Reads the header at the read pointer and moves the pointer past part s.
    method TakePart(ghost s: Slot) returns (item: nat, len: nat, isSplit: bool)
      requires GeometryOk(G()) && buf.Length == size && read == s.pos && !s.dummy
      requires s.pos + HEADER_SIZE + AlignUp(align, |s.data|) <= size
      requires DecodeHeader(buf[read..read + HEADER_SIZE]) == HeaderOf(s)
      modifies this`read, this`itemsWaiting
      ensures item == s.pos + HEADER_SIZE && len == |s.data| && isSplit == s.split
      ensures Snapshot() == old(Snapshot()).(read := NextPos(G(), s), waiting := old(itemsWaiting) - 1)
    {
      hide Aligned, AlignUp, DecodeHeader;
      var h := HeaderAt(read);
      item := read + HEADER_SIZE;
      len := h.len;
      itemsWaiting := itemsWaiting - 1;
      isSplit := h.isSplit;
      read := read + HEADER_SIZE + AlignUp(align, h.len);
      if size - read < HEADER_SIZE {
        read := 0;
      }
    }

    // What Valid() says about a part at the read pointer.
    lemma TakeReady()
      requires Valid() && passed < |slots| && !slots[passed].dummy
      ensures var s, im := slots[passed], Snapshot();
        && GeometryOk(G()) && buf.Length == size && maxItemSize == MaxItem(G(), allowSplit) && read == s.pos && !s.freed
        && s.pos + HEADER_SIZE + AlignUp(align, |s.data|) <= size
        && DecodeHeader(buf[read..read + HEADER_SIZE]) == HeaderOf(s)
        && buf[s.pos + HEADER_SIZE..s.pos + HEADER_SIZE + |s.data|] == s.data
        && Layout(G(), im.(read := NextPos(G(), s), waiting := im.waiting - 1), slots, passed + 1)
        && Waiting() == [Part(s.data, s.split)] + Parts(slots[passed + 1..])
        && s.pos + HEADER_SIZE !in Outstanding()
        && Held(slots, passed + 1) == Outstanding()[s.pos + HEADER_SIZE := s.data]
        && Shape(slots, maxItemSize) && Paired(taken + Waiting()) && Items(taken + Waiting()) == sent
        && (!allowSplit ==> Whole(taken + Waiting()))
    {
      hide Aligned, AlignUp, Layout, Items, Paired, Whole, Parts, Held, Shape, MaxItem, DecodeHeader, NextPos;
      GetPart(G(), Snapshot(), slots, passed);
    }

    lemma ValidFromParts()
      requires GeometryOk(G()) && buf.Length == size && maxItemSize == MaxItem(G(), allowSplit)
      requires Layout(G(), Snapshot(), slots, passed) && Shape(slots, maxItemSize) && passed <= |slots|
      requires Paired(taken + Parts(slots[passed..])) && Items(taken + Parts(slots[passed..])) == sent
      requires !allowSplit ==> Whole(taken + Parts(slots[passed..]))
      ensures Valid() && Waiting() == Parts(slots[passed..]) && Outstanding() == Held(slots, passed)
    {
      hide Layout, Items, Paired, Whole, Parts, Held, Shape, MaxItem;
    }

    // Hands out the oldest waiting part in place: slot s, at index passed - 1 afterwards.
    method GetItem() returns (item: nat, len: nat, isSplit: bool, ghost s: Slot)
      requires Valid() && Waiting() != []
      modifies this`read, this`itemsWaiting, this`passed, this`taken
      ensures Valid()
      ensures item == s.pos + HEADER_SIZE && len == |s.data| && isSplit == s.split
      ensures item + len <= size && buf[item..item + len] == s.data
      ensures old(Waiting()) == [Part(s.data, s.split)] + Waiting()
      ensures taken == old(taken) + [Part(s.data, s.split)]
      ensures Outstanding() == old(Outstanding())[item := s.data] && item !in old(Outstanding())
      ensures old(passed) < passed <= |slots| && slots[passed - 1] == s
      ensures old(passed) < |slots| && !slots[old(passed)].dummy ==> passed == old(passed) + 1
    {
      hide Aligned, AlignUp, Layout, Items, Paired, Whole, Parts, Held, Shape, MaxItem, DecodeHeader, NextPos, Waiting,
        Outstanding, Valid;
      SkipDummy();
      s := slots[passed];
      ghost var rest := Parts(slots[passed + 1..]);
      TakeReady();
      item, len, isSplit := TakePart(s);
      assert taken + ([Part(s.data, s.split)] + rest) == taken + [Part(s.data, s.split)] + rest;
      passed := passed + 1;
      taken := taken + [Part(s.data, s.split)];
      ValidFromParts();
    }

    // Without splitting, the items received are a prefix of the items sent, and the first part
    // that waits is the next item.
    lemma ReceivedInOrder()
      requires Valid() && !allowSplit
      ensures |taken| <= |sent| && Items(taken) == sent[..|taken|]
      ensures Waiting() != [] ==> |taken| < |sent| && Waiting()[0].data == sent[|taken|]
    {
      hide Valid, Waiting, Outstanding, Snapshot, Items, Paired, Whole, Shape, Parts;
      ValidQueue();
      var log := taken + Waiting();
      WholeItems(log, |taken|);
      assert log[..|taken|] == taken;
      assert Waiting() != [] ==> log[|taken|] == Waiting()[0];
    }

    // xRingbufferReceive: the critical section with no second item pointer.
    method Receive() returns (ok: bool, item: nat, len: nat)
      requires Valid()
      modifies this`read, this`itemsWaiting, this`passed, this`taken
      ensures Valid()
      ensures ok <==> old(Waiting()) != []
      ensures !ok ==> Snapshot() == old(Snapshot()) && passed == old(passed) && taken == old(taken)
      ensures ok ==> old(passed) < passed <= |slots| && item == slots[passed - 1].pos + HEADER_SIZE
      ensures ok && old(passed) < |slots| && !slots[old(passed)].dummy ==> passed == old(passed) + 1
      ensures ok ==> item + len <= size && item !in old(Outstanding())
      ensures ok ==> Outstanding() == old(Outstanding())[item := buf[item..item + len]]
      ensures ok ==> old(Waiting())[0].data == buf[item..item + len] && Waiting() == old(Waiting())[1..]
      ensures ok ==> taken == old(taken) + [old(Waiting())[0]]
      // without splitting, it is the next item sent: what is received is always a prefix of what was sent
      ensures !allowSplit ==> |taken| <= |sent| && Items(taken) == sent[..|taken|]
      ensures ok && !allowSplit ==> |old(taken)| < |sent| && buf[item..item + len] == sent[|old(taken)|]
    {
      hide Valid, Waiting, Outstanding, Snapshot, Items, Parts;
      item, len := 0, 0;
      ok := CheckItemAvail();
      if !allowSplit {
        ReceivedInOrder();
      }
      if ok {
        var isSplit;
        ghost var s;
        item, len, isSplit, s := GetItem();
        if !allowSplit {
          ReceivedInOrder();
        }
      }
    }

    // xRingbufferReceiveSplit: both parts of a split item in one critical section.  The
    // bytes handed out, first then second, make up the oldest item not yet received.
    method ReceiveSplit() returns (ok: bool, head: nat, headSize: nat, hasTail: bool, tail: nat, tailSize: nat,
                                   ghost first: seq<byte>, ghost second: seq<byte>)
      requires Valid() && allowSplit
      modifies this`read, this`itemsWaiting, this`passed, this`taken
      ensures Valid()
      ensures ok <==> old(Waiting()) != []
      ensures !ok ==> Snapshot() == old(Snapshot()) && passed == old(passed) && taken == old(taken)
      ensures ok ==> head + headSize <= size && buf[head..head + headSize] == first
      ensures ok && hasTail ==> tail + tailSize <= size && buf[tail..tail + tailSize] == second
      ensures hasTail ==> first != [] && second != [] && tail < head
      ensures !hasTail ==> second == []
      ensures ok && !hasTail ==> Outstanding() == old(Outstanding())[head := first]
      ensures ok && hasTail ==> Outstanding() == old(Outstanding())[head := first][tail := second]
      ensures ok && old(Paired(taken)) ==> Paired(taken) && Items(taken) <= sent
      ensures ok && old(Paired(taken)) ==> Items(taken) == Items(old(taken)) + [first + second]
    {
      hide Valid, Waiting, Outstanding, Snapshot, Items, Paired, Shape, Parts;
      head, headSize, hasTail, tail, tailSize, first, second := 0, 0, false, 0, 0, [], [];
      ok := CheckItemAvail();
      if ok {
        ghost var s;
        head, headSize, hasTail, s := GetItem();
        first := s.data;
        ghost var got := [Part(first, hasTail)];
        assert first + [] == first;
        if hasTail {
          ValidQueue();
          TailFollows(G(), slots, passed, maxItemSize);
          var more;
          tail, tailSize, more, s := GetItem();
          assert !more && tail < head;
          second := s.data;
          got := got + [Part(second, false)];
        }
        assert taken == old(taken) + got;
        ValidQueue();
        ReceivedItem(old(taken), got, Waiting(), sent);
      }
    }

    // ---------- returning ----------

    // The one state in which the source loses track of what is held: everything in a
    // completely full buffer has been read, and more than the returned part is held.
    ghost predicate LosesItems(item: nat)
      reads this
    {
      free == read && Outstanding().Keys != {item}
    }

    // One turn of the loop in prvReturnItemDefault: the free pointer passes slot s.
    method StepFree(cur: Header, ghost s: Slot)
      requires GeometryOk(G()) && buf.Length == size && Placed(G(), s) && free == s.pos && cur == HeaderOf(s)
      requires free + HEADER_SIZE <= size && |s.data| < 0x1_0000_0000 && !InUse(s)
      modifies this`free, buf
      ensures buf[..] == SkipMem(old(buf[..]), s) && free == NextPos(G(), s)
    {
      hide Aligned, AlignUp;
      if cur.isDummy {
        PutHeader(free, cur.(isFree := true));
        free := 0;
      } else {
        free := free + AlignUp(align, cur.len) + HEADER_SIZE;
        assert free <= size;
      }
      if size - free < HEADER_SIZE {
        free := 0;
      }
    }

    // Moves the free pointer over slots that are free or dummy, up to the read pointer.
    method AdvanceFree() returns (ghost j: nat)
      requires GeometryOk(G()) && buf.Length == size && passed <= |slots|
      requires Layout(G(), Snapshot(), slots, passed)
      modifies this`free, buf
      ensures j <= passed && Releasing(G(), buf[..], old(free), slots, j, free)
      ensures forall i :: 0 <= i < j ==> !InUse(slots[i])
      ensures j == 0 ==> buf[..] == old(buf[..]) && free == old(free)
      ensures old(free) == read ==> j == 0 && free == read
      ensures free == read || (j < |slots| && InUse(slots[j]))
    {
      hide Aligned, AlignUp, DecodeHeader, Releasing, Layout, NextPos, SkipMem, Placed, GeometryOk, PosOf, EndPos;
      ghost var free0 := free;
      j := 0;
      ReleaseStart(G(), Snapshot(), slots, passed);
      LayoutRead(G(), Snapshot(), slots, passed);
      ReleaseHeader(G(), buf[..], free0, slots, j, free);
      var cur := HeaderAt(free);
      while (cur.isFree || cur.isDummy) && free != read
        invariant buf.Length == size && j <= passed
        invariant Releasing(G(), buf[..], free0, slots, j, free)
        invariant free + HEADER_SIZE <= size
        invariant free == PosOf(G(), free0, slots, j)
        invariant j < |slots| ==> cur == HeaderOf(slots[j])
        invariant free0 == read ==> j == 0
        invariant j == 0 ==> buf[..] == old(buf[..])
        decreases passed - j
      {
        ReleaseHeader(G(), buf[..], free0, slots, j, free);
        ReleaseStep(G(), buf[..], free0, slots, j, free);
        StepFree(cur, slots[j]);
        j := j + 1;
        ReleaseHeader(G(), buf[..], free0, slots, j, free);
        cur := HeaderAt(free);
      }
      ReleaseHeader(G(), buf[..], free0, slots, j, free);
    }

    method ReturnItem(item: nat)
      requires Valid() && item in Outstanding()
      modifies this`free, this`full, this`slots, this`passed, buf
      ensures Valid() <==> !old(LosesItems(item))
      ensures Outstanding() == old(Outstanding()) - {item}
      ensures Waiting() == old(Waiting())
      // the free pointer stops exactly at the oldest part still held, or at the read pointer
      ensures !old(LosesItems(item)) ==> passed <= |slots| && (passed > 0 ==> InUse(slots[0]))
      ensures old(LosesItems(item)) ==> free == write == read && !full && Outstanding() != map[]
    {
      hide Aligned, AlignUp, Layout, DecodeHeader, EncodeHeader, Splice, Held, Shape, Items, Paired, Whole, Parts,
        MaxItem, Tiled, Stored, Releasing;
      var hp := item - HEADER_SIZE;
      ghost var marked := MarkFacts(G(), Snapshot(), slots, passed, item, maxItemSize);
      var h := HeaderAt(hp);
      assert !h.isDummy && !h.isFree && h.len <= maxItemSize;
      PutHeader(hp, h.(isSplit := false, isFree := true));
      slots := marked;
      ghost var im := Snapshot();
      ghost var j := AdvanceFree();
      if full {
        if free != write {
          full := false;
        } else if free == write && free == read {
          full := false;
        }
      }
      slots, passed := ReturnedState(G(), im, Snapshot(), marked, passed, j, maxItemSize, old(Outstanding()), item);
    }
  }

  // What a return leaves: the slots the free pointer has passed are gone, unless everything in
  // a completely full buffer had been read and something else is still held.
  lemma ReturnedState(g: Geometry, im: Image, im': Image, marked: seq<Slot>, r: nat, j: nat, maxItemSize: nat,
      held: map<nat, seq<byte>>, item: nat)
    returns (slots: seq<Slot>, passed: nat)
    requires GeometryOk(g) && Layout(g, im, marked, r) && Shape(marked, maxItemSize) && 0 < r <= |marked|
    requires item in held && Held(marked, r) == held - {item}
    requires Releasing(g, im'.mem, im.free, marked, j, im'.free) && j <= r
    requires forall i :: 0 <= i < j ==> !InUse(marked[i])
    requires j == 0 ==> im'.mem == im.mem && im'.free == im.free
    requires im.free == im.read ==> j == 0 && im'.free == im.read
    requires im'.free == im.read || (j < |marked| && InUse(marked[j]))
    requires im'
      == Image(im'.mem, im'.free, im.read, im.write, im.full && im'.free == im.write && im'.free != im.read, im.waiting)
    ensures passed <= |slots| && Held(slots, passed) == Held(marked, r) && slots[passed..] == marked[r..]
      && Shape(slots, maxItemSize)
    ensures if im.free == im.read && held.Keys != {item}
      then !Layout(g, im', slots, passed) && im'.free == im'.write == im'.read && !im'.full
        && Held(slots, passed) != map[]
      else Layout(g, im', slots, passed) && (passed > 0 ==> InUse(slots[0]))
  {
    hide Aligned, AlignUp, Layout, Held, Shape, Tiled, Stored, Releasing;
    if im.free == im.read {
      Lapped(g, im, marked, r);
      NothingQueued(maxItemSize);
      OnlyKey(held, item);
      slots, passed := if Held(marked, r) == map[] then [] else marked, if Held(marked, r) == map[] then 0 else r;
    } else {
      ReleaseDone(g, im, marked, r, j, im');
      DropFacts(marked, r, j, maxItemSize);
      slots, passed := marked[j..], r - j;
    }
  }

  lemma NothingQueued(maxItemSize: nat)
    ensures Held([], 0) == map[] && Parts([]) == [] && Shape([], maxItemSize)
  {
  }

  lemma OnlyKey<V>(m: map<nat, V>, k: nat)
    requires k in m
    ensures m - {k} == map[] <==> m.Keys == {k}
  {
    if m - {k} == map[] {
      forall x | x in m
        ensures x == k
      {
        assert x in m - {k} || x == k;
      }
    }
  }

  // Marking the returned part: the layout and the queue stay, the pointer is no longer held.
  lemma MarkFacts(g: Geometry, im: Image, slots: seq<Slot>, r: nat, item: nat, maxItemSize: nat)
      returns (marked: seq<Slot>)
    requires GeometryOk(g) && Layout(g, im, slots, r) && Shape(slots, maxItemSize)
    requires r <= |slots| && item in Held(slots, r)
    ensures |im.mem| == g.size && HEADER_SIZE <= item <= g.size && 0 < r <= |marked|
    ensures var h := DecodeHeader(im.mem[item - HEADER_SIZE..item]);
      && !h.isDummy && !h.isFree && h.len <= maxItemSize
      && Layout(g, im.(mem := Splice(im.mem, item - HEADER_SIZE, EncodeHeader(h.(isSplit := false, isFree := true)))),
        marked, r)
    ensures Shape(marked, maxItemSize) && marked[r..] == slots[r..]
    ensures Held(marked, r) == Held(slots, r) - {item}
  {
    hide Aligned, AlignUp, Layout, Tiled, DecodeHeader, Held;
    var k := ReturnTarget(g, im, slots, r, item);
    marked := slots[k := Marked(slots[k])];
    LayoutMark(g, im, slots, r, k, im.(mem := Splice(im.mem, item - HEADER_SIZE, EncodeHeader(HeaderOf(marked[k])))));
    LayoutTiled(g, im, slots, r);
    TiledDistinct(g, im.free, slots);
    HeldMark(slots, r, k);
    CountPartsMark(slots, k, r);
    forall i | 0 <= i < |marked|
      ensures SlotShape(marked, i, maxItemSize)
    {
      assert SlotShape(slots, i, maxItemSize);
    }
    assert SlotShape(slots, k, maxItemSize);
  }

  lemma DropFacts(slots: seq<Slot>, r: nat, j: nat, maxItemSize: nat)
    requires j <= r <= |slots| && Shape(slots, maxItemSize)
    requires forall i :: 0 <= i < j ==> !InUse(slots[i])
    ensures Held(slots[j..], r - j) == Held(slots, r) && slots[j..][r - j..] == slots[r..]
    ensures Shape(slots[j..], maxItemSize)
  {
    HeldDrop(slots, r, j);
    forall i | 0 <= i < |slots[j..]|
      ensures SlotShape(slots[j..], i, maxItemSize)
    {
      assert SlotShape(slots, i + j, maxItemSize);
    }
  }

  // Behind the first part of a split item waits its second part, at the storage's start.
  lemma TailFollows(g: Geometry, slots: seq<Slot>, r: nat, maxItemSize: nat)
    requires Shape(slots, maxItemSize) && 0 < r <= |slots| && slots[r - 1].split
    ensures r < |slots| && !slots[r].dummy && !slots[r].split && slots[r].pos == 0 < slots[r - 1].pos
    ensures Parts(slots[r..]) != []
  {
    assert SlotShape(slots, r - 1, maxItemSize);
    QueueStep(slots, r);
  }

  // One received item, in one or two parts, is the next item of the queue.
  lemma ReceivedItem(taken: seq<Part>, got: seq<Part>, waiting: seq<Part>, sent: seq<seq<byte>>)
    requires Paired(taken + got + waiting) && Items(taken + got + waiting) == sent
    requires (|got| == 1 && !got[0].split) || (|got| == 2 && got[0].split)
    ensures |got| == 2 ==> got[0].data != [] && got[1].data != []
    ensures Paired(taken) ==> Paired(taken + got) && Items(taken + got) <= sent
    ensures Paired(taken) ==>
      Items(taken + got) == Items(taken) + [if |got| == 1 then got[0].data else got[0].data + got[1].data]
  {
    var log := taken + got + waiting;
    assert forall i :: 0 <= i < |got| ==> log[|taken| + i] == got[i];
    assert Paired(got) by {
      if |got| == 2 { assert log[|taken|].split; }
    }
    assert got[|got|..] == [];
    assert Items(got) == [if |got| == 1 then got[0].data else got[0].data + got[1].data];
    if Paired(taken) {
      PairedConcat(taken, got);
      ItemsConcat(taken, got);
      ItemsConcat(taken + got, waiting);
    }
  }

  // What the read pointer finds when something is waiting: a part, or one dummy before it.
  lemma DummyFacts(g: Geometry, im: Image, slots: seq<Slot>, r: nat, maxItemSize: nat)
    requires GeometryOk(g) && Layout(g, im, slots, r) && Shape(slots, maxItemSize)
    requires r <= |slots| && Parts(slots[r..]) != []
    ensures |im.mem| == g.size && r < |slots| && im.read + HEADER_SIZE <= g.size
    ensures DecodeHeader(im.mem[im.read..im.read + HEADER_SIZE]) == HeaderOf(slots[r])
    ensures |slots[r].data| <= maxItemSize
    ensures slots[r].dummy ==> r + 1 < |slots| && !slots[r + 1].dummy
    ensures slots[r].dummy ==> Layout(g, im.(read := 0), slots, r + 1)
    ensures slots[r].dummy ==> Parts(slots[r + 1..]) == Parts(slots[r..]) && Held(slots, r + 1) == Held(slots, r)
  {
    hide Aligned, AlignUp, Layout, Tiled, Stored;
    assert slots[r..] != [] && SlotShape(slots, r, maxItemSize);
    LayoutStored(g, im, slots, r);
    ReadPos(g, im, slots, r);
    StoredBytes(im.mem, slots[r]);
    QueueStep(slots, r);
    LayoutAdvance(g, im, slots, r);
  }

  lemma GetPart(g: Geometry, im: Image, slots: seq<Slot>, k: nat)
    requires GeometryOk(g) && Layout(g, im, slots, k) && k < |slots| && !slots[k].dummy
    ensures !slots[k].freed && |im.mem| == g.size && slots[k].pos == im.read
    ensures slots[k].pos + HEADER_SIZE + AlignUp(g.align, |slots[k].data|) <= g.size
    ensures DecodeHeader(im.mem[slots[k].pos..slots[k].pos + HEADER_SIZE]) == HeaderOf(slots[k])
    ensures im.mem[slots[k].pos + HEADER_SIZE..slots[k].pos + HEADER_SIZE + |slots[k].data|] == slots[k].data
    ensures Layout(g, im.(read := NextPos(g, slots[k]), waiting := im.waiting - 1), slots, k + 1)
    ensures Parts(slots[k..]) == [Part(slots[k].data, slots[k].split)] + Parts(slots[k + 1..])
    ensures slots[k].pos + HEADER_SIZE !in Held(slots, k)
    ensures Held(slots, k + 1) == Held(slots, k)[slots[k].pos + HEADER_SIZE := slots[k].data]
  {
    hide Aligned, AlignUp, Layout, Tiled, Stored;
    LayoutStored(g, im, slots, k);
    LayoutTiled(g, im, slots, k);
    ReadPos(g, im, slots, k);
    QueueStep(slots, k);
    LayoutAdvance(g, im, slots, k);
    StoredBytes(im.mem, slots[k]);
    HeldNew(g, im.free, slots, k);
  }

  lemma ReadPos(g: Geometry, im: Image, slots: seq<Slot>, r: nat)
    requires GeometryOk(g) && Layout(g, im, slots, r) && r < |slots|
    ensures im.read == slots[r].pos && !slots[r].freed && Placed(g, slots[r])
    ensures slots[r].pos + HEADER_SIZE <= EndPos(g, slots[r]) <= g.size
    ensures PosOf(g, im.free, slots, r + 1) == NextPos(g, slots[r])
    ensures slots[r].dummy ==> NextPos(g, slots[r]) == 0
  {
    hide Aligned, AlignUp;
  }

  lemma QueueStep(slots: seq<Slot>, r: nat)
    requires r < |slots|
    ensures Parts(slots[r..])
      == (if slots[r].dummy then [] else [Part(slots[r].data, slots[r].split)]) + Parts(slots[r + 1..])
    ensures slots[r].dummy ==> Held(slots, r + 1) == Held(slots, r)
  {
    assert slots[r..][0] == slots[r] && slots[r..][1..] == slots[r + 1..];
  }

  lemma HeldNew(g: Geometry, free: nat, slots: seq<Slot>, r: nat)
    requires GeometryOk(g) && Tiled(g, free, slots) && r < |slots| && !slots[r].dummy && !slots[r].freed
    ensures slots[r].pos + HEADER_SIZE !in Held(slots, r)
    ensures Held(slots, r + 1) == Held(slots, r)[slots[r].pos + HEADER_SIZE := slots[r].data]
  {
    hide Aligned, AlignUp;
    TiledDistinct(g, free, slots);
    if slots[r].pos + HEADER_SIZE in Held(slots, r) {
      var i := HeldIndex(slots, r, slots[r].pos + HEADER_SIZE);
    }
  }
}
