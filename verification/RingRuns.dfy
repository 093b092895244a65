// Short runs of the item ring buffers that reach the states in which the source goes wrong.
module RingRuns {
  import opened Bytes
  import opened RingLayout
  import opened RingItems
  import opened ItemRing

  // The positions, the full flag and the count as the slots give them.
  lemma Pointers(b: RingBuffer)
    requires b.Valid()
    ensures GeometryOk(b.G()) && b.maxItemSize == MaxItem(b.G(), b.allowSplit)
    ensures b.write == WritePos(b.G(), b.free, b.slots) && ValidPos(b.G(), b.write)
    ensures b.passed <= |b.slots| && b.read == PosOf(b.G(), b.free, b.slots, b.passed)
    ensures b.buf.Length == b.size && (b.write != b.free ==> !b.full)
    ensures b.free < b.size && forall i :: 0 <= i < |b.slots| ==> Placed(b.G(), b.slots[i])
    ensures b.full <==> Used(b.G(), b.free, b.slots) == b.size
    ensures b.itemsWaiting == CountParts(b.slots[b.passed..])
    ensures forall i :: 0 <= i < |b.slots| ==> Stored(b.buf[..], b.slots[i])
  {
    hide Shape, Items, Paired, Whole, Aligned, AlignUp, NextPos, EndPos, Span, Dist, Stored, MaxItem;
    WritePosValid(b.G(), b.free, b.slots);
  }

  // A send of an item that fits in one piece behind the write pointer.
  method SendWhole(b: RingBuffer, item: seq<byte>)
    requires b.Valid() && 0 < |item| <= b.maxItemSize && !b.full
    requires |item| <= Largest(b.G(), b.allowSplit, b.free, b.write)
    requires AlignUp(b.align, |item|) + HEADER_SIZE <= b.size - b.write
    modifies b, b.buf
    ensures b.Valid() && b.free == old(b.free) && b.passed == old(b.passed) && b.taken == old(b.taken)
    ensures b.slots == old(b.slots) + [Slot(old(b.write), false, false, false, item)]
  {
    hide b.Valid, Largest, AlignUp, NewSlots;
    b.RoomIsLargest(|item|);
    Pointers(b);
    OnePiece(b.G(), b.allowSplit, b.write, item);
    var ok := b.Send(item);
  }

  lemma OnePiece(g: Geometry, allowSplit: bool, pos: nat, item: seq<byte>)
    requires GeometryOk(g) && ValidPos(g, pos) && AlignUp(g.align, |item|) + HEADER_SIZE <= g.size - pos
    ensures NewSlots(g, allowSplit, pos, item) == [Slot(pos, false, false, false, item)]
  {
  }

  // What the next call finds after the full flag was cleared: pointers that say "empty".
  ghost method SeenEmpty(b: RingBuffer)
    requires GeometryOk(b.G()) && b.buf.Length == b.size && b.maxItemSize == MaxItem(b.G(), b.allowSplit)
    requires ValidPos(b.G(), b.free) && b.free == b.read == b.write && !b.full && b.itemsWaiting == 0
    requires Paired(b.taken) && Items(b.taken) == b.sent && (!b.allowSplit ==> Whole(b.taken))
    modifies b`slots, b`passed
    ensures b.Valid() && b.slots == [] && b.passed == 0
  {
    hide Items, Paired, Whole, Aligned, AlignUp, MaxItem;
    b.slots, b.passed := [], 0;
    assert b.taken + b.Waiting() == b.taken;
  }

  lemma SmallSizes()
    ensures AlignUp(4, 32) == 32 && AlignUp(4, 40) == 40 && AlignUp(4, 16) == 16 && AlignUp(4, 20) == 20
    ensures AlignUp(4, 4) == 4 && AlignUp(4, 8) == 8 && AlignUp(4, 12) == 12
  {
  }

  // ---------- a held item that is written over ----------

  const FIRST: seq<byte> := [1, 1, 1, 1, 1, 1, 1, 1]
  const SECOND: seq<byte> := [2, 2, 2, 2, 2, 2, 2, 2]
  const THIRD: seq<byte> := [3, 3, 3, 3]

  function Two(): seq<Slot> {
    [Slot(0, false, false, false, FIRST), Slot(16, false, false, false, SECOND)]
  }

  // Two items of eight bytes fill a no-split buffer of 32 bytes.
  method TwoItemsSent() returns (b: RingBuffer)
    ensures fresh(b) && fresh(b.buf) && b.Valid() && b.G() == Geometry(32, 4) && !b.allowSplit
    ensures b.slots == Two() && b.passed == 0 && b.free == 0 && b.full && b.write == 0
  {
    hide AlignUp, b.Valid;
    SmallSizes();
    b := new RingBuffer(32, 4, false);
    Pointers(b);
    SendWhole(b, FIRST);
    Pointers(b);
    SendWhole(b, SECOND);
    Pointers(b);
  }

  // Both are received and none is returned: the read pointer is back at the free pointer.
  method TwoItemsReceived(b: RingBuffer) returns (first: nat, second: nat)
    requires b.Valid() && b.G() == Geometry(32, 4) && b.slots == Two() && b.passed == 0 && b.free == 0
    modifies b
    ensures b.Valid() && b.slots == Two() && b.passed == 2 && b.free == b.read == b.write == 0 && b.full
    ensures first == 8 && second == 24 && b.Waiting() == []
    ensures b.Outstanding() == map[8 := FIRST, 24 := SECOND]
  {
    hide AlignUp, b.Valid;
    SmallSizes();
    var ok, len;
    WaitingOf(b);
    ok, first, len := b.Receive();
    ok, second, len := b.Receive();
    Pointers(b);
    HeldTwo();
  }

  lemma AllReceived(b: RingBuffer)
    requires b.Valid() && b.Waiting() == []
    ensures b.buf.Length == b.size && b.itemsWaiting == 0
    ensures Paired(b.taken) && Items(b.taken) == b.sent && (!b.allowSplit ==> Whole(b.taken))
  {
    hide Shape, Items, Paired, Whole, Aligned, AlignUp, Tiled, Stored, MaxItem;
    b.ValidQueue();
    assert b.taken + b.Waiting() == b.taken;
  }

  lemma WaitingOf(b: RingBuffer)
    requires b.Valid() && b.slots == Two() && b.passed == 0
    ensures |b.Waiting()| == 2
  {
    hide b.Valid;
    assert Two()[0..] == Two();
    QueueStep(Two(), 0);
    QueueStep(Two(), 1);
    HeldTwo();
  }

  lemma HeldTwo()
    ensures Held(Two(), 2) == map[8 := FIRST, 24 := SECOND] && Parts(Two()[2..]) == []
  {
    assert Held(Two(), 1) == map[8 := FIRST];
  }

  // The second is returned while the first is still held: the full flag is cleared.
  method SecondReturned(b: RingBuffer, second: nat)
    requires b.Valid() && b.G() == Geometry(32, 4) && second == 24 && b.free == b.read == b.write == 0
    requires b.Waiting() == [] && b.Outstanding() == map[8 := FIRST, 24 := SECOND]
    modifies b, b.buf
    ensures b.Outstanding() == map[8 := FIRST] && !b.full && b.free == b.read == b.write == 0
    ensures b.itemsWaiting == 0 && Paired(b.taken) && Items(b.taken) == b.sent && (!b.allowSplit ==> Whole(b.taken))
  {
    hide b.Valid, Items, Paired, Whole, b.Waiting, b.Outstanding;
    AllReceived(b);
    assert 8 in b.Outstanding();
    b.ReturnItem(second);
  }

  // So the next send is accepted, and its bytes go where those of the first were.
  method ThirdSent(b: RingBuffer)
    requires b.Valid() && b.G() == Geometry(32, 4) && !b.allowSplit && b.slots == [] && b.free == 0
    modifies b, b.buf
    ensures b.Valid() && b.slots == [Slot(0, false, false, false, THIRD)]
    ensures b.buf.Length == 32 && b.buf[8..12] == THIRD
  {
    hide AlignUp, b.Valid;
    SmallSizes();
    Pointers(b);
    SendWhole(b, THIRD);
    Pointers(b);
    StoredBytes(b.buf[..], b.slots[0]);
    assert b.buf[8..12] == b.buf[..][8..12];
  }

  method HeldItemOverwritten() returns (b: RingBuffer, first: nat, ghost held: map<nat, seq<byte>>)
    ensures fresh(b) && fresh(b.buf)
    ensures held == map[first := FIRST]
    ensures b.buf.Length == 32 && first == 8 && b.buf[8..12] == THIRD && b.buf[8..16] != FIRST
  {
    hide AlignUp, b.Valid, b.Outstanding, b.Waiting, Items, Paired, Whole, Two, MaxItem;
    var second;
    b := TwoItemsSent();
    first, second := TwoItemsReceived(b);
    Pointers(b);
    AllReceived(b);
    SecondReturned(b, second);
    held := b.Outstanding();
    SeenEmpty(b);
    ThirdSent(b);
    assert b.buf[8..16][0] == b.buf[8..12][0];
  }

  // ---------- sizes reported although nothing fits ----------

  // One unread item of 16 bytes in an allow-split buffer of 32: behind it is room for a header
  // and nothing else, and the query reports the maximum of 16.
  method AllowSplitQueryWrong() returns (b: RingBuffer, n: nat)
    ensures b.Valid() && b.G() == Geometry(32, 4) && b.allowSplit && n == b.maxItemSize == 16
    ensures forall s: nat :: 0 < s <= 16 ==> !b.Room(s)
  {
    hide AlignUp, b.Valid, b.Room;
    SmallSizes();
    b := new RingBuffer(32, 4, true);
    Pointers(b);
    SendWhole(b, seq(16, _ => 1));
    Pointers(b);
    n := b.GetCurMaxSizeAllowSplit();
    forall s: nat | 0 < s <= 16
      ensures !b.Room(s)
    {
      b.RoomIsLargest(s);
    }
  }

  lemma {:induction false} HeldFirst(slots: seq<Slot>, r: nat)
    requires 0 < r <= |slots| && InUse(slots[0])
    ensures slots[0].pos + HEADER_SIZE in Held(slots, r)
  {
    if r > 1 {
      HeldFirst(slots, r - 1);
    }
  }

  // Receives and returns the first of two items in a full buffer: the free pointer moves to
  // the second.
  method FirstReturned(b: RingBuffer)
    requires b.Valid() && b.G() == Geometry(40, 4) && |b.slots| == 2 && b.passed == 0 && b.free == b.write == 0
    requires b.slots[0] == Slot(0, false, false, false, FIRST)
    requires b.slots[1].pos == 16 && !b.slots[1].dummy
    modifies b, b.buf
    ensures b.Valid() && b.free == 16 && b.write == 0
  {
    hide AlignUp, b.Valid, b.Outstanding, b.Waiting, NextPos, Placed, Stored, Used;
    var item := FirstReceived(b);
    b.ReturnItem(item);
    NothingHeld(b);
  }

  method FirstReceived(b: RingBuffer) returns (item: nat)
    requires b.Valid() && b.G() == Geometry(40, 4) && |b.slots| == 2 && b.passed == 0 && b.free == b.write == 0
    requires b.slots[0] == Slot(0, false, false, false, FIRST)
    requires b.slots[1].pos == 16 && !b.slots[1].dummy
    modifies b
    ensures b.Valid() && b.free == b.write == 0 && b.read == 16 && item == 8 && b.Outstanding() == map[8 := FIRST]
  {
    hide AlignUp, b.Valid;
    var ok, len;
    AnyWaiting(b);
    ok, item, len := b.Receive();
    Pointers(b);
    assert Held(b.slots, 1) == map[8 := FIRST];
  }

  lemma NothingHeld(b: RingBuffer)
    requires b.Valid() && b.Outstanding() == map[]
    requires b.passed <= |b.slots| && (b.passed > 0 ==> InUse(b.slots[0]))
    ensures b.free == b.read
  {
    hide b.Valid, InUse, NextPos, Placed, Stored, Used;
    Pointers(b);
    if b.passed > 0 {
      HeldFirst(b.slots, b.passed);
    } else if b.slots != [] {
      FirstAtFree(b);
    }
  }

  lemma FirstAtFree(b: RingBuffer)
    requires b.Valid() && b.slots != []
    ensures b.slots[0].pos == b.free
  {
    hide Shape, Items, Paired, Whole, Aligned, AlignUp, NextPos, EndPos, Span, Dist, Stored, MaxItem;
  }

  lemma AnyWaiting(b: RingBuffer)
    requires b.Valid() && |b.slots| == 2 && b.passed == 0 && !b.slots[0].dummy
    ensures b.Waiting() != []
  {
    hide b.Valid;
    assert b.slots[0..] == b.slots;
    QueueStep(b.slots, 0);
  }

  method EightAndTwelveSent() returns (b: RingBuffer)
    ensures fresh(b) && fresh(b.buf) && b.Valid() && b.G() == Geometry(40, 4) && !b.allowSplit
    ensures |b.slots| == 2 && b.passed == 0 && b.free == b.write == 0
    ensures b.slots[0] == Slot(0, false, false, false, FIRST)
    ensures b.slots[1].pos == 16 && !b.slots[1].dummy
  {
    hide AlignUp, b.Valid;
    SmallSizes();
    b := new RingBuffer(40, 4, false);
    Pointers(b);
    SendWhole(b, FIRST);
    Pointers(b);
    SendWhole(b, seq(12, _ => 2));
    Pointers(b);
  }

  // A no-split buffer of 40 bytes is filled by items of 8 and 12 bytes; the first is received
  // and returned, and 4 bytes are sent.  Four bytes are left between the write and the free
  // pointer, and the query reports the maximum of 12.
  method NoSplitQueryWrong() returns (b: RingBuffer, n: nat)
    ensures b.Valid() && b.G() == Geometry(40, 4) && !b.allowSplit && n == b.maxItemSize == 12
    ensures forall s: nat :: 0 < s <= 12 ==> !b.Room(s)
  {
    hide AlignUp, b.Valid, b.Room, b.ExactSize;
    SmallSizes();
    b := EightAndTwelveSent();
    FirstReturned(b);
    Pointers(b);
    SendWhole(b, THIRD);
    LastSent(b, THIRD);
    n := b.GetCurMaxSizeNoSplit();
  }

  lemma LastSent(b: RingBuffer, item: seq<byte>)
    requires b.Valid() && b.G() == Geometry(40, 4) && |item| == 4
    requires b.slots != [] && b.slots[|b.slots| - 1] == Slot(0, false, false, false, item)
    ensures b.write == 12 && (b.free != 12 ==> !b.full) && b.maxItemSize == MaxItem(b.G(), b.allowSplit)
  {
    hide b.Valid, AlignUp;
    SmallSizes();
    Pointers(b);
  }

  // ---------- storage too small for its headers ----------

  // A no-split buffer of eight bytes advertises almost 2^32 bytes, and the admission test lets
  // an item of 100 bytes in.
  method TooLargeAdmitted() returns (b: RingBuffer, fits: bool)
    ensures fresh(b) && b.G() == Geometry(8, 4) && b.buf.Length == 8 && b.maxItemSize == 0xFFFF_FFFC
    ensures 100 <= b.maxItemSize && fits
  {
    assert AlignUp(4, 8) == 8 && AlignUp(4, 4) == 4;
    b := new RingBuffer(8, 4, false);
    fits := b.CheckItemFits(100);
  }

  // ---------- a size reported too small ----------

  // One unread item of four bytes in an allow-split buffer of 32: twelve bytes would fit behind
  // it, and the query reports four.
  method AllowSplitQueryTooSmall() returns (b: RingBuffer, n: nat)
    ensures b.Valid() && b.G() == Geometry(32, 4) && b.allowSplit && n == 4
    ensures forall s: nat :: 0 < s <= 16 ==> (b.Room(s) <==> s <= 12)
  {
    hide AlignUp, b.Valid, b.Room;
    SmallSizes();
    b := new RingBuffer(32, 4, true);
    Pointers(b);
    SendWhole(b, THIRD);
    Pointers(b);
    n := b.GetCurMaxSizeAllowSplit();
    forall s: nat | 0 < s <= 16
      ensures b.Room(s) <==> s <= 12
    {
      b.RoomIsLargest(s);
    }
    assert b.Room(12) && !b.Room(13);
  }
}
