// The sector buffer of the erase: FAT sectors that share a flash sector with the range are read
// into a word array, the flash sector is erased, and they are written back.
module SectorBuffer {
  import opened Arith
  import opened Bytes
  import opened NorFlash

  // The bytes n sectors take.
  function Extent(n: nat, sectorSize: nat): nat {
    n * sectorSize
  }

  lemma ExtentZero(size: nat)
    ensures Extent(0, size) == 0 && Extent(1, size) == size
  {
  }

  lemma ExtentSum(a: nat, b: nat, c: nat, size: nat)
    ensures Extent(a + b, size) == Extent(a, size) + Extent(b, size)
    ensures a + b <= c ==> Extent(a + b, size) <= Extent(c, size)
  {
    if a + b <= c {
      MulLe(a + b, c, size);
    }
  }

  lemma ExtentOrder(a: nat, b: nat, size: nat)
    requires 0 < size
    ensures a < b <==> Extent(a, size) < Extent(b, size)
    ensures a < b ==> Extent(a, size) + size <= Extent(b, size)
  {
    if a < b {
      MulLe(a, b, size);
    } else {
      MulLe(b, a, size);
    }
  }

  lemma ExtentNext(i: nat, k: nat, fat: nat)
    requires i < k
    ensures Extent(i + 1, fat) == Extent(i, fat) + fat <= Extent(k, fat)
  {
    ExtentSum(i, 1, k, fat);
  }

  // ---------- where a FAT sector is saved ----------

  const WORD: nat := 4

  // The buffer is an array of words, so the offset of FAT sector i is rounded down to a word.
  function Slot(i: nat, fat: nat): (p: nat) {
    Extent(i, fat) / WORD * WORD
  }

  lemma SlotFacts(i: nat, fat: nat)
    ensures Slot(i, fat) <= Extent(i, fat) < Slot(i, fat) + WORD
    ensures fat % WORD == 0 ==> Slot(i, fat) == Extent(i, fat)
  {
    if fat % WORD == 0 {
      var q := fat / WORD;
      assert i * (q * WORD) == (i * q) * WORD;
      DivUnique(Extent(i, fat), WORD, i * q, 0);
    }
  }

  lemma SlotOrder(i: nat, j: nat, fat: nat)
    requires i < j
    ensures Slot(i, fat) <= Slot(j, fat)
  {
    ExtentNext(i, j, fat);
  }

  // FAT sector i of the flash sector is not one of the `count` from `pre` on.
  predicate Kept(i: nat, pre: nat, count: nat) {
    i < pre || i >= count + pre
  }

  // The places of the saved FAT sectors do not overlap.
  ghost predicate SlotsApart(pre: nat, count: nat, fat: nat, factor: nat) {
    forall i, j :: 0 <= i < j < factor && Kept(i, pre, count) && Kept(j, pre, count) ==>
      Slot(i, fat) + fat <= Slot(j, fat)
  }

  // ---------- one flash sector ----------

  // The flash and the buffer.
  datatype Device = Device(mem: seq<byte>, buf: seq<byte>)

  // The buffer after the first k turns of the loop that saves.
  ghost function SavedBuffer(d: Device, base: nat, pre: nat, count: nat, fat: nat, k: nat): (b: seq<byte>)
    requires Extent(k, fat) <= |d.buf| && base + Extent(k, fat) <= |d.mem|
    ensures |b| == |d.buf|
    decreases k
  {
    if k == 0 then d.buf
    else
      ExtentNext(k - 1, k, fat);
      SlotFacts(k - 1, fat);
      var b, at := SavedBuffer(d, base, pre, count, fat, k - 1), Extent(k - 1, fat);
      if Kept(k - 1, pre, count) then Splice(b, Slot(k - 1, fat), d.mem[base + at..base + at + fat]) else b
  }

  // The flash after the first k turns of the loop that writes back.
  ghost function WrittenBack(d: Device, base: nat, pre: nat, count: nat, fat: nat, k: nat): (m: seq<byte>)
    requires Extent(k, fat) <= |d.buf| && base + Extent(k, fat) <= |d.mem|
    ensures |m| == |d.mem|
    decreases k
  {
    if k == 0 then d.mem
    else
      ExtentNext(k - 1, k, fat);
      SlotFacts(k - 1, fat);
      var m, at := WrittenBack(d, base, pre, count, fat, k - 1), Slot(k - 1, fat);
      if Kept(k - 1, pre, count) then Programmed(m, base + Extent(k - 1, fat), d.buf[at..at + fat]) else m
  }

  // Erasing `count` FAT sectors from startSector on, as far as they lie in its flash sector.
  ghost function Fitted(d: Device, fat: nat, factor: nat, startSector: nat, count: nat): (r: Device)
    requires 0 < factor && Holds(d, fat, factor, startSector / factor)
    ensures |r.mem| == |d.mem| && |r.buf| == |d.buf|
  {
    var size := Extent(factor, fat);
    var base, pre := Extent(startSector / factor, size), startSector % factor;
    var b := SavedBuffer(d, base, pre, count, fat, factor);
    var erased := Splice(d.mem, base, AllErased(size));
    Device(WrittenBack(Device(erased, b), base, pre, count, fat, factor), b)
  }

  // Flash sector sec exists, and one flash sector fits the buffer.
  predicate Holds(d: Device, fat: nat, factor: nat, sec: nat) {
    Extent(factor, fat) <= |d.buf| && Extent(sec, Extent(factor, fat)) + Extent(factor, fat) <= |d.mem|
  }

  // How many of `count` FAT sectors fit behind the first `pre` of a flash sector.
  function Fit(pre: nat, count: nat, factor: nat): (n: nat)
    requires pre < factor
  {
    if count <= factor - pre then count else factor - pre
  }

  // ---------- when nothing is lost ----------

  // Every saved FAT sector among the first k is in its place.
  ghost predicate Intact(b: seq<byte>, mem: seq<byte>, base: nat, pre: nat, count: nat, fat: nat, k: nat) {
    && Extent(k, fat) <= |b| && base + Extent(k, fat) <= |mem|
    && forall i :: 0 <= i < k && Kept(i, pre, count) ==> IntactAt(b, mem, base, fat, i)
  }

  predicate IntactAt(b: seq<byte>, mem: seq<byte>, base: nat, fat: nat, i: nat) {
    var at, p := Slot(i, fat), base + Extent(i, fat);
    at + fat <= |b| && p + fat <= |mem| && b[at..at + fat] == mem[p..p + fat]
  }

  // One more FAT sector is saved behind the others.
  lemma IntactNext(b: seq<byte>, mem: seq<byte>, base: nat, pre: nat, count: nat, fat: nat, factor: nat, k: nat)
    requires k < factor && SlotsApart(pre, count, fat, factor) && Intact(b, mem, base, pre, count, fat, k)
    requires Extent(k + 1, fat) <= |b| && base + Extent(k + 1, fat) <= |mem|
    ensures Extent(k, fat) + fat == Extent(k + 1, fat) && Slot(k, fat) <= Extent(k, fat)
    ensures !Kept(k, pre, count) ==> Intact(b, mem, base, pre, count, fat, k + 1)
    ensures Kept(k, pre, count) ==>
      Intact(Splice(b, Slot(k, fat), mem[base + Extent(k, fat)..base + Extent(k, fat) + fat]), mem, base, pre, count,
        fat, k + 1)
  {
    hide Extent, Slot, Splice;
    ExtentNext(k, k + 1, fat);
    SlotFacts(k, fat);
    if Kept(k, pre, count) {
      var data := mem[base + Extent(k, fat)..base + Extent(k, fat) + fat];
      forall i | 0 <= i < k && Kept(i, pre, count)
        ensures IntactAt(Splice(b, Slot(k, fat), data), mem, base, fat, i)
      {
        assert IntactAt(b, mem, base, fat, i);
        assert Slot(i, fat) + fat <= Slot(k, fat);
        OtherPiece(b, Slot(k, fat), data, Slot(i, fat), fat);
      }
    }
  }

  lemma {:induction false} SavedIntact(d: Device, base: nat, pre: nat, count: nat, fat: nat, factor: nat, k: nat)
    requires k <= factor && SlotsApart(pre, count, fat, factor)
    requires Extent(k, fat) <= |d.buf| && base + Extent(k, fat) <= |d.mem|
    ensures Intact(SavedBuffer(d, base, pre, count, fat, k), d.mem, base, pre, count, fat, k)
    decreases k
  {
    hide Extent, Slot, Splice, SlotsApart, IntactAt;
    if k > 0 {
      ExtentNext(k - 1, k, fat);
      SavedIntact(d, base, pre, count, fat, factor, k - 1);
      hide Intact;
      IntactNext(SavedBuffer(d, base, pre, count, fat, k - 1), d.mem, base, pre, count, fat, factor, k - 1);
    }
  }

  lemma OtherPiece(b: seq<byte>, at: nat, data: seq<byte>, p: nat, n: nat)
    requires at + |data| <= |b| && p + n <= at
    ensures Splice(b, at, data)[p..p + n] == b[p..p + n]
  {
  }

  // The flash sector at base has its first k bytes restored, except [low, high), and is
  // erased elsewhere; the rest of the flash is untouched.
  ghost predicate Restored(mem: seq<byte>, was: seq<byte>, base: nat, low: nat, high: nat, k: nat, size: nat) {
    && |mem| == |was| && k <= size && base + size <= |mem|
    && (forall p :: 0 <= p < |mem| && !(base <= p < base + size) ==> mem[p] == was[p])
    && (forall p :: base <= p < base + size ==>
          mem[p] == if p < base + k && (p < base + low || base + high <= p) then was[p] else ERASED)
  }

  lemma RestoredNone(mem: seq<byte>, was: seq<byte>, base: nat, low: nat, high: nat, size: nat)
    requires base + size <= |was| && mem == Splice(was, base, AllErased(size))
    ensures Restored(mem, was, base, low, high, 0, size)
  {
    assert forall p :: base <= p < base + size ==> mem[p] == mem[base..base + size][p - base];
  }

  // Restored is a statement on single bytes: here for the piece from k on, outside of the range.
  lemma SpliceRestores(mem: seq<byte>, was: seq<byte>, base: nat, low: nat, high: nat, k: nat, n: nat, size: nat)
    requires Restored(mem, was, base, low, high, k, size) && k + n <= size && (k + n <= low || high <= k)
    requires base + size <= |was|
    ensures Restored(Splice(mem, base + k, was[base + k..base + k + n]), was, base, low, high, k + n, size)
  {
    var m := Splice(mem, base + k, was[base + k..base + k + n]);
    forall p | base + k <= p < base + k + n
      ensures m[p] == was[p]
    {
      assert m[p] == m[base + k..base + k + n][p - base - k];
    }
    hide Splice;
  }

  lemma RestoredStep(mem: seq<byte>, data: seq<byte>, was: seq<byte>, base: nat, low: nat, high: nat, k: nat, n: nat,
      size: nat)
    requires Restored(mem, was, base, low, high, k, size) && k + n <= size
    requires k + n <= low || high <= k ==> data == was[base + k..base + k + n]
    ensures k + n <= low || high <= k ==> Restored(Programmed(mem, base + k, data), was, base, low, high, k + n, size)
    ensures low <= k && k + n <= high ==> Restored(mem, was, base, low, high, k + n, size)
  {
    if k + n <= low || high <= k {
      ProgramErased(mem, base + k, data);
      hide Splice;
      SpliceRestores(mem, was, base, low, high, k, n, size);
    }
  }

  lemma RestoredAll(mem: seq<byte>, was: seq<byte>, base: nat, low: nat, n: nat, size: nat)
    requires Restored(mem, was, base, low, low + n, size, size) && low + n <= size
    ensures mem == Splice(was, base + low, AllErased(n))
  {
    var m := Splice(was, base + low, AllErased(n));
    forall p | 0 <= p < |mem|
      ensures mem[p] == m[p]
    {
      if base + low <= p < base + low + n {
        assert m[p] == m[base + low..base + low + n][p - base - low];
      }
    }
  }

  // The i-th block of a flash sector lies inside it, and on one side of each border.
  lemma Block(i: nat, pre: nat, n: nat, factor: nat, fat: nat)
    requires i < factor && pre + n <= factor
    ensures Extent(i, fat) + fat == Extent(i + 1, fat) <= Extent(factor, fat)
    ensures i < pre ==> Extent(i + 1, fat) <= Extent(pre, fat)
    ensures i >= pre ==> Extent(pre, fat) <= Extent(i, fat)
    ensures i >= pre + n ==> Extent(pre + n, fat) <= Extent(i, fat)
    ensures i < pre + n ==> Extent(i + 1, fat) <= Extent(pre + n, fat)
  {
    MulLe(i + 1, factor, fat);
    if i < pre { MulLe(i + 1, pre, fat); } else { MulLe(pre, i, fat); }
    if i < pre + n { MulLe(i + 1, pre + n, fat); } else { MulLe(pre + n, i, fat); }
  }

  // One more saved FAT sector is written back, and a FAT sector to be erased stays erased.
  lemma RestoredNext(m: seq<byte>, b: seq<byte>, was: seq<byte>, base: nat, pre: nat, count: nat, fat: nat, factor: nat,
      i: nat)
    requires pre < factor && i < factor && base + Extent(factor, fat) <= |was|
    requires Kept(i, pre, count) ==> IntactAt(b, was, base, fat, i)
    requires Restored(m, was, base, Extent(pre, fat), Extent(pre + Fit(pre, count, factor), fat), Extent(i, fat),
      Extent(factor, fat))
    ensures var low, high, size, at :=
      Extent(pre, fat), Extent(pre + Fit(pre, count, factor), fat), Extent(factor, fat), Slot(i, fat);
      if Kept(i, pre, count) then
        && at + fat <= |b| && base + Extent(i, fat) + fat <= |m|
        && Restored(Programmed(m, base + Extent(i, fat), b[at..at + fat]), was, base, low, high, Extent(i + 1, fat),
          size)
      else Restored(m, was, base, low, high, Extent(i + 1, fat), size)
  {
    hide Extent, Slot, Splice, Programmed;
    var n, size := Fit(pre, count, factor), Extent(factor, fat);
    var low, high := Extent(pre, fat), Extent(pre + n, fat);
    Block(i, pre, n, factor, fat);
    assert |m| == |was|;
    hide Restored;
    var at := Slot(i, fat);
    if Kept(i, pre, count) {
      RestoredStep(m, b[at..at + fat], was, base, low, high, Extent(i, fat), fat, size);
    } else {
      RestoredStep(m, was[base + Extent(i, fat)..base + Extent(i, fat) + fat], was, base, low, high, Extent(i, fat),
        fat, size);
    }
  }

  lemma {:induction false} WrittenBackRestores(d: Device, was: seq<byte>, base: nat, pre: nat, count: nat, fat: nat,
      factor: nat, k: nat)
    requires pre < factor && k <= factor && base + Extent(factor, fat) <= |was|
    requires Intact(d.buf, was, base, pre, count, fat, factor)
    requires d.mem == Splice(was, base, AllErased(Extent(factor, fat)))
    ensures Extent(k, fat) <= |d.buf| && base + Extent(k, fat) <= |d.mem|
    ensures Restored(WrittenBack(d, base, pre, count, fat, k), was, base, Extent(pre, fat),
      Extent(pre + Fit(pre, count, factor), fat), Extent(k, fat), Extent(factor, fat))
    decreases k
  {
    hide Extent, Slot, Splice, Restored, Programmed, IntactAt, Fit;
    ExtentSum(k, factor - k, factor, fat);
    if k == 0 {
      ExtentZero(fat);
      RestoredNone(d.mem, was, base, Extent(pre, fat), Extent(pre + Fit(pre, count, factor), fat), Extent(factor, fat));
    } else {
      WrittenBackRestores(d, was, base, pre, count, fat, factor, k - 1);
      assert Kept(k - 1, pre, count) ==> IntactAt(d.buf, was, base, fat, k - 1);
      hide Intact;
      RestoredNext(WrittenBack(d, base, pre, count, fat, k - 1), d.buf, was, base, pre, count, fat, factor, k - 1);
    }
  }

  // If the places do not overlap, exactly the sectors asked for are erased.
  lemma FittedExact(d: Device, fat: nat, factor: nat, startSector: nat, count: nat)
    requires 0 < factor && Holds(d, fat, factor, startSector / factor)
    requires SlotsApart(startSector % factor, count, fat, factor)
    ensures var n := Fit(startSector % factor, count, factor);
      && Extent(startSector, fat) + Extent(n, fat) <= |d.mem|
      && Fitted(d, fat, factor, startSector, count).mem
        == Splice(d.mem, Extent(startSector, fat), AllErased(Extent(n, fat)))
  {
    hide Extent, Slot, Splice, Restored, SlotsApart, Intact;
    var size := Extent(factor, fat);
    var base, pre := Extent(startSector / factor, size), startSector % factor;
    var n := Fit(pre, count, factor);
    ExtentSplit(startSector, factor, fat);
    ExtentSum(pre, n, factor, fat);
    SavedIntact(d, base, pre, count, fat, factor, factor);
    var b := SavedBuffer(d, base, pre, count, fat, factor);
    var e := Device(Splice(d.mem, base, AllErased(size)), b);
    WrittenBackRestores(e, d.mem, base, pre, count, fat, factor, factor);
    RestoredAll(WrittenBack(e, base, pre, count, fat, factor), d.mem, base, Extent(pre, fat), Extent(n, fat), size);
  }

  // ---------- and when something is ----------

  // Byte q is zero and all others are one.
  ghost predicate OneZero(mem: seq<byte>, q: nat) {
    q < |mem| && forall x :: 0 <= x < |mem| ==> mem[x] == if x == q then 0 else 1
  }

  // What FAT sector j saves at p is a one, and so is all that later sectors save.
  lemma {:induction false} SavedOver(d: Device, base: nat, pre: nat, count: nat, fat: nat, q: nat, j: nat, k: nat)
    requires 0 < fat && j < k && Kept(j, pre, count) && OneZero(d.mem, q) && q < base + Extent(j, fat)
    requires Extent(k, fat) <= |d.buf| && base + Extent(k, fat) <= |d.mem|
    ensures Slot(j, fat) < |d.buf| && SavedBuffer(d, base, pre, count, fat, k)[Slot(j, fat)] == 1
    decreases k
  {
    hide Extent, Slot, Splice;
    ExtentNext(j, k, fat);
    ExtentNext(k - 1, k, fat);
    SlotFacts(j, fat);
    SlotFacts(k - 1, fat);
    var b, at := SavedBuffer(d, base, pre, count, fat, k - 1), Extent(k - 1, fat);
    var data := d.mem[base + at..base + at + fat];
    if k - 1 > j {
      SavedOver(d, base, pre, count, fat, q, j, k - 1);
      ExtentNext(j, k - 1, fat);
    }
    assert forall x :: 0 <= x < fat ==> data[x] == 1;
    SplicedAt(b, Slot(k - 1, fat), data, Slot(j, fat));
  }

  lemma SplicedAt(b: seq<byte>, at: nat, data: seq<byte>, p: nat)
    requires at + |data| <= |b| && p < |b|
    ensures Splice(b, at, data)[p] == if at <= p < at + |data| then data[p - at] else b[p]
  {
  }

  // A byte of FAT sector i is written once, from the place of sector i.
  lemma {:induction false} WrittenOnce(d: Device, base: nat, pre: nat, count: nat, fat: nat, i: nat, off: nat, k: nat)
    requires off < fat && Kept(i, pre, count)
    requires Extent(k, fat) <= |d.buf| && base + Extent(k, fat) <= |d.mem|
    requires Slot(i, fat) + off < |d.buf| && base + Extent(i, fat) + off < |d.mem|
    requires d.mem[base + Extent(i, fat) + off] == ERASED
    ensures WrittenBack(d, base, pre, count, fat, k)[base + Extent(i, fat) + off] ==
      if k <= i then ERASED else d.buf[Slot(i, fat) + off]
    decreases k
  {
    hide Extent, Slot, Programmed;
    if k > 0 {
      ExtentNext(k - 1, k, fat);
      SlotFacts(k - 1, fat);
      WrittenOnce(d, base, pre, count, fat, i, off, k - 1);
      var m, at, p := WrittenBack(d, base, pre, count, fat, k - 1), Slot(k - 1, fat), base + Extent(i, fat) + off;
      if k - 1 < i {
        ExtentNext(k - 1, i, fat);
      } else if i < k - 1 {
        ExtentNext(i, k - 1, fat);
      }
      ProgrammedAt(m, base + Extent(k - 1, fat), d.buf[at..at + fat], p);
    }
  }

  lemma ProgrammedAt(mem: seq<byte>, at: nat, data: seq<byte>, p: nat)
    requires at + |data| <= |mem| && p < |mem|
    ensures Programmed(mem, at, data)[p] ==
      if !(at <= p < at + |data|) then mem[p] else if mem[p] == ERASED then data[p - at]
        else Programmed(mem, at, data)[p]
  {
    hide And;
    if at <= p < at + |data| {
      AndErased(data[p - at]);
      var x := seq(|data|, i requires 0 <= i < |data| => And(mem[at + i], data[i]));
      assert Splice(mem, at, x)[at..at + |x|][p - at] == x[p - at];
    }
  }

  // If the places of two saved sectors overlap, there is a content of which a byte is lost.
  lemma FittedLoses(d: Device, fat: nat, factor: nat, startSector: nat, count: nat, i: nat, j: nat)
    requires 0 < factor && Holds(d, fat, factor, startSector / factor) && i < j < factor
    requires Kept(i, startSector % factor, count) && Kept(j, startSector % factor, count)
    requires Slot(i, fat) <= Slot(j, fat) < Slot(i, fat) + fat
    requires OneZero(d.mem, LostByte(fat, factor, startSector, i, j))
    ensures Fitted(d, fat, factor, startSector, count).mem[LostByte(fat, factor, startSector, i, j)] == 1
  {
    hide Extent, Slot, Splice, SavedBuffer, WrittenBack;
    var size := Extent(factor, fat);
    var base, pre, off := Extent(startSector / factor, size), startSector % factor, Slot(j, fat) - Slot(i, fat);
    var q := LostByte(fat, factor, startSector, i, j);
    ExtentNext(i, j, fat);
    ExtentNext(j, factor, fat);
    SavedOver(d, base, pre, count, fat, q, j, factor);
    var e := Device(Splice(d.mem, base, AllErased(size)), SavedBuffer(d, base, pre, count, fat, factor));
    SplicedAt(d.mem, base, AllErased(size), q);
    WrittenOnce(e, base, pre, count, fat, i, off, factor);
  }

  // Byte Slot(j) - Slot(i) of FAT sector i, which is saved where sector j begins.
  function LostByte(fat: nat, factor: nat, startSector: nat, i: nat, j: nat): nat
    requires 0 < factor && Slot(i, fat) <= Slot(j, fat)
  {
    Extent(startSector / factor, Extent(factor, fat)) + Extent(i, fat) + (Slot(j, fat) - Slot(i, fat))
  }

  // For flash of this length, the FAT sectors asked for are erased and no byte is lost.
  ghost predicate FitsExactly(d: Device, fat: nat, factor: nat, startSector: nat, count: nat)
    requires 0 < factor && Holds(d, fat, factor, startSector / factor)
  {
    var lo, n := Extent(startSector, fat), Extent(Fit(startSector % factor, count, factor), fat);
    lo + n <= |d.mem| && Fitted(d, fat, factor, startSector, count).mem == Splice(d.mem, lo, AllErased(n))
  }

  // Erasing within a flash sector is exact for every content if and only if the places of the
  // saved FAT sectors do not overlap.
  lemma FittedExactIff(fat: nat, factor: nat, startSector: nat, count: nat, length: nat)
    requires 0 < factor && Extent(startSector / factor, Extent(factor, fat)) + Extent(factor, fat) <= length
    ensures SlotsApart(startSector % factor, count, fat, factor) <==>
      forall d: Device :: |d.mem| == length && |d.buf| == Extent(factor, fat) ==>
        FitsExactly(d, fat, factor, startSector, count)
  {
    hide Extent, Slot, Fitted, FitsExactly;
    if SlotsApart(startSector % factor, count, fat, factor) {
      forall d: Device | |d.mem| == length && |d.buf| == Extent(factor, fat)
        ensures FitsExactly(d, fat, factor, startSector, count)
      {
        ExactAt(d, fat, factor, startSector, count);
      }
    } else {
      var i, j :| 0 <= i < j < factor && Kept(i, startSector % factor, count) && Kept(j, startSector % factor, count)
        && Slot(j, fat) < Slot(i, fat) + fat;
      var d := LosesAt(fat, factor, startSector, count, length, i, j);
    }
  }

  lemma ExactAt(d: Device, fat: nat, factor: nat, startSector: nat, count: nat)
    requires 0 < factor && Holds(d, fat, factor, startSector / factor)
    requires SlotsApart(startSector % factor, count, fat, factor)
    ensures FitsExactly(d, fat, factor, startSector, count)
  {
    hide Extent, Slot, Fitted, Splice;
    FittedExact(d, fat, factor, startSector, count);
  }

  lemma LosesAt(fat: nat, factor: nat, startSector: nat, count: nat, length: nat, i: nat, j: nat) returns (d: Device)
    requires 0 < factor && Extent(startSector / factor, Extent(factor, fat)) + Extent(factor, fat) <= length
    requires i < j < factor && Kept(i, startSector % factor, count) && Kept(j, startSector % factor, count)
    requires Slot(j, fat) < Slot(i, fat) + fat
    ensures |d.mem| == length && |d.buf| == Extent(factor, fat) && !FitsExactly(d, fat, factor, startSector, count)
  {
    hide Extent, Slot, Fitted, Splice;
    SlotOrder(i, j, fat);
    ExtentNext(i, factor, fat);
    var size, pre := Extent(factor, fat), startSector % factor;
    var q, n := LostByte(fat, factor, startSector, i, j), Fit(pre, count, factor);
    d := Device(seq(length, x => if x == q then 0 else 1), seq(size, _ => 0));
    FittedLoses(d, fat, factor, startSector, count, i, j);
    ExtentSplit(startSector, factor, fat);
    ExtentSum(pre, n, factor, fat);
    Block(i, pre, n, factor, fat);
    var lo := Extent(startSector, fat);
    if lo + Extent(n, fat) <= length {
      SplicedAt(d.mem, lo, AllErased(Extent(n, fat)), q);
    }
  }

  lemma ExtentSplit(s: nat, factor: nat, fat: nat)
    requires 0 < factor
    ensures Extent(s, fat) == Extent(s / factor, Extent(factor, fat)) + Extent(s % factor, fat)
  {
    var q, r := s / factor, s % factor;
    assert s == q * factor + r;
    assert (q * factor + r) * fat == q * (factor * fat) + r * fat;
  }
}
