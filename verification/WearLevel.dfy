// Erasing a range of small FAT sectors on flash whose erase unit is a larger sector:
// data that shares an erase unit with the range is read first and written back.
module WearLevel {
  import opened Arith
  import opened Bytes
  import opened NorFlash
  import opened SectorBuffer

  datatype Error = Ok | InvalidArg

  // Two adjacent erased ranges make one.
  lemma EraseJoin(mem: seq<byte>, lo: nat, n: nat, k: nat)
    requires lo + n + k <= |mem|
    ensures Splice(Splice(mem, lo, AllErased(n)), lo + n, AllErased(k)) == Splice(mem, lo, AllErased(n + k))
  {
  }

  lemma EraseThree(f0: seq<byte>, f1: seq<byte>, f2: seq<byte>, f3: seq<byte>, lo: nat, a: nat, b: nat, c: nat)
    requires lo + a + b + c <= |f0| == |f1| == |f2|
    requires f1 == Splice(f0, lo, AllErased(a)) && f2 == Splice(f1, lo + a, AllErased(b))
    requires f3 == Splice(f2, lo + a + b, AllErased(c))
    ensures f3 == Splice(f0, lo, AllErased(a + b + c))
  {
    hide Splice, AllErased;
    EraseJoin(f0, lo, a, b);
    EraseJoin(f0, lo, a + b, c);
  }

  class ExtPerf {
    const fatSectorSize: nat
    const flashSectorSize: nat
    const sizeFactor: nat
    const flash: array<byte>
    const sectorBuffer: array<byte>
    ghost var wear: seq<nat>        // how often each flash sector has been erased

    ghost predicate Valid()
      reads this
    {
      && 0 < fatSectorSize && 0 < sizeFactor
      && flashSectorSize == Extent(sizeFactor, fatSectorSize) && 0 < flashSectorSize
      && sectorBuffer.Length == flashSectorSize && sectorBuffer != flash
      && flash.Length == Extent(|wear|, flashSectorSize)
    }

    // The flash layer below: read, program, erase one sector.
    method Read(addr: nat, at: nat, n: nat)
      requires addr + n <= flash.Length && at + n <= sectorBuffer.Length && sectorBuffer != flash
      modifies sectorBuffer
      ensures sectorBuffer[..] == Splice(old(sectorBuffer[..]), at, flash[addr..addr + n])
    {
      forall i | 0 <= i < n {
        sectorBuffer[at + i] := flash[addr + i];
      }
    }

    method Write(addr: nat, at: nat, n: nat)
      requires addr + n <= flash.Length && at + n <= sectorBuffer.Length && sectorBuffer != flash
      modifies flash
      ensures flash[..] == Programmed(old(flash[..]), addr, sectorBuffer[at..at + n])
    {
      hide And, Splice;
      ghost var was, data := flash[..], sectorBuffer[at..at + n];
      forall i | 0 <= i < n {
        flash[addr + i] := And(flash[addr + i], sectorBuffer[at + i]);
      }
      ProgrammedIs(was, addr, data, flash[..]);
      assert sectorBuffer[at..at + n] == data;
    }

    method EraseFlashSector(sec: nat)
      requires Valid() && sec < |wear|
      modifies flash, this`wear
      ensures Valid() && wear == old(wear)[sec := old(wear)[sec] + 1]
      ensures Extent(sec, flashSectorSize) + flashSectorSize <= flash.Length
      ensures flash[..] == Splice(old(flash[..]), Extent(sec, flashSectorSize), AllErased(flashSectorSize))
    {
      ExtentSum(sec, 1, |wear|, flashSectorSize);
      ExtentZero(flashSectorSize);
      EraseBytes(Extent(sec, flashSectorSize), flashSectorSize);
      wear := wear[sec := wear[sec] + 1];
    }

    method EraseBytes(lo: nat, n: nat)
      requires lo + n <= flash.Length
      modifies flash
      ensures flash[..] == Splice(old(flash[..]), lo, AllErased(n))
    {
      forall i | lo <= i < lo + n {
        flash[i] := ERASED;
      }
    }

    // The flash and the buffer.
    ghost function Now(): Device
      reads this, flash, sectorBuffer
    {
      Device(flash[..], sectorBuffer[..])
    }

    // Reads the FAT sectors of the flash sector at base that are to survive.  The buffer is
    // addressed by words.
    method SaveOthers(base: nat, pre: nat, count: nat)
      requires Valid() && base + flashSectorSize <= flash.Length
      modifies sectorBuffer
      ensures sectorBuffer[..] == SavedBuffer(old(Now()), base, pre, count, fatSectorSize, sizeFactor)
    {
      hide Extent, Splice;
      ghost var d := Now();
      ExtentZero(fatSectorSize);
      var i := 0;
      while i < sizeFactor
        invariant 0 <= i <= sizeFactor && Extent(i, fatSectorSize) <= flashSectorSize
        invariant sectorBuffer[..] == SavedBuffer(d, base, pre, count, fatSectorSize, i)
      {
        ExtentNext(i, sizeFactor, fatSectorSize);
        SlotFacts(i, fatSectorSize);
        if i < pre || i >= count + pre {
          var at := base + Extent(i, fatSectorSize);
          assert flash[at..at + fatSectorSize] == d.mem[at..at + fatSectorSize];
          Read(at, Extent(i, fatSectorSize) / WORD * WORD, fatSectorSize);
        }
        i := i + 1;
      }
    }

    // Writes them back onto the erased flash sector.
    method RestoreOthers(base: nat, pre: nat, count: nat)
      requires Valid() && base + flashSectorSize <= flash.Length
      modifies flash
      ensures flash[..] == WrittenBack(old(Now()), base, pre, count, fatSectorSize, sizeFactor)
    {
      hide Extent, Programmed;
      ghost var d := Now();
      ExtentZero(fatSectorSize);
      var i := 0;
      while i < sizeFactor
        invariant 0 <= i <= sizeFactor && Extent(i, fatSectorSize) <= flashSectorSize
        invariant flash[..] == WrittenBack(d, base, pre, count, fatSectorSize, i)
      {
        ExtentNext(i, sizeFactor, fatSectorSize);
        SlotFacts(i, fatSectorSize);
        if i < pre || i >= count + pre {
          ghost var at := Slot(i, fatSectorSize);
          Write(base + Extent(i, fatSectorSize), Extent(i, fatSectorSize) / WORD * WORD, fatSectorSize);
          assert sectorBuffer[at..at + fatSectorSize] == d.buf[at..at + fatSectorSize];
        }
        i := i + 1;
      }
    }

    // erase_sector_fit: erases `count` FAT sectors from startSector on, as far as they lie in
    // its flash sector; everything else keeps its content if the saved sectors do not overlap.
    method EraseSectorFit(startSector: nat, count: nat)
      requires Valid() && startSector / sizeFactor < |wear|
      modifies flash, sectorBuffer, this`wear
      ensures Valid()
      ensures Holds(old(Now()), fatSectorSize, sizeFactor, startSector / sizeFactor)
      ensures Now() == Fitted(old(Now()), fatSectorSize, sizeFactor, startSector, count)
      ensures SlotsApart(startSector % sizeFactor, count, fatSectorSize, sizeFactor) ==>
        var n := Fit(startSector % sizeFactor, count, sizeFactor);
        && Extent(startSector, fatSectorSize) + Extent(n, fatSectorSize) <= flash.Length
        && flash[..] == Splice(old(flash[..]), Extent(startSector, fatSectorSize), AllErased(Extent(n, fatSectorSize)))
      ensures WornBetween(old(wear), wear, startSector / sizeFactor, startSector / sizeFactor + 1)
    {
      hide Extent, Splice, AllErased, SavedBuffer, WrittenBack, SlotsApart;
      var sec, pre := startSector / sizeFactor, startSector % sizeFactor;
      ghost var d := Now();
      var base := Extent(sec, flashSectorSize);
      ExtentSum(sec, 1, |wear|, flashSectorSize);
      ExtentZero(flashSectorSize);
      SaveOthers(base, pre, count);
      EraseFlashSector(sec);
      RestoreOthers(base, pre, count);
      if SlotsApart(pre, count, fatSectorSize, sizeFactor) {
        FittedExact(d, fatSectorSize, sizeFactor, startSector, count);
      }
    }

    method EraseFlashSectors(first: nat, m: nat)
      requires Valid() && first + m <= |wear|
      modifies flash, this`wear
      ensures Valid() && WornBetween(old(wear), wear, first, first + m)
      ensures Extent(first, flashSectorSize) + Extent(m, flashSectorSize) <= flash.Length
      ensures flash[..] == Splice(old(flash[..]), Extent(first, flashSectorSize), AllErased(Extent(m, flashSectorSize)))
    {
      hide Extent, Splice, AllErased;
      ghost var was, lo := flash[..], Extent(first, flashSectorSize);
      ExtentZero(flashSectorSize);
      ExtentSum(first, m, |wear|, flashSectorSize);
      EraseNothing(was, lo);
      for i := 0 to m
        invariant Valid() && WornBetween(old(wear), wear, first, first + i)
        invariant lo + Extent(i, flashSectorSize) <= flash.Length
        invariant flash[..] == Splice(was, lo, AllErased(Extent(i, flashSectorSize)))
      {
        ExtentSum(first, i, |wear|, flashSectorSize);
        ExtentSum(first, i + 1, |wear|, flashSectorSize);
        ExtentSum(i, 1, i + 1, flashSectorSize);
        EraseFlashSector(first + i);
        EraseJoin(was, lo, Extent(i, flashSectorSize), flashSectorSize);
      }
    }

    // erase_range: if the buffer can hold the FAT sectors, exactly the requested bytes are erased
    // and every other byte keeps its value.  In any case each flash sector the range overlaps
    // is erased exactly once.
    method EraseRange(startAddress: nat, n: nat) returns (err: Error)
      requires Valid() && startAddress + n <= flash.Length
      modifies flash, sectorBuffer, this`wear
      ensures Valid()
      ensures err == if startAddress % fatSectorSize == 0 && n % fatSectorSize == 0 && n != 0 then Ok else InvalidArg
      ensures err != Ok ==> Now() == old(Now()) && wear == old(wear)
      ensures err == Ok ==> Now() == RangeErased(old(Now()), fatSectorSize, sizeFactor, startAddress, n)
      ensures err == Ok && BufferHolds(fatSectorSize, sizeFactor) ==>
        flash[..] == Splice(old(flash[..]), startAddress, AllErased(n))
      ensures err == Ok ==> |wear| == |old(wear)| && forall k :: 0 <= k < |wear| ==>
        wear[k] == old(wear)[k] + if Overlaps(k, startAddress, n, flashSectorSize) then 1 else 0
    {
      hide Extent, Splice, AllErased, Pieces, Bracket, Overlaps, Steps, Counts, Fitted;
      if startAddress % fatSectorSize != 0 || n % fatSectorSize != 0 || n == 0 {
        return InvalidArg;
      }
      var preCount, restCount, postCount, postStart;
      ghost var first, m;
      preCount, restCount, postCount, postStart, first, m := PlanPieces(startAddress, n);
      ErasePieces(startAddress, n, preCount, restCount, postCount, postStart, first, m);
      ghost var last := first + m + if postCount > 0 then 1 else 0;
      forall k | 0 <= k < |wear|
        ensures wear[k] == old(wear)[k] + if Overlaps(k, startAddress, n, flashSectorSize) then 1 else 0
      {
        OverlapIff(k, startAddress, n, flashSectorSize, startAddress / fatSectorSize / sizeFactor, last);
      }
      return Ok;
    }

    // How many FAT sectors go into each piece.
    method PieceCounts(startSector: nat, sectors: nat)
        returns (ghost pre0: nat, preCount: nat, restCount: nat, postCount: nat)
      requires 0 < sizeFactor
      ensures Counts(startSector, sectors, sizeFactor, pre0, preCount, restCount, postCount)
      ensures PieceSizes(startSector, sectors, sizeFactor) == (preCount, restCount, postCount)
    {
      var preStart := startSector % sizeFactor;
      preCount := sizeFactor - preStart;
      if preCount > sectors {
        preCount := sectors;
      }
      pre0 := preCount;
      postCount := (sectors - preCount) % sizeFactor;
      restCount := sectors - preCount - postCount;
      if preCount == sizeFactor && preStart == 0 {
        restCount := restCount + sizeFactor;
        preCount := 0;
      }
    }

    // The sizes and places of the pieces, as erase_range computes them.
    method PlanPieces(startAddress: nat, n: nat)
      returns (preCount: nat, restCount: nat, postCount: nat, postStart: nat, ghost first: nat, ghost m: nat)
      requires Valid() && 0 < n && startAddress % fatSectorSize == 0 && n % fatSectorSize == 0
      requires startAddress + n <= flash.Length
      ensures Pieces(startAddress, n, fatSectorSize, sizeFactor, |wear|, preCount, restCount, postCount, postStart,
        first, m)
      ensures PieceSizes(startAddress / fatSectorSize, n / fatSectorSize, sizeFactor)
        == (preCount, restCount, postCount)
      ensures postStart == startAddress / fatSectorSize + preCount + restCount
    {
      hide Extent, Pieces, Counts, PieceSizes;
      ghost var pre0, p;
      pre0, preCount, restCount, postCount := PieceCounts(startAddress / fatSectorSize, n / fatSectorSize);
      first, m, p :=
        RangeFacts(startAddress, n, fatSectorSize, sizeFactor, |wear|, pre0, preCount, restCount, postCount);
      ExtentDiv(startAddress + n - Extent(postCount, fatSectorSize), fatSectorSize, p);
      postStart := (startAddress + n - Extent(postCount, fatSectorSize)) / fatSectorSize;
    }

    // The three pieces of erase_range: part of a flash sector, whole flash sectors, part
    // of a flash sector.
    method ErasePieces(startAddress: nat, ghost n: nat, preCount: nat, restCount: nat, postCount: nat, postStart: nat,
        ghost first: nat, ghost m: nat)
      requires Valid() && startAddress + n <= flash.Length
      requires Pieces(startAddress, n, fatSectorSize, sizeFactor, |wear|, preCount, restCount, postCount, postStart,
        first, m)
      modifies flash, sectorBuffer, this`wear
      ensures Valid()
      ensures Now()
        == Steps(old(Now()), fatSectorSize, sizeFactor, startAddress, preCount, restCount, postCount, postStart)
      ensures BufferHolds(fatSectorSize, sizeFactor) ==> flash[..] == Splice(old(flash[..]), startAddress, AllErased(n))
      ensures WornBetween(old(wear), wear, startAddress / fatSectorSize / sizeFactor,
        first + m + if postCount > 0 then 1 else 0)
      ensures Bracket(startAddress, n, flashSectorSize, startAddress / fatSectorSize / sizeFactor,
        first + m + if postCount > 0 then 1 else 0)
    {
      hide Extent, Splice, AllErased, PieceAt, WornBetween, Bracket, Piece, Emptied;
      assert 0 < fatSectorSize && 0 < sizeFactor && 0 < flashSectorSize == Extent(sizeFactor, fatSectorSize);
      PiecesGive(startAddress, n, fatSectorSize, sizeFactor, |wear|, preCount, restCount, postCount, postStart, first,
        m);
      ghost var d := Now();
      if BufferHolds(fatSectorSize, sizeFactor) {
        StepsExact(d, startAddress, n, fatSectorSize, sizeFactor, |wear|, preCount, restCount, postCount, postStart,
          first, m);
      }
      hide Valid, Pieces;
      var restStart := startAddress + Extent(preCount, fatSectorSize);
      ghost var w0, start := wear, startAddress / fatSectorSize / sizeFactor;
      FitPiece(startAddress / fatSectorSize, preCount, start);
      ghost var w1 := wear;
      WornLength(w0, w1, start, first);
      EraseWhole(restStart, restCount, first, m);
      ghost var w2 := wear;
      WornLength(w1, w2, first, first + m);
      FitPiece(postStart, postCount, first + m);
      WornJoin(w0, w1, w2, start, first, first + m);
      WornJoin(w0, w2, wear, start, first + m, first + m + if postCount > 0 then 1 else 0);
    }

    // The middle piece: whole flash sectors, if any.
    method EraseWhole(restStart: nat, restCount: nat, ghost first: nat, ghost m: nat)
      requires Valid() && first + m <= |wear| && restStart + Extent(restCount, fatSectorSize) <= flash.Length
      requires Extent(restCount, fatSectorSize) == Extent(m, flashSectorSize)
      requires if restCount > 0 then
          restCount / sizeFactor == m && restStart / flashSectorSize == first
            && restStart == Extent(first, flashSectorSize)
        else m == 0
      modifies flash, this`wear
      ensures Valid()
      ensures Now() == Emptied(old(Now()), restStart, Extent(restCount, fatSectorSize))
      ensures WornBetween(old(wear), wear, first, first + m)
    {
      hide Extent, Splice, AllErased;
      if restCount > 0 {
        EraseFlashSectors(restStart / flashSectorSize, restCount / sizeFactor);
      } else {
        ExtentZero(flashSectorSize);
        EraseNothing(flash[..], restStart);
      }
    }

    // erase_sector_fit for a piece that may be empty.
    method FitPiece(startSector: nat, count: nat, ghost sec: nat)
      requires Valid() && PieceAt(startSector, count, sizeFactor, sec, |wear|)
      modifies flash, sectorBuffer, this`wear
      ensures Valid()
      ensures Now() == Piece(old(Now()), fatSectorSize, sizeFactor, startSector, count)
      ensures WornBetween(old(wear), wear, sec, if count > 0 then sec + 1 else sec)
    {
      hide Extent, Splice, AllErased, Fitted, SlotsApart;
      if count != 0 {
        EraseSectorFit(startSector, count);
      }
    }
  }

  // ---------- what the pieces make of the flash ----------

  // The buffer keeps apart whatever has to be saved: FAT sectors are whole words, or there is
  // at most one to save.
  predicate BufferHolds(fat: nat, factor: nat) {
    fat % WORD == 0 || factor <= 2
  }

  ghost function Piece(d: Device, fat: nat, factor: nat, startSector: nat, count: nat): (r: Device)
    requires 0 < factor
    ensures |r.mem| == |d.mem| && |r.buf| == |d.buf|
  {
    if count > 0 && Holds(d, fat, factor, startSector / factor) then Fitted(d, fat, factor, startSector, count) else d
  }

  ghost function Emptied(d: Device, lo: nat, n: nat): (r: Device)
    ensures |r.mem| == |d.mem| && |r.buf| == |d.buf|
  {
    if lo + n <= |d.mem| then d.(mem := Splice(d.mem, lo, AllErased(n))) else d
  }

  ghost function Steps(d: Device, fat: nat, factor: nat, start: nat, pre: nat, rest: nat, post: nat,
      postStart: nat): (r: Device)
    requires 0 < fat && 0 < factor
    ensures |r.mem| == |d.mem| && |r.buf| == |d.buf|
  {
    var d1 := Piece(d, fat, factor, start / fat, pre);
    var d2 := Emptied(d1, start + Extent(pre, fat), Extent(rest, fat));
    Piece(d2, fat, factor, postStart, post)
  }

  // What erase_range does to a device, whatever the sizes.
  ghost function RangeErased(d: Device, fat: nat, factor: nat, start: nat, n: nat): Device
    requires 0 < fat && 0 < factor
  {
    var s := start / fat;
    var (pre, rest, post) := PieceSizes(s, n / fat, factor);
    Steps(d, fat, factor, start, pre, rest, post, s + pre + rest)
  }

  // How many of c FAT sectors from s on go into the three pieces.
  function PieceSizes(s: nat, c: nat, factor: nat): (nat, nat, nat)
    requires 0 < factor
  {
    var pre0 := if factor - s % factor > c then c else factor - s % factor;
    var post := (c - pre0) % factor;
    var rest := c - pre0 - post;
    if pre0 == factor && s % factor == 0 then (0, rest + factor, post) else (pre0, rest, post)
  }

  lemma HoldsSlots(fat: nat, factor: nat, startSector: nat, count: nat)
    requires 0 < factor && 0 < count && BufferHolds(fat, factor)
    ensures SlotsApart(startSector % factor, count, fat, factor)
  {
    hide Extent, Slot;
    forall i, j | 0 <= i < j < factor && Kept(i, startSector % factor, count) && Kept(j, startSector % factor, count)
      ensures Slot(i, fat) + fat <= Slot(j, fat)
    {
      ExtentNext(i, j, fat);
      SlotFacts(i, fat);
      SlotFacts(j, fat);
    }
  }

  lemma PieceExact(d: Device, fat: nat, factor: nat, startSector: nat, count: nat, sec: nat, sectors: nat, lo: nat)
    requires 0 < factor && BufferHolds(fat, factor) && PieceAt(startSector, count, factor, sec, sectors)
    requires |d.mem| == Extent(sectors, Extent(factor, fat)) && Extent(factor, fat) <= |d.buf|
    requires lo + Extent(count, fat) <= |d.mem| && (count > 0 ==> lo == Extent(startSector, fat))
    ensures Piece(d, fat, factor, startSector, count).mem == Splice(d.mem, lo, AllErased(Extent(count, fat)))
  {
    hide Extent, Fitted, Splice, SlotsApart, AllErased;
    if count > 0 {
      HoldsSlots(fat, factor, startSector, count);
      ExtentSum(sec, 1, sectors, Extent(factor, fat));
      ExtentZero(Extent(factor, fat));
      FittedExact(d, fat, factor, startSector, count);
    } else {
      ExtentZero(fat);
      EraseNothing(d.mem, lo);
    }
  }

  lemma StepsExact(d: Device, start: nat, n: nat, fat: nat, factor: nat, sectors: nat,
      pre: nat, rest: nat, post: nat, postStart: nat, first: nat, m: nat)
    requires 0 < fat && 0 < factor && BufferHolds(fat, factor) && start + n <= |d.mem|
    requires |d.mem| == Extent(sectors, Extent(factor, fat)) && Extent(factor, fat) <= |d.buf|
    requires 0 < Extent(factor, fat) && Pieces(start, n, fat, factor, sectors, pre, rest, post, postStart, first, m)
    ensures Steps(d, fat, factor, start, pre, rest, post, postStart).mem == Splice(d.mem, start, AllErased(n))
  {
    hide Extent, Splice, AllErased, PieceAt, Bracket, Piece;
    PiecesGive(start, n, fat, factor, sectors, pre, rest, post, postStart, first, m);
    hide Pieces;
    var restStart, a, b, c := start + Extent(pre, fat), Extent(pre, fat), Extent(rest, fat), Extent(post, fat);
    PieceExact(d, fat, factor, start / fat, pre, start / fat / factor, sectors, start);
    var d1 := Piece(d, fat, factor, start / fat, pre);
    var d2 := Emptied(d1, restStart, b);
    PieceExact(d2, fat, factor, postStart, post, first + m, sectors, restStart + b);
    EraseThree(d.mem, d1.mem, d2.mem, Piece(d2, fat, factor, postStart, post).mem, start, a, b, c);
  }

  // Every range of every content of such a flash is erased without loss.
  ghost predicate ErasesExactly(fat: nat, factor: nat, sectors: nat)
    requires 0 < fat && 0 < factor
  {
    forall d: Device, start: nat, n: nat :: RangeOf(d, fat, factor, sectors, start, n) ==>
      RangeErased(d, fat, factor, start, n).mem == Splice(d.mem, start, AllErased(n))
  }

  // A range that erase_range accepts, on a flash of this many sectors.
  ghost predicate RangeOf(d: Device, fat: nat, factor: nat, sectors: nat, start: nat, n: nat)
    requires 0 < fat
  {
    && |d.mem| == Extent(sectors, Extent(factor, fat)) && |d.buf| == Extent(factor, fat)
    && 0 < n && start % fat == 0 && n % fat == 0 && start + n <= |d.mem|
  }

  // erase_range is exact for every range and content if and only if FAT sectors are whole words
  // or a flash sector has at most two of them.
  lemma RangeExactIff(fat: nat, factor: nat, sectors: nat)
    requires 0 < fat && 0 < factor && 0 < sectors
    ensures ErasesExactly(fat, factor, sectors) <==> BufferHolds(fat, factor)
  {
    hide Extent, RangeErased;
    if BufferHolds(fat, factor) {
      forall d: Device, start: nat, n: nat | RangeOf(d, fat, factor, sectors, start, n)
        ensures RangeErased(d, fat, factor, start, n).mem == Splice(d.mem, start, AllErased(n))
      {
        RangeErasedExactly(d, fat, factor, sectors, start, n);
      }
    } else {
      var d, start := RangeLoses(fat, factor, sectors);
    }
  }

  lemma RangeErasedExactly(d: Device, fat: nat, factor: nat, sectors: nat, start: nat, n: nat)
    requires 0 < fat && 0 < factor && BufferHolds(fat, factor) && RangeOf(d, fat, factor, sectors, start, n)
    ensures RangeErased(d, fat, factor, start, n).mem == Splice(d.mem, start, AllErased(n))
  {
    hide Extent, Steps, Pieces, Counts, PieceSizes, Splice, AllErased;
    var s, c := start / fat, n / fat;
    var (pre, rest, post) := PieceSizes(s, c, factor);
    var pre0 := SizesAreCounts(s, c, factor);
    ExtentOrder(0, factor, fat);
    ExtentZero(fat);
    var first, m, postStart := RangeFacts(start, n, fat, factor, sectors, pre0, pre, rest, post);
    StepsExact(d, start, n, fat, factor, sectors, pre, rest, post, postStart, first, m);
  }

  lemma SizesAreCounts(s: nat, c: nat, factor: nat) returns (pre0: nat)
    requires 0 < factor
    ensures var (pre, rest, post) := PieceSizes(s, c, factor); Counts(s, c, factor, pre0, pre, rest, post)
  {
    pre0 := if factor - s % factor > c then c else factor - s % factor;
  }

  // Otherwise erasing the last FAT sector of the first flash sector loses a byte of the first.
  lemma RangeLoses(fat: nat, factor: nat, sectors: nat) returns (d: Device, start: nat)
    requires 0 < fat && 0 < factor && 0 < sectors && !BufferHolds(fat, factor)
    ensures RangeOf(d, fat, factor, sectors, start, fat)
    ensures RangeErased(d, fat, factor, start, fat).mem != Splice(d.mem, start, AllErased(fat))
  {
    hide Extent, Fitted, Splice, AllErased;
    var last, size := factor - 1, Extent(factor, fat);
    var length := Extent(sectors, size);
    start := Extent(last, fat);
    DivUnique(last, factor, 0, last);
    DivUnique(1, factor, 0, 1);
    ExtentZero(size);
    ExtentZero(fat);
    ExtentNext(0, sectors, size);
    ExtentNext(last, factor, fat);
    ExtentDiv(start, fat, last);
    ExtentDiv(fat, fat, 1);
    FirstTwoOverlap(fat);
    d := LosesAt(fat, factor, last, 1, length, 0, 1);
    EraseNothing(Fitted(d, fat, factor, last, 1).mem, start + fat);
  }

  lemma FirstTwoOverlap(fat: nat)
    requires fat % WORD != 0
    ensures Slot(1, fat) < Slot(0, fat) + fat
  {
  }

  // For instance: two-byte FAT sectors in a flash sector of eight bytes.  Erasing the last one
  // replaces the first by the second.
  lemma FirstSectorLost(buf: seq<byte>)
    requires |buf| == 8
    ensures RangeOf(Device([1, 2, 3, 4, 5, 6, 7, 8], buf), 2, 4, 1, 6, 2)
    ensures RangeErased(Device([1, 2, 3, 4, 5, 6, 7, 8], buf), 2, 4, 6, 2).mem == [3, 4, 3, 4, 5, 6, ERASED, ERASED]
  {
    var d := Device([1, 2, 3, 4, 5, 6, 7, 8], buf);
    TwoByteSectors();
    assert PieceSizes(3, 1, 4) == (1, 0, 0);
    assert Holds(d, 2, 4, 0);
    var b := SavedTwice(d);
    hide SavedBuffer, WrittenBack, Extent, Slot, Splice;
    assert Splice(d.mem, 0, AllErased(8)) == AllErased(8) by { ErasedAll(d.mem); }
    var m := BackTwice(Device(AllErased(8), b));
    EraseNothing(m, 8);
  }

  lemma ErasedAll(mem: seq<byte>)
    ensures Splice(mem, 0, AllErased(|mem|)) == AllErased(|mem|)
  {
  }

  lemma TwoByteSectors()
    ensures Extent(0, 2) == 0 && Extent(1, 2) == 2 && Extent(2, 2) == 4 && Extent(3, 2) == 6 && Extent(4, 2) == 8
    ensures Slot(0, 2) == 0 && Slot(1, 2) == 0 && Slot(2, 2) == 4
    ensures Extent(0, 8) == 0 && Extent(1, 8) == 8
  {
  }

  lemma SavedTwice(d: Device) returns (b: seq<byte>)
    requires d.mem == [1, 2, 3, 4, 5, 6, 7, 8] && |d.buf| == 8 && Extent(4, 2) == 8
    ensures b == SavedBuffer(d, 0, 3, 1, 2, 4) && |b| == 8 && b[..2] == [3, 4] && b[4..6] == [5, 6]
  {
    TwoByteSectors();
    hide Extent, Slot, Splice;
    assert d.mem[2..4] == [3, 4] && d.mem[4..6] == [5, 6];
    var b2 := SavedBuffer(d, 0, 3, 1, 2, 2);
    assert b2 == Splice(SavedBuffer(d, 0, 3, 1, 2, 1), 0, [3, 4]);
    assert b2[0..2] == [3, 4];
    b := SavedBuffer(d, 0, 3, 1, 2, 4);
    assert b == SavedBuffer(d, 0, 3, 1, 2, 3) == Splice(b2, 4, [5, 6]);
    OtherPiece(b2, 4, [5, 6], 0, 2);
    assert b[4..6] == [5, 6] && b[0..2] == b[..2];
  }

  lemma BackTwice(e: Device) returns (m: seq<byte>)
    requires e.mem == AllErased(8) && |e.buf| == 8 && e.buf[..2] == [3, 4] && e.buf[4..6] == [5, 6] && Extent(4, 2) == 8
    ensures m == WrittenBack(e, 0, 3, 1, 2, 4) == [3, 4, 3, 4, 5, 6, ERASED, ERASED]
  {
    TwoByteSectors();
    hide Extent, Slot, Splice, Programmed;
    assert e.buf[0..2] == e.buf[..2];
    var m1 := WrittenBack(e, 0, 3, 1, 2, 1);
    assert WrittenBack(e, 0, 3, 1, 2, 0) == e.mem;
    assert m1 == Programmed(e.mem, 0, [3, 4]);
    PutTwo(e.mem, 0, 3, 4);
    var m2 := WrittenBack(e, 0, 3, 1, 2, 2);
    assert m2 == Programmed(m1, 2, [3, 4]);
    PutTwo(m1, 2, 3, 4);
    m := WrittenBack(e, 0, 3, 1, 2, 4);
    assert m == WrittenBack(e, 0, 3, 1, 2, 3) == Programmed(m2, 4, [5, 6]);
    PutTwo(m2, 4, 5, 6);
  }

  lemma PutTwo(mem: seq<byte>, p: nat, x: byte, y: byte)
    requires p + 2 <= |mem| && mem[p] == mem[p + 1] == ERASED
    ensures Programmed(mem, p, [x, y]) == mem[p := x][p + 1 := y]
  {
    ProgramErased(mem, p, [x, y]);
  }

  // The pieces follow each other, make up the range, and lie where their erasure assumes.
  predicate Pieces(start: nat, n: nat, fat: nat, factor: nat, count: nat, pre: nat, rest: nat, post: nat,
      postStart: nat, first: nat, m: nat)
    requires 0 < fat && 0 < factor
  {
    var s, size, restStart := start / fat, Extent(factor, fat), start + Extent(pre, fat);
    && 0 < size && start == Extent(s, fat)
    && Extent(pre, fat) + Extent(m, size) + Extent(post, fat) == n
    && rest / factor == m && (rest == 0 <==> m == 0) && Extent(rest, fat) == Extent(m, size)
    && PieceAt(s, pre, factor, s / factor, count)
    && first == (if pre > 0 then s / factor + 1 else s / factor) && first + m <= count
    && (rest > 0 ==> restStart / size == first && restStart == Extent(first, size))
    && PieceAt(postStart, post, factor, first + m, count)
    && (post > 0 ==> Extent(postStart, fat) == restStart + Extent(m, size))
    && Bracket(start, n, size, s / factor, first + m + if post > 0 then 1 else 0)
  }

  lemma PiecesGive(start: nat, n: nat, fat: nat, factor: nat, count: nat, pre: nat, rest: nat, post: nat,
      postStart: nat, first: nat, m: nat)
    requires 0 < fat && 0 < factor && 0 < Extent(factor, fat)
    requires Pieces(start, n, fat, factor, count, pre, rest, post, postStart, first, m)
    ensures var s, size, restStart := start / fat, Extent(factor, fat), start + Extent(pre, fat);
      && start == Extent(s, fat) && Extent(pre, fat) + Extent(m, size) + Extent(post, fat) == n
      && Extent(rest, fat) == Extent(m, size)
      && PieceAt(s, pre, factor, s / factor, count) && PieceAt(postStart, post, factor, first + m, count)
      && first == (if pre > 0 then s / factor + 1 else s / factor) && first + m <= count
      && (if rest > 0 then rest / factor == m && restStart / size == first && restStart == Extent(first, size)
        else m == 0)
      && (post > 0 ==> restStart + Extent(m, size) == Extent(postStart, fat))
      && Bracket(start, n, size, s / factor, first + m + if post > 0 then 1 else 0)
  {
    hide Extent, PieceAt, Bracket;
  }

  // A non-empty piece lies within flash sector `sec`.
  predicate PieceAt(startSector: nat, count: nat, factor: nat, sec: nat, sectors: nat)
    requires 0 < factor
  {
    count > 0 ==> startSector / factor == sec < sectors && startSector % factor + count <= factor
  }

  ghost predicate WornBetween(was: seq<nat>, now: seq<nat>, a: nat, b: nat) {
    |now| == |was| && forall k :: 0 <= k < |was| ==> now[k] == was[k] + if a <= k < b then 1 else 0
  }

  lemma WornLength(w0: seq<nat>, w1: seq<nat>, a: nat, b: nat)
    requires WornBetween(w0, w1, a, b)
    ensures |w1| == |w0|
  {
  }

  lemma WornJoin(w0: seq<nat>, w1: seq<nat>, w2: seq<nat>, a: nat, b: nat, c: nat)
    requires a <= b <= c && WornBetween(w0, w1, a, b) && WornBetween(w1, w2, b, c)
    ensures WornBetween(w0, w2, a, c)
  {
  }

  // Flash sector k shares bytes with the range of n bytes at lo.
  predicate Overlaps(k: nat, lo: nat, n: nat, size: nat) {
    Extent(k, size) < lo + n && lo < Extent(k + 1, size)
  }

  lemma EraseNothing(mem: seq<byte>, lo: nat)
    requires lo <= |mem|
    ensures mem == Splice(mem, lo, AllErased(0))
  {
  }

  // The sizes of the pieces of c FAT sectors from sector s on; pre0 is the first one before a
  // whole flash sector is moved to the middle piece.
  predicate Counts(s: nat, c: nat, factor: nat, pre0: nat, pre: nat, rest: nat, post: nat)
    requires 0 < factor
  {
    && pre0 == (if factor - s % factor > c then c else factor - s % factor)
    && post == (c - pre0) % factor
    && pre == (if pre0 == factor && s % factor == 0 then 0 else pre0)
    && rest == c - pre0 - post + (if pre0 == factor && s % factor == 0 then factor else 0)
  }

  // The division of c FAT sectors from s on into a first piece inside a flash sector, m
  // whole flash sectors from `first` on, and a last piece at the start of a flash sector.
  lemma PlanFacts(s: nat, c: nat, factor: nat, pre0: nat, post: nat, pre: nat, rest: nat) returns (first: nat, m: nat)
    requires 0 < c && 0 < factor && Counts(s, c, factor, pre0, pre, rest, post)
    ensures pre + rest + post == c && rest == m * factor && rest / factor == m && post < factor
    ensures if pre > 0 then s % factor + pre <= factor && first == s / factor + 1
      else s % factor == 0 && first == s / factor
    ensures rest > 0 || post > 0 ==> s + pre == first * factor
    ensures post > 0 ==> (s + pre + rest) / factor == first + m && (s + pre + rest) % factor == 0
  {
    hide Counts;
    CountsShape(s, c, factor, pre0, pre, rest, post);
    first := if pre > 0 then s / factor + 1 else s / factor;
    m := PlanRest(c - pre0, factor, post, rest, pre == 0);
    if rest > 0 || post > 0 {
      PlanStart(s, factor, pre, first);
      PlanPost(s + pre, rest, factor, first, m);
    }
  }

  lemma PlanStart(s: nat, factor: nat, pre: nat, first: nat)
    requires 0 < factor && first == (if pre > 0 then s / factor + 1 else s / factor)
    requires s % factor + pre == (if pre > 0 then factor else 0)
    ensures s + pre == first * factor
  {
    var sec := s / factor;
    assert s == sec * factor + s % factor;
    assert (sec + 1) * factor == sec * factor + factor;
  }

  lemma CountsShape(s: nat, c: nat, factor: nat, pre0: nat, pre: nat, rest: nat, post: nat)
    requires 0 < c && 0 < factor && Counts(s, c, factor, pre0, pre, rest, post)
    ensures pre0 <= c && post == (c - pre0) % factor < factor && s % factor < factor
    ensures pre + rest + post == c && rest == c - pre0 - post + (if pre == 0 then factor else 0)
    ensures if pre > 0 then s % factor + pre <= factor else s % factor == 0
    ensures rest > 0 || post > 0 ==> s % factor + pre == (if pre > 0 then factor else 0)
  {
  }

  lemma PlanRest(r: nat, factor: nat, post: nat, rest: nat, extra: bool) returns (m: nat)
    requires 0 < factor && post == r % factor
    requires rest == r - post + (if extra then factor else 0)
    ensures rest == m * factor && rest / factor == m
  {
    var q := r / factor;
    assert r == q * factor + post;
    assert (q + 1) * factor == q * factor + factor;
    m := if extra then q + 1 else q;
    DivUnique(rest, factor, m, 0);
  }

  lemma PlanPost(x: nat, rest: nat, factor: nat, first: nat, m: nat)
    requires 0 < factor && x == first * factor && rest == m * factor
    ensures (x + rest) / factor == first + m && (x + rest) % factor == 0
  {
    assert (first + m) * factor == first * factor + m * factor;
    DivUnique(x + rest, factor, first + m, 0);
  }

  lemma ExtentMul(m: nat, factor: nat, fat: nat)
    ensures Extent(m * factor, fat) == Extent(m, Extent(factor, fat))
  {
    assert (m * factor) * fat == m * (factor * fat);
  }

  lemma ExtentDiv(x: nat, size: nat, q: nat)
    requires 0 < size && x == Extent(q, size)
    ensures x / size == q && x % size == 0
  {
    DivUnique(x, size, q, 0);
  }

  // The pieces of the range in bytes, and the flash sectors they fall into.
  lemma RangeFacts(start: nat, n: nat, fat: nat, factor: nat, count: nat, pre0: nat, pre: nat, rest: nat, post: nat)
    returns (first: nat, m: nat, postStart: nat)
    requires 0 < fat && 0 < factor && 0 < n && start % fat == 0 && n % fat == 0
    requires start + n <= Extent(count, Extent(factor, fat))
    requires Counts(start / fat, n / fat, factor, pre0, pre, rest, post)
    ensures start + n == Extent(postStart, fat) + Extent(post, fat) && postStart == start / fat + pre + rest
    ensures Pieces(start, n, fat, factor, count, pre, rest, post, postStart, first, m)
  {
    hide Extent, Counts;
    var s, c, size := start / fat, n / fat, Extent(factor, fat);
    ExtentOf(start, fat);
    ExtentOf(n, fat);
    ExtentOrder(0, c, fat);
    ExtentOrder(0, factor, fat);
    ExtentZero(fat);
    first, m := PlanFacts(s, c, factor, pre0, post, pre, rest);
    ExtentSum(pre, rest, c, fat);
    ExtentSum(pre + rest, post, c, fat);
    ExtentSum(s, pre, s + c, fat);
    ExtentSum(s + pre, rest, s + c, fat);
    ExtentMul(m, factor, fat);
    MulSign(m, factor);
    if rest > 0 || post > 0 {
      ExtentMul(first, factor, fat);
      ExtentDiv(start + Extent(pre, fat), size, first);
    }
    postStart := s + pre + rest;
    RangeBracket(s, c, fat, factor, first, m, pre, rest, post);
    var last := first + m + if post > 0 then 1 else 0;
    ExtentOrder(last - 1, count, size);
    ExtentOrder(s / factor, count, size);
  }

  lemma ExtentOf(x: nat, size: nat)
    requires 0 < size && x % size == 0
    ensures x == Extent(x / size, size)
  {
  }

  lemma RangeBracket(s: nat, c: nat, fat: nat, factor: nat, first: nat, m: nat, pre: nat, rest: nat, post: nat)
    requires 0 < c && 0 < fat && 0 < factor && pre + rest + post == c && post < factor
    requires if pre > 0 then s % factor + pre <= factor && first == s / factor + 1
      else s % factor == 0 && first == s / factor
    requires rest > 0 || post > 0 ==> Extent(s + pre, fat) == Extent(first, Extent(factor, fat))
    requires Extent(rest, fat) == Extent(m, Extent(factor, fat)) && (rest == 0 <==> m == 0)
    ensures Bracket(Extent(s, fat), Extent(c, fat), Extent(factor, fat), s / factor,
      first + m + if post > 0 then 1 else 0)
  {
    hide Extent;
    var size, a, p := Extent(factor, fat), s / factor, s % factor;
    ExtentZero(fat);
    ExtentZero(size);
    ExtentSplit(s, factor, fat);
    ExtentSum(a, 1, a + 1, size);
    ExtentOrder(p, factor, fat);
    ExtentSum(pre, rest, c, fat);
    ExtentSum(pre + rest, post, c, fat);
    ExtentSum(s, pre, s + c, fat);
    ExtentOrder(0, post, fat);
    ExtentOrder(post, factor, fat);
    ExtentOrder(0, factor, fat);
    ExtentSum(first, m, first + m, size);
    ExtentSum(first + m, 1, first + m + 1, size);
    if post == 0 && m > 0 {
      ExtentOrder(first + m - 1, first + m, size);
    } else if post == 0 {
      ExtentSum(p, pre, factor, fat);
      ExtentOrder(0, pre, fat);
    }
  }

  // The range begins in flash sector a and ends in flash sector b - 1.
  predicate Bracket(start: nat, n: nat, size: nat, a: nat, b: nat) {
    && a < b
    && Extent(a, size) <= start < Extent(a + 1, size)
    && Extent(b - 1, size) < start + n <= Extent(b, size)
  }

  lemma OverlapIff(k: nat, start: nat, n: nat, size: nat, a: nat, b: nat)
    requires 0 < size && Bracket(start, n, size, a, b)
    ensures Overlaps(k, start, n, size) <==> a <= k < b
  {
    hide Extent;
    ExtentOrder(k, b, size);
    ExtentOrder(b - 1, k, size);
    ExtentOrder(k + 1, a + 1, size);
    ExtentOrder(a, k + 1, size);
  }

  // ---------- why the FAT sector size has to divide the flash sector size ----------

  // The flash sector a FAT sector begins in.
  function HomeSector(s: nat, fat: nat, flashSector: nat): nat
    requires 0 < flashSector
  {
    Extent(s, fat) / flashSector
  }

  // Dividing FAT sector numbers by the size factor gives their flash sectors exactly if
  // the sizes divide; the configuration accepts other sizes as well.
  lemma SectorNumberingExact(fat: nat, flashSector: nat)
    requires 0 < fat <= flashSector
    ensures flashSector / fat >= 1
    ensures (forall s: nat :: HomeSector(s, fat, flashSector) == s / (flashSector / fat)) <==> flashSector % fat == 0
  {
    var factor := flashSector / fat;
    assert flashSector == factor * fat + flashSector % fat;
    MulSign(factor, fat);
    if flashSector % fat == 0 {
      forall s: nat
        ensures HomeSector(s, fat, flashSector) == s / factor
      {
        HomeOfDivided(s, fat, factor);
      }
    } else {
      assert HomeSector(factor, fat, flashSector) == 0 by {
        DivUnique(Extent(factor, fat), flashSector, 0, Extent(factor, fat));
      }
      assert factor / factor == 1 by {
        DivUnique(factor, factor, 1, 0);
      }
    }
  }

  lemma HomeOfDivided(s: nat, fat: nat, factor: nat)
    requires 0 < fat && 0 < factor
    ensures 0 < factor * fat && HomeSector(s, fat, factor * fat) == s / factor
  {
    MulLe(1, factor, fat);
    ExtentSplit(s, factor, fat);
    MulLe(s % factor, factor, fat);
    DivUnique(Extent(s, fat), factor * fat, s / factor, Extent(s % factor, fat));
  }
}
