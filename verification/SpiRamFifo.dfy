// The FIFO in external RAM: one writer and one reader task share positions and a fill
// count under a mutex, and wake each other through two binary semaphores.  All
// interleavings are modelled as runs of single steps; waits have no timeout.
module SpiRamFifo {
  import opened Bytes
  import opened CircularBytes

  const SPI_FIFO_SIZE: nat := 64

  // Where a task is in its loop; the three states after Want hold the mutex.
  datatype Pc =
    | Loop              // at the loop head
    | Want(n: nat)      // chunk size computed, about to take the mutex
    | Locked(n: nat)    // mutex taken, about to check the fill count
    | Blocked           // check failed, about to give the mutex
    | Copied            // data copied and counters updated, about to give the mutex
    | Waiting           // waiting for its semaphore
    | Signal            // about to give the other side's semaphore
    | Done

  datatype Owner = Nobody | Writer | Reader

  datatype State = State(
    total: nat, mem: seq<byte>, readPos: nat, writePos: nat, fill: nat,
    owner: Owner, readSem: bool, writeSem: bool,
    wPc: Pc, toWrite: seq<byte>, wCalls: seq<seq<byte>>,   // rest of this write call, calls to come
    rPc: Pc, toRead: nat, rCalls: seq<nat>,                // rest of this read call, calls to come
    written: seq<byte>, got: seq<byte>)                    // every byte stored, every byte delivered

  // At most 64 bytes at a time, and never past the end of the storage.
  function Chunk(len: nat, room: nat): (n: nat)
    ensures n <= len && n <= room && n <= 64 && (n == len || n == room || n == 64)
    ensures len > 0 && room > 0 ==> n > 0
  {
    var m := if len > SPI_FIFO_SIZE then SPI_FIFO_SIZE else len;
    if m > room then room else m
  }

  predicate HoldsMutex(pc: Pc) {
    pc.Locked? || pc.Blocked? || pc.Copied?
  }

  // ---------- steps ----------

  predicate Enabled(s: State, who: Owner) {
    match who
    case Nobody => false
    case Writer =>
      if s.wPc.Want? then s.owner.Nobody? else if s.wPc.Waiting? then s.writeSem else !s.wPc.Done?
    case Reader =>
      if s.rPc.Want? then s.owner.Nobody? else if s.rPc.Waiting? then s.readSem else !s.rPc.Done?
  }

  function WriterStep(s: State): State
    requires Enabled(s, Writer) && Inv(s)
  {
    match s.wPc
    case Loop =>
      if s.toWrite != [] then s.(wPc := Want(Chunk(|s.toWrite|, s.total - s.writePos)))
      else if s.wCalls != [] then s.(toWrite := s.wCalls[0], wCalls := s.wCalls[1..])
      else s.(wPc := Done)
    case Want(n) => s.(wPc := Locked(n), owner := Writer)
    case Locked(n) =>
      if s.total - s.fill < n then s.(wPc := Blocked)
      else
        var pos := s.writePos + n;
        s.(wPc := Copied, mem := Splice(s.mem, s.writePos, s.toWrite[..n]), toWrite := s.toWrite[n..],
           written := s.written + s.toWrite[..n], fill := s.fill + n,
           writePos := if pos >= s.total then 0 else pos)
    case Blocked => s.(wPc := Waiting, owner := Nobody)
    case Waiting => s.(wPc := Loop, writeSem := false)
    case Copied => s.(wPc := Signal, owner := Nobody)
    case Signal => s.(wPc := Loop, readSem := true)
  }

  function ReaderStep(s: State): State
    requires Enabled(s, Reader) && Inv(s)
  {
    match s.rPc
    case Loop =>
      if s.toRead > 0 then s.(rPc := Want(Chunk(s.toRead, s.total - s.readPos)))
      else if s.rCalls != [] then s.(toRead := s.rCalls[0], rCalls := s.rCalls[1..])
      else s.(rPc := Done)
    case Want(n) => s.(rPc := Locked(n), owner := Reader)
    case Locked(n) =>
      if s.fill < n then s.(rPc := Blocked)
      else
        var pos := s.readPos + n;
        s.(rPc := Copied, got := s.got + s.mem[s.readPos..pos], toRead := s.toRead - n,
           fill := s.fill - n, readPos := if pos >= s.total then 0 else pos)
    case Blocked => s.(rPc := Waiting, owner := Nobody)
    case Waiting => s.(rPc := Loop, readSem := false)
    case Copied => s.(rPc := Signal, owner := Nobody)
    case Signal => s.(rPc := Loop, writeSem := true)
  }

  // ---------- the invariant ----------

  // The checks of the two loops fail for their current chunk.
  predicate NoSpace(s: State)
    requires s.writePos <= s.total
  {
    s.total < s.fill + Chunk(|s.toWrite|, s.total - s.writePos)
  }

  predicate NoData(s: State)
    requires s.readPos <= s.total
  {
    s.fill < Chunk(s.toRead, s.total - s.readPos)
  }

  // Positions, fill count and content agree.
  predicate Consistent(s: State) {
    && 0 < s.total == |s.mem| && s.readPos < s.total && s.fill <= s.total
    && s.writePos == (if s.readPos + s.fill >= s.total then s.readPos + s.fill - s.total else s.readPos + s.fill)
    && s.written == s.got + Circular(s.mem, s.readPos, s.fill)
  }

  // The mutex belongs to the task that is between taking and giving it.
  predicate MutexOk(s: State) {
    && (s.owner.Writer? <==> HoldsMutex(s.wPc))
    && (s.owner.Reader? <==> HoldsMutex(s.rPc))
  }

  // Program counters agree with the rest of the call, and the chunk size stays up to date
  // although it is computed before the mutex is taken.
  predicate WriterOk(s: State)
    requires s.writePos <= s.total
  {
    && (s.wPc.Want? || s.wPc.Locked? ==> s.toWrite != [] && s.wPc.n == Chunk(|s.toWrite|, s.total - s.writePos))
    && (s.wPc.Blocked? || s.wPc.Waiting? ==> s.toWrite != [])
    && (s.wPc.Done? ==> s.toWrite == [] && s.wCalls == [])
  }

  predicate ReaderOk(s: State)
    requires s.readPos <= s.total
  {
    && (s.rPc.Want? || s.rPc.Locked? ==> s.toRead > 0 && s.rPc.n == Chunk(s.toRead, s.total - s.readPos))
    && (s.rPc.Blocked? || s.rPc.Waiting? ==> s.toRead > 0)
    && (s.rPc.Done? ==> s.toRead == 0 && s.rCalls == [])
  }

  // No wake-up is lost: a task that waits on an empty semaphore still lacks what it waits
  // for, unless the other side is about to signal.
  predicate NoLostWakeup(s: State)
    requires s.writePos <= s.total && s.readPos <= s.total
  {
    WriterNotLost(s) && ReaderNotLost(s)
  }

  predicate WriterNotLost(s: State)
    requires s.writePos <= s.total
  {
    && (s.wPc.Blocked? ==> NoSpace(s))
    && (s.wPc.Waiting? && !s.writeSem ==> NoSpace(s) || s.rPc.Copied? || s.rPc.Signal?)
  }

  predicate ReaderNotLost(s: State)
    requires s.readPos <= s.total
  {
    && (s.rPc.Blocked? ==> NoData(s))
    && (s.rPc.Waiting? && !s.readSem ==> NoData(s) || s.wPc.Copied? || s.wPc.Signal?)
  }

  predicate Inv(s: State) {
    Consistent(s) && MutexOk(s) && WriterOk(s) && ReaderOk(s) && NoLostWakeup(s)
  }

  // ---------- every step keeps it ----------

  // Where the content ends after n more or n fewer bytes, when the piece does not cross the
  // end of the storage.
  lemma StoreAppends(mem: seq<byte>, readPos: nat, fill: nat, item: seq<byte>)
    requires readPos < |mem| && fill + |item| <= |mem| && Wrap(|mem|, readPos + fill) + |item| <= |mem|
    requires Wrap(|mem|, readPos + fill) < |mem|
    ensures Circular(Splice(mem, Wrap(|mem|, readPos + fill), item), readPos, fill + |item|)
         == Circular(mem, readPos, fill) + item
  {
    var w := Wrap(|mem|, readPos + fill);
    assert WriteAt(mem, w, item) == Splice(mem, w, item);
    hide Circular, WriteAt, Splice;
    WriteAppends(mem, readPos, fill, item, 0);
  }

  // The data move of a write: the chunk is appended to what is stored.
  lemma StoreKeepsConsistent(s: State)
    requires Inv(s) && Enabled(s, Writer) && s.wPc.Locked?
    ensures Consistent(WriterStep(s))
  {
    hide Circular, Splice, NoLostWakeup, MutexOk, ReaderOk, Chunk;
    var n := s.wPc.n;
    if s.total - s.fill >= n {
      StoreAppends(s.mem, s.readPos, s.fill, s.toWrite[..n]);
      var g, c := s.got, Circular(s.mem, s.readPos, s.fill);
      assert (g + c) + s.toWrite[..n] == g + (c + s.toWrite[..n]);
    }
  }

  lemma FetchKeepsConsistent(s: State)
    requires Inv(s) && Enabled(s, Reader) && s.rPc.Locked?
    ensures Consistent(ReaderStep(s))
  {
    hide Circular, NoLostWakeup, MutexOk;
    var n := s.rPc.n;
    if s.fill >= n {
      CircularSplit(s.mem, s.readPos, s.fill, n);
      CircularPiece(s.mem, s.readPos, n);
    }
  }

  lemma WriterKeepsConsistent(s: State)
    requires Inv(s) && Enabled(s, Writer)
    ensures Consistent(WriterStep(s))
  {
    hide Circular, Splice, NoLostWakeup, Chunk;
    if s.wPc.Locked? {
      StoreKeepsConsistent(s);
    }
  }

  lemma ReaderKeepsConsistent(s: State)
    requires Inv(s) && Enabled(s, Reader)
    ensures Consistent(ReaderStep(s))
  {
    hide Circular, Splice, NoLostWakeup, Chunk;
    if s.rPc.Locked? {
      FetchKeepsConsistent(s);
    }
  }

  lemma WriterKeepsMutex(s: State)
    requires Inv(s) && Enabled(s, Writer)
    ensures MutexOk(WriterStep(s))
  {
    hide Circular, Splice, NoLostWakeup, Chunk, ReaderOk;
  }

  lemma WriterKeepsOwn(s: State)
    requires Inv(s) && Enabled(s, Writer) && Consistent(WriterStep(s))
    ensures WriterOk(WriterStep(s))
  {
    hide Circular, Splice, NoLostWakeup, Chunk, ReaderOk, MutexOk;
  }

  // The other side's chunk size does not depend on what this side moves.
  lemma WriterKeepsReader(s: State)
    requires Inv(s) && Enabled(s, Writer) && Consistent(WriterStep(s))
    ensures ReaderOk(WriterStep(s))
  {
    hide Circular, Splice, NoLostWakeup, Chunk, WriterOk, MutexOk;
  }

  lemma WriterKeepsWriterWoken(s: State)
    requires Inv(s) && Enabled(s, Writer) && Consistent(WriterStep(s))
    ensures WriterNotLost(WriterStep(s))
  {
    hide Circular, Splice, ReaderOk, ReaderNotLost, Chunk;
  }

  lemma WriterKeepsReaderWoken(s: State)
    requires Inv(s) && Enabled(s, Writer) && Consistent(WriterStep(s))
    ensures ReaderNotLost(WriterStep(s))
  {
    hide Circular, Splice, WriterNotLost, Chunk;
  }

  lemma WriterKeepsWakeup(s: State)
    requires Inv(s) && Enabled(s, Writer) && Consistent(WriterStep(s))
    ensures NoLostWakeup(WriterStep(s))
  {
    hide Inv, Consistent, WriterStep, WriterNotLost, ReaderNotLost;
    WriterKeepsWriterWoken(s);
    WriterKeepsReaderWoken(s);
  }

  lemma WriterKeepsInv(s: State)
    requires Inv(s) && Enabled(s, Writer)
    ensures Inv(WriterStep(s))
  {
    hide Consistent, MutexOk, WriterOk, ReaderOk, NoLostWakeup, WriterStep;
    WriterKeepsConsistent(s);
    WriterKeepsMutex(s);
    WriterKeepsOwn(s);
    WriterKeepsReader(s);
    WriterKeepsWakeup(s);
  }

  lemma ReaderKeepsMutex(s: State)
    requires Inv(s) && Enabled(s, Reader)
    ensures MutexOk(ReaderStep(s))
  {
    hide Circular, Splice, NoLostWakeup, Chunk, WriterOk;
  }

  lemma ReaderKeepsOwn(s: State)
    requires Inv(s) && Enabled(s, Reader) && Consistent(ReaderStep(s))
    ensures ReaderOk(ReaderStep(s))
  {
    hide Circular, Splice, NoLostWakeup, Chunk, WriterOk, MutexOk;
  }

  // The other side's chunk size does not depend on what this side moves.
  lemma ReaderKeepsWriter(s: State)
    requires Inv(s) && Enabled(s, Reader) && Consistent(ReaderStep(s))
    ensures WriterOk(ReaderStep(s))
  {
    hide Circular, Splice, NoLostWakeup, Chunk, ReaderOk, MutexOk;
  }

  lemma ReaderKeepsReaderWoken(s: State)
    requires Inv(s) && Enabled(s, Reader) && Consistent(ReaderStep(s))
    ensures ReaderNotLost(ReaderStep(s))
  {
    hide Circular, Splice, WriterOk, WriterNotLost, Chunk;
  }

  lemma ReaderKeepsWriterWoken(s: State)
    requires Inv(s) && Enabled(s, Reader) && Consistent(ReaderStep(s))
    ensures WriterNotLost(ReaderStep(s))
  {
    hide Circular, Splice, ReaderNotLost, Chunk;
  }

  lemma ReaderKeepsWakeup(s: State)
    requires Inv(s) && Enabled(s, Reader) && Consistent(ReaderStep(s))
    ensures NoLostWakeup(ReaderStep(s))
  {
    hide Inv, Consistent, ReaderStep, WriterNotLost, ReaderNotLost;
    ReaderKeepsReaderWoken(s);
    ReaderKeepsWriterWoken(s);
  }

  lemma ReaderKeepsInv(s: State)
    requires Inv(s) && Enabled(s, Reader)
    ensures Inv(ReaderStep(s))
  {
    hide Consistent, MutexOk, WriterOk, ReaderOk, NoLostWakeup, ReaderStep;
    ReaderKeepsConsistent(s);
    ReaderKeepsMutex(s);
    ReaderKeepsOwn(s);
    ReaderKeepsWriter(s);
    ReaderKeepsWakeup(s);
  }

  // ---------- runs ----------

  function Step(s: State, who: Owner): State
    requires Inv(s) && Enabled(s, who)
  {
    if who.Writer? then WriterStep(s) else ReaderStep(s)
  }

  lemma StepKeepsInv(s: State, who: Owner)
    requires Inv(s) && Enabled(s, who)
    ensures Inv(Step(s, who))
  {
    hide Inv, WriterStep, ReaderStep;
    if who.Writer? {
      WriterKeepsInv(s);
    } else {
      ReaderKeepsInv(s);
    }
  }

  // Runs a schedule; a turn given to a task that cannot move is lost.
  function Run(s: State, schedule: seq<Owner>): (t: State)
    requires Inv(s)
    ensures Inv(t)
    decreases |schedule|
  {
    if schedule == [] then s
    else if !Enabled(s, schedule[0]) then Run(s, schedule[1..])
    else
      StepKeepsInv(s, schedule[0]);
      Run(Step(s, schedule[0]), schedule[1..])
  }

  function Flatten(calls: seq<seq<byte>>): seq<byte> {
    if calls == [] then [] else calls[0] + Flatten(calls[1..])
  }

  function Sum(lens: seq<nat>): nat {
    if lens == [] then 0 else lens[0] + Sum(lens[1..])
  }

  // A fresh FIFO with a writer and a reader that will make these calls.
  function Start(total: nat, mem: seq<byte>, wCalls: seq<seq<byte>>, rCalls: seq<nat>): (s: State)
    requires 0 < total == |mem|
    ensures Inv(s)
  {
    State(total, mem, 0, 0, 0, Nobody, false, false, Loop, [], wCalls, Loop, 0, rCalls, [], [])
  }

  // All bytes the writer has sent or will send, and all bytes the reader has got or will ask for.
  function Stream(s: State): seq<byte> {
    s.written + (s.toWrite + Flatten(s.wCalls))
  }

  function Asked(s: State): nat {
    |s.got| + s.toRead + Sum(s.rCalls)
  }

  lemma ChunkMoves(w: seq<byte>, x: seq<byte>, n: nat, rest: seq<byte>)
    requires n <= |x|
    ensures (w + x[..n]) + (x[n..] + rest) == w + (x + rest)
  {
    assert x == x[..n] + x[n..];
  }

  lemma CallLoaded(calls: seq<seq<byte>>)
    requires calls != []
    ensures [] + Flatten(calls) == calls[0] + Flatten(calls[1..])
  {
  }

  lemma WriterKeepsStream(s: State)
    requires Inv(s) && Enabled(s, Writer)
    ensures var t := WriterStep(s); Stream(t) == Stream(s) && Asked(t) == Asked(s) && t.total == s.total
  {
    hide Circular, Splice, Chunk, NoLostWakeup, MutexOk, ReaderOk, Consistent, Sum, Flatten;
    if s.wPc.Locked? && s.wPc.n <= |s.toWrite| {
      ChunkMoves(s.written, s.toWrite, s.wPc.n, Flatten(s.wCalls));
    } else if s.wPc.Loop? && s.toWrite == [] && s.wCalls != [] {
      CallLoaded(s.wCalls);
    }
  }

  lemma ReaderKeepsStream(s: State)
    requires Inv(s) && Enabled(s, Reader)
    ensures var t := ReaderStep(s); Stream(t) == Stream(s) && Asked(t) == Asked(s) && t.total == s.total
  {
    hide Circular, Splice, Chunk, NoLostWakeup, MutexOk, WriterOk, Flatten;
  }

  lemma StepKeepsStream(s: State, who: Owner)
    requires Inv(s) && Enabled(s, who)
    ensures Stream(Step(s, who)) == Stream(s) && Asked(Step(s, who)) == Asked(s)
    ensures Step(s, who).total == s.total
  {
    hide Inv, WriterStep, ReaderStep, Stream, Asked;
    if who.Writer? {
      WriterKeepsStream(s);
    } else {
      ReaderKeepsStream(s);
    }
  }

  lemma {:induction false} RunKeepsStream(s: State, schedule: seq<Owner>)
    requires Inv(s)
    ensures Stream(Run(s, schedule)) == Stream(s) && Asked(Run(s, schedule)) == Asked(s)
    ensures Run(s, schedule).total == s.total
    decreases |schedule|
  {
    hide Inv, Stream, Asked, Step, Enabled;
    if schedule != [] {
      if Enabled(s, schedule[0]) {
        StepKeepsInv(s, schedule[0]);
        StepKeepsStream(s, schedule[0]);
        RunKeepsStream(Step(s, schedule[0]), schedule[1..]);
      } else {
        RunKeepsStream(s, schedule[1..]);
      }
    }
  }

  // First in, first out, for every interleaving: what the reader has got, followed by what is
  // stored, followed by what is still to be written, is the writer's data.
  lemma DeliveredInOrder(total: nat, mem: seq<byte>, wCalls: seq<seq<byte>>, rCalls: seq<nat>, schedule: seq<Owner>)
    requires 0 < total == |mem|
    ensures
      var t := Run(Start(total, mem, wCalls, rCalls), schedule);
      && |t.mem| == t.total == total && t.readPos < total && t.fill <= total
      && t.writePos == (t.readPos + t.fill) % total
      && t.got + Circular(t.mem, t.readPos, t.fill) + (t.toWrite + Flatten(t.wCalls)) == Flatten(wCalls)
      && |t.got| + t.toRead + Sum(t.rCalls) == Sum(rCalls)
  {
    var s := Start(total, mem, wCalls, rCalls);
    StartStream(s);
    hide Start, Inv, Stream, Asked, Flatten, Sum;
    RunKeepsStream(s, schedule);
    StoredInOrder(Run(s, schedule));
  }

  lemma StartStream(s: State)
    requires s.written == s.toWrite == [] && s.got == [] && s.toRead == 0
    ensures Stream(s) == Flatten(s.wCalls) && Asked(s) == Sum(s.rCalls)
  {
  }

  lemma StoredInOrder(t: State)
    requires Inv(t)
    ensures 0 < t.total == |t.mem| && t.readPos < t.total && t.fill <= t.total
    ensures t.writePos == (t.readPos + t.fill) % t.total
    ensures t.got + Circular(t.mem, t.readPos, t.fill) + (t.toWrite + Flatten(t.wCalls)) == Stream(t)
    ensures |t.got| + t.toRead + Sum(t.rCalls) == Asked(t)
  {
    hide Circular, WriterOk, ReaderOk, MutexOk, NoLostWakeup;
  }

  // ---------- progress ----------

  predicate Stuck(s: State) {
    !Enabled(s, Writer) && !Enabled(s, Reader)
  }

  // The two sides never wait for each other, whatever the storage size.
  lemma NoDeadlock(s: State)
    requires Inv(s)
    ensures !(s.wPc.Waiting? && !s.writeSem && s.rPc.Waiting? && !s.readSem)
    ensures Stuck(s) ==> s.wPc.Done? || s.rPc.Done?
  {
    hide Circular;
  }

  // Nothing can move exactly when both sides are finished, or one is and the other lacks bytes
  // or space that will never come.
  lemma StuckExactly(s: State)
    requires Inv(s)
    ensures Stuck(s) <==>
      || (s.wPc.Done? && s.rPc.Done?)
      || (s.wPc.Done? && s.rPc.Waiting? && !s.readSem && s.fill < Chunk(s.toRead, s.total - s.readPos))
      || (s.rPc.Done? && s.wPc.Waiting? && !s.writeSem
          && s.total - s.fill < Chunk(|s.toWrite|, s.total - s.writePos))
  {
    hide Circular;
    NoDeadlock(s);
  }

  function Rank(pc: Pc): nat {
    match pc
    case Copied => 19
    case Signal => 18
    case Loop => 7
    case Want(_) => 6
    case Locked(_) => 5
    case Blocked => 4
    case Waiting => 3
    case Done => 0
  }

  function Flag(b: bool): nat {
    if b then 10 else 0
  }

  // Bytes and calls to go, tokens in the semaphores, and the places in the two loops.
  function Work(s: State): nat {
    20 * (|s.toWrite| + |Flatten(s.wCalls)| + |s.wCalls| + s.toRead + Sum(s.rCalls) + |s.rCalls|)
    + Flag(s.readSem) + Flag(s.writeSem) + Rank(s.wPc) + Rank(s.rPc)
  }

  lemma WriterWorks(s: State)
    requires Inv(s) && Enabled(s, Writer)
    ensures Work(WriterStep(s)) < Work(s)
  {
    hide Circular, Splice, NoLostWakeup, MutexOk, Chunk, ReaderOk, Sum;
  }

  lemma ReaderWorks(s: State)
    requires Inv(s) && Enabled(s, Reader)
    ensures Work(ReaderStep(s)) < Work(s)
  {
    hide Circular, Splice, NoLostWakeup, MutexOk, Chunk, WriterOk, Flatten;
  }

  lemma StepWorks(s: State, who: Owner)
    requires Inv(s) && Enabled(s, who)
    ensures Work(Step(s, who)) < Work(s)
  {
    hide Inv, WriterStep, ReaderStep, Work;
    if who.Writer? {
      WriterWorks(s);
    } else {
      ReaderWorks(s);
    }
  }

  predicate Fair(rounds: seq<seq<Owner>>) {
    forall i :: 0 <= i < |rounds| ==> Writer in rounds[i] && Reader in rounds[i]
  }

  function RunRounds(s: State, rounds: seq<seq<Owner>>): (t: State)
    requires Inv(s)
    ensures Inv(t)
    decreases |rounds|
  {
    if rounds == [] then s else RunRounds(Run(s, rounds[0]), rounds[1..])
  }

  // A schedule either uses up work or changes nothing and meets only tasks that cannot move.
  lemma {:induction false} RunWorks(s: State, schedule: seq<Owner>)
    requires Inv(s)
    ensures Work(Run(s, schedule)) < Work(s)
         || (Run(s, schedule) == s && forall who :: who in schedule ==> !Enabled(s, who))
    decreases |schedule|
  {
    hide Inv, Work, Step, Enabled;
    if schedule != [] {
      if Enabled(s, schedule[0]) {
        StepKeepsInv(s, schedule[0]);
        StepWorks(s, schedule[0]);
        RunWorks(Step(s, schedule[0]), schedule[1..]);
      } else {
        RunWorks(s, schedule[1..]);
      }
    }
  }

  lemma {:induction false} RoundsFinish(s: State, rounds: seq<seq<Owner>>)
    requires Inv(s) && Fair(rounds) && |rounds| >= Work(s)
    ensures Stuck(RunRounds(s, rounds)) && Stream(RunRounds(s, rounds)) == Stream(s)
    ensures Asked(RunRounds(s, rounds)) == Asked(s)
    decreases |rounds|
  {
    hide Inv, Stream, Asked, Run, Enabled, Work;
    if Stuck(s) {
      StuckStays(s, rounds);
    } else {
      StepWorks(s, if Enabled(s, Writer) then Writer else Reader);
      var t := Run(s, rounds[0]);
      RunWorks(s, rounds[0]);
      RunKeepsStream(s, rounds[0]);
      RoundsFinish(t, rounds[1..]);
    }
  }

  lemma {:induction false} StuckStays(s: State, rounds: seq<seq<Owner>>)
    requires Inv(s) && Stuck(s)
    ensures RunRounds(s, rounds) == s
    decreases |rounds|
  {
    hide Inv, Work;
    if rounds != [] {
      RunWorks(s, rounds[0]);
      StuckNoWork(s, rounds[0]);
      StuckStays(s, rounds[1..]);
    }
  }

  lemma {:induction false} StuckNoWork(s: State, schedule: seq<Owner>)
    requires Inv(s) && Stuck(s)
    ensures Run(s, schedule) == s
    decreases |schedule|
  {
    hide Inv;
    if schedule != [] {
      assert !Enabled(s, schedule[0]);
      StuckNoWork(s, schedule[1..]);
    }
  }

  // Every fair run comes to rest with the side finished that has no more to do than the other:
  // the reader has all the bytes it asked for, in order, if the writer sends as many, and the
  // writer is done if the reader asks for as many, whatever the sizes of the calls and of the
  // storage.  If both totals are equal, everything is delivered.
  lemma FairRunsDeliver(total: nat, mem: seq<byte>, wCalls: seq<seq<byte>>, rCalls: seq<nat>, rounds: seq<seq<Owner>>)
    requires 0 < total == |mem| && Fair(rounds) && |rounds| >= Work(Start(total, mem, wCalls, rCalls))
    ensures
      var t := RunRounds(Start(total, mem, wCalls, rCalls), rounds);
      && t.got <= Flatten(wCalls)
      && (Sum(rCalls) <= |Flatten(wCalls)| ==> t.rPc.Done? && |t.got| == Sum(rCalls))
      && (|Flatten(wCalls)| <= Sum(rCalls) ==> t.wPc.Done? && |Flatten(wCalls)| - |t.got| == t.fill < 64)
      && (|Flatten(wCalls)| == Sum(rCalls) ==> t.got == Flatten(wCalls))
  {
    var s := Start(total, mem, wCalls, rCalls);
    StartStream(s);
    hide Start, Inv, Stream, Asked, Flatten, Sum, Work;
    RoundsFinish(s, rounds);
    FinishedDelivers(RunRounds(s, rounds));
  }

  lemma FinishedDelivers(t: State)
    requires Inv(t) && Stuck(t)
    ensures t.got <= Stream(t)
    ensures Asked(t) <= |Stream(t)| ==> t.rPc.Done? && |t.got| == Asked(t)
    ensures |Stream(t)| <= Asked(t) ==> t.wPc.Done? && |Stream(t)| - |t.got| == t.fill < 64
    ensures |Stream(t)| == Asked(t) ==> t.got == Stream(t)
  {
    hide Circular, Chunk;
    StuckExactly(t);
    StoredInOrder(t);
  }
}
