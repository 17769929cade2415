/** The receiver of chunks, its files, and a process that may die between any two file operations.
    A chunk file grows byte by byte while it is written; only the rename of the meta file is atomic. */
module ChunkProtocol {
  import opened Bytes
  import opened ChunkState

  /** The meta file's contents that loadMeta looks at. */
  datatype Meta = Meta(taskID: string, received: seq<bool>)

  datatype TmpFile = NoTmp | PartialTmp | WholeTmp(meta: Meta)

  datatype Disk = Disk(chunks: map<nat, Bytes>, meta: Option<Meta>, tmp: TmpFile)

  datatype Memory = Memory(received: seq<bool>, receivedN: int)

  datatype Phase =
    | Down
    | Idle
    | Writing(idx: nat, data: Bytes, n: nat)  // data[..n] is in the chunk file
    | Flagging(idx: nat)                      // chunk file whole, flag not set
    | Saving                                  // flag set, tmp file not whole
    | Renaming                                // tmp file whole

  datatype State = State(disk: Disk, mem: Memory, phase: Phase)

  datatype Step =
    | Boot
    | Begin(idx: nat, data: Bytes)
    | WriteByte
    | WriteDone
    | WriteError
    | SetFlag
    | TmpPart
    | TmpDone
    | SaveError
    | Rename
    | Crash

  function CountTrue(flags: seq<bool>): nat {
    if flags == [] then 0 else (if flags[0] then 1 else 0) + CountTrue(flags[1..])
  }

  function NoneReceived(n: nat): seq<bool> {
    seq(n, _ => false)
  }

  /** loadMeta: adopt what was saved if the task and the length match. */
  function Load(m: Manifest, saved: Option<Meta>): Memory
    requires WellFormed(m)
  {
    if saved.Some? && saved.value.taskID == m.taskID && |saved.value.received| == m.chunkCount then
      Memory(saved.value.received, CountTrue(saved.value.received))
    else Memory(NoneReceived(m.chunkCount), 0)
  }

  /** The checks of WriteChunk, for an index in range. */
  predicate Fits(h: Hash, m: Manifest, idx: nat, data: Bytes)
    requires WellFormed(m) && idx < m.chunkCount
  {
    idx < |m.hashes| && h(data) == m.hashes[idx] && |data| == ExpectedSize(m, idx)
  }

  ghost predicate Enabled(h: Hash, m: Manifest, s: State, step: Step)
    requires WellFormed(m)
  {
    match step
    case Boot => s.phase.Down?
    case Begin(idx, data) =>
      s.phase.Idle? && idx < m.chunkCount && idx < |s.mem.received| && !s.mem.received[idx] && Fits(h, m, idx, data)
    case WriteByte => s.phase.Writing? && s.phase.n < |s.phase.data|
    case WriteDone => s.phase.Writing? && s.phase.n == |s.phase.data|
    case WriteError => s.phase.Writing?
    case SetFlag => s.phase.Flagging? && s.phase.idx < |s.mem.received|
    case TmpPart => s.phase.Saving?
    case TmpDone => s.phase.Saving?
    case SaveError => s.phase.Saving? || s.phase.Renaming?
    case Rename => s.phase.Renaming? && s.disk.tmp.WholeTmp?
    case Crash => !s.phase.Down?
  }

  ghost function After(h: Hash, m: Manifest, s: State, step: Step): State
    requires WellFormed(m) && Enabled(h, m, s, step)
  {
    match step
    case Boot => s.(mem := Load(m, s.disk.meta), phase := Idle)
    case Begin(idx, data) =>
      s.(disk := s.disk.(chunks := s.disk.chunks[idx := []]), phase := Writing(idx, data, 0))
    case WriteByte =>
      var p := s.phase;
      s.(disk := s.disk.(chunks := s.disk.chunks[p.idx := p.data[..p.n + 1]]), phase := p.(n := p.n + 1))
    case WriteDone => s.(phase := Flagging(s.phase.idx))
    case WriteError => s.(phase := Idle)
    case SetFlag =>
      s.(mem := Memory(s.mem.received[s.phase.idx := true], s.mem.receivedN + 1), phase := Saving)
    case TmpPart => s.(disk := s.disk.(tmp := PartialTmp))
    case TmpDone => s.(disk := s.disk.(tmp := WholeTmp(Meta(m.taskID, s.mem.received))), phase := Renaming)
    case SaveError => s.(phase := Idle)
    case Rename => s.(disk := s.disk.(meta := Some(s.disk.tmp.meta), tmp := NoTmp), phase := Idle)
    case Crash => s.(phase := Down)
  }

  const EMPTY_DISK := Disk(map[], None, NoTmp)

  ghost predicate IsRun(h: Hash, m: Manifest, run: seq<State>, steps: seq<Step>)
    requires WellFormed(m)
  {
    && |run| == |steps| + 1
    && run[0].disk == EMPTY_DISK && run[0].phase == Down
    && forall i :: 0 <= i < |steps| ==> Enabled(h, m, run[i], steps[i]) && run[i + 1] == After(h, m, run[i], steps[i])
  }

  // ---- the invariant ----

  /** Chunk idx is cached, with the right hash and the right size. */
  ghost predicate Cached(h: Hash, m: Manifest, chunks: map<nat, Bytes>, idx: nat)
    requires WellFormed(m) && idx < m.chunkCount
  {
    idx in chunks && Fits(h, m, idx, chunks[idx])
  }

  ghost predicate FlagsTrue(h: Hash, m: Manifest, chunks: map<nat, Bytes>, flags: seq<bool>)
    requires WellFormed(m)
  {
    && |flags| == m.chunkCount
    && forall i :: 0 <= i < |flags| && flags[i] ==> Cached(h, m, chunks, i)
  }

  ghost predicate Within(a: seq<bool>, b: seq<bool>) {
    |a| == |b| && forall i :: 0 <= i < |a| && a[i] ==> b[i]
  }

  ghost predicate SavedOk(h: Hash, m: Manifest, disk: Disk)
    requires WellFormed(m)
  {
    disk.meta.Some? ==> disk.meta.value.taskID == m.taskID && FlagsTrue(h, m, disk.chunks, disk.meta.value.received)
  }

  ghost predicate MemoryOk(h: Hash, m: Manifest, s: State)
    requires WellFormed(m)
  {
    && FlagsTrue(h, m, s.disk.chunks, s.mem.received)
    && s.mem.receivedN == CountTrue(s.mem.received)
    && (s.disk.meta.Some? ==> Within(s.disk.meta.value.received, s.mem.received))
  }

  ghost predicate PhaseOk(h: Hash, m: Manifest, s: State)
    requires WellFormed(m)
  {
    match s.phase
    case Writing(idx, data, n) =>
      && idx < m.chunkCount && idx < |s.mem.received| && !s.mem.received[idx] && Fits(h, m, idx, data)
      && n <= |data| && idx in s.disk.chunks && s.disk.chunks[idx] == data[..n]
    case Flagging(idx) =>
      idx < m.chunkCount && idx < |s.mem.received| && !s.mem.received[idx] && Cached(h, m, s.disk.chunks, idx)
    case Renaming => s.disk.tmp == WholeTmp(Meta(m.taskID, s.mem.received))
    case _ => true
  }

  ghost predicate Inv(h: Hash, m: Manifest, s: State)
    requires WellFormed(m)
  {
    && SavedOk(h, m, s.disk)
    && (!s.phase.Down? ==> MemoryOk(h, m, s) && PhaseOk(h, m, s))
  }

  lemma {:induction false} CountSet(flags: seq<bool>, i: nat)
    requires i < |flags| && !flags[i]
    ensures CountTrue(flags[i := true]) == CountTrue(flags) + 1
  {
    var set' := flags[i := true];
    if i == 0 {
      assert set'[1..] == flags[1..];
    } else {
      CountSet(flags[1..], i - 1);
      assert set'[1..] == flags[1..][i - 1 := true];
    }
  }

  lemma {:induction false} CountNone(n: nat)
    ensures CountTrue(NoneReceived(n)) == 0
  {
    if n > 0 {
      CountNone(n - 1);
      assert NoneReceived(n)[1..] == NoneReceived(n - 1);
    }
  }

  lemma {:induction false} CountAll(flags: seq<bool>)
    ensures CountTrue(flags) <= |flags|
    ensures CountTrue(flags) == |flags| <==> forall i :: 0 <= i < |flags| ==> flags[i]
  {
    if flags != [] {
      CountAll(flags[1..]);
      assert (forall i :: 0 <= i < |flags| ==> flags[i]) ==> forall i :: 0 <= i < |flags[1..]| ==> flags[1..][i];
      if flags[0] && forall i :: 0 <= i < |flags[1..]| ==> flags[1..][i] {
        forall i | 0 <= i < |flags| ensures flags[i] {
          assert i > 0 ==> flags[i] == flags[1..][i - 1];
        }
      }
    }
  }

  /** Chunk files other than idx, and flags that do not name idx, are not disturbed. */
  lemma OtherChunk(h: Hash, m: Manifest, chunks: map<nat, Bytes>, flags: seq<bool>, idx: nat, data: Bytes)
    requires WellFormed(m) && FlagsTrue(h, m, chunks, flags)
    requires idx < |flags| ==> !flags[idx]
    ensures FlagsTrue(h, m, chunks[idx := data], flags)
  {
    forall i | 0 <= i < |flags| && flags[i] ensures Cached(h, m, chunks[idx := data], i) {
      assert Cached(h, m, chunks, i);
    }
  }

  lemma WriteKeeps(h: Hash, m: Manifest, s: State, idx: nat, data: Bytes, phase: Phase)
    requires WellFormed(m) && SavedOk(h, m, s.disk) && MemoryOk(h, m, s)
    requires idx < |s.mem.received| && !s.mem.received[idx]
    ensures var s' := s.(disk := s.disk.(chunks := s.disk.chunks[idx := data]), phase := phase);
            SavedOk(h, m, s'.disk) && MemoryOk(h, m, s')
  {
    OtherChunk(h, m, s.disk.chunks, s.mem.received, idx, data);
    if s.disk.meta.Some? {
      assert !s.disk.meta.value.received[idx];
      OtherChunk(h, m, s.disk.chunks, s.disk.meta.value.received, idx, data);
    }
  }

  lemma StepKeeps(h: Hash, m: Manifest, s: State, step: Step)
    requires WellFormed(m) && Inv(h, m, s) && Enabled(h, m, s, step)
    ensures Inv(h, m, After(h, m, s, step))
  {
    match step
    case Boot => CountNone(m.chunkCount);
    case Begin(idx, data) => WriteKeeps(h, m, s, idx, [], Writing(idx, data, 0));
    case WriteByte =>
      var p := s.phase;
      WriteKeeps(h, m, s, p.idx, p.data[..p.n + 1], p.(n := p.n + 1));
    case WriteDone => assert s.phase.data[..s.phase.n] == s.phase.data;
    case SetFlag => CountSet(s.mem.received, s.phase.idx);
    case _ =>
  }

  lemma {:induction false} Reachable(h: Hash, m: Manifest, run: seq<State>, steps: seq<Step>, i: nat)
    requires WellFormed(m) && IsRun(h, m, run, steps) && i < |run|
    ensures Inv(h, m, run[i])
  {
    if i > 0 {
      Reachable(h, m, run, steps, i - 1);
      assert Enabled(h, m, run[i - 1], steps[i - 1]);
      StepKeeps(h, m, run[i - 1], steps[i - 1]);
    }
  }

  /** A run of steps from one state to another. */
  ghost predicate Leads(h: Hash, m: Manifest, s: State, steps: seq<Step>, s': State)
    requires WellFormed(m)
    decreases |steps|
  {
    if steps == [] then s == s'
    else Enabled(h, m, s, steps[0]) && Leads(h, m, After(h, m, s, steps[0]), steps[1..], s')
  }

  lemma {:induction false} LeadsKeepsInv(h: Hash, m: Manifest, s: State, steps: seq<Step>, s': State)
    requires WellFormed(m) && Inv(h, m, s) && Leads(h, m, s, steps, s')
    ensures Inv(h, m, s')
    decreases |steps|
  {
    if steps != [] {
      StepKeeps(h, m, s, steps[0]);
      LeadsKeepsInv(h, m, After(h, m, s, steps[0]), steps[1..], s');
    }
  }

  // ---- the theorems ----

  /** Four mebibytes, or for the last chunk what the total size leaves. */
  predicate RightSize(m: Manifest, k: nat, chunks: map<nat, Bytes>) {
    k in chunks && var left := m.totalSize - k * 4194304;
      |chunks[k]| == if k + 1 == m.chunkCount && left > 0 then left else 4194304
  }

  /** Whatever has crashed and resumed so far: a flag that is set, on disk or in memory, names a cached
      chunk of the right hash and size; memory knows at least what the disk knows; the counter is the
      number of flags. */
  lemma CrashSafe(h: Hash, m: Manifest, run: seq<State>, steps: seq<Step>, i: nat, k: nat)
    requires WellFormed(m) && IsRun(h, m, run, steps) && i < |run| && k < m.chunkCount
    ensures run[i].disk.meta.Some? ==>
      && |run[i].disk.meta.value.received| == m.chunkCount
      && (run[i].disk.meta.value.received[k] ==> Cached(h, m, run[i].disk.chunks, k))
    ensures !run[i].phase.Down? ==>
      && |run[i].mem.received| == m.chunkCount
      && (run[i].mem.received[k] ==> Cached(h, m, run[i].disk.chunks, k))
      && (run[i].disk.meta.Some? && run[i].disk.meta.value.received[k] ==> run[i].mem.received[k])
      && run[i].mem.receivedN == CountTrue(run[i].mem.received)
    ensures run[i].disk.meta.Some? && run[i].disk.meta.value.received[k] ==> RightSize(m, k, run[i].disk.chunks)
  {
    Reachable(h, m, run, steps, i);
  }

  /** What a crash costs: only flags that had not been saved yet. */
  lemma ResumeKeepsSaved(h: Hash, m: Manifest, run: seq<State>, steps: seq<Step>, i: nat)
    requires WellFormed(m) && IsRun(h, m, run, steps) && i < |steps|
    requires steps[i] == Boot && run[i].disk.meta.Some?
    ensures run[i + 1].mem.received == run[i].disk.meta.value.received
  {
    Reachable(h, m, run, steps, i);
    assert Enabled(h, m, run[i], steps[i]);
  }

  // ---- assembling ----

  datatype Assembled = Incomplete | MissingChunk(idx: nat) | WrongSize(written: nat) | Done(file: Bytes)

  /** The chunk files from `from` on, joined; None if one is missing. */
  function Join(chunks: map<nat, Bytes>, from: nat, count: nat): Option<Bytes>
    decreases count - from
  {
    if from >= count then Some([])
    else if from !in chunks then None
    else
      var rest := Join(chunks, from + 1, count);
      if rest.None? then None else Some(chunks[from] + rest.value)
  }

  lemma {:induction false} JoinIsConcat(chunks: map<nat, Bytes>, parts: seq<Bytes>, from: nat)
    requires from <= |parts|
    requires forall i :: from <= i < |parts| ==> i in chunks && chunks[i] == parts[i]
    ensures Join(chunks, from, |parts|) == Some(Concat(parts[from..]))
    decreases |parts| - from
  {
    if from < |parts| {
      JoinIsConcat(chunks, parts, from + 1);
      assert parts[from..][1..] == parts[from + 1..];
    }
  }

  /** A cached chunk of this file's manifest is that chunk of the file. */
  lemma CachedIsChunk(h: Hash, m: Manifest, file: Bytes, chunks: map<nat, Bytes>, i: nat)
    requires Describes(h, m, file) && NoSecondPreimage(h, Split(file))
    requires i < m.chunkCount && Cached(h, m, chunks, i)
    ensures chunks[i] == Split(file)[i]
  {
    assert h(chunks[i]) == h(Split(file)[i]);
  }

  lemma AllFlagsJoin(h: Hash, m: Manifest, file: Bytes, chunks: map<nat, Bytes>, flags: seq<bool>)
    requires Describes(h, m, file) && NoSecondPreimage(h, Split(file))
    requires FlagsTrue(h, m, chunks, flags) && CountTrue(flags) == m.chunkCount
    ensures Join(chunks, 0, m.chunkCount) == Some(file)
  {
    var parts := Split(file);
    CountAll(flags);
    forall k | 0 <= k < |parts| ensures k in chunks && chunks[k] == parts[k] {
      assert flags[k];
      CachedIsChunk(h, m, file, chunks, k);
    }
    JoinIsConcat(chunks, parts, 0);
    assert parts[0..] == parts;
    SplitConcat(file);
  }

  /** With all flags set, the cache joins to the sender's file, so the size check cannot fail. */
  lemma CompleteIsTheFile(h: Hash, m: Manifest, run: seq<State>, steps: seq<Step>, i: nat, file: Bytes)
    requires Describes(h, m, file) && NoSecondPreimage(h, Split(file))
    requires IsRun(h, m, run, steps) && i < |run|
    requires !run[i].phase.Down? && run[i].mem.receivedN == m.chunkCount
    ensures Join(run[i].disk.chunks, 0, m.chunkCount) == Some(file)
    ensures |file| == m.totalSize
  {
    Reachable(h, m, run, steps, i);
    AllFlagsJoin(h, m, file, run[i].disk.chunks, run[i].mem.received);
  }
}
