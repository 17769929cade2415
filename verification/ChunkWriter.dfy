/** The chunk receiver as code, over a file store that outlives it. */
module ChunkWriter {
  import opened Bytes
  import opened ChunkState
  import opened ChunkProtocol

  /** Panic: the index is past the manifest's hashes. */
  datatype WriteResult = BadIndex | AlreadyHave | Panic | HashMismatch | SizeMismatch | Written

  /** Where a process can die inside WriteChunk: with n bytes of the chunk file written, in the middle of
      the tmp file, or just before its rename. */
  datatype Cut = InChunk(n: nat) | InTmp | BeforeRename

  class Store {
    var chunks: map<nat, Bytes>
    var meta: Option<Meta>
    var tmp: TmpFile

    constructor ()
      ensures chunks == map[] && meta == None && tmp == NoTmp
    {
      chunks := map[];
      meta := None;
      tmp := NoTmp;
    }
  }

  class ChunkWriter {
    const hash: Hash
    const manifest: Manifest
    const store: Store
    var received: seq<bool>
    var receivedN: int

    ghost predicate Valid()
      reads this
    {
      WellFormed(manifest) && |received| == manifest.chunkCount
    }

    ghost function Abs(): State
      reads this, store
    {
      State(Disk(store.chunks, store.meta, store.tmp), Memory(received, receivedN), Idle)
    }

    /** NewChunkWriter and loadMeta. */
    constructor (hash: Hash, manifest: Manifest, store: Store)
      requires WellFormed(manifest)
      ensures this.hash == hash && this.manifest == manifest && this.store == store
      ensures Valid()
      ensures Memory(received, receivedN) == Load(manifest, store.meta)
      ensures store.meta.Some? && store.meta.value.taskID == manifest.taskID && |store.meta.value.received| == manifest.chunkCount ==>
        received == store.meta.value.received
      ensures !(store.meta.Some? && store.meta.value.taskID == manifest.taskID && |store.meta.value.received| == manifest.chunkCount) ==>
        receivedN == 0 && forall i :: 0 <= i < |received| ==> !received[i]
      ensures SavedOk(hash, manifest, Disk(store.chunks, store.meta, store.tmp)) ==> Inv(hash, manifest, Abs())
    {
      this.hash := hash;
      this.manifest := manifest;
      this.store := store;
      received := NoneReceived(manifest.chunkCount);
      receivedN := 0;
      new;
      if store.meta.Some? {
        var saved := store.meta.value;
        if saved.taskID == manifest.taskID && |saved.received| == |received| {
          received := saved.received;
          for i := 0 to |received|
            invariant received == saved.received
            invariant receivedN + CountTrue(received[i..]) == CountTrue(received)
          {
            assert received[i..][1..] == received[i + 1..];
            if received[i] {
              receivedN := receivedN + 1;
            }
          }
        }
      }
      CountNone(manifest.chunkCount);
    }

    method SaveMeta()
      modifies store`meta, store`tmp
      ensures store.meta == Some(Meta(manifest.taskID, received)) && store.tmp == NoTmp
    {
      store.tmp := WholeTmp(Meta(manifest.taskID, received));
      store.meta := Some(store.tmp.meta);
      store.tmp := NoTmp;
    }

    method WriteChunk(idx: int, data: Bytes) returns (r: WriteResult)
      requires Valid()
      modifies this`received, this`receivedN, store
      ensures Valid()
      ensures r == if idx < 0 || idx >= manifest.chunkCount then BadIndex
                   else if old(received[idx]) then AlreadyHave
                   else if idx >= |manifest.hashes| then Panic
                   else if hash(data) != manifest.hashes[idx] then HashMismatch
                   else if |data| != ExpectedSize(manifest, idx) then SizeMismatch
                   else Written
      ensures Abs() == if r == Written then WrittenState(manifest, old(Abs()), idx, data) else old(Abs())
      ensures old(Inv(hash, manifest, Abs())) ==> Inv(hash, manifest, Abs())
    {
      if idx < 0 || idx >= manifest.chunkCount {
        return BadIndex;
      }
      if received[idx] {
        return AlreadyHave;
      }
      if idx >= |manifest.hashes| {
        return Panic;
      }
      if hash(data) != manifest.hashes[idx] {
        return HashMismatch;
      }
      var expected := CHUNK_SIZE;
      if idx == manifest.chunkCount - 1 {
        var rem := manifest.totalSize - idx * CHUNK_SIZE;
        if rem > 0 {
          expected := rem;
        }
      }
      if |data| != expected {
        return SizeMismatch;
      }
      if Inv(hash, manifest, Abs()) {
        WrittenKeepsInv(hash, manifest, Abs(), idx, data);
      }
      store.chunks := store.chunks[idx := data];
      received := received[idx := true];
      receivedN := receivedN + 1;
      SaveMeta();
      return Written;
    }

    /** What the disk holds when the process dies inside WriteChunk(idx, data). The writer is lost. */
    method Die(idx: int, data: Bytes, cut: Cut)
      requires Valid()
      modifies store
      ensures (store.chunks, store.meta, store.tmp) ==
              var d := if 0 <= idx < manifest.chunkCount && !received[idx] && Fits(hash, manifest, idx, data)
                       then DeadDisk(manifest, old(Abs()), idx, data, cut) else old(Abs()).disk;
              (d.chunks, d.meta, d.tmp)
      ensures old(Inv(hash, manifest, Abs())) ==> SavedOk(hash, manifest, Disk(store.chunks, store.meta, store.tmp))
    {
      if idx < 0 || idx >= manifest.chunkCount || received[idx] || !Fits(hash, manifest, idx, data) {
        return;
      }
      ghost var steps;
      if Inv(hash, manifest, Abs()) {
        steps := DeathIsARun(hash, manifest, Abs(), idx, data, cut);
        LeadsKeepsInv(hash, manifest, Abs(), steps, Abs().(disk := DeadDisk(manifest, Abs(), idx, data, cut), mem := DeadMemory(Abs(), idx, cut), phase := Down));
      }
      match cut
      case InChunk(n) => store.chunks := store.chunks[idx := data[..Min(n, |data|)]];
      case InTmp => store.chunks, store.tmp := store.chunks[idx := data], PartialTmp;
      case BeforeRename =>
        store.chunks, store.tmp := store.chunks[idx := data], WholeTmp(Meta(manifest.taskID, received[idx := true]));
    }

    method Assemble() returns (r: Assembled)
      requires Valid()
      ensures receivedN != manifest.chunkCount <==> r == Incomplete
      ensures r.MissingChunk? ==> r.idx !in store.chunks && Join(store.chunks, 0, r.idx).Some?
      ensures r.WrongSize? ==> Join(store.chunks, 0, manifest.chunkCount).Some? && r.written != manifest.totalSize
                               && r.written == |Join(store.chunks, 0, manifest.chunkCount).value|
      ensures r.Done? ==> Join(store.chunks, 0, manifest.chunkCount) == Some(r.file) && |r.file| == manifest.totalSize
      ensures receivedN == manifest.chunkCount && Inv(hash, manifest, Abs()) ==>
        forall file :: Describes(hash, manifest, file) && NoSecondPreimage(hash, Split(file)) ==> r == Done(file)
    {
      if receivedN != manifest.chunkCount {
        return Incomplete;
      }
      forall file | Inv(hash, manifest, Abs()) && Describes(hash, manifest, file) && NoSecondPreimage(hash, Split(file))
        ensures Join(store.chunks, 0, manifest.chunkCount) == Some(file) && |file| == manifest.totalSize
      {
        AllFlagsJoin(hash, manifest, file, store.chunks, received);
      }
      var out: Bytes := [];
      var written := 0;
      var i := 0;
      while i < manifest.chunkCount
        invariant 0 <= i <= manifest.chunkCount && written == |out|
        invariant Join(store.chunks, 0, i) == Some(out)
      {
        JoinOneMore(store.chunks, 0, i);
        if i !in store.chunks {
          JoinMissing(store.chunks, 0, manifest.chunkCount, i);
          return MissingChunk(i);
        }
        out := out + store.chunks[i];
        written := written + |store.chunks[i]|;
        i := i + 1;
      }
      if written != manifest.totalSize {
        return WrongSize(written);
      }
      return Done(out);
    }

    method Cleanup()
      modifies store`chunks, store`meta
      ensures store.chunks == map[] && store.meta == None
    {
      store.chunks := map[];
      store.meta := None;
    }
  }

  lemma {:induction false} JoinOneMore(chunks: map<nat, Bytes>, from: nat, last: nat)
    requires from <= last && Join(chunks, from, last).Some?
    ensures Join(chunks, from, last + 1)
         == (if last in chunks then Some(Join(chunks, from, last).value + chunks[last]) else None)
    decreases last - from
  {
    if from < last {
      JoinOneMore(chunks, from + 1, last);
      if last in chunks {
        Associate(chunks[from], Join(chunks, from + 1, last).value, chunks[last]);
      }
    } else if last in chunks {
      assert chunks[last] + [] == chunks[last] == [] + chunks[last];
    }
  }

  lemma {:induction false} JoinMissing(chunks: map<nat, Bytes>, from: nat, count: nat, i: nat)
    requires from <= i < count && i !in chunks
    ensures Join(chunks, from, count).None?
    decreases count - from
  {
    if from < i {
      JoinMissing(chunks, from + 1, count, i);
    }
  }

  // ---- a whole WriteChunk is a run of the protocol's steps ----

  function WrittenState(m: Manifest, s: State, idx: nat, data: Bytes): State
    requires idx < |s.mem.received|
  {
    var flags := s.mem.received[idx := true];
    State(Disk(s.disk.chunks[idx := data], Some(Meta(m.taskID, flags)), NoTmp), Memory(flags, s.mem.receivedN + 1), Idle)
  }

  lemma {:induction false} LeadsOn(h: Hash, m: Manifest, s: State, a: seq<Step>, mid: State, b: seq<Step>, s': State)
    requires WellFormed(m) && Leads(h, m, s, a, mid) && Leads(h, m, mid, b, s')
    ensures Leads(h, m, s, a + b, s')
    decreases |a|
  {
    if a == [] {
      assert a + b == b;
    } else {
      LeadsOn(h, m, After(h, m, s, a[0]), a[1..], mid, b, s');
      assert (a + b)[0] == a[0] && (a + b)[1..] == a[1..] + b;
    }
  }

  /** Writing up to k bytes, one step each. */
  lemma {:induction false} BytesLead(h: Hash, m: Manifest, s: State, k: nat) returns (steps: seq<Step>, s': State)
    requires WellFormed(m) && s.phase.Writing? && s.phase.n <= k <= |s.phase.data|
    requires s.phase.idx in s.disk.chunks && s.disk.chunks[s.phase.idx] == s.phase.data[..s.phase.n]
    ensures Leads(h, m, s, steps, s')
    ensures s' == s.(disk := s.disk.(chunks := s.disk.chunks[s.phase.idx := s.phase.data[..k]]), phase := s.phase.(n := k))
    decreases k - s.phase.n
  {
    var p := s.phase;
    if p.n == k {
      steps, s' := [], s;
    } else {
      var next := After(h, m, s, WriteByte);
      var more, last := BytesLead(h, m, next, k);
      steps, s' := [WriteByte] + more, last;
      assert steps[1..] == more;
      assert next.disk.chunks[p.idx := p.data[..k]] == s.disk.chunks[p.idx := p.data[..k]];
    }
  }

  /** From the first check to k bytes of the chunk file. */
  lemma BeginLeads(h: Hash, m: Manifest, s: State, idx: nat, data: Bytes, k: nat) returns (steps: seq<Step>)
    requires WellFormed(m) && Enabled(h, m, s, Begin(idx, data)) && k <= |data|
    ensures Leads(h, m, s, steps, s.(disk := s.disk.(chunks := s.disk.chunks[idx := data[..k]]), phase := Writing(idx, data, k)))
  {
    var begun := After(h, m, s, Begin(idx, data));
    var more, last := BytesLead(h, m, begun, k);
    steps := [Begin(idx, data)] + more;
    assert steps[1..] == more;
    assert begun.disk.chunks[idx := data[..k]] == s.disk.chunks[idx := data[..k]];
  }

  lemma FinishLeads(h: Hash, m: Manifest, s: State, idx: nat)
    requires WellFormed(m) && idx < |s.mem.received|
    requires s.phase.Writing? && s.phase.idx == idx && s.phase.n == |s.phase.data|
    ensures var flags := s.mem.received[idx := true];
            Leads(h, m, s, [WriteDone, SetFlag, TmpDone, Rename],
                  State(Disk(s.disk.chunks, Some(Meta(m.taskID, flags)), NoTmp), Memory(flags, s.mem.receivedN + 1), Idle))
  {
    var s1 := After(h, m, s, WriteDone);
    var s2 := After(h, m, s1, SetFlag);
    var s3 := After(h, m, s2, TmpDone);
    var s4 := After(h, m, s3, Rename);
    assert Leads(h, m, s4, [], s4);
    assert [Rename][1..] == [] && Leads(h, m, s3, [Rename], s4);
    assert [TmpDone, Rename][1..] == [Rename] && Leads(h, m, s2, [TmpDone, Rename], s4);
    assert [SetFlag, TmpDone, Rename][1..] == [TmpDone, Rename] && Leads(h, m, s1, [SetFlag, TmpDone, Rename], s4);
    assert [WriteDone, SetFlag, TmpDone, Rename][1..] == [SetFlag, TmpDone, Rename];
  }

  /** The state a successful WriteChunk leaves is reached through protocol steps. */
  lemma WriteChunkIsARun(h: Hash, m: Manifest, s: State, idx: nat, data: Bytes) returns (steps: seq<Step>)
    requires WellFormed(m) && Enabled(h, m, s, Begin(idx, data))
    ensures Leads(h, m, s, steps, WrittenState(m, s, idx, data))
  {
    var first := BeginLeads(h, m, s, idx, data, |data|);
    assert data[..|data|] == data;
    var whole := s.(disk := s.disk.(chunks := s.disk.chunks[idx := data]), phase := Writing(idx, data, |data|));
    FinishLeads(h, m, whole, idx);
    steps := first + [WriteDone, SetFlag, TmpDone, Rename];
    LeadsOn(h, m, s, first, whole, [WriteDone, SetFlag, TmpDone, Rename], WrittenState(m, s, idx, data));
  }

  lemma WrittenKeepsInv(h: Hash, m: Manifest, s: State, idx: nat, data: Bytes)
    requires WellFormed(m) && Inv(h, m, s) && Enabled(h, m, s, Begin(idx, data))
    ensures Inv(h, m, WrittenState(m, s, idx, data))
  {
    var steps := WriteChunkIsARun(h, m, s, idx, data);
    LeadsKeepsInv(h, m, s, steps, WrittenState(m, s, idx, data));
  }

  // ---- and so is a death inside it ----

  function DeadDisk(m: Manifest, s: State, idx: nat, data: Bytes, cut: Cut): Disk
    requires idx < |s.mem.received|
  {
    match cut
    case InChunk(n) => s.disk.(chunks := s.disk.chunks[idx := data[..Min(n, |data|)]])
    case InTmp => s.disk.(chunks := s.disk.chunks[idx := data], tmp := PartialTmp)
    case BeforeRename =>
      s.disk.(chunks := s.disk.chunks[idx := data], tmp := WholeTmp(Meta(m.taskID, s.mem.received[idx := true])))
  }

  function DeadMemory(s: State, idx: nat, cut: Cut): Memory
    requires idx < |s.mem.received|
  {
    if cut.InChunk? then s.mem else Memory(s.mem.received[idx := true], s.mem.receivedN + 1)
  }

  lemma LeadsOne(h: Hash, m: Manifest, s: State, step: Step)
    requires WellFormed(m) && Enabled(h, m, s, step)
    ensures Leads(h, m, s, [step], After(h, m, s, step))
  {
    assert [step][1..] == [];
  }

  lemma LeadsMore(h: Hash, m: Manifest, s: State, steps: seq<Step>, mid: State, step: Step)
    requires WellFormed(m) && Leads(h, m, s, steps, mid) && Enabled(h, m, mid, step)
    ensures Leads(h, m, s, steps + [step], After(h, m, mid, step))
  {
    LeadsOne(h, m, mid, step);
    LeadsOn(h, m, s, steps, mid, [step], After(h, m, mid, step));
  }

  /** What a death leaves on the disk is what some run of protocol steps with a crash at its end leaves. */
  lemma DeathIsARun(h: Hash, m: Manifest, s: State, idx: nat, data: Bytes, cut: Cut) returns (steps: seq<Step>)
    requires WellFormed(m) && Enabled(h, m, s, Begin(idx, data))
    ensures Leads(h, m, s, steps, State(DeadDisk(m, s, idx, data, cut), DeadMemory(s, idx, cut), Down))
  {
    var k := if cut.InChunk? then Min(cut.n, |data|) else |data|;
    steps := BeginLeads(h, m, s, idx, data, k);
    var at := s.(disk := s.disk.(chunks := s.disk.chunks[idx := data[..k]]), phase := Writing(idx, data, k));
    if !cut.InChunk? {
      assert data[..k] == data;
      LeadsMore(h, m, s, steps, at, WriteDone);
      steps, at := steps + [WriteDone], After(h, m, at, WriteDone);
      LeadsMore(h, m, s, steps, at, SetFlag);
      steps, at := steps + [SetFlag], After(h, m, at, SetFlag);
      var tmp := if cut.InTmp? then TmpPart else TmpDone;
      LeadsMore(h, m, s, steps, at, tmp);
      steps, at := steps + [tmp], After(h, m, at, tmp);
    }
    LeadsMore(h, m, s, steps, at, Crash);
    steps := steps + [Crash];
  }

  /** A chunk is accepted for index idx exactly when it is the sender's chunk idx. */
  lemma AcceptsOnlyTheChunk(h: Hash, m: Manifest, file: Bytes, idx: nat, data: Bytes)
    requires Describes(h, m, file) && NoSecondPreimage(h, Split(file)) && idx < m.chunkCount
    ensures Fits(h, m, idx, data) <==> data == Split(file)[idx]
  {
    ExpectedSizesMatch(h, m, file, idx);
  }
}
