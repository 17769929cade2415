/** Splitting a file into fixed-size chunks, and the manifest that describes them. */
module ChunkState {
  import opened Bytes

  const CHUNK_SIZE := 4194304

  type Digest = seq<byte>

  /** The chunk hash; what is needed of it is stated where it is needed. */
  type Hash = Bytes -> Digest

  datatype Manifest = Manifest(
    taskID: string, fileName: string, totalSize: int, chunkCount: int, hashes: seq<Digest>)

  /** A negative count makes the receiver's constructor panic. A count that differs from the number of
      hashes is accepted. */
  predicate WellFormed(m: Manifest) {
    m.chunkCount >= 0
  }

  // ---- the number of chunks, in 64-bit arithmetic ----

  function Wrap64(x: int): int {
    (x + 0x8000_0000_0000_0000) % 0x1_0000_0000_0000_0000 - 0x8000_0000_0000_0000
  }

  /** Division that truncates toward zero. */
  function Quotient(a: int, b: int): int
    requires b > 0
  {
    if a >= 0 then a / b else -(-a / b)
  }

  function ChunkCount(size: int): int {
    if size <= 0 then 0 else Quotient(Wrap64(size + CHUNK_SIZE - 1), CHUNK_SIZE)
  }

  ghost function Split(file: Bytes): seq<Bytes>
    decreases |file|
  {
    if file == [] then []
    else [file[..Min(CHUNK_SIZE, |file|)]] + Split(file[Min(CHUNK_SIZE, |file|)..])
  }

  lemma {:induction false} SplitConcat(file: Bytes)
    ensures Concat(Split(file)) == file
    decreases |file|
  {
    if file != [] {
      var n := Min(CHUNK_SIZE, |file|);
      SplitConcat(file[n..]);
      assert Split(file)[1..] == Split(file[n..]);
      assert file[..n] + file[n..] == file;
    }
  }

  /** Every chunk but the last is full, and the last holds what is left. */
  lemma {:induction false} SplitSizes(file: Bytes, i: nat)
    requires i < |Split(file)|
    ensures |Split(file)[i]| == Min(CHUNK_SIZE, |file| - i * CHUNK_SIZE) && CHUNK_SIZE == 4 * 1024 * 1024
    ensures |file| - i * CHUNK_SIZE > 0
    ensures i == |Split(file)| - 1 <==> |file| - i * CHUNK_SIZE <= CHUNK_SIZE
    decreases |file|
  {
    var n := Min(CHUNK_SIZE, |file|);
    var rest := file[n..];
    if i > 0 {
      SplitSizes(rest, i - 1);
    } else {
      assert |Split(file)| == 1 <==> Split(rest) == [];
      assert Split(rest) == [] <==> rest == [];
    }
  }

  lemma {:induction false} SplitLength(file: Bytes)
    ensures |Split(file)| == (|file| + CHUNK_SIZE - 1) / CHUNK_SIZE
    decreases |file|
  {
    if file != [] {
      SplitLength(file[Min(CHUNK_SIZE, |file|)..]);
    }
  }

  /** ChunkCount is the number of chunks exactly up to the size at which its addition wraps. */
  lemma ChunkCountExact(size: nat)
    requires size <= MAX_INT64
    ensures ChunkCount(size) == (size + CHUNK_SIZE - 1) / CHUNK_SIZE <==> size <= MAX_INT64 - (CHUNK_SIZE - 1)
  {
  }

  lemma CountOfFile(file: Bytes)
    requires |file| <= MAX_INT64 - (CHUNK_SIZE - 1)
    ensures ChunkCount(|file|) == |Split(file)|
  {
    SplitLength(file);
    ChunkCountExact(|file|);
  }

  function Hashes(h: Hash, chunks: seq<Bytes>): (ds: seq<Digest>)
    ensures |ds| == |chunks|
    ensures forall i :: 0 <= i < |chunks| ==> ds[i] == h(chunks[i])
  {
    seq(|chunks|, i requires 0 <= i < |chunks| => h(chunks[i]))
  }

  ghost function ManifestOf(h: Hash, taskID: string, fileName: string, file: Bytes): Manifest {
    Manifest(taskID, fileName, |file|, |Split(file)|, Hashes(h, Split(file)))
  }

  ghost predicate Describes(h: Hash, m: Manifest, file: Bytes) {
    m.totalSize == |file| && m.chunkCount == |Split(file)| && m.hashes == Hashes(h, Split(file))
  }

  /** What the receiver expects of chunk idx: its size under the manifest. */
  function ExpectedSize(m: Manifest, idx: int): int {
    if idx == m.chunkCount - 1 && m.totalSize - idx * CHUNK_SIZE > 0 then m.totalSize - idx * CHUNK_SIZE
    else CHUNK_SIZE
  }

  /** The receiver's size check passes on every chunk of the file described. */
  lemma ExpectedSizesMatch(h: Hash, m: Manifest, file: Bytes, idx: nat)
    requires Describes(h, m, file) && idx < m.chunkCount
    ensures ExpectedSize(m, idx) == |Split(file)[idx]|
  {
    SplitSizes(file, idx);
  }

  /** No other data has the hash of one of these chunks. */
  ghost predicate NoSecondPreimage(h: Hash, chunks: seq<Bytes>) {
    forall data: Bytes, i :: 0 <= i < |chunks| && h(data) == h(chunks[i]) ==> data == chunks[i]
  }

  // ---- the sender ----

  datatype ReadResult =
    | Eof
    | ReadError
    | Chunk(idx: nat, data: Bytes, sha: Digest)

  datatype ManifestResult = Built(manifest: Manifest) | BuildError

  /** A file opened for reading: `total` is the size the file system reported, `file` what a read
      finds now. */
  class ChunkReader {
    const hash: Hash
    const file: Bytes
    const total: nat
    var pos: nat
    var idx: nat
    var remaining: int

    constructor (hash: Hash, file: Bytes, total: nat)
      ensures this.hash == hash && this.file == file && this.total == total
      ensures pos == 0 && idx == 0 && remaining == total
    {
      this.hash := hash;
      this.file := file;
      this.total := total;
      pos := 0;
      idx := 0;
      remaining := total;
    }

    /** The reader and the file agree on what is left. */
    ghost predicate InStep()
      reads this
    {
      pos <= |file| && remaining == |file| - pos
    }

    method ReadFull(n: nat) returns (data: Bytes, ok: bool)
      modifies this`pos
      ensures ok <==> old(pos) + n <= |file|
      ensures ok ==> data == file[old(pos)..old(pos) + n] && pos == old(pos) + n
    {
      if pos + n > |file| {
        pos := |file|;
        return [], false;
      }
      data := file[pos..pos + n];
      pos := pos + n;
      return data, true;
    }

    /** Both loops read the same way: up to a chunk, or what is left. */
    method Take() returns (data: Bytes, ok: bool)
      requires remaining > 0
      modifies this`pos, this`remaining
      ensures ok <==> old(pos) + Min(CHUNK_SIZE, old(remaining)) <= |file|
      ensures remaining == old(remaining) - if ok then Min(CHUNK_SIZE, old(remaining)) else 0
      ensures ok ==> pos == old(pos) + Min(CHUNK_SIZE, old(remaining)) <= |file|
      ensures old(InStep()) ==> ok && InStep() && [data] + Split(file[pos..]) == Split(file[old(pos)..])
    {
      var n := Min(CHUNK_SIZE, remaining);
      data, ok := ReadFull(n);
      if ok {
        ghost var left := file[old(pos)..];
        assert left[..n] == data && left[n..] == file[pos..];
        remaining := remaining - n;
      }
    }

    method Next() returns (r: ReadResult)
      modifies this
      ensures old(remaining) <= 0 ==> r == Eof
      ensures old(remaining) > 0 && old(pos) + Min(CHUNK_SIZE, old(remaining)) > |file| ==> r == ReadError
      ensures !r.Chunk? ==> idx == old(idx) && remaining == old(remaining)
      ensures old(InStep()) ==> InStep() && !r.ReadError?
      ensures old(InStep()) && r.Eof? ==> Split(file[pos..]) == [] && pos == old(pos)
      ensures old(InStep()) && r.Chunk? ==>
        && r.idx == old(idx) && idx == old(idx) + 1
        && r.sha == hash(r.data)
        && [r.data] + Split(file[pos..]) == Split(file[old(pos)..])
    {
      if remaining <= 0 {
        return Eof;
      }
      var data, ok := Take();
      if !ok {
        return ReadError;
      }
      r := Chunk(idx, data, hash(data));
      idx := idx + 1;
    }

    method BuildManifest(taskID: string, fileName: string) returns (r: ManifestResult)
      modifies this
      ensures old(InStep()) && old(pos) == 0 && total == |file| ==>
        r == Built(ManifestOf(hash, taskID, fileName, file))
      ensures r.Built? ==> r.manifest.taskID == taskID && r.manifest.fileName == fileName && r.manifest.totalSize == total
                           && r.manifest.chunkCount == |r.manifest.hashes|
      ensures old(remaining) > 0 && old(pos) + old(remaining) > |file| ==> r == BuildError
    {
      var hashes: seq<Digest> := [];
      ghost var done: seq<Bytes> := [];
      ghost var agreed := InStep();
      while remaining > 0
        invariant agreed ==> InStep() && done + Split(file[pos..]) == Split(file[old(pos)..])
        invariant hashes == Hashes(hash, done)
        invariant pos + remaining == old(pos) + old(remaining)
        invariant old(remaining) > 0 ==> remaining >= 0
        invariant pos != old(pos) ==> pos <= |file|
      {
        var data, ok := Take();
        if !ok {
          return BuildError;
        }
        hashes := hashes + [hash(data)];
        Associate(done, [data], Split(file[pos..]));
        done := done + [data];
      }
      if agreed && old(pos) == 0 && total == |file| {
        assert file[0..] == file && done + [] == done;
      }
      return Built(Manifest(taskID, fileName, total, |hashes|, hashes));
    }
  }
}
