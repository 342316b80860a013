/** Fixed-size chunking by parallel workers that share one array of block checksums. */
module Chunking {
  import opened Names
  import opened ByteBuffers

  const CHECKSUM_LENGTH := 20
  const WORD := 0x1_0000_0000
  const NO_CHECKSUM: Bytes := [0, 0, 0, 0, 0, 0, 0, 0, 0, 0, 0, 0, 0, 0, 0, 0, 0, 0, 0, 0]

  type BlockSize = b: nat | b > 0 witness 1
  type Digest = d: Bytes | |d| == 20 witness seq(20, _ => 0)

  /** len is a 32-bit field. */
  datatype Chunk = Chunk(offset: nat, len: UInt32)

  // ---- cutting ----

  /** The chunks of the last left bytes; the length is cast to 32 bits, the offset is not. */
  function ChunksFrom(offset: nat, left: nat, blockSize: BlockSize): seq<Chunk>
    decreases left
  {
    if left == 0 then []
    else
      var len := Min(blockSize, left);
      [Chunk(offset, len % WORD)] + ChunksFrom(offset + len, left - len, blockSize)
  }

  function Chunks(size: nat, blockSize: BlockSize): seq<Chunk>
  {
    ChunksFrom(0, size, blockSize)
  }

  /** Non-empty chunks that lie end to end from one offset to another. */
  predicate Partition(chunks: seq<Chunk>, from: nat, to: nat) {
    if chunks == [] then from == to
    else chunks[0].offset == from && chunks[0].len > 0 && Partition(chunks[1..], from + chunks[0].len, to)
  }

  /** No chunk length is truncated: checked on the configured block size and the file size. */
  predicate FitsWord(size: nat, blockSize: BlockSize) {
    size < WORD || blockSize < WORD
  }

  lemma {:induction false} ChunksFromPartition(offset: nat, left: nat, blockSize: BlockSize)
    ensures Partition(ChunksFrom(offset, left, blockSize), offset, offset + left) <==> FitsWord(left, blockSize)
    decreases left
  {
    if left > 0 {
      var len := Min(blockSize, left);
      var rest := ChunksFrom(offset + len, left - len, blockSize);
      assert ChunksFrom(offset, left, blockSize)[1..] == rest;
      ChunksFromPartition(offset + len, left - len, blockSize);
      if len >= WORD && rest != [] {
        assert rest[0].offset == offset + len;
      }
    }
  }

  /** The chunks partition the file exactly when no length is truncated: a block size of 4 GiB or
      more loses data of files that are as large. */
  lemma ChunksPartitionTheFile(size: nat, blockSize: BlockSize)
    ensures Partition(Chunks(size, blockSize), 0, size) <==> FitsWord(size, blockSize)
  {
    ChunksFromPartition(0, size, blockSize);
  }

  /** A 4 GiB file with a 4 GiB block size becomes one empty chunk. */
  lemma TruncationLosesAFile()
    ensures Chunks(WORD, WORD) == [Chunk(0, 0)]
    ensures !Partition(Chunks(WORD, WORD), 0, WORD)
  {
  }

  lemma AtLeast(m: nat, d: nat)
    requires m > 0
    ensures m * d >= d
  {
  }

  lemma Quotient(x: nat, q: nat, r: nat, d: nat)
    requires r < d && x == q * d + r
    ensures x / d == q
  {
    var p, s := x / d, x % d;
    assert x == p * d + s;
    assert (q - p) * d == q * d - p * d == s - r;
    assert (p - q) * d == r - s;
    if q > p {
      AtLeast(q - p, d);
    } else if q < p {
      AtLeast(p - q, d);
    }
  }

  /** There are as many chunks as the block count says, and chunk i starts i blocks in. */
  lemma {:induction false} ChunkIndex(offset: nat, left: nat, blockSize: BlockSize, first: nat)
    requires offset == first * blockSize
    ensures |ChunksFrom(offset, left, blockSize)| == (left + blockSize - 1) / blockSize
    ensures forall i :: 0 <= i < |ChunksFrom(offset, left, blockSize)| ==>
              ChunksFrom(offset, left, blockSize)[i].offset / blockSize == first + i
    decreases left
  {
    if left == 0 {
      Quotient(blockSize - 1, 0, blockSize - 1, blockSize);
    } else {
      var len := Min(blockSize, left);
      Quotient(offset, first, 0, blockSize);
      if left <= blockSize {
        Quotient(left + blockSize - 1, 1, left - 1, blockSize);
        assert ChunksFrom(offset + len, 0, blockSize) == [];
      } else {
        assert offset + blockSize == (first + 1) * blockSize;
        ChunkIndex(offset + blockSize, left - blockSize, blockSize, first + 1);
        var x := left - 1;
        Quotient(x + blockSize, x / blockSize + 1, x % blockSize, blockSize);
      }
    }
  }

  // ---- what a worker computes ----

  /** readn into a zeroed buffer: a file cut short meanwhile leaves zeros. */
  function ReadN(file: Bytes, offset: nat, len: nat): (r: Bytes)
    ensures |r| == len
  {
    seq(len, i requires 0 <= i < len => if offset + i < |file| then file[offset + i] else 0)
  }

  /** One indexing job; encrypt is None for repositories that are not encrypted. */
  datatype Job = Job(file: Bytes, size: nat, blockSize: BlockSize, encrypt: Option<Bytes -> Bytes>, sha1: Bytes -> Digest)

  function Checksum(job: Job, c: Chunk): Digest {
    var block := ReadN(job.file, c.offset, c.len);
    job.sha1(if job.encrypt.Some? && c.len > 0 then job.encrypt.value(block) else block)
  }

  /** What a worker that does not fail leaves in the slot of its chunk: an allocation of zero bytes
      gives NULL, so for an empty chunk the worker leaves before it computes anything. */
  function SlotOf(job: Job, c: Chunk): (slot: Bytes)
    ensures |slot| == CHECKSUM_LENGTH
  {
    if c.len > 0 then Checksum(job, c) else NO_CHECKSUM
  }

  function AllBlocks(file: Bytes, chunks: seq<Chunk>): Bytes {
    if chunks == [] then [] else ReadN(file, chunks[0].offset, chunks[0].len) + AllBlocks(file, chunks[1..])
  }

  /** Blocks of a partition, put together, are the file. */
  lemma {:induction false} BlocksMakeTheFile(file: Bytes, chunks: seq<Chunk>, from: nat)
    requires from <= |file| && Partition(chunks, from, |file|)
    ensures AllBlocks(file, chunks) == file[from..]
    decreases |chunks|
  {
    if chunks != [] {
      PartitionIsForward(chunks[1..], from + chunks[0].len, |file|);
      BlocksMakeTheFile(file, chunks[1..], from + chunks[0].len);
    }
  }

  lemma {:induction false} PartitionIsForward(chunks: seq<Chunk>, from: nat, to: nat)
    requires Partition(chunks, from, to)
    ensures from <= to
    decreases |chunks|
  {
    if chunks != [] {
      PartitionIsForward(chunks[1..], from + chunks[0].len, to);
    }
  }

  // ---- workers and collector, interleaved ----

  datatype Worker = Queued | Copying(done: nat) | Pushed(ok: bool)

  datatype Collector = Waiting(pending: int) | Failed | Finished

  datatype State = State(blkSha1s: Bytes, workers: seq<Worker>, popped: set<nat>, collector: Collector)

  /** Compute: everything up to the checksum, which may fail, unless the chunk is empty; Copy: one
      byte of the memcpy; Push: the chunk enters the queue of finished tasks; Pop: the collector takes
      it, in any order. */
  datatype Step = Compute(w: nat, ok: bool) | CopyByte(w: nat) | Push(w: nat) | Pop(w: nat)

  /** Where byte k of the checksum of chunk w goes: memcpy to idx * CHECKSUM_LENGTH. */
  function Position(job: Job, chunks: seq<Chunk>, w: nat, k: nat): nat
    requires w < |chunks| && job.blockSize > 0
  {
    chunks[w].offset / job.blockSize * CHECKSUM_LENGTH + k
  }

  /** With no blocks there is nothing to allocate for their checksums either, which is a failure. */
  function Start(job: Job): State
  {
    var nBlocks := (job.size + job.blockSize - 1) / job.blockSize;
    var n := |Chunks(job.size, job.blockSize)|;
    State(seq(nBlocks * CHECKSUM_LENGTH, _ => 0), seq(n, _ => Queued), {},
          if nBlocks == 0 then Failed else Waiting(n))
  }

  /** One atomic step; a step that is not possible changes nothing. */
  function Next(job: Job, s: State, step: Step): State
  {
    var chunks := Chunks(job.size, job.blockSize);
    var w := step.w;
    if w >= |s.workers| || |s.workers| != |chunks| then s
    else
      match (step, s.workers[w])
      case (Compute(_, ok), Queued) =>
        s.(workers := s.workers[w := if chunks[w].len == 0 then Pushed(true) else if ok then Copying(0) else Pushed(false)])
      case (CopyByte(_), Copying(k)) =>
        var at := Position(job, chunks, w, k);
        if k < CHECKSUM_LENGTH && at < |s.blkSha1s|
        then
          s.(blkSha1s := s.blkSha1s[at := Checksum(job, chunks[w])[k]], workers := s.workers[w := Copying(k + 1)])
        else s
      case (Push(_), Copying(k)) =>
        if k >= CHECKSUM_LENGTH then s.(workers := s.workers[w := Pushed(true)]) else s
      case (Pop(_), Pushed(ok)) =>
        if s.collector.Waiting? && w !in s.popped
        then
          var pending := s.collector.pending - 1;
          s.(popped := s.popped + {w},
             collector := if !ok then Failed else if pending <= 0 then Finished else Waiting(pending))
        else s
      case _ => s
  }

  function Run(job: Job, steps: seq<Step>): State
  {
    if steps == [] then Start(job) else Next(job, Run(job, steps[..|steps| - 1]), steps[|steps| - 1])
  }

  /** How many checksum bytes of this worker are in place. */
  function Copied(worker: Worker): int {
    match worker
    case Queued => 0
    case Copying(k) => k
    case Pushed(ok) => if ok then CHECKSUM_LENGTH else 0
  }

  /** How many bytes of its slot are final; those of an empty chunk are from the start. */
  function Settled(c: Chunk, worker: Worker): int {
    if c.len == 0 then CHECKSUM_LENGTH else Copied(worker)
  }

  ghost predicate BytesOk(job: Job, chunks: seq<Chunk>, s: State) {
    && |s.workers| == |chunks|
    && |s.blkSha1s| == CHECKSUM_LENGTH * |chunks|
    && (forall w :: 0 <= w < |s.workers| ==> 0 <= Copied(s.workers[w]) <= CHECKSUM_LENGTH)
    && (forall w :: 0 <= w < |s.workers| && s.workers[w].Copying? ==> chunks[w].len > 0)
    && (forall w, k :: 0 <= w < |s.workers| && 0 <= k < Settled(chunks[w], s.workers[w]) ==>
          s.blkSha1s[CHECKSUM_LENGTH * w + k] == SlotOf(job, chunks[w])[k])
  }

  ghost predicate QueueOk(s: State) {
    && (forall w :: w in s.popped ==> w < |s.workers| && s.workers[w].Pushed?)
    && (s.collector.Failed? <==> s.workers == [] || exists w :: w in s.popped && s.workers[w] == Pushed(false))
    && (s.collector.Waiting? ==> s.collector.pending == |s.workers| - |s.popped| > 0)
    && (s.collector.Finished? ==> |s.popped| == |s.workers|)
  }

  ghost predicate Inv(job: Job, s: State)
  {
    BytesOk(job, Chunks(job.size, job.blockSize), s) && QueueOk(s)
  }

  lemma SlotOfChunk(job: Job, w: nat, k: nat)
    requires w < |Chunks(job.size, job.blockSize)|
    ensures Position(job, Chunks(job.size, job.blockSize), w, k) == CHECKSUM_LENGTH * w + k
  {
    ChunkIndex(0, job.size, job.blockSize, 0);
  }

  /** Slots of 20 bytes do not overlap. */
  lemma CopyKeepsBytes(job: Job, s: State, w: nat)
    requires BytesOk(job, Chunks(job.size, job.blockSize), s)
    ensures BytesOk(job, Chunks(job.size, job.blockSize), Next(job, s, CopyByte(w)))
  {
    var chunks, t := Chunks(job.size, job.blockSize), Next(job, s, CopyByte(w));
    if w < |s.workers| && s.workers[w].Copying? && s.workers[w].done < CHECKSUM_LENGTH {
      var k := s.workers[w].done;
      SlotOfChunk(job, w, k);
      forall v, j | 0 <= v < |t.workers| && 0 <= j < Settled(chunks[v], t.workers[v])
        ensures t.blkSha1s[CHECKSUM_LENGTH * v + j] == SlotOf(job, chunks[v])[j]
      {
        if v == w && j == k {
        } else {
          assert CHECKSUM_LENGTH * v + j != CHECKSUM_LENGTH * w + k;
        }
      }
    }
  }

  lemma OthersKeepBytes(job: Job, s: State, step: Step)
    requires BytesOk(job, Chunks(job.size, job.blockSize), s) && !step.CopyByte?
    ensures BytesOk(job, Chunks(job.size, job.blockSize), Next(job, s, step))
  {
  }

  lemma AllPopped(popped: set<nat>, n: nat)
    requires forall w :: w in popped ==> w < n
    ensures |popped| <= n
    ensures |popped| == n ==> forall w :: 0 <= w < n ==> w in popped
    decreases n
  {
    if n == 0 {
      assert popped == {};
    } else {
      var rest := popped - {n - 1};
      AllPopped(rest, n - 1);
      assert n - 1 !in popped ==> rest == popped;
      assert forall w :: 0 <= w < n - 1 && w in rest ==> w in popped;
    }
  }

  lemma PopKeepsQueue(job: Job, s: State, w: nat)
    requires QueueOk(s)
    ensures QueueOk(Next(job, s, Pop(w)))
  {
  }

  lemma OthersKeepQueue(job: Job, s: State, step: Step)
    requires QueueOk(s) && !step.Pop?
    ensures QueueOk(Next(job, s, step))
  {
  }

  lemma {:induction false} EveryRunKeepsInv(job: Job, steps: seq<Step>)
    ensures Inv(job, Run(job, steps))
  {
    if steps == [] {
      ChunkIndex(0, job.size, job.blockSize, 0);
    } else {
      var s, step := Run(job, steps[..|steps| - 1]), steps[|steps| - 1];
      EveryRunKeepsInv(job, steps[..|steps| - 1]);
      match step
      case CopyByte(w) => CopyKeepsBytes(job, s, w); OthersKeepQueue(job, s, step);
      case Pop(w) => OthersKeepBytes(job, s, step); PopKeepsQueue(job, s, w);
      case _ => OthersKeepBytes(job, s, step); OthersKeepQueue(job, s, step);
    }
  }

  /** The 20 bytes of chunk w in the shared array. */
  function Slot(s: State, w: nat): Bytes
    requires CHECKSUM_LENGTH * w + CHECKSUM_LENGTH <= |s.blkSha1s|
  {
    s.blkSha1s[CHECKSUM_LENGTH * w..CHECKSUM_LENGTH * w + CHECKSUM_LENGTH]
  }

  /** Whatever the order of the workers' writes and of their completions, a run that finishes leaves
      the checksums of the chunks in the order of the file, with zeros for the empty chunks; none of
      its workers failed. */
  lemma FinishedRunIsSequential(job: Job, steps: seq<Step>)
    requires Run(job, steps).collector.Finished?
    ensures var chunks, s := Chunks(job.size, job.blockSize), Run(job, steps);
      && |s.blkSha1s| == CHECKSUM_LENGTH * |chunks| && |s.workers| == |chunks|
      && forall w :: 0 <= w < |chunks| ==> s.workers[w] == Pushed(true) && Slot(s, w) == SlotOf(job, chunks[w])
  {
    var chunks, s := Chunks(job.size, job.blockSize), Run(job, steps);
    EveryRunKeepsInv(job, steps);
    AllPopped(s.popped, |s.workers|);
    forall w | 0 <= w < |chunks|
      ensures s.workers[w] == Pushed(true) && Slot(s, w) == SlotOf(job, chunks[w])
    {
      assert w in s.popped;
      assert s.workers[w] == Pushed(true);
      forall k | 0 <= k < CHECKSUM_LENGTH
        ensures Slot(s, w)[k] == SlotOf(job, chunks[w])[k]
      {
        assert s.blkSha1s[CHECKSUM_LENGTH * w + k] == SlotOf(job, chunks[w])[k];
      }
    }
  }

  // ---- chunks that come out empty ----

  /** No length is a multiple of 2^32: neither that of the full blocks nor that of the rest. */
  predicate NoLengthVanishes(size: nat, blockSize: BlockSize) {
    && (size >= blockSize ==> blockSize % WORD != 0)
    && (size % blockSize != 0 ==> size % blockSize % WORD != 0)
  }

  predicate NoneEmpty(chunks: seq<Chunk>) {
    forall w :: 0 <= w < |chunks| ==> chunks[w].len > 0
  }

  lemma {:induction false} NoneEmptyExactly(offset: nat, left: nat, blockSize: BlockSize)
    ensures NoneEmpty(ChunksFrom(offset, left, blockSize)) <==> NoLengthVanishes(left, blockSize)
    decreases left
  {
    if left == 0 {
      Quotient(0, 0, 0, blockSize);
    } else {
      var len := Min(blockSize, left);
      NoneEmptyExactly(offset + len, left - len, blockSize);
      NoneEmptyStep(Chunk(offset, len % WORD), ChunksFrom(offset + len, left - len, blockSize));
      VanishStep(left, blockSize);
    }
  }

  lemma NoneEmptyStep(chunk: Chunk, rest: seq<Chunk>)
    ensures NoneEmpty([chunk] + rest) <==> chunk.len > 0 && NoneEmpty(rest)
  {
    assert ([chunk] + rest)[0] == chunk;
    assert forall w :: 0 <= w < |rest| ==> ([chunk] + rest)[w + 1] == rest[w];
  }

  /** Taking off a block leaves the remainder. */
  lemma Remainder(left: nat, blockSize: BlockSize)
    ensures left < blockSize ==> left % blockSize == left
    ensures left >= blockSize ==> (left - blockSize) % blockSize == left % blockSize
  {
    if left < blockSize {
      Quotient(left, 0, left, blockSize);
    } else {
      var rest := left - blockSize;
      Quotient(left, rest / blockSize + 1, rest % blockSize, blockSize);
    }
  }

  lemma VanishStep(left: nat, blockSize: BlockSize)
    requires left > 0
    ensures var len := Min(blockSize, left);
      NoLengthVanishes(left, blockSize) <==> len % WORD != 0 && NoLengthVanishes(left - len, blockSize)
  {
    Remainder(left, blockSize);
    Remainder(0, blockSize);
  }

  lemma FittingNeverVanishes(size: nat, blockSize: BlockSize)
    requires FitsWord(size, blockSize)
    ensures NoLengthVanishes(size, blockSize)
  {
    Remainder(size, blockSize);
    var rest := size % blockSize;
    assert 0 <= rest < WORD;
    assert rest % WORD == rest;
  }

  ghost predicate SlotsHoldChecksums(job: Job, s: State) {
    && |s.blkSha1s| == CHECKSUM_LENGTH * |Chunks(job.size, job.blockSize)|
    && forall w :: 0 <= w < |Chunks(job.size, job.blockSize)| ==>
         Slot(s, w) == Checksum(job, Chunks(job.size, job.blockSize)[w])
  }

  /** A finished run holds the checksum of every chunk exactly when no chunk length comes out as zero,
      or zeros happen to be the hash of nothing. */
  lemma ChecksumsExactly(job: Job, steps: seq<Step>)
    requires Run(job, steps).collector.Finished?
    ensures SlotsHoldChecksums(job, Run(job, steps)) <==>
            NoLengthVanishes(job.size, job.blockSize) || job.sha1([]) == NO_CHECKSUM
  {
    var chunks, s := Chunks(job.size, job.blockSize), Run(job, steps);
    FinishedRunIsSequential(job, steps);
    NoneEmptyExactly(0, job.size, job.blockSize);
    forall w | 0 <= w < |chunks|
      ensures Slot(s, w) == Checksum(job, chunks[w]) <==> chunks[w].len > 0 || job.sha1([]) == NO_CHECKSUM
    {
      assert Slot(s, w) == SlotOf(job, chunks[w]);
      if chunks[w].len == 0 {
        assert ReadN(job.file, chunks[w].offset, 0) == [];
      }
    }
  }

  /** In particular where no chunk length is truncated. */
  lemma UntruncatedRunIsRight(job: Job, steps: seq<Step>)
    requires Run(job, steps).collector.Finished? && FitsWord(job.size, job.blockSize)
    ensures SlotsHoldChecksums(job, Run(job, steps))
  {
    FittingNeverVanishes(job.size, job.blockSize);
    ChecksumsExactly(job, steps);
  }

  // ---- the checksums, said of the file ----

  /** The first n bytes of the file; zeros stand for what it does not have. */
  function Padded(file: Bytes, n: nat): (r: Bytes)
    ensures |r| == n
    ensures n <= |file| ==> r == file[..n]
    ensures forall i :: 0 <= i < n ==> r[i] == if i < |file| then file[i] else 0
  {
    if n <= |file| then file[..n] else file + seq(n - |file|, _ => 0)
  }

  function Encrypted(encrypt: Option<Bytes -> Bytes>, block: Bytes): Bytes {
    match encrypt
    case None => block
    case Some(f) => f(block)
  }

  function BlockCount(job: Job): nat {
    (job.size + job.blockSize - 1) / job.blockSize
  }

  lemma OneFewer(w: nat, blockSize: BlockSize)
    requires w > 0
    ensures (w - 1) * blockSize == w * blockSize - blockSize >= 0
  {
  }

  /** Chunk w starts w blocks in and is a block long, or as long as what is left. */
  lemma {:induction false} ChunkAt(offset: nat, left: nat, blockSize: BlockSize, w: nat, from: nat)
    requires w < |ChunksFrom(offset, left, blockSize)| && from == w * blockSize
    ensures from < left
    ensures ChunksFrom(offset, left, blockSize)[w] == Chunk(offset + from, Min(blockSize, left - from) % WORD)
    decreases w
  {
    if w > 0 {
      var len := Min(blockSize, left);
      OneFewer(w, blockSize);
      ChunkAt(offset + len, left - len, blockSize, w - 1, from - blockSize);
    }
  }

  lemma ReadsBlock(file: Bytes, n: nat, from: nat, to: nat)
    requires from <= to <= n
    ensures ReadN(file, from, to - from) == Padded(file, n)[from..to]
  {
  }

  /** Where no length is truncated a chunk is its block. */
  lemma ChunkIsBlock(job: Job, w: nat, from: nat, to: nat)
    requires FitsWord(job.size, job.blockSize) && w < |Chunks(job.size, job.blockSize)|
    requires from == w * job.blockSize && to == Min(from + job.blockSize, job.size)
    ensures from < to <= job.size && Chunks(job.size, job.blockSize)[w] == Chunk(from, to - from)
  {
    ChunkAt(0, job.size, job.blockSize, w, from);
    LengthFits(job.size, job.blockSize, from);
  }

  lemma LengthFits(size: nat, blockSize: BlockSize, from: nat)
    requires FitsWord(size, blockSize) && from < size
    ensures var len := Min(blockSize, size - from); 0 < len && len % WORD == len
  {
  }

  lemma BlocksCounted(job: Job)
    ensures BlockCount(job) == |Chunks(job.size, job.blockSize)|
  {
    ChunkIndex(0, job.size, job.blockSize, 0);
  }

  lemma BlockBounds(size: nat, blockSize: BlockSize, w: nat)
    requires w < (size + blockSize - 1) / blockSize
    ensures 0 <= w * blockSize < size
  {
    ChunkIndex(0, size, blockSize, 0);
    ChunkAt(0, size, blockSize, w, w * blockSize);
  }

  /** The hash of block w of the file: the bytes from w block sizes in, a block long or up to the end,
      encrypted if the repository is.  A file cut short meanwhile counts as padded with zeros. */
  function HashOfBlock(job: Job, w: nat): Digest
    requires w < BlockCount(job)
  {
    BlockBounds(job.size, job.blockSize, w);
    var from := w * job.blockSize;
    job.sha1(Encrypted(job.encrypt, Padded(job.file, job.size)[from..Min(from + job.blockSize, job.size)]))
  }

  lemma WorkerHashesItsBlock(job: Job, w: nat)
    requires FitsWord(job.size, job.blockSize) && w < BlockCount(job) == |Chunks(job.size, job.blockSize)|
    ensures Chunks(job.size, job.blockSize)[w].len > 0
    ensures Checksum(job, Chunks(job.size, job.blockSize)[w]) == HashOfBlock(job, w)
  {
    BlockBounds(job.size, job.blockSize, w);
    var from := w * job.blockSize;
    var to := Min(from + job.blockSize, job.size);
    ChunkIsBlock(job, w, from, to);
    ReadsBlock(job.file, job.size, from, to);
  }

  /** A finished run, where no length is truncated: the array holds the hashes of the file's blocks. */
  lemma SlotsHashTheFile(job: Job, steps: seq<Step>)
    requires Run(job, steps).collector.Finished? && FitsWord(job.size, job.blockSize)
    ensures var s := Run(job, steps);
      && |s.blkSha1s| == CHECKSUM_LENGTH * BlockCount(job)
      && forall w :: 0 <= w < BlockCount(job) ==> Slot(s, w) == HashOfBlock(job, w)
  {
    BlocksCounted(job);
    FinishedRunIsSequential(job, steps);
    forall w: nat | w < BlockCount(job)
      ensures Slot(Run(job, steps), w) == HashOfBlock(job, w)
    {
      WorkerHashesItsBlock(job, w);
    }
  }

  /** A 4 GiB file with a 4 GiB block size: every run leaves twenty zeros, whatever the file holds. */
  lemma LargeBlockLeavesZeros(job: Job, steps: seq<Step>)
    requires job.size == WORD && job.blockSize == WORD
    ensures Run(job, steps).blkSha1s == NO_CHECKSUM
  {
    var s := Run(job, steps);
    TruncationLosesAFile();
    EveryRunKeepsInv(job, steps);
    forall k | 0 <= k < CHECKSUM_LENGTH ensures s.blkSha1s[k] == NO_CHECKSUM[k] {
      assert s.blkSha1s[CHECKSUM_LENGTH * 0 + k] == SlotOf(job, Chunk(0, 0))[k];
    }
  }

  /** And its one worker cannot fail: the run reports success. */
  lemma LargeBlockSucceeds(job: Job, ok: bool)
    requires job.size == WORD && job.blockSize == WORD
    ensures Run(job, [Compute(0, ok), Pop(0)]).collector.Finished?
  {
    var one := [Compute(0, ok)];
    TruncationLosesAFile();
    EveryRunKeepsInv(job, []);
    assert one[..0] == [] && [Compute(0, ok), Pop(0)][..1] == one;
    assert Run(job, one) == Next(job, Start(job), Compute(0, ok));
    assert Run(job, one).workers == [Pushed(true)];
  }

  predicate Moves(job: Job, s: State, step: Step)
  {
    Next(job, s, step) != s
  }

  /** The collector is never stuck: until it has finished or failed, some step is possible; and it
      fails only on a failed worker or on an empty file. */
  lemma CollectorIsNeverStuck(job: Job, steps: seq<Step>)
    ensures var s := Run(job, steps);
      && (s.collector.Waiting? ==> exists step :: Moves(job, s, step))
      && (s.collector.Failed? ==> job.size == 0 || exists w :: 0 <= w < |s.workers| && s.workers[w] == Pushed(false))
  {
    var s := Run(job, steps);
    EveryRunKeepsInv(job, steps);
    if s.collector.Waiting? {
      var w := Missing(s.popped, |s.workers|);
      SomeStep(job, s, w);
    }
  }

  lemma {:induction false} Missing(popped: set<nat>, n: nat) returns (w: nat)
    requires |popped| < n && forall v :: v in popped ==> v < n
    ensures w < n && w !in popped
    decreases n
  {
    if n - 1 in popped {
      w := Missing(popped - {n - 1}, n - 1);
    } else {
      w := n - 1;
    }
  }

  lemma SomeStep(job: Job, s: State, w: nat)
    requires Inv(job, s) && s.collector.Waiting?
    requires w < |s.workers| && w !in s.popped
    ensures exists step :: Moves(job, s, step)
  {
    match s.workers[w]
    case Queued =>
      assert Next(job, s, Compute(w, true)).workers[w] != Queued;
      assert Moves(job, s, Compute(w, true));
    case Copying(k) =>
      SlotOfChunk(job, w, k);
      if k < CHECKSUM_LENGTH {
        assert Next(job, s, CopyByte(w)).workers[w] == Copying(k + 1);
        assert Moves(job, s, CopyByte(w));
      } else {
        assert Next(job, s, Push(w)).workers[w] == Pushed(true);
        assert Moves(job, s, Push(w));
      }
    case Pushed(ok) =>
      assert w in Next(job, s, Pop(w)).popped;
      assert Moves(job, s, Pop(w));
  }

  // ---- every run ends ----

  /** The steps a worker still has before its chunk is pushed: compute, 20 copies, push. */
  function Left(worker: Worker): int {
    match worker
    case Queued => CHECKSUM_LENGTH + 2
    case Copying(k) => CHECKSUM_LENGTH + 1 - k
    case Pushed(_) => 0
  }

  function TotalLeft(workers: seq<Worker>): int {
    if workers == [] then 0 else Left(workers[0]) + TotalLeft(workers[1..])
  }

  /** Steps left in a state: those of the workers, and a pop for each chunk. */
  function StepsLeft(s: State): int {
    TotalLeft(s.workers) + |s.workers| - |s.popped|
  }

  lemma {:induction false} OneWorkerMoves(workers: seq<Worker>, w: nat, worker: Worker)
    requires w < |workers|
    ensures TotalLeft(workers[w := worker]) == TotalLeft(workers) - Left(workers[w]) + Left(worker)
    decreases |workers|
  {
    if w > 0 {
      OneWorkerMoves(workers[1..], w - 1, worker);
      assert workers[w := worker][1..] == workers[1..][w - 1 := worker];
    } else {
      assert workers[w := worker][1..] == workers[1..];
    }
  }

  /** A step that changes anything uses up one of the steps left. */
  lemma MovingUsesSteps(job: Job, s: State, step: Step)
    requires Inv(job, s) && Moves(job, s, step)
    ensures StepsLeft(Next(job, s, step)) < StepsLeft(s)
  {
    var w := step.w;
    assert w < |s.workers| && 0 <= Copied(s.workers[w]) <= CHECKSUM_LENGTH;
    OneWorkerMoves(s.workers, w, Next(job, s, step).workers[w]);
    if step.CopyByte? {
      assert Next(job, s, step).workers == s.workers[w := Next(job, s, step).workers[w]];
    }
  }

  lemma {:induction false} WorkersHaveSteps(workers: seq<Worker>)
    requires forall w :: 0 <= w < |workers| ==> 0 <= Copied(workers[w]) <= CHECKSUM_LENGTH
    ensures TotalLeft(workers) >= 0
  {
    if workers != [] {
      assert 0 <= Copied(workers[0]) <= CHECKSUM_LENGTH;
      forall w | 0 <= w < |workers[1..]|
        ensures 0 <= Copied(workers[1..][w]) <= CHECKSUM_LENGTH
      {
        assert workers[1..][w] == workers[w + 1];
      }
      WorkersHaveSteps(workers[1..]);
    }
  }

  lemma {:induction false} AllQueued(workers: seq<Worker>)
    requires forall w :: 0 <= w < |workers| ==> workers[w] == Queued
    ensures TotalLeft(workers) == (CHECKSUM_LENGTH + 2) * |workers|
  {
    if workers != [] {
      AllQueued(workers[1..]);
    }
  }

  /** Runs in which every step changes something. */
  ghost predicate Moving(job: Job, steps: seq<Step>)
  {
    forall i :: 0 <= i < |steps| ==> Moves(job, Run(job, steps[..i]), steps[i])
  }

  lemma {:induction false} MovingRunsAreShort(job: Job, steps: seq<Step>)
    requires Moving(job, steps)
    ensures |steps| + StepsLeft(Run(job, steps)) <= (CHECKSUM_LENGTH + 3) * |Chunks(job.size, job.blockSize)|
  {
    if steps == [] {
      AllQueued(Start(job).workers);
    } else {
      var before := steps[..|steps| - 1];
      forall i | 0 <= i < |before|
        ensures Moves(job, Run(job, before[..i]), before[i])
      {
        assert before[..i] == steps[..i];
      }
      MovingRunsAreShort(job, before);
      EveryRunKeepsInv(job, before);
      MovingUsesSteps(job, Run(job, before), steps[|steps| - 1]);
    }
  }

  /** Every run ends: it has at most 23 steps for each chunk, and where no step is possible any more
      the collector has finished, or failed on a failed worker or an empty file. */
  lemma EveryRunEnds(job: Job, steps: seq<Step>)
    requires Moving(job, steps)
    ensures |steps| <= (CHECKSUM_LENGTH + 3) * |Chunks(job.size, job.blockSize)|
    ensures (forall step :: !Moves(job, Run(job, steps), step)) ==>
      var s := Run(job, steps);
      if job.size > 0 && forall w :: 0 <= w < |s.workers| ==> s.workers[w] != Pushed(false) then s.collector.Finished?
      else s.collector.Failed?
  {
    var s := Run(job, steps);
    MovingRunsAreShort(job, steps);
    EveryRunKeepsInv(job, steps);
    WorkersHaveSteps(s.workers);
    AllPopped(s.popped, |s.workers|);
    if forall step :: !Moves(job, s, step) {
      CollectorIsNeverStuck(job, steps);
      if s.collector.Finished? {
        FinishedRunIsSequential(job, steps);
      }
    }
  }

  /** An empty file has no blocks, and an allocation of zero bytes counts as a failure; the caller
      handles empty files itself. */
  lemma {:induction false} EmptyFileFails(job: Job, steps: seq<Step>)
    requires job.size == 0
    ensures Run(job, steps).collector.Failed? && Run(job, steps).blkSha1s == []
  {
    EveryRunKeepsInv(job, steps);
  }

  // ---- the code ----

  /** The loop that cuts the file. */
  method PushChunks(fileSize: nat, blockSize: BlockSize) returns (chunks: seq<Chunk>)
    ensures chunks == Chunks(fileSize, blockSize)
  {
    chunks := [];
    var offset, left := 0, fileSize;
    while left > 0
      invariant 0 <= left && 0 <= offset
      invariant chunks + ChunksFrom(offset, left, blockSize) == Chunks(fileSize, blockSize)
    {
      var len := if left >= blockSize then blockSize else left;
      chunks := chunks + [Chunk(offset, len % WORD)];
      left := left - len;
      offset := offset + len;
    }
  }

  /** One worker: its slot of the shared array gets the checksum, the other slots stay; for an empty
      chunk it has no buffer and leaves at once, with the result that the new chunk came with. */
  method ChunkingWorker(job: Job, w: nat, chunk: Chunk, blkSha1s: array<Byte>, ok: bool) returns (result: int)
    requires w < |Chunks(job.size, job.blockSize)|
    requires chunk == Chunks(job.size, job.blockSize)[w]
    requires blkSha1s.Length == CHECKSUM_LENGTH * |Chunks(job.size, job.blockSize)|
    modifies blkSha1s
    ensures result == if ok || chunk.len == 0 then 0 else -1
    ensures BlockCount(job) == |Chunks(job.size, job.blockSize)|
    ensures ok && FitsWord(job.size, job.blockSize) ==>
              blkSha1s[CHECKSUM_LENGTH * w..CHECKSUM_LENGTH * w + CHECKSUM_LENGTH] == HashOfBlock(job, w)
    ensures blkSha1s[..] == if !ok || chunk.len == 0 then old(blkSha1s[..])
      else old(blkSha1s[..CHECKSUM_LENGTH * w]) + Checksum(job, chunk) + old(blkSha1s[CHECKSUM_LENGTH * w + CHECKSUM_LENGTH..])
  {
    BlocksCounted(job);
    if FitsWord(job.size, job.blockSize) { WorkerHashesItsBlock(job, w); }
    if chunk.len == 0 {
      return 0;
    }
    if !ok {
      return -1;
    }
    SlotOfChunk(job, w, 0);
    var idx := chunk.offset / job.blockSize;
    var after := Copy(blkSha1s, idx * CHECKSUM_LENGTH, Checksum(job, chunk));
    assert blkSha1s[..] == blkSha1s[..after] + blkSha1s[after..];
    assert blkSha1s[CHECKSUM_LENGTH * w..after] == Checksum(job, chunk);
    result := 0;
  }
}
