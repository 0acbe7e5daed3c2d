/** The parallel `fingerprint` of bench/component/shootout.rs: worker threads take
    chunk indices from a shared counter, hash their chunk and store the digest in a
    shared table. A schedule is the sequence of workers that move, one lock-protected
    or private step at a time; what is proved holds for every schedule. */
module Fingerprint {
  import opened Bytes
  import opened Sha256

  /** The chunk size of the source. */
  const CHUNK: nat := 32 * 1024 * 1024

  /** One call: the file's bytes, the chunk size and the
      hash's compression function. */
  datatype Job = Job(f: Compress, file: seq<Byte>, size: nat) {
    ghost predicate Ok() {
      size > 0
    }
  }

  function Min(a: nat, b: nat): (r: nat) {
    if a < b then a else b
  }

  function ChunkCount(job: Job): (n: nat)
    requires job.Ok()
    ensures n >= 1
  {
    if |job.file| == 0 then 1
    else
      RoundsUp(|job.file|, job.size);
      (|job.file| + job.size - 1) / job.size
  }

  lemma RoundsUp(len: nat, size: nat)
    requires len > 0 && size > 0
    ensures var n := (len + size - 1) / size; n >= 1 && n * size >= len && (n - 1) * size < len
  {
    var n := (len + size - 1) / size;
    assert n * size + (len + size - 1) % size == len + size - 1;
  }

  /** What the worker reads: `want` bytes at `off`. */
  function ChunkAt(job: Job, i: nat): (r: seq<Byte>) {
    var len := |job.file|;
    var off := i * job.size;
    var want := Min(len - Min(off, len), job.size);
    job.file[Min(off, len)..Min(off, len) + want]
  }

  function DigestAt(job: Job, i: nat): seq<Byte> {
    WrappedDigest(job.f, ChunkAt(job, i))
  }

  function Chunks(job: Job): (r: seq<seq<Byte>>)
    requires job.Ok()
  {
    seq(ChunkCount(job), i requires 0 <= i => ChunkAt(job, i))
  }

  /** The digests one thread would compute, in order. */
  function Digests(job: Job): (r: seq<seq<Byte>>)
    requires job.Ok()
  {
    seq(ChunkCount(job), i requires 0 <= i => DigestAt(job, i))
  }

  /** The sequential answer: the hash of the chunk hashes. */
  function Sequential(job: Job): seq<Byte>
    requires job.Ok()
  {
    WrappedDigest(job.f, Flatten(Digests(job)))
  }

  // ----- the chunks tile the file

  lemma {:induction false} ChunksPrefix(job: Job, i: nat)
    requires job.Ok() && i <= ChunkCount(job)
    ensures Flatten(Chunks(job)[..i]) == job.file[..Min(i * job.size, |job.file|)]
  {
    if i > 0 {
      ChunksPrefix(job, i - 1);
      FlattenStep(Chunks(job), i - 1);
      NextChunk(job, i - 1);
    }
  }

  lemma NextChunk(job: Job, i: nat)
    ensures job.file[..Min((i + 1) * job.size, |job.file|)] == job.file[..Min(i * job.size, |job.file|)] + ChunkAt(job, i)
  {
    assert (i + 1) * job.size == i * job.size + job.size;
  }

  /** Every byte is hashed once and in place, the empty file being one empty chunk. */
  lemma ChunksTile(job: Job)
    requires job.Ok()
    ensures Flatten(Chunks(job)) == job.file
    ensures job.file == [] ==> Chunks(job) == [[]]
    ensures job.file != [] ==> forall i | 0 <= i < ChunkCount(job) :: 0 < |Chunks(job)[i]| <= job.size
  {
    var n, len, size := ChunkCount(job), |job.file|, job.size;
    ChunksPrefix(job, n);
    assert Chunks(job)[..n] == Chunks(job);
    if len > 0 {
      RoundsUp(len, size);
      assert job.file[..len] == job.file;
      forall i | 0 <= i < n ensures 0 < |Chunks(job)[i]| <= size {
        ChunkSize(job, i);
      }
    }
  }

  lemma ChunkSize(job: Job, i: nat)
    requires job.Ok() && job.file != [] && i < ChunkCount(job)
    ensures 0 < |ChunkAt(job, i)| <= job.size
  {
    var n, len, size := ChunkCount(job), |job.file|, job.size;
    RoundsUp(len, size);
    MulMono(i, n - 1, size);
    assert i * size < len;
  }

  lemma MulMono(a: nat, b: nat, c: nat)
    requires a <= b
    ensures a * c <= b * c
  {
  }

  // ----- the workers

  datatype Worker = Idle | Claimed(i: nat) | Hashed(i: nat, d: seq<Byte>) | Done

  /** `next` and `out` are the two mutex-guarded cells; `claims` logs the indices
      handed out, in order. */
  datatype State = State(next: nat, out: seq<seq<Byte>>, workers: seq<Worker>, claims: seq<nat>)

  function Start(job: Job, threads: nat): (s: State)
    requires job.Ok()
  {
    var n := ChunkCount(job);
    var count := Min(threads, n);
    State(0, seq(n, _ => Zeros(32)), seq(if count < 1 then 1 else count, _ => Idle), [])
  }

  /** One step of worker `w`; a worker that has returned no longer moves. */
  function Move(job: Job, s: State, w: nat): (s': State)
    requires job.Ok() && w < |s.workers| && |s.out| == ChunkCount(job)
    ensures |s'.workers| == |s.workers| && |s'.out| == |s.out|
  {
    match s.workers[w]
    case Idle =>
      if s.next >= ChunkCount(job) then s.(workers := s.workers[w := Done])
      else s.(next := s.next + 1, workers := s.workers[w := Claimed(s.next)], claims := s.claims + [s.next])
    case Claimed(i) => s.(workers := s.workers[w := Hashed(i, DigestAt(job, i))])
    case Hashed(i, d) =>
      if i < |s.out| then s.(workers := s.workers[w := Idle], out := s.out[i := d]) else s
    case Done => s
  }

  function Run(job: Job, s: State, schedule: seq<nat>): (s': State)
    requires job.Ok() && |s.out| == ChunkCount(job)
    requires forall k | 0 <= k < |schedule| :: schedule[k] < |s.workers|
    ensures |s'.workers| == |s.workers| && |s'.out| == |s.out|
    decreases |schedule|
  {
    if schedule == [] then s else Run(job, Move(job, s, schedule[0]), schedule[1..])
  }

  predicate AllDone(s: State) {
    forall w | 0 <= w < |s.workers| :: s.workers[w] == Done
  }

  // ----- what every step keeps

  predicate Holding(w: Worker, i: nat) {
    (w.Claimed? || w.Hashed?) && w.i == i
  }

  ghost predicate Held(s: State, i: nat) {
    exists w | 0 <= w < |s.workers| :: Holding(s.workers[w], i)
  }

  ghost predicate WorkerOk(job: Job, s: State, w: Worker) {
    match w
    case Idle => true
    case Claimed(i) => i < s.next
    case Hashed(i, d) => i < s.next && d == DigestAt(job, i)
    case Done => s.next == |s.out|
  }

  /** Indices are handed out once each and in order, no two workers hold the same
      one, and every index handed out is either held or already stored. */
  ghost predicate Inv(job: Job, s: State)
    requires job.Ok()
  {
    && |s.out| == ChunkCount(job)
    && s.next <= |s.out|
    && s.claims == seq(s.next, i => i)
    && (forall w | 0 <= w < |s.workers| :: WorkerOk(job, s, s.workers[w]))
    && (forall v, w, i: nat | 0 <= v < w < |s.workers| :: !(Holding(s.workers[v], i) && Holding(s.workers[w], i)))
    && (forall i | 0 <= i < s.next :: Held(s, i) || s.out[i] == DigestAt(job, i))
  }

  lemma StartInv(job: Job, threads: nat)
    requires job.Ok()
    ensures Inv(job, Start(job, threads))
  {
  }

  lemma HeldKept(s: State, s': State, w: nat, i: nat)
    requires w < |s.workers| == |s'.workers| && s'.workers == s.workers[w := s'.workers[w]]
    requires Held(s, i) && (Holding(s.workers[w], i) ==> Holding(s'.workers[w], i))
    ensures Held(s', i)
  {
    var v :| 0 <= v < |s.workers| && Holding(s.workers[v], i);
    assert Holding(s'.workers[v], i);
  }

  lemma MoveInv(job: Job, s: State, w: nat)
    requires job.Ok() && Inv(job, s) && w < |s.workers|
    ensures Inv(job, Move(job, s, w))
  {
    assert WorkerOk(job, s, s.workers[w]);
    MoveTable(job, s, w);
    MoveWorkers(job, s, w);
  }

  /** Each index handed out stays held, or is stored. */
  lemma MoveTable(job: Job, s: State, w: nat)
    requires job.Ok() && Inv(job, s) && w < |s.workers|
    ensures var s' := Move(job, s, w);
            forall i | 0 <= i < s'.next :: Held(s', i) || s'.out[i] == DigestAt(job, i)
  {
    var s' := Move(job, s, w);
    assert WorkerOk(job, s, s.workers[w]);
    forall i | 0 <= i < s'.next ensures Held(s', i) || s'.out[i] == DigestAt(job, i) {
      if i == s.next {
        assert Holding(s'.workers[w], i);
      } else if Held(s, i) && !(s.workers[w].Hashed? && s.workers[w].i == i) {
        HeldKept(s, s', w, i);
      }
    }
  }

  lemma MoveWorkers(job: Job, s: State, w: nat)
    requires job.Ok() && Inv(job, s) && w < |s.workers|
    ensures var s' := Move(job, s, w);
            forall v | 0 <= v < |s'.workers| :: WorkerOk(job, s', s'.workers[v])
  {
    var s' := Move(job, s, w);
    assert WorkerOk(job, s, s.workers[w]);
    assert WorkerOk(job, s', s'.workers[w]);
    forall v | 0 <= v < |s.workers| && v != w ensures s'.workers[v] == s.workers[v] && WorkerOk(job, s', s.workers[v]) {
      WorkerStays(job, s, s', s.workers[v]);
    }
  }

  lemma WorkerStays(job: Job, s: State, s': State, x: Worker)
    requires WorkerOk(job, s, x) && s.next <= s'.next <= |s'.out| == |s.out|
    ensures WorkerOk(job, s', x)
  {
  }

  lemma {:induction false} RunInv(job: Job, s: State, schedule: seq<nat>)
    requires job.Ok() && Inv(job, s)
    requires forall k | 0 <= k < |schedule| :: schedule[k] < |s.workers|
    ensures Inv(job, Run(job, s, schedule))
    decreases |schedule|
  {
    if schedule != [] {
      MoveInv(job, s, schedule[0]);
      RunInv(job, Move(job, s, schedule[0]), schedule[1..]);
    }
  }

  // ----- the results

  /** For every thread count and every interleaving: once all workers have returned,
      each chunk index was claimed exactly once, in order, and the table holds the
      sequential digests. */
  lemma AnyInterleaving(job: Job, threads: nat, schedule: seq<nat>)
    requires job.Ok()
    requires forall k | 0 <= k < |schedule| :: schedule[k] < |Start(job, threads).workers|
    requires AllDone(Run(job, Start(job, threads), schedule))
    ensures var s := Run(job, Start(job, threads), schedule);
            s.out == Digests(job) && s.claims == seq(ChunkCount(job), i => i)
  {
    var start := Start(job, threads);
    var s := Run(job, start, schedule);
    StartInv(job, threads);
    RunInv(job, start, schedule);
    assert s.workers[0] == Done && WorkerOk(job, s, s.workers[0]);
    forall i | 0 <= i < ChunkCount(job) ensures s.out[i] == Digests(job)[i] {
      assert !Held(s, i);
    }
  }

  /** With the source's chunk size no bit count wraps: each entry of the finished table is
      the digest that FIPS 180-4 defines for its chunk, whatever the length of the file. */
  lemma StandardDigests(job: Job, threads: nat, schedule: seq<nat>)
    requires job.size == CHUNK
    requires forall k | 0 <= k < |schedule| :: schedule[k] < |Start(job, threads).workers|
    requires AllDone(Run(job, Start(job, threads), schedule))
    ensures var out := Run(job, Start(job, threads), schedule).out;
            |out| == ChunkCount(job)
            && (if job.file == [] then |out| == 1 else (|out| - 1) * 0x200_0000 < |job.file| <= |out| * 0x200_0000)
            && forall i | 0 <= i < |out| :: |ChunkAt(job, i)| < TWO61 && out[i] == Digest(job.f, ChunkAt(job, i))
  {
    AnyInterleaving(job, threads, schedule);
    if job.file != [] {
      RoundsUp(|job.file|, job.size);
    }
    forall i: nat | i < ChunkCount(job)
      ensures |ChunkAt(job, i)| < TWO61 && Digests(job)[i] == Digest(job.f, ChunkAt(job, i))
    {
      ShortDigest(job, i);
    }
  }

  lemma ShortDigest(job: Job, i: nat)
    requires job.size == CHUNK
    ensures |ChunkAt(job, i)| < TWO61 && DigestAt(job, i) == Digest(job.f, ChunkAt(job, i))
  {
    assert |ChunkAt(job, i)| <= job.size;
    WrappedIsDigest(job.f, ChunkAt(job, i));
  }

  /** The last lines of `fingerprint`: the table is hashed entry by entry. */
  method Collect(job: Job, threads: nat, schedule: seq<nat>) returns (r: seq<Byte>)
    requires job.Ok()
    requires forall k | 0 <= k < |schedule| :: schedule[k] < |Start(job, threads).workers|
    requires AllDone(Run(job, Start(job, threads), schedule))
    ensures r == Sequential(job)
    ensures exists c :: r == WrappedDigest(job.f, c) && HoldsDigests(job, c)
  {
    var s := Run(job, Start(job, threads), schedule);
    AnyInterleaving(job, threads, schedule);
    r := HashParts(job.f, s.out);
    DigestsInOrder(job);
  }

  /** The digests of the chunks, 32 bytes each and in order, and nothing else. */
  ghost predicate HoldsDigests(job: Job, c: seq<Byte>)
    requires job.Ok()
  {
    |c| == 32 * ChunkCount(job)
    && forall i | 0 <= i < ChunkCount(job) :: c[32 * i..32 * i + 32] == WrappedDigest(job.f, ChunkAt(job, i))
  }

  lemma DigestsInOrder(job: Job)
    requires job.Ok()
    ensures HoldsDigests(job, Flatten(Digests(job)))
  {
    var parts := Digests(job);
    forall i | 0 <= i < |parts| ensures |parts[i]| == 32 {
      EncodedLength(Absorb(job.f, INITIAL, Padded(ChunkAt(job, i), 8 * |ChunkAt(job, i)| % TWO64)));
    }
    forall i | 0 <= i < ChunkCount(job)
      ensures |Flatten(parts)| == 32 * |parts|
      ensures Flatten(parts)[32 * i..32 * i + 32] == WrappedDigest(job.f, ChunkAt(job, i))
    {
      FlattenAt(parts, i);
    }
    assert |Flatten(parts)| == 32 * |parts| by {
      FlattenAt(parts, 0);
    }
  }

  lemma {:induction false} FlattenAt(parts: seq<seq<Byte>>, i: nat)
    requires i < |parts| && forall k | 0 <= k < |parts| :: |parts[k]| == 32
    ensures |Flatten(parts)| == 32 * |parts| && Flatten(parts)[32 * i..32 * i + 32] == parts[i]
  {
    var rest := parts[1..];
    if |parts| == 1 {
      assert Flatten(parts) == parts[0];
    } else {
      FlattenAt(rest, if i > 0 then i - 1 else 0);
      if i > 0 {
        assert (parts[0] + Flatten(rest))[32 * i..32 * i + 32] == Flatten(rest)[32 * (i - 1)..32 * (i - 1) + 32];
      }
    }
  }

  // ----- every run ends, after the same number of steps

  function WorkLeft(w: Worker): nat {
    match w case Idle => 1 case Claimed(_) => 3 case Hashed(_, _) => 2 case Done => 0
  }

  function SumLeft(ws: seq<Worker>): nat {
    if ws == [] then 0 else WorkLeft(ws[0]) + SumLeft(ws[1..])
  }

  function Remaining(s: State): int {
    3 * (|s.out| - s.next) + SumLeft(s.workers)
  }

  lemma {:induction false} SumUpdate(ws: seq<Worker>, w: nat, x: Worker)
    requires w < |ws|
    ensures SumLeft(ws[w := x]) == SumLeft(ws) - WorkLeft(ws[w]) + WorkLeft(x)
  {
    if w == 0 {
      assert ws[0 := x][1..] == ws[1..];
    } else {
      assert ws[w := x][1..] == ws[1..][w - 1 := x];
      SumUpdate(ws[1..], w - 1, x);
    }
  }

  lemma {:induction false} SumIdle(ws: seq<Worker>)
    requires forall w | 0 <= w < |ws| :: ws[w] == Idle
    ensures SumLeft(ws) == |ws|
  {
    if ws != [] {
      SumIdle(ws[1..]);
    }
  }

  lemma {:induction false} SumZero(ws: seq<Worker>)
    ensures SumLeft(ws) == 0 <==> forall w | 0 <= w < |ws| :: ws[w] == Done
  {
    if ws != [] {
      SumZero(ws[1..]);
      assert forall w | 0 < w < |ws| :: ws[w] == ws[1..][w - 1];
    }
  }

  /** A schedule that never picks a worker that has returned. */
  predicate Live(job: Job, s: State, schedule: seq<nat>)
    requires job.Ok() && |s.out| == ChunkCount(job)
    decreases |schedule|
  {
    schedule != [] ==>
      && schedule[0] < |s.workers| && s.workers[schedule[0]] != Done
      && Live(job, Move(job, s, schedule[0]), schedule[1..])
  }

  lemma LiveStep(job: Job, s: State, w: nat)
    requires job.Ok() && Inv(job, s) && w < |s.workers| && s.workers[w] != Done
    ensures Remaining(Move(job, s, w)) == Remaining(s) - 1
  {
    assert WorkerOk(job, s, s.workers[w]);
    var s' := Move(job, s, w);
    assert s'.workers == s.workers[w := s'.workers[w]];
    SumUpdate(s.workers, w, s'.workers[w]);
  }

  lemma {:induction false} LiveIndices(job: Job, s: State, schedule: seq<nat>)
    requires job.Ok() && |s.out| == ChunkCount(job) && Live(job, s, schedule)
    ensures forall k | 0 <= k < |schedule| :: schedule[k] < |s.workers|
    decreases |schedule|
  {
    if schedule != [] {
      LiveIndices(job, Move(job, s, schedule[0]), schedule[1..]);
      assert forall k | 0 < k < |schedule| :: schedule[k] == schedule[1..][k - 1];
    }
  }

  lemma {:induction false} LiveRun(job: Job, s: State, schedule: seq<nat>)
    requires job.Ok() && Inv(job, s) && Live(job, s, schedule)
    ensures forall k | 0 <= k < |schedule| :: schedule[k] < |s.workers|
    ensures Remaining(Run(job, s, schedule)) == Remaining(s) - |schedule|
    decreases |schedule|
  {
    LiveIndices(job, s, schedule);
    if schedule != [] {
      MoveInv(job, s, schedule[0]);
      LiveStep(job, s, schedule[0]);
      LiveRun(job, Move(job, s, schedule[0]), schedule[1..]);
    }
  }

  /** No run can go on for ever, none gets stuck, and all take the same number of
      steps: three for each chunk and one for each thread. */
  lemma EveryRunEnds(job: Job, threads: nat, schedule: seq<nat>)
    requires job.Ok() && Live(job, Start(job, threads), schedule)
    ensures forall k | 0 <= k < |schedule| :: schedule[k] < |Start(job, threads).workers|
    ensures var total := 3 * ChunkCount(job) + |Start(job, threads).workers|;
            |schedule| <= total && (AllDone(Run(job, Start(job, threads), schedule)) <==> |schedule| == total)
  {
    var start := Start(job, threads);
    StartInv(job, threads);
    LiveRun(job, start, schedule);
    SumIdle(start.workers);
    var s := Run(job, start, schedule);
    RunInv(job, start, schedule);
    SumZero(s.workers);
    if AllDone(s) {
      assert WorkerOk(job, s, s.workers[0]);
    }
  }
}
