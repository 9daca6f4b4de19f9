/** What a wipe's plan amounts to: which sectors are written, how often, with what, and when a chunk is
    rejected. */
module WipeCoverage {
  import opened Basics
  import opened Geometry
  import opened Bios
  import opened Wipe

  // ----- the chunks tile the sectors

  /** The first sector that the first k chunks leave out. */
  function Reached(job: Job, k: nat): nat {
    if k <= job.Full() then k * CHUNK else job.Full() * CHUNK + job.Tail()
  }

  /** Chunks follow each other without gap or overlap, up to the sector count modulo 2^55. The last
      request is empty exactly when the count wraps and no partial chunk is left. */
  lemma ChunksTile(job: Job, k: nat)
    requires job.Valid() && k < job.Chunks()
    ensures Reached(job, k) == k * CHUNK && Reached(job, k + 1) == k * CHUNK + job.Count(k)
    ensures Reached(job, 0) == 0 && Reached(job, job.Chunks()) == job.total % REACH
    ensures job.Count(k) == 0 <==> k == job.Full() && job.total >= REACH && job.total % CHUNK == 0
  {
    SizesAreSmall(job);
    LeftIsNothing(job);
  }

  lemma LeftIsNothing(job: Job)
    requires job.Valid()
    ensures job.Left() == 0 ==> job.total < REACH && job.total % CHUNK == 0
  {
    SizesAreSmall(job);
    assert job.Full() * CHUNK <= job.total % REACH;
  }

  /** Every chunk is asked for once in each pass, chunk after chunk. */
  lemma {:induction false} PlanInOrder(job: Job, n: nat, k: nat, p: nat)
    requires job.Valid() && k < n && p < job.Passes()
    ensures |job.Plan(n)| == n * job.Passes() && k * job.Passes() + p < n * job.Passes()
    ensures job.Plan(n)[k * job.Passes() + p] == job.Pass(k, p)
    decreases n
  {
    var passes := job.Passes();
    Times(n - 1, passes);
    if n == 1 {
      assert job.Plan(0) == [];
    } else if k < n - 1 {
      PlanInOrder(job, n - 1, k, p);
    } else {
      PlanInOrder(job, n - 1, 0, 0);
    }
  }

  lemma Times(n: nat, k: nat)
    ensures (n + 1) * k == n * k + k
  {}

  // ----- histories

  /** The blocks written to a sector, in order. */
  ghost function Written(ts: seq<Transfer>, s: int): seq<seq<Byte>> {
    if ts == [] then [] else Written(ts[..|ts| - 1], s) + WrittenBy(ts[|ts| - 1], s)
  }

  ghost function WrittenBy(t: Transfer, s: int): seq<seq<Byte>> {
    if t.write && t.lba <= s < t.lba + t.count && |t.data| == t.count * 512
    then [t.data[(s - t.lba) * 512..(s - t.lba) * 512 + 512]] else []
  }

  /** What a drive that obeys every write holds in a sector. */
  ghost function Contents(ts: seq<Transfer>, s: int, before: seq<Byte>): seq<Byte> {
    var w := Written(ts, s);
    if w == [] then before else w[|w| - 1]
  }

  lemma {:induction false} WrittenConcat(a: seq<Transfer>, b: seq<Transfer>, s: int)
    ensures Written(a + b, s) == Written(a, s) + Written(b, s)
    decreases |b|
  {
    if b == [] {
      assert a + b == a;
    } else {
      assert (a + b)[..|a + b| - 1] == a + b[..|b| - 1];
      WrittenConcat(a, b[..|b| - 1], s);
    }
  }

  /** A sector's part of the buffer in one pass. */
  ghost function SectorBlock(job: Job, s: nat, p: nat): seq<Byte>
    requires job.Valid()
  {
    job.Pattern(s / CHUNK, p)[s % CHUNK * 512..s % CHUNK * 512 + 512]
  }

  ghost function SectorBlocks(job: Job, s: nat, n: nat): seq<seq<Byte>>
    requires job.Valid()
  {
    seq(n, p requires 0 <= p < n => SectorBlock(job, s, p))
  }

  lemma PassWrites(job: Job, k: nat, p: nat, s: nat)
    requires job.Valid() && !job.test
    ensures WrittenBy(job.Pass(k, p), s) == if k * CHUNK <= s < k * CHUNK + job.Count(k) then [SectorBlock(job, s, p)] else []
  {
    SizesAreSmall(job);
    var pattern, n, at := job.Pattern(k, p), job.Count(k) * 512, (s - k * CHUNK) * 512;
    if k * CHUNK <= s < k * CHUNK + job.Count(k) {
      assert s / CHUNK == k && s % CHUNK == s - k * CHUNK;
      assert pattern[..n][at..at + 512] == pattern[at..at + 512];
    }
  }

  ghost predicate Between(w: seq<seq<Byte>>, blocks: seq<seq<Byte>>, from: nat, s: nat, to: nat) {
    w == if from <= s < to then blocks else []
  }

  lemma WrittenOneMore(ts: seq<Transfer>, t: Transfer, s: int)
    ensures Written(ts + [t], s) == Written(ts, s) + WrittenBy(t, s)
  {
    assert (ts + [t])[..|ts + [t]| - 1] == ts;
  }

  lemma OneBlockMore(job: Job, s: nat, n: nat)
    requires job.Valid()
    ensures SectorBlocks(job, s, n + 1) == SectorBlocks(job, s, n) + [SectorBlock(job, s, n)] && SectorBlocks(job, s, 0) == []
  {}

  ghost predicate PassesWritten(job: Job, k: nat, n: nat, s: nat)
    requires job.Valid()
  {
    Between(Written(job.FirstPasses(k, n), s), SectorBlocks(job, s, n), k * CHUNK, s, k * CHUNK + job.Count(k))
  }

  lemma OnePassWritten(job: Job, k: nat, n: nat, s: nat)
    requires job.Valid() && !job.test && PassesWritten(job, k, n, s)
    ensures PassesWritten(job, k, n + 1, s)
  {
    OnePassMore(job, k, n);
    WrittenOneMore(job.FirstPasses(k, n), job.Pass(k, n), s);
    PassWrites(job, k, n, s);
    OneBlockMore(job, s, n);
  }

  lemma {:induction false} PassesWrite(job: Job, k: nat, n: nat, s: nat)
    requires job.Valid() && !job.test
    ensures PassesWritten(job, k, n, s)
    decreases n
  {
    if n == 0 {
      OneBlockMore(job, s, 0);
      OnePassMore(job, k, 0);
    } else {
      PassesWrite(job, k, n - 1, s);
      OnePassWritten(job, k, n - 1, s);
    }
  }

  lemma Joined(a: seq<seq<Byte>>, b: seq<seq<Byte>>, blocks: seq<seq<Byte>>, s: nat, from: nat, to: nat)
    requires from <= to && Between(a, blocks, 0, s, from) && Between(b, blocks, from, s, to)
    ensures Between(a + b, blocks, 0, s, to)
  {}

  lemma ChunkWrites(job: Job, k: nat, s: nat)
    requires job.Valid() && !job.test && 0 < k <= job.Chunks()
    ensures Reached(job, k - 1) <= Reached(job, k)
    ensures Between(Written(job.FirstPasses(k - 1, job.Passes()), s), SectorBlocks(job, s, job.Passes()), Reached(job, k - 1), s, Reached(job, k))
  {
    ChunksTile(job, k - 1);
    PassesWrite(job, k - 1, job.Passes(), s);
  }

  lemma OneChunkMore(job: Job, k: nat, s: nat)
    requires job.Valid() && k > 0
    ensures Written(job.Plan(k), s) == Written(job.Plan(k - 1), s) + Written(job.FirstPasses(k - 1, job.Passes()), s)
  {
    WrittenConcat(job.Plan(k - 1), job.FirstPasses(k - 1, job.Passes()), s);
  }

  ghost predicate ReachedAreWritten(job: Job, k: nat, s: nat)
    requires job.Valid()
  {
    Between(Written(job.Plan(k), s), SectorBlocks(job, s, job.Passes()), 0, s, Reached(job, k))
  }

  lemma OneChunkWritten(job: Job, k: nat, s: nat)
    requires job.Valid() && !job.test && 0 < k <= job.Chunks() && ReachedAreWritten(job, k - 1, s)
    ensures ReachedAreWritten(job, k, s)
  {
    var blocks, from, to := SectorBlocks(job, s, job.Passes()), Reached(job, k - 1), Reached(job, k);
    var a, b := Written(job.Plan(k - 1), s), Written(job.FirstPasses(k - 1, job.Passes()), s);
    ChunkWrites(job, k, s);
    OneChunkMore(job, k, s);
    Joined(a, b, blocks, s, from, to);
  }

  /** Every sector reached is written once in each pass, and no other sector is written. */
  lemma {:induction false} PlanWrites(job: Job, k: nat, s: nat)
    requires job.Valid() && !job.test && k <= job.Chunks()
    ensures Written(job.Plan(k), s) == if s < Reached(job, k) then SectorBlocks(job, s, job.Passes()) else []
    decreases k
  {
    PlanWritesUpTo(job, k, s);
  }

  lemma {:induction false} PlanWritesUpTo(job: Job, k: nat, s: nat)
    requires job.Valid() && !job.test && k <= job.Chunks()
    ensures ReachedAreWritten(job, k, s)
    decreases k
  {
    if k > 0 {
      PlanWritesUpTo(job, k - 1, s);
      OneChunkWritten(job, k, s);
    }
  }

  ghost function Sector512(b: Byte): seq<Byte> {
    seq(512, _ => b)
  }

  lemma FilledSector(b: Byte, at: nat)
    requires at + 512 <= CHUNK_BYTES
    ensures Filled(b)[at..at + 512] == Sector512(b)
  {}

  lemma WholePlanWrites(job: Job, s: nat)
    requires job.Valid() && !job.test && s < job.total % REACH
    ensures Written(job.Plan(job.Chunks()), s) == SectorBlocks(job, s, job.Passes())
  {
    SizesAreSmall(job);
    LeftIsNothing(job);
    PlanWrites(job, job.Chunks(), s);
  }

  lemma DodBlock(job: Job, s: nat, p: nat)
    requires job.Valid() && job.mode == Dod
    ensures SectorBlock(job, s, p) == Sector512(if p % 2 == 0 then 0 else 0xFF)
  {
    FilledSector(if p % 2 == 0 then 0 else 0xFF, s % CHUNK * 512);
  }

  /** In DOD mode every sector gets zeros, then ones, then zeros. */
  lemma DodHistory(job: Job, s: nat, before: seq<Byte>)
    requires job.Valid() && !job.test && job.mode == Dod && s < job.total % REACH
    ensures Written(job.Plan(job.Chunks()), s) == [Sector512(0), Sector512(0xFF), Sector512(0)]
    ensures Contents(job.Plan(job.Chunks()), s, before) == Sector512(0)
  {
    WholePlanWrites(job, s);
    DodBlock(job, s, 0);
    DodBlock(job, s, 1);
    DodBlock(job, s, 2);
    assert SectorBlocks(job, s, 3) == [SectorBlock(job, s, 0), SectorBlock(job, s, 1), SectorBlock(job, s, 2)];
  }

  /** In FAST mode every sector gets zeros once if the drive has the extensions. Otherwise it gets what
      the fresh buffer happened to hold. */
  lemma FastHistory(job: Job, s: nat, before: seq<Byte>)
    requires job.Valid() && !job.test && job.mode == Fast && s < job.total % REACH
    ensures var at := s % CHUNK * 512;
      var block := if job.extended then Sector512(0) else job.junk[at..at + 512];
      Written(job.Plan(job.Chunks()), s) == [block] && Contents(job.Plan(job.Chunks()), s, before) == block
  {
    WholePlanWrites(job, s);
    FilledSector(0, s % CHUNK * 512);
  }

  /** In OCD mode every sector gets four blocks of random bytes, each drawn for it alone. */
  lemma OcdHistory(job: Job, s: nat, p: nat, i: nat)
    requires job.Valid() && !job.test && job.mode == Ocd && s < job.total % REACH && p < 4 && i < 512
    ensures var w := Written(job.Plan(job.Chunks()), s);
      |w| == 4 && |w[p]| == 512
      && w[p][i] == job.rand(job.drawn + s / CHUNK * (4 * CHUNK_BYTES) + p * CHUNK_BYTES + s % CHUNK * 512 + i)
  {
    WholePlanWrites(job, s);
  }

  /** The whole drive is written exactly when it has fewer than 2^55 sectors; a larger one is written
      up to its size modulo 2^55 only. */
  lemma CoveredIffSmall(job: Job)
    requires job.Valid() && !job.test
    ensures (forall s: nat :: s < job.total ==> Written(job.Plan(job.Chunks()), s) != []) <==> job.total < REACH
  {
    if job.total < REACH {
      forall s: nat | s < job.total ensures Written(job.Plan(job.Chunks()), s) != [] {
        WholePlanWrites(job, s);
      }
    } else {
      var s := job.total % REACH;
      LeftIsNothing(job);
      SizesAreSmall(job);
      PlanWrites(job, job.Chunks(), s);
    }
  }

  /** A drive of exactly 2^55 sectors is not written at all. */
  lemma NothingCovered(job: Job, s: nat)
    requires job.Valid() && !job.test && job.total == REACH
    ensures Written(job.Plan(job.Chunks()), s) == []
  {
    SizesAreSmall(job);
    PlanWrites(job, job.Chunks(), s);
  }

  // ----- test mode

  lemma ConcatOneMore(g: Shape, a: seq<Request>, front: seq<Request>, r: Request, x: seq<Transfer>, y: seq<Transfer>)
    requires x == Transfers(g, a) && y == Transfers(g, front) && Transfers(g, a + front) == x + y
    ensures Transfers(g, a + (front + [r])) == x + (y + Moved(g, r)) && Transfers(g, front + [r]) == y + Moved(g, r)
  {
    Regrouped(a, front, [r]);
    Regrouped(x, y, Moved(g, r));
    OneMore(g, front, r);
    OneMore(g, a + front, r);
  }

  lemma {:induction false} TransfersConcat(g: Shape, a: seq<Request>, b: seq<Request>)
    ensures Transfers(g, a + b) == Transfers(g, a) + Transfers(g, b)
    decreases |b|
  {
    if b == [] {
      assert a + b == a;
    } else {
      var front, r := b[..|b| - 1], b[|b| - 1];
      assert front + [r] == b;
      TransfersConcat(g, a, front);
      ConcatOneMore(g, a, front, r, Transfers(g, a), Transfers(g, front));
    }
  }

  lemma {:induction false} OnlyReads(g: Shape, trace: seq<Request>, i: nat)
    requires i < |trace| && forall t :: t in Transfers(g, trace) ==> !t.write
    ensures !trace[i].kind.Write?
    decreases |trace|
  {
    var n := |trace| - 1;
    var r := trace[n];
    if i < n {
      assert forall t :: t in Transfers(g, trace[..n]) ==> t in Transfers(g, trace);
      OnlyReads(g, trace[..n], i);
    } else if !r.kind.Verify? {
      assert Transfer(r.kind.Write?, BlockOf(g, r.at), r.count, r.data) in Transfers(g, trace);
    }
  }

  lemma {:induction false} TestPlanReads(job: Job, k: nat)
    requires job.Valid() && job.test
    ensures forall t :: t in job.Plan(k) ==> !t.write
  {
    if k > 0 {
      TestPlanReads(job, k - 1);
    }
  }

  /** The transfers of the requests made are the planned ones. */
  lemma PlannedTransfers(d: Drive, before: seq<Request>, after: seq<Request>, plan: seq<Transfer>)
    requires Grew(d, before, after, plan)
    ensures after == before + after[|before|..] && Transfers(d.shape, after[|before|..]) == plan
  {
    var more, old' := after[|before|..], Transfers(d.shape, before);
    assert after == before + more;
    TransfersConcat(d.shape, before, more);
    assert Transfers(d.shape, more) == (old' + Transfers(d.shape, more))[|old'|..] == (old' + plan)[|old'|..];
  }

  /** In test mode none of the requests made is a write. */
  lemma TestModeWritesNothing(d: Drive, before: seq<Request>, after: seq<Request>, job: Job, k: nat)
    requires job.Valid() && job.test && Grew(d, before, after, job.Plan(k))
    ensures forall i :: |before| <= i < |after| ==> !after[i].kind.Write?
  {
    var more := after[|before|..];
    PlannedTransfers(d, before, after, job.Plan(k));
    TestPlanReads(job, k);
    forall i | |before| <= i < |after| ensures !after[i].kind.Write? {
      OnlyReads(d.shape, more, i - |before|);
    }
  }

  // ----- which chunks are let through

  lemma ExtendedAccepts(d: Drive, offset: nat, count: nat)
    requires d.extended && d.bytesPerSector == 512 && count <= CHUNK
    ensures Accepts(d, offset, count) <==> offset <= (d.blocks - 1) % WRAP
  {
    assert d.Bytes(count) == count * 512;
  }

  /** With the extensions, and not forced to the reported geometry, nothing is rejected. */
  lemma ExtendedNeverRejects(d: Drive, opt: Options, job: Job, k: nat)
    requires job.Valid() && d.Reported() && d.extended && d.bytesPerSector == 512 && !opt.forceChs
    requires job.total == Sectors(d, opt) && k < job.Chunks()
    ensures ChunkAccepted(d, job, k)
  {
    SizesAreSmall(job);
    ChunkStart(job, k);
    ExtendedAccepts(d, k * CHUNK, job.Count(k));
  }

  /** A chunk starts at a sector of the drive. */
  lemma ChunkStart(job: Job, k: nat)
    requires job.Valid() && k < job.Chunks()
    ensures k * CHUNK < job.total
  {
    SizesAreSmall(job);
    if job.total < REACH && k == job.Full() {
      assert job.Left() == job.Tail();
    }
  }

  /** Forcing the reported geometry on a drive with the extensions still addresses it by block, and
      rejects the chunks that start beyond its end, unless it reports no blocks at all. */
  lemma ForcedChunks(d: Drive, opt: Options, job: Job, k: nat)
    requires job.Valid() && d.Reported() && d.extended && d.bytesPerSector == 512 && opt.forceChs
    requires job.total == Sectors(d, opt) && k < job.Chunks()
    ensures ChunkAccepted(d, job, k) <==> d.blocks == 0 || k * CHUNK < d.blocks
  {
    SizesAreSmall(job);
    ChunkStart(job, k);
    ExtendedAccepts(d, k * CHUNK, job.Count(k));
    LastBlock(d.blocks, k * CHUNK);
  }

  /** A drive of 16 blocks that reports a track of 63 sectors: forced to CHS, the second chunk is
      rejected. */
  lemma ForcedBeyondEnd(d: Drive, opt: Options, job: Job)
    requires d == Drive(0x80, Shape(0, 0, 63), true, 16, 512) && opt.forceChs
    requires job.Valid() && job.total == Sectors(d, opt)
    ensures job.Chunks() == 4 && ChunkAccepted(d, job, 0) && !ChunkAccepted(d, job, 1)
  {
    assert job.total == 63;
    SizesAreSmall(job);
    ForcedChunks(d, opt, job, 0);
    ForcedChunks(d, opt, job, 1);
  }

  lemma LastBlock(blocks: nat, offset: nat)
    requires blocks < WRAP && offset < WRAP
    ensures offset <= (blocks - 1) % WRAP <==> blocks == 0 || offset < blocks
  {}

  /** Without the extensions a chunk is rejected exactly when it starts beyond the addressable sectors
      or at head 255, and so never if there are at most 255 heads. */
  lemma TrackChunks(d: Drive, opt: Options, job: Job, k: nat)
    requires job.Valid() && d.Reported() && !d.extended && job.total == Sectors(d, opt) && k < job.Chunks()
    ensures d.shape.sectors > 0
    ensures ChunkAccepted(d, job, k) <==> k * CHUNK <= MAX_LBA && Triple(d.shape, k * CHUNK).h != 255
    ensures d.shape.lastHead <= HEAD_MAX ==> ChunkAccepted(d, job, k)
  {
    SizesAreSmall(job);
    ChunkStart(job, k);
    SectorsFit(d, opt);
    LbaRoundTrip(d.shape, k * CHUNK);
    if d.shape.lastHead <= HEAD_MAX {
      FittingLba(d.shape, k * CHUNK);
    }
  }

  /** So a drive without the extensions and with at most 255 heads is written everywhere. */
  lemma TracksCovered(d: Drive, opt: Options, job: Job, s: nat)
    requires job.Valid() && d.Reported() && !d.extended && d.shape.lastHead <= HEAD_MAX && !job.test
    requires job.total == Sectors(d, opt) && s < d.shape.Capacity()
    ensures AllAccepted(d, job, job.Chunks()) && |Written(job.Plan(job.Chunks()), s)| == job.Passes()
  {
    forall k | 0 <= k < job.Chunks() ensures ChunkAccepted(d, job, k) {
      TrackChunks(d, opt, job, k);
    }
    CapacityFits(d.shape);
    WholePlanWrites(job, s);
  }

  /** A request by triple stays on its track. */
  predicate StaysOnTrack(d: Drive, job: Job, k: nat)
    requires d.shape.sectors > 0
  {
    k * CHUNK % d.shape.sectors + job.Count(k) <= d.shape.sectors
  }

  /** Every request by triple stays on its track if and only if the track length is a multiple of the
      chunk, or the drive is a single track. The others rely on the BIOS to go on to the next head. */
  lemma TracksDivide(d: Drive, opt: Options, job: Job)
    requires job.Valid() && d.Reported() && !d.extended && job.total == Sectors(d, opt) && d.shape.sectors > 0
    ensures (forall k: nat :: k < job.Chunks() ==> StaysOnTrack(d, job, k))
       <==> d.shape.sectors % CHUNK == 0 || d.shape.Capacity() == d.shape.sectors
  {
    if d.shape.sectors % CHUNK == 0 || d.shape.Capacity() == d.shape.sectors {
      forall k: nat | k < job.Chunks() ensures StaysOnTrack(d, job, k) {
        ChunkStays(d, opt, job, k);
      }
    } else {
      LastChunkCrosses(d, opt, job);
    }
  }

  lemma ChunkStays(d: Drive, opt: Options, job: Job, k: nat)
    requires job.Valid() && d.Reported() && !d.extended && job.total == Sectors(d, opt) && d.shape.sectors > 0
    requires (d.shape.sectors % CHUNK == 0 || d.shape.Capacity() == d.shape.sectors) && k < job.Chunks()
    ensures StaysOnTrack(d, job, k)
  {
    SmallJob(d, opt, job);
    if d.shape.sectors % CHUNK == 0 {
      ChunkOnTrack(d.shape.sectors, k);
    } else {
      SmallRemainder(k * CHUNK, d.shape.sectors);
    }
  }

  lemma LastChunkCrosses(d: Drive, opt: Options, job: Job)
    requires job.Valid() && d.Reported() && !d.extended && job.total == Sectors(d, opt) && d.shape.sectors > 0
    requires d.shape.sectors % CHUNK != 0 && d.shape.Capacity() != d.shape.sectors
    ensures d.shape.sectors / CHUNK < job.Chunks() && !StaysOnTrack(d, job, d.shape.sectors / CHUNK)
  {
    SmallJob(d, opt, job);
    SmallRemainder(d.shape.sectors / CHUNK * CHUNK, d.shape.sectors);
  }

  lemma SmallRemainder(x: nat, n: nat)
    ensures x < n ==> x % n == x
  {}

  lemma ChunkOnTrack(n: nat, k: nat)
    requires n == 16 || n == 32 || n == 48
    ensures k * CHUNK % n + CHUNK <= n
  {}

  /** A drive by triple has few enough sectors that nothing wraps, and at least one whole track. */
  lemma SmallJob(d: Drive, opt: Options, job: Job)
    requires job.Valid() && d.Reported() && !d.extended && job.total == Sectors(d, opt) && d.shape.sectors > 0
    ensures job.total < REACH && job.Full() == job.total / CHUNK && job.Left() == job.Tail() == job.total % CHUNK
    ensures job.total == d.shape.sectors || job.total >= 2 * d.shape.sectors
  {
    FewSectors(d.shape);
    SizesAreSmall(job);
    SmallIsWhole(job.total);
    SmallIsWhole(job.Left());
  }

  lemma FewSectors(g: Shape)
    requires g.Reported() && g.sectors > 0
    ensures g.Capacity() <= 256 * 1024 * 63
    ensures g.Capacity() == g.sectors || g.Capacity() >= 2 * g.sectors
  {
    var heads, cylinders := g.lastHead + 1, g.lastCylinder + 1;
    Monotone(heads, 256, cylinders);
    Monotone(heads * cylinders, 256 * 1024, g.sectors);
    Product(heads, cylinders);
    if heads * cylinders >= 2 {
      Monotone(2, heads * cylinders, g.sectors);
    }
  }

  // ----- a whole wipe

  /** What follows the chunks: the boot record if it is wanted and accepted. */
  function RecordPart(d: Drive, opt: Options, mbr: seq<Byte>): seq<Transfer> {
    if opt.mbr && !opt.test then RecordWritten(d, mbr) else []
  }

  /** What a wipe of a drive with the extensions, not forced to CHS, comes to whatever the BIOS answers,
      given what its requests are known to be: all chunks are asked for, and a drive of fewer than 2^55
      sectors that obeys them ends all zero, except in OCD mode. Only the first sector holds the boot
      record instead, exactly if one is wanted and accepted. */
  lemma EndsZero(d: Drive, opt: Options, mbr: seq<Byte>, job: Job, before: seq<Request>, after: seq<Request>, chunks: nat,
                 s: nat, held: seq<Byte>)
    requires job.Valid() && d.Reported() && d.extended && d.bytesPerSector == 512 && !opt.forceChs && job.extended
    requires job.total == Sectors(d, opt) < REACH && !job.test && job.test == opt.test && job.mode != Ocd
    requires chunks <= job.Chunks() && (chunks < job.Chunks() ==> !ChunkAccepted(d, job, chunks))
    requires Grew(d, before, after, job.Plan(chunks) + if chunks == job.Chunks() then RecordPart(d, opt, mbr) else [])
    requires s < d.blocks
    ensures Contents(Transfers(d.shape, after[|before|..]), s, held)
         == if s == 0 && opt.mbr && RecordAccepted(d, mbr) && |mbr| >= 512 then mbr[..512] else Sector512(0)
  {
    NothingRejected(d, opt, job, chunks);
    PlannedTransfers(d, before, after, job.Plan(chunks) + RecordPart(d, opt, mbr));
    SmallIsWhole(job.total);
    ZeroedByPlan(job, s, held);
    ContentsAfter(job.Plan(chunks), RecordPart(d, opt, mbr), s, held);
    RecordHistory(d, opt, mbr, s);
  }

  lemma ContentsAfter(a: seq<Transfer>, b: seq<Transfer>, s: int, held: seq<Byte>)
    ensures Contents(a + b, s, held) == Contents(b, s, Contents(a, s, held))
  {
    WrittenConcat(a, b, s);
  }

  lemma RecordHistory(d: Drive, opt: Options, mbr: seq<Byte>, s: nat)
    requires !opt.test
    ensures Written(RecordPart(d, opt, mbr), s)
         == if s == 0 && opt.mbr && RecordAccepted(d, mbr) && |mbr| >= 512 then [mbr[..512]] else []
  {
    if RecordPart(d, opt, mbr) != [] {
      var t := Transfer(true, 0, 1, mbr[..512]);
      WrittenOneMore([], t, s);
      assert [] + [t] == RecordPart(d, opt, mbr);
      assert mbr[..512][0..512] == mbr[..512];
    }
  }

  lemma NothingRejected(d: Drive, opt: Options, job: Job, chunks: nat)
    requires job.Valid() && d.Reported() && d.extended && d.bytesPerSector == 512 && !opt.forceChs && job.total == Sectors(d, opt)
    requires chunks <= job.Chunks() && (chunks < job.Chunks() ==> !ChunkAccepted(d, job, chunks))
    ensures chunks == job.Chunks()
  {
    if chunks < job.Chunks() {
      ExtendedNeverRejects(d, opt, job, chunks);
    }
  }

  lemma SmallIsWhole(n: nat)
    ensures n < REACH ==> n % REACH == n
  {}

  lemma ZeroedByPlan(job: Job, s: nat, held: seq<Byte>)
    requires job.Valid() && !job.test && job.mode != Ocd && job.extended && s < job.total % REACH
    ensures Contents(job.Plan(job.Chunks()), s, held) == Sector512(0)
  {
    if job.mode == Dod {
      DodHistory(job, s, held);
    } else {
      FastHistory(job, s, held);
    }
  }

  lemma {:induction false} FewerTransfers(g: Shape, trace: seq<Request>)
    ensures |Transfers(g, trace)| <= |trace|
  {
    if trace != [] {
      FewerTransfers(g, trace[..|trace| - 1]);
    }
  }

  /** A FAST wipe of 32 blocks whose first write fails and whose later ones succeed: nothing is left out
      of the requests, and the result says that all is well. */
  method EarlyFailureUnseen(failure: Byte) returns (ret: int, requests: nat, firstFailed: bool)
    ensures firstFailed && requests >= 2 && ret == 0
  {
    var answers: nat -> Answer := k => Answer(k == 0, 0, failure, 16, _ => 0);
    var d := Drive(0x80, Shape(0, 0, 63), true, 32, 512);
    var bios := new Firmware(answers);
    var wiper := new Wiper(bios, _ => 0, Options(false, Fast, false, false, false));
    ghost var job, chunks, shown;
    ret, job, chunks, shown := wiper.WipeDisk(d, false, true, []);
    SizesAreSmall(job);
    NothingRejected(d, wiper.opt, job, chunks);
    PlanInOrder(job, 2, 1, 0);
    FewerTransfers(d.shape, bios.trace);
    requests, firstFailed := |bios.trace|, bios.answers(0).failed;
  }
}
