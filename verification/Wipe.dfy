/** The wipe of one drive: which sectors are asked to be written, with what, in what order, whatever
    the BIOS answers. */
module Wipe {
  import opened Basics
  import opened Geometry
  import opened Bios

  const CHUNK_BYTES: nat := 8192
  const CHUNK: nat := 16
  const WRAP: nat := 0x1_0000_0000_0000_0000

  datatype Mode = Fast | Dod | Ocd

  datatype Options = Options(test: bool, mode: Mode, check: bool, forceChs: bool, mbr: bool)

  // ----- what the wipe should ask for

  /** One transfer of whole sectors, by block number. */
  datatype Transfer = Transfer(write: bool, lba: int, count: nat, data: seq<Byte>)

  function BlockOf(g: Shape, p: Place): int {
    match p
    case Block(n) => n
    case Track(a) => Number(g, a)
  }

  /** The transfer that a request makes, if it is not for verification. */
  function Moved(g: Shape, r: Request): seq<Transfer> {
    if r.kind.Verify? then [] else [Transfer(r.kind.Write?, BlockOf(g, r.at), r.count, r.data)]
  }

  /** The transfers among the requests of a trace. */
  function Transfers(g: Shape, trace: seq<Request>): seq<Transfer> {
    if trace == [] then [] else Transfers(g, trace[..|trace| - 1]) + Moved(g, trace[|trace| - 1])
  }

  function Filled(b: Byte): seq<Byte> {
    seq(CHUNK_BYTES, _ => b)
  }

  /** The random bytes that one filling of the buffer draws. */
  function Drawn(rand: nat -> Byte, from: nat): seq<Byte> {
    seq(CHUNK_BYTES, i requires 0 <= i < CHUNK_BYTES => rand(from + i))
  }

  /** Everything that decides a wipe's transfers: how many sectors, how they are addressed, what the
      buffer holds when nothing fills it, and the random bytes to come. */
  datatype Job = Job(total: nat, test: bool, mode: Mode, extended: bool, junk: seq<Byte>, rand: nat -> Byte, drawn: nat) {
    ghost predicate Valid() {
      |junk| == CHUNK_BYTES && total < WRAP
    }

    /** The number of full chunks, from a byte count that wraps. */
    function Full(): nat {
      total * 512 % WRAP / CHUNK_BYTES
    }

    /** What is left after them, and the part of it that fits 32 bits. */
    function Left(): int {
      total - Full() * CHUNK
    }

    function Tail(): nat {
      Left() % 0x1_0000_0000
    }

    function Chunks(): nat {
      if Left() == 0 then Full() else Full() + 1
    }

    function Count(k: nat): nat {
      if k < Full() then CHUNK else Tail()
    }

    function Passes(): nat {
      if test then 1 else match mode case Fast => 1 case Dod => 3 case Ocd => 4
    }

    /** The buffer in pass p of chunk k. */
    function Pattern(k: nat, p: nat): seq<Byte> {
      match mode
      case Fast => if extended then Filled(0) else junk
      case Dod => if p % 2 == 0 then Filled(0) else Filled(0xFF)
      case Ocd => Drawn(rand, drawn + k * (4 * CHUNK_BYTES) + p * CHUNK_BYTES)
    }

    ghost function Pass(k: nat, p: nat): Transfer
      requires Valid()
    {
      SizesAreSmall(this);
      Transfer(!test, k * CHUNK, Count(k), if test then [] else Pattern(k, p)[..Count(k) * 512])
    }

    /** The first p transfers of chunk k. */
    ghost function FirstPasses(k: nat, p: nat): seq<Transfer>
      requires Valid()
    {
      seq(p, i requires 0 <= i < p => Pass(k, i))
    }

    /** The transfers of the first k chunks. */
    ghost function Plan(k: nat): seq<Transfer>
      requires Valid()
    {
      if k == 0 then [] else Plan(k - 1) + FirstPasses(k - 1, Passes())
    }
  }

  /** The sectors that are reached: the byte count keeps only 55 bits of the sector count. */
  const REACH: nat := 0x80_0000_0000_0000

  lemma SizesAreSmall(job: Job)
    requires job.total < WRAP
    ensures job.Full() == job.total % REACH / CHUNK && job.Tail() == job.total % CHUNK && job.Left() >= 0
    ensures job.Full() * CHUNK + job.Tail() == job.total % REACH
  {
    var low := job.total % REACH;
    BytesWrap(job.total);
    BytesToChunks(low);
    LeftOver(job.total, low, job.total / REACH);
  }

  lemma BytesWrap(total: nat)
    requires total < WRAP
    ensures total * 512 % WRAP == total % REACH * 512
  {}

  lemma BytesToChunks(low: nat)
    ensures low * 512 / CHUNK_BYTES == low / CHUNK
  {}

  lemma LeftOver(total: nat, low: nat, high: nat)
    requires total == high * REACH + low && low < REACH
    ensures total % CHUNK == low % CHUNK && total >= low / CHUNK * CHUNK
    ensures (total - low / CHUNK * CHUNK) % 0x1_0000_0000 == low % CHUNK
  {
    WholeChunks(low);
    SmallRest(high * 0x80_0000, low % CHUNK);
    assert total == high * REACH + low / CHUNK * CHUNK + low % CHUNK;
    ReachAndChunks(high, low / CHUNK, low % CHUNK);
  }

  lemma WholeChunks(low: nat)
    ensures low - low / CHUNK * CHUNK == low % CHUNK && low / CHUNK * CHUNK <= low
  {}

  lemma ReachAndChunks(high: nat, q: nat, r: nat)
    ensures r < CHUNK ==> (high * REACH + q * CHUNK + r) % CHUNK == r
  {}

  lemma SmallRest(n: nat, r: nat)
    requires r < CHUNK
    ensures (n * 0x1_0000_0000 + r) % 0x1_0000_0000 == r
  {}

  /** The last progress update makes up the whole byte count. */
  lemma LeftBytes(job: Job)
    requires job.total < WRAP
    ensures job.Full() * CHUNK_BYTES + job.Left() * 512 % WRAP == job.total * 512 % WRAP
  {
    SizesAreSmall(job);
    BytesWrap(job.total);
    BytesWrap(job.Left());
    LeftReach(job.total, job.total % REACH, job.total / REACH);
  }

  lemma LeftReach(total: nat, low: nat, high: nat)
    requires total == high * REACH + low && low < REACH
    ensures total >= low / CHUNK * CHUNK && (total - low / CHUNK * CHUNK) % REACH == low % CHUNK
  {}

  // ----- transfers of a growing trace

  lemma OneMore(g: Shape, trace: seq<Request>, r: Request)
    ensures Transfers(g, trace + [r]) == Transfers(g, trace) + Moved(g, r)
  {
    assert (trace + [r])[..|trace + [r]| - 1] == trace;
  }

  lemma OneBlockTransfer(d: Drive, trace: seq<Request>, write: bool, offset: nat, count: nat, contents: seq<Byte>, check: bool)
    requires write ==> d.Bytes(count) <= |contents|
    ensures Transfers(d.shape, trace + [BlockRequest(d, write, offset, count, contents, check)])
         == Transfers(d.shape, trace) + [Transfer(write, offset, count, if write then contents[..d.Bytes(count)] else [])]
  {
    OneMore(d.shape, trace, BlockRequest(d, write, offset, count, contents, check));
  }

  lemma OneTrackTransfer(d: Drive, trace: seq<Request>, write: bool, a: Chs, count: nat, contents: seq<Byte>, check: bool, answer: Answer)
    requires write ==> d.Bytes(count) <= |contents|
    ensures Transfers(d.shape, trace + TrackRequests(d, write, a, count, contents, check, answer))
         == Transfers(d.shape, trace) + [Transfer(write, Number(d.shape, a), count, if write then contents[..d.Bytes(count)] else [])]
  {
    var first := TrackRequest(d, write, a, count, contents);
    OneMore(d.shape, trace, first);
    OneMore(d.shape, trace + [first], VerifyRequest(d, a, count));
    assert trace + ([first] + [VerifyRequest(d, a, count)]) == trace + [first] + [VerifyRequest(d, a, count)];
  }

  ghost predicate Grew(d: Drive, before: seq<Request>, after: seq<Request>, more: seq<Transfer>) {
    before <= after && Transfers(d.shape, after) == Transfers(d.shape, before) + more
  }

  lemma OnePassMore(job: Job, k: nat, p: nat)
    requires job.Valid()
    ensures job.FirstPasses(k, p + 1) == job.FirstPasses(k, p) + [job.Pass(k, p)] && job.FirstPasses(k, 0) == []
  {}

  // ----- acceptance

  /** Whether a chunk passes the parameter checks. */
  predicate Accepts(d: Drive, offset: nat, count: nat)
    requires !d.extended ==> d.shape.sectors > 0
  {
    if d.extended then BlockAccepted(d, true, offset, count, CHUNK_BYTES)
    else LbaToChs(d.shape, offset).Some? && TrackAccepted(d, true, Triple(d.shape, offset), count, CHUNK_BYTES)
  }

  /** Chunk k of a job is let through. */
  predicate ChunkAccepted(d: Drive, job: Job, k: nat) {
    (d.extended || d.shape.sectors > 0) && Accepts(d, k * CHUNK, job.Count(k))
  }

  ghost predicate AllAccepted(d: Drive, job: Job, n: nat) {
    forall k :: 0 <= k < n ==> ChunkAccepted(d, job, k)
  }

  /** The number of sectors a wipe is to cover. */
  function Sectors(d: Drive, opt: Options): nat {
    if d.extended && !opt.forceChs then d.blocks else d.shape.Capacity()
  }

  /** Drives that are left alone: other sector sizes than 512, and those with the label. */
  predicate Skipped(d: Drive, labelled: bool) {
    (d.extended && d.bytesPerSector != 512) || labelled
  }

  /** The new boot record goes to the first sector. */
  predicate RecordAccepted(d: Drive, mbr: seq<Byte>) {
    TrackAccepted(d, true, Chs(0, 0, 1), 1, |mbr|)
  }

  function RecordWritten(d: Drive, mbr: seq<Byte>): seq<Transfer> {
    if RecordAccepted(d, mbr) && |mbr| >= 512 then [Transfer(true, 0, 1, mbr[..512])] else []
  }

  /** Bytes counted while a drive is wiped. */
  class Progress {
    var total: nat
    var done: nat

    constructor (bytes: nat)
      ensures total == (if bytes == 0 then 1 else bytes) && done == 0
    {
      total := if bytes == 0 then 1 else bytes;
      done := 0;
    }

    method Update(bytes: nat)
      modifies this
      ensures total == old(total)
      ensures old(done) + bytes <= total < WRAP ==> done == old(done) + bytes
      ensures done <= total
    {
      done := (done + bytes) % WRAP;
      if done > total {
        done := total;
      }
    }
  }

  class Wiper {
    const bios: Firmware
    const rand: nat -> Byte
    const opt: Options
    var drawn: nat

    ghost predicate Valid() {
      bios.Valid()
    }

    constructor (bios: Firmware, rand: nat -> Byte, opt: Options)
      requires bios.Valid()
      ensures Valid() && this.bios == bios && this.rand == rand && this.opt == opt && drawn == 0
    {
      this.bios, this.rand, this.opt, drawn := bios, rand, opt, 0;
    }

    method Fill(buf: array<Byte>, b: Byte)
      requires buf.Length == CHUNK_BYTES
      modifies buf
      ensures buf[..] == Filled(b)
    {
      forall k | 0 <= k < buf.Length {
        buf[k] := b;
      }
    }

    method FillRandom(buf: array<Byte>)
      requires buf.Length == CHUNK_BYTES
      modifies buf, this`drawn
      ensures buf[..] == Drawn(rand, old(drawn)) && drawn == old(drawn) + CHUNK_BYTES
    {
      for k := 0 to buf.Length
        invariant drawn == old(drawn) + k
        invariant forall j :: 0 <= j < k ==> buf[j] == rand(old(drawn) + j)
      {
        buf[k] := rand(drawn);
        drawn := drawn + 1;
      }
    }

    /** Fill the buffer for one pass, in the way that the mode and the addressing have it. */
    method FillForPass(d: Drive, p: nat, buf: array<Byte>, ghost job: Job, ghost k: nat)
      requires buf.Length == CHUNK_BYTES && Serves(d, job) && p < job.Passes() && !opt.test
      requires Ready(job, k, p, buf)
      modifies buf, this`drawn
      ensures buf[..] == job.Pattern(k, p) && Ready(job, k, p + 1, buf)
    {
      match opt.mode
      case Fast =>
        if d.extended {
          Fill(buf, 0);
        }
      case Dod => Fill(buf, if p % 2 == 0 then 0 else 0xFF);
      case Ocd => FillRandom(buf);
    }

    /** The job is this wiper's on this drive. */
    ghost predicate Serves(d: Drive, job: Job) {
      && job.Valid() && job.test == opt.test && job.mode == opt.mode && job.extended == d.extended && job.rand == rand
      && d.Reported() && d.SectorSize() == 512
    }

    /** Where the buffer and the random numbers stand before pass p of chunk k. */
    ghost predicate Ready(job: Job, k: nat, p: nat, buf: array<Byte>)
      reads this`drawn, buf
    {
      && (!job.test && job.mode == Ocd ==> drawn == job.drawn + k * (4 * CHUNK_BYTES) + p * CHUNK_BYTES)
      && (!job.test && job.mode == Fast && !job.extended ==> buf[..] == job.junk)
    }

    /** A result that is not a rejection: it is what the last request came to. */
    ghost predicate Answered(ret: int, check: bool)
      reads bios
    {
      |bios.trace| > 0 && ret == Outcome(bios.trace[|bios.trace| - 1], bios.answers(|bios.trace| - 1), check)
    }

    /** Whether the passes of a wipe are checked. */
    predicate Checked() {
      opt.check || opt.mode == Ocd
    }

    /** Ask for one transfer, by block number where the drive has the extensions and else by triple. */
    method Ask(d: Drive, write: bool, offset: nat, count: nat, buf: array<Byte>, check: bool) returns (ret: int)
      requires Valid() && buf.Length == CHUNK_BYTES && buf != bios.buffer && d.Reported() && d.SectorSize() == 512
      requires count <= CHUNK && (!d.extended ==> d.shape.sectors > 0)
      modifies bios, bios.buffer, buf
      ensures write ==> buf[..] == old(buf[..])
      ensures ret == -1 <==> !Accepts(d, offset, count)
      ensures ret == -1 ==> bios.trace == old(bios.trace)
      ensures ret != -1 ==> Grew(d, old(bios.trace), bios.trace, [Transfer(write, offset, count, if write then old(buf[..count * 512]) else [])])
      ensures ret != -1 ==> Answered(ret, check) && (bios.trace[|bios.trace| - 1].kind.Write? ==> write)
    {
      ghost var before, contents := bios.trace, buf[..];
      ghost var answer := bios.Upcoming();
      var moved;
      if d.extended {
        ret, moved := bios.BlocksRw(write, d, offset, count, buf, CHUNK_BYTES, check);
        OneBlockTransfer(d, before, write, offset, count, contents, check);
      } else {
        var there := LbaToChs(d.shape, offset);
        if there == None {
          return -1;
        }
        ret, moved := bios.TracksRw(write, d, there.value, count, buf, CHUNK_BYTES, check);
        OneTrackTransfer(d, before, write, there.value, count, contents, check, answer);
        TripleNumber(d.shape, offset);
      }
    }

    /** What every step of a chunk needs. */
    ghost predicate AtChunk(d: Drive, offset: nat, count: nat, buf: array<Byte>, job: Job, k: nat) {
      && Valid() && buf.Length == CHUNK_BYTES && buf != bios.buffer && Serves(d, job)
      && offset == k * CHUNK && count == job.Count(k) && (!d.extended ==> d.shape.sectors > 0)
    }

    /** Fill the buffer for one pass and write it: one more transfer, unless the chunk is rejected. */
    method WritePass(d: Drive, offset: nat, count: nat, p: nat, buf: array<Byte>, ghost job: Job, ghost k: nat, ghost start: seq<Request>)
      returns (ret: int)
      requires AtChunk(d, offset, count, buf, job, k) && Ready(job, k, p, buf) && !opt.test && p < job.Passes()
      requires Accepts(d, offset, count) ==> Grew(d, start, bios.trace, job.FirstPasses(k, p))
      modifies this`drawn, bios, bios.buffer, buf
      ensures Ready(job, k, p + 1, buf)
      ensures !Accepts(d, offset, count) ==> ret == -1 && bios.trace == old(bios.trace)
      ensures Accepts(d, offset, count) ==> Answered(ret, Checked()) && Grew(d, start, bios.trace, job.FirstPasses(k, p + 1))
    {
      SizesAreSmall(job);
      ghost var before := bios.trace;
      FillForPass(d, p, buf, job, k);
      assert buf[..count * 512] == job.Pattern(k, p)[..count * 512];
      ret := Ask(d, true, offset, count, buf, Checked());
      if ret != -1 {
        GrewTwice(d, start, before, bios.trace, job.FirstPasses(k, p), [job.Pass(k, p)]);
        OnePassMore(job, k, p);
      }
    }

    /** Wipe one chunk, or in test mode read it. A rejected chunk is rejected in every pass. */
    method WipeSectors(d: Drive, offset: nat, count: nat, buf: array<Byte>, ghost job: Job, ghost k: nat) returns (ret: int)
      requires AtChunk(d, offset, count, buf, job, k) && Ready(job, k, 0, buf)
      modifies this`drawn, bios, bios.buffer, buf
      ensures Ready(job, k + 1, 0, buf)
      ensures !Accepts(d, offset, count) ==> ret == -1 && bios.trace == old(bios.trace)
      ensures Accepts(d, offset, count) ==> Answered(ret, Checked()) && Grew(d, old(bios.trace), bios.trace, job.FirstPasses(k, job.Passes()))
    {
      if opt.test {
        SizesAreSmall(job);
        ret := Ask(d, false, offset, count, buf, false);
        OnePassMore(job, k, 0);
      } else {
        ghost var start, ok := bios.trace, Accepts(d, offset, count);
        var passes := match opt.mode case Fast => 1 case Dod => 3 case Ocd => 4;
        ret := -1;
        OnePassMore(job, k, 0);
        for p := 0 to passes
          invariant Ready(job, k, p, buf)
          invariant !ok ==> ret == -1 && bios.trace == start
          invariant ok ==> (p > 0 ==> Answered(ret, Checked())) && Grew(d, start, bios.trace, job.FirstPasses(k, p))
        {
          ret := WritePass(d, offset, count, p, buf, job, k, start);
        }
      }
    }

    /** One turn of the chunk loop. */
    method WipeChunk(d: Drive, offset: nat, count: nat, buf: array<Byte>, ghost job: Job, ghost k: nat, ghost start: seq<Request>)
      returns (ret: int)
      requires AtChunk(d, offset, count, buf, job, k) && Ready(job, k, 0, buf)
      requires Grew(d, start, bios.trace, job.Plan(k)) && AllAccepted(d, job, k)
      modifies this`drawn, bios, bios.buffer, buf
      ensures Ready(job, k + 1, 0, buf)
      ensures ret == -1 || Answered(ret, Checked())
      ensures ret == -1 ==> !ChunkAccepted(d, job, k) && Grew(d, start, bios.trace, job.Plan(k))
      ensures ret != -1 ==> AllAccepted(d, job, k + 1) && Grew(d, start, bios.trace, job.Plan(k + 1))
    {
      ghost var before := bios.trace;
      ret := WipeSectors(d, offset, count, buf, job, k);
      if ret != -1 {
        GrewTwice(d, start, before, bios.trace, job.Plan(k), job.FirstPasses(k, job.Passes()));
      }
    }

    /** How far a wipe is: which chunks are done, and what the last of them came to. */
    ghost predicate Wiped(d: Drive, job: Job, start: seq<Request>, chunks: nat, ret: int, failed: bool)
      requires job.Valid()
      reads bios
    {
      && chunks <= job.Chunks() && AllAccepted(d, job, chunks) && Grew(d, start, bios.trace, job.Plan(chunks))
      && if failed then ret == -1 && chunks < job.Chunks() && !ChunkAccepted(d, job, chunks)
         else if chunks == 0 then ret == -1 else Answered(ret, Checked())
    }

    /** The full chunks, up to the first rejected one. */
    method WipeFullChunks(d: Drive, full: nat, buf: array<Byte>, progress: Progress, ghost job: Job)
      returns (ret: int, failed: bool, offset: nat, ghost chunks: nat)
      requires Valid() && buf.Length == CHUNK_BYTES && buf != bios.buffer && Serves(d, job) && Ready(job, 0, 0, buf)
      requires full == job.Full() <= job.Chunks() && (!d.extended && full > 0 ==> d.shape.sectors > 0)
      requires progress.done == 0 && full * CHUNK_BYTES <= progress.total < WRAP
      modifies this`drawn, bios, bios.buffer, buf, progress
      ensures Wiped(d, job, old(bios.trace), chunks, ret, failed)
      ensures !failed ==> chunks == full && Ready(job, chunks, 0, buf)
      ensures !failed ==> offset == full * CHUNK && progress.total == old(progress.total) && progress.done == full * CHUNK_BYTES
    {
      ghost var start := bios.trace;
      offset, ret, failed, chunks := 0, -1, false, 0;
      for i := 0 to full
        invariant chunks == i && offset == i * CHUNK && !failed && Wiped(d, job, start, i, ret, failed)
        invariant Ready(job, i, 0, buf)
        invariant progress.done == i * CHUNK_BYTES && progress.total == old(progress.total)
      {
        ret := WipeChunk(d, offset, CHUNK_BYTES / 512, buf, job, i, start);
        offset := offset + CHUNK_BYTES / 512;
        progress.Update(CHUNK_BYTES);
        if ret < 0 {
          return ret, true, offset, chunks;
        }
        chunks := i + 1;
      }
    }

    /** All chunks, or those before the first rejected one. */
    method WipeChunks(d: Drive, total: nat, buf: array<Byte>, progress: Progress, ghost job: Job)
      returns (ret: int, failed: bool, ghost chunks: nat)
      requires Valid() && buf.Length == CHUNK_BYTES && buf != bios.buffer && Serves(d, job) && Ready(job, 0, 0, buf)
      requires total == job.total && (!d.extended && total > 0 ==> d.shape.sectors > 0)
      requires progress.done == 0 && progress.total == if total * 512 % WRAP == 0 then 1 else total * 512 % WRAP
      modifies this`drawn, bios, bios.buffer, buf, progress
      ensures Wiped(d, job, old(bios.trace), chunks, ret, failed)
      ensures !failed ==> chunks == job.Chunks() && progress.done == total * 512 % WRAP
    {
      SizesAreSmall(job);
      LeftBytes(job);
      ghost var start := bios.trace;
      var offset;
      ret, failed, offset, chunks := WipeFullChunks(d, total * 512 % WRAP / CHUNK_BYTES, buf, progress, job);
      if failed {
        return;
      }
      var left := total - offset;
      if left != 0 {
        ret := WipeChunk(d, offset, left % 0x1_0000_0000, buf, job, chunks, start);
        if ret < 0 {
          return ret, true, chunks;
        }
        chunks := chunks + 1;
      }
      progress.Update(left * 512 % WRAP);
    }

    /** Write the boot record into the first sector. */
    method WriteRecord(d: Drive, mbr: seq<Byte>, buf: array<Byte>) returns (ret: int)
      requires Valid() && buf.Length == CHUNK_BYTES && buf != bios.buffer && d.Reported() && d.SectorSize() == 512
      requires |mbr| <= CHUNK_BYTES
      modifies bios, bios.buffer, buf
      ensures ret == -1 <==> !RecordAccepted(d, mbr)
      ensures ret != -1 ==> Answered(ret, opt.check)
      ensures Grew(d, old(bios.trace), bios.trace, RecordWritten(d, mbr))
    {
      forall k | 0 <= k < |mbr| {
        buf[k] := mbr[k];
      }
      ghost var before, answer := bios.trace, bios.Upcoming();
      assert d.Bytes(1) == 512;
      assert RecordAccepted(d, mbr) ==> buf[..512] == mbr[..512];
      var moved;
      ret, moved := bios.TracksRw(true, d, Chs(0, 0, 1), 1, buf, |mbr|, opt.check);
      if ret != -1 {
        OneTrackTransfer(d, before, true, Chs(0, 0, 1), 1, buf[..], opt.check, answer);
      }
    }

    /** The whole wipe of a drive. `labelled` and `memory` are what the label check and the allocation
        say; `job` and `chunks` describe what was done, `shown` the bytes counted. */
    method WipeDisk(d: Drive, labelled: bool, memory: bool, mbr: seq<Byte>)
      returns (ret: int, ghost job: Job, ghost chunks: nat, ghost shown: nat)
      requires Valid() && d.Reported() && |mbr| <= CHUNK_BYTES
      modifies this`drawn, bios, bios.buffer
      ensures Skipped(d, labelled) || !memory ==> bios.trace == old(bios.trace)
      ensures Skipped(d, labelled) ==> ret == 1
      ensures !Skipped(d, labelled) && !memory ==> ret == -1
      ensures !Skipped(d, labelled) && memory ==>
        && Serves(d, job) && job.total == Sectors(d, opt) && job.drawn == old(drawn)
        && if chunks < job.Chunks() then Wiped(d, job, old(bios.trace), chunks, ret, true)
           else if opt.mbr && !opt.test then
             && chunks == job.Chunks() && shown == job.total * 512 % WRAP
             && (if RecordAccepted(d, mbr) then Answered(ret, opt.check) else ret == -1)
             && AllAccepted(d, job, chunks) && Grew(d, old(bios.trace), bios.trace, job.Plan(chunks) + RecordWritten(d, mbr))
           else
             shown == job.total * 512 % WRAP && Wiped(d, job, old(bios.trace), chunks, ret, false)
    {
      ret, job, chunks, shown := -1, Job(0, false, Fast, false, [], rand, 0), 0, 0;
      if Skipped(d, labelled) {
        return 1, job, chunks, shown;
      }
      if !memory {
        return;
      }
      var buf := new Byte[CHUNK_BYTES];
      var total := Sectors(d, opt);
      SectorsFit(d, opt);
      job := Job(total, opt.test, opt.mode, d.extended, buf[..], rand, drawn);
      var progress := new Progress(total * 512 % WRAP);
      progress.Update(0);
      var failed;
      ret, failed, chunks := WipeChunks(d, total, buf, progress, job);
      shown := progress.done;
      if failed {
        return;
      }
      if opt.mbr && !opt.test {
        ghost var middle := bios.trace;
        ret := WriteRecord(d, mbr, buf);
        GrewTwice(d, old(bios.trace), middle, bios.trace, job.Plan(chunks), RecordWritten(d, mbr));
      }
    }
  }

  lemma GrewTwice(d: Drive, a: seq<Request>, b: seq<Request>, c: seq<Request>, x: seq<Transfer>, y: seq<Transfer>)
    requires Grew(d, a, b, x) && Grew(d, b, c, y)
    ensures Grew(d, a, c, x + y)
  {
    assert Transfers(d.shape, a) + x + y == Transfers(d.shape, a) + (x + y);
  }

  lemma SectorsFit(d: Drive, opt: Options)
    requires d.Reported()
    ensures Sectors(d, opt) < WRAP && (d.shape.Capacity() > 0 ==> d.shape.sectors > 0)
  {
    var heads, cylinders := d.shape.lastHead + 1, d.shape.lastCylinder + 1;
    Monotone(heads, 256, cylinders);
    Monotone(heads * cylinders, 256 * 1024, d.shape.sectors);
  }
}
