/** Disk requests: parameter checks, shared registers and buffers, and the calls into the BIOS, whose
    answers are arbitrary. */
module Bios {
  import opened Basics
  import opened Geometry

  const MAX_COUNT: nat := 63
  const BUFFER_SIZE: nat := 63 * 512

  /** A drive as its parameters were reported. */
  datatype Drive = Drive(id: Byte, shape: Shape, extended: bool, blocks: nat, bytesPerSector: nat) {
    predicate Reported() {
      shape.Reported() && blocks < 0x1_0000_0000_0000_0000 && bytesPerSector < 0x1_0000
    }

    function SectorSize(): nat {
      if extended then bytesPerSector else 512
    }

    function Bytes(count: nat): nat {
      count * SectorSize()
    }
  }

  datatype Kind = Read | Write | Verify

  datatype Place = Block(n: nat) | Track(a: Chs)

  /** A request as the BIOS sees it; a write carries its sectors. */
  datatype Request = Request(kind: Kind, drive: Byte, at: Place, count: nat, data: seq<Byte>, check: bool)

  /** What a call leaves in the registers, the address packet and, for a read, the buffer. */
  datatype Answer = Answer(failed: bool, al: Byte, ah: Byte, count: nat, data: nat -> Byte)

  /** The first bytes that a read leaves in the buffer. */
  function Delivered(a: Answer, n: nat): seq<Byte> {
    var data := a.data;
    seq(n, k requires 0 <= k < n => data(k))
  }

  /** What a caller's buffer holds after a transfer by way of the shared one. */
  ghost predicate Received(data: seq<Byte>, before: seq<Byte>, write: bool, a: Answer, n: nat) {
    n <= |before| && data == if write || a.failed then before else Delivered(a, n) + before[n..]
  }

  // ----- the parameter checks

  predicate TrackAccepted(d: Drive, write: bool, a: Chs, count: nat, size: nat) {
    && Verified(a) && count <= MAX_COUNT && d.Bytes(count) <= size && d.Bytes(count) <= BUFFER_SIZE
    && (write ==> size <= BUFFER_SIZE) && d.shape.Has(a)
  }

  /** An empty drive's last block is computed as the largest 64-bit number. */
  predicate BlockAccepted(d: Drive, write: bool, offset: nat, count: nat, size: nat) {
    && d.extended && offset <= (d.blocks - 1) % 0x1_0000_0000_0000_0000
    && count <= MAX_COUNT && d.Bytes(count) <= BUFFER_SIZE && d.Bytes(count) <= size && (write ==> size <= BUFFER_SIZE)
  }

  // ----- what each call asks of the BIOS

  function TrackRequest(d: Drive, write: bool, a: Chs, count: nat, contents: seq<Byte>): Request
    requires write ==> d.Bytes(count) <= |contents|
  {
    Request(if write then Write else Read, d.id, Track(a), count, if write then contents[..d.Bytes(count)] else [], false)
  }

  function BlockRequest(d: Drive, write: bool, offset: nat, count: nat, contents: seq<Byte>, check: bool): Request
    requires write ==> d.Bytes(count) <= |contents|
  {
    Request(if write then Write else Read, d.id, Block(offset), count, if write then contents[..d.Bytes(count)] else [], check)
  }

  function VerifyRequest(d: Drive, a: Chs, count: nat): Request {
    Request(Verify, d.id, Track(a), count, [], false)
  }

  /** A checked write is verified if it succeeded and wrote as many sectors as it was given. */
  predicate Verifies(d: Drive, write: bool, check: bool, count: nat, answer: Answer) {
    write && check && !answer.failed && d.Bytes(count) <= d.Bytes(Min(answer.al, count))
  }

  /** The requests one transfer by triple makes. */
  function TrackRequests(d: Drive, write: bool, a: Chs, count: nat, contents: seq<Byte>, check: bool, answer: Answer): seq<Request>
    requires write ==> d.Bytes(count) <= |contents|
  {
    var first := [TrackRequest(d, write, a, count, contents)];
    if Verifies(d, write, check, count, answer) then first + [VerifyRequest(d, a, count)] else first
  }

  /** What a transfer comes to, told from its last request: the BIOS's code if that failed, and also if a
      checked write by triple moved too few sectors to be verified. */
  function Outcome(r: Request, a: Answer, check: bool): int {
    if a.failed || (r.kind.Write? && r.at.Track? && check) then a.ah else 0
  }

  lemma Shorter(d: Drive, n: nat, count: nat)
    requires n <= count
    ensures 0 <= d.Bytes(n) <= d.Bytes(count)
  {
    Monotone(n, count, d.SectorSize());
  }

  class Firmware {
    const answers: nat -> Answer
    const buffer: array<Byte>
    var al: Byte
    var ah: Byte
    var dh: Byte
    var dl: Byte
    var cx: nat
    var packetCount: nat
    var packetBegin: nat
    var trace: seq<Request>

    ghost predicate Valid() {
      buffer.Length == BUFFER_SIZE
    }

    constructor (answers: nat -> Answer)
      ensures Valid() && fresh(buffer) && trace == [] && this.answers == answers
    {
      this.answers := answers;
      buffer := new Byte[BUFFER_SIZE](_ => 0);
      trace := [];
    }

    /** The answer to the next request. */
    ghost function Upcoming(): Answer
      reads this
    {
      answers(|trace|)
    }

    /** A call by cylinder, head and sector, as set up in the registers. */
    method CallTracks(sectorSize: nat) returns (failed: bool)
      requires Valid() && 2 <= ah <= 4 && cx < 0x1_0000 && (ah == 3 ==> al * sectorSize <= BUFFER_SIZE)
      modifies this, buffer
      ensures trace == old(trace) + [Request(
        if old(ah) == 2 then Read else if old(ah) == 3 then Write else Verify,
        old(dl), Track(Chs(Cylinder(old(cx)), old(dh), Sector(old(cx)))), old(al),
        if old(ah) == 3 then old(buffer[..al * sectorSize]) else [], false)]
      ensures failed == old(Upcoming()).failed && al == old(Upcoming()).al && ah == old(Upcoming()).ah
      ensures buffer[..] == if old(ah) == 2 then Delivered(old(Upcoming()), BUFFER_SIZE) else old(buffer[..])
    {
      var answer := answers(|trace|);
      var kind := if ah == 2 then Read else if ah == 3 then Write else Verify;
      trace := trace + [Request(kind, dl, Track(Chs(Cylinder(cx), dh, Sector(cx))), al,
                                if ah == 3 then buffer[..al * sectorSize] else [], false)];
      if ah == 2 {
        forall k | 0 <= k < buffer.Length {
          buffer[k] := answer.data(k);
        }
      }
      al, ah := answer.al, answer.ah;
      return answer.failed;
    }

    /** A call by block number, as set up in the address packet. */
    method CallBlocks(sectorSize: nat) returns (failed: bool)
      requires Valid() && (ah == 0x42 || ah == 0x43) && (ah == 0x43 ==> packetCount * sectorSize <= BUFFER_SIZE)
      modifies this, buffer
      ensures trace == old(trace) + [Request(
        if old(ah) == 0x43 then Write else Read, old(dl), Block(old(packetBegin)), old(packetCount),
        if old(ah) == 0x43 then old(buffer[..packetCount * sectorSize]) else [], old(al) == 1)]
      ensures failed == old(Upcoming()).failed && al == old(Upcoming()).al && ah == old(Upcoming()).ah
      ensures packetCount == old(Upcoming()).count
      ensures buffer[..] == if old(ah) == 0x42 then Delivered(old(Upcoming()), BUFFER_SIZE) else old(buffer[..])
    {
      var answer := answers(|trace|);
      trace := trace + [Request(if ah == 0x43 then Write else Read, dl, Block(packetBegin), packetCount,
                                if ah == 0x43 then buffer[..packetCount * sectorSize] else [], al == 1)];
      if ah == 0x42 {
        forall k | 0 <= k < buffer.Length {
          buffer[k] := answer.data(k);
        }
      }
      al, ah, packetCount := answer.al, answer.ah, answer.count;
      return answer.failed;
    }

    method CopyIn(from: array<Byte>, size: nat)
      requires Valid() && from != buffer && size <= from.Length && size <= BUFFER_SIZE
      modifies buffer
      ensures buffer[..size] == from[..size]
    {
      forall k | 0 <= k < size {
        buffer[k] := from[k];
      }
    }

    method CopyOut(to: array<Byte>, size: nat)
      requires Valid() && to != buffer && size <= to.Length && size <= BUFFER_SIZE
      modifies to
      ensures to[..size] == buffer[..size] && to[size..] == old(to[size..])
    {
      forall k | 0 <= k < size {
        to[k] := buffer[k];
      }
    }

    /** The registers for a call by triple; packing the cylinder loses nothing. */
    method SetTrack(d: Drive, a: Chs, count: nat, function': Byte)
      requires Verified(a) && count <= MAX_COUNT
      modifies this`dh, this`cx, this`al, this`ah, this`dl
      ensures dh == a.h && cx < 0x1_0000 && Chs(Cylinder(cx), dh, Sector(cx)) == a && al == count && ah == function' && dl == d.id
    {
      PackRoundTrip(a.c, a.s);
      dh, cx, al, ah, dl := a.h, Pack(a.c, a.s), count, function', d.id;
    }

    method VerifyTrack(d: Drive, a: Chs, count: nat, size: nat) returns (ret: int)
      requires Valid() && d.Reported()
      modifies this, buffer
      ensures TrackAccepted(d, false, a, count, size) ==> trace == old(trace) + [VerifyRequest(d, a, count)]
      ensures !TrackAccepted(d, false, a, count, size) ==> trace == old(trace) && ah == old(ah)
      ensures TrackAccepted(d, false, a, count, size) ==> ah == old(Upcoming()).ah
      ensures ret == if !TrackAccepted(d, false, a, count, size) then -1 else if old(Upcoming()).failed then ah else 0
    {
      if !Verified(a) || count > MAX_COUNT || count * d.SectorSize() > size || count * d.SectorSize() > BUFFER_SIZE || !d.shape.Has(a) {
        return -1;
      }
      SetTrack(d, a, count, 4);
      var failed := CallTracks(d.SectorSize());
      return if failed then ah else 0;
    }

    /** Hand the data over, set the registers up for a triple, and call. */
    method CallForTracks(write: bool, d: Drive, a: Chs, count: nat, data: array<Byte>, size: nat) returns (failed: bool)
      requires Valid() && data != buffer && size <= data.Length && TrackAccepted(d, write, a, count, size)
      modifies this, buffer
      ensures trace == old(trace) + [TrackRequest(d, write, a, count, data[..])]
      ensures failed == old(Upcoming()).failed && al == old(Upcoming()).al && ah == old(Upcoming()).ah
      ensures !write ==> buffer[..] == Delivered(old(Upcoming()), BUFFER_SIZE)
    {
      if write {
        CopyIn(data, size);
        assert buffer[..d.Bytes(count)] == data[..d.Bytes(count)];
      }
      SetTrack(d, a, count, if write then 3 else 2);
      failed := CallTracks(d.SectorSize());
    }

    /** The same by block number, with the address packet. */
    method CallForBlocks(write: bool, d: Drive, offset: nat, count: nat, data: array<Byte>, size: nat, check: bool)
      returns (failed: bool)
      requires Valid() && data != buffer && size <= data.Length && BlockAccepted(d, write, offset, count, size)
      modifies this, buffer
      ensures trace == old(trace) + [BlockRequest(d, write, offset, count, data[..], check)]
      ensures failed == old(Upcoming()).failed && al == old(Upcoming()).al && ah == old(Upcoming()).ah
      ensures packetCount == old(Upcoming()).count
      ensures !write ==> buffer[..] == Delivered(old(Upcoming()), BUFFER_SIZE)
    {
      if write {
        CopyIn(data, size);
        assert buffer[..d.Bytes(count)] == data[..d.Bytes(count)];
      }
      packetCount, packetBegin := count, offset;
      al, ah, dl := if check then 1 else 0, if write then 0x43 else 0x42, d.id;
      failed := CallBlocks(d.bytesPerSector);
    }

    /** Take what was read, as far as both sides counted. */
    method TakeOver(data: array<Byte>, n: nat, ghost answer: Answer)
      requires Valid() && data != buffer && n <= data.Length && n <= BUFFER_SIZE && !answer.failed
      requires buffer[..] == Delivered(answer, BUFFER_SIZE)
      modifies data
      ensures Received(data[..], old(data[..]), false, answer, n)
    {
      CopyOut(data, n);
      assert data[..] == data[..n] + data[n..];
      assert buffer[..n] == Delivered(answer, n);
    }

    /** Read or write by triple. A failure's code is never negative; only a rejected request's is. */
    method TracksRw(write: bool, d: Drive, a: Chs, count: nat, data: array<Byte>, size: nat, check: bool)
      returns (ret: int, moved: nat)
      requires Valid() && d.Reported() && data != buffer && size <= data.Length
      modifies this, buffer, data
      ensures ret == -1 <==> !TrackAccepted(d, write, a, count, size)
      ensures ret == -1 ==> trace == old(trace) && moved == size && data[..] == old(data[..])
      ensures ret != -1 ==> moved == if old(Upcoming()).failed then size else d.Bytes(Min(old(Upcoming()).al, count))
      ensures ret != -1 ==> Received(data[..], old(data[..]), write, old(Upcoming()), d.Bytes(Min(old(Upcoming()).al, count)))
      ensures ret != -1 ==>
        && trace == old(trace) + TrackRequests(d, write, a, count, old(data[..]), check, old(Upcoming()))
        && ret == Outcome(trace[|trace| - 1], answers(|trace| - 1), check)
    {
      moved := size;
      if !Verified(a) || count > MAX_COUNT || count * d.SectorSize() > size || count * d.SectorSize() > BUFFER_SIZE
        || (write && size > BUFFER_SIZE) || !d.shape.Has(a) {
        return -1, moved;
      }
      ghost var answer := Upcoming();
      Shorter(d, Min(answer.al, count), count);
      var failed := CallForTracks(write, d, a, count, data, size);
      ret := if failed then ah else 0;
      if !failed {
        moved := Min(al, count) * d.SectorSize();
        if !write {
          TakeOver(data, moved, answer);
        } else if check {
          var status := VerifyTrack(d, a, count, moved);
          ret := if status == 0 then 0 else ah;
        }
      }
    }

    /** Read or write by block number. */
    method BlocksRw(write: bool, d: Drive, offset: nat, count: nat, data: array<Byte>, size: nat, check: bool)
      returns (ret: int, moved: nat)
      requires Valid() && d.Reported() && data != buffer && size <= data.Length
      modifies this, buffer, data
      ensures ret == -1 <==> !BlockAccepted(d, write, offset, count, size)
      ensures ret == -1 ==> trace == old(trace) && moved == size && data[..] == old(data[..])
      ensures ret != -1 ==>
        moved == var a := old(Upcoming()); if a.failed then size else d.Bytes(if a.al > count then count else a.count)
      ensures ret != -1 ==> Received(data[..], old(data[..]), write, old(Upcoming()), d.Bytes(Min(old(Upcoming()).count, count)))
      ensures ret != -1 ==>
        && trace == old(trace) + [BlockRequest(d, write, offset, count, old(data[..]), check)]
        && ret == Outcome(trace[|trace| - 1], answers(|trace| - 1), check)
    {
      moved := size;
      if !d.extended || offset > (d.blocks - 1) % 0x1_0000_0000_0000_0000 || count > MAX_COUNT
        || count * d.bytesPerSector > BUFFER_SIZE || count * d.bytesPerSector > size || (write && size > BUFFER_SIZE) {
        return -1, moved;
      }
      ghost var answer := Upcoming();
      Shorter(d, Min(answer.count, count), count);
      var failed := CallForBlocks(write, d, offset, count, data, size, check);
      ret := if failed then ah else 0;
      if !failed {
        if !write {
          TakeOver(data, Min(packetCount, count) * d.bytesPerSector, answer);
        }
        moved := (if al > count then count else packetCount) * d.bytesPerSector;
      }
    }
  }
}
