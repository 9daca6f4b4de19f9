/** Which host handle each file descriptor holds: the table as a value, its invariant, and every run of
    opening and closing. */
module Descriptors {
  const MAX_OPEN: nat := 20

  /** The handle in each slot, -1 where free, and the handles that are open at the host. */
  datatype Table = Table(handles: seq<int>, live: set<int>)

  function Held(handles: seq<int>): set<int> {
    set i | 0 <= i < |handles| && handles[i] != -1 :: handles[i]
  }

  /** Every live handle has a slot, every taken slot has a live handle, and only standard output and
      standard error may have the same one. */
  ghost predicate Whole(t: Table) {
    && |t.handles| == MAX_OPEN && t.live == Held(t.handles)
    && (forall i, j :: 0 <= i < j < MAX_OPEN && t.handles[i] == t.handles[j] && t.handles[i] != -1 ==> i == 1 && j == 2)
  }

  /** The lowest free slot, or the number of slots if there is none. */
  function Lowest(handles: seq<int>): (i: nat)
    ensures i <= |handles| && (i < |handles| ==> handles[i] == -1)
    ensures forall k :: 0 <= k < i ==> handles[k] != -1
  {
    if handles == [] || handles[0] == -1 then 0 else 1 + Lowest(handles[1..])
  }

  predicate Taken(handles: seq<int>, fd: int) {
    0 <= fd < |handles| && handles[fd] != -1
  }

  /** A new handle is -1 on failure, or not open yet. */
  predicate Fresh(t: Table, fh: int) {
    fh == -1 || (fh >= 0 && fh !in t.live)
  }

  /** Put a handle that was just opened into a slot. */
  function Placed(t: Table, slot: nat, fh: int): Table
    requires slot < |t.handles|
  {
    if fh >= 0 then Table(t.handles[slot := fh], t.live + {fh}) else t
  }

  /** A plain open, given the handle that the host returns. */
  function Opened(t: Table, fh: int): Table {
    var slot := Lowest(t.handles);
    if slot < |t.handles| then Placed(t, slot, fh) else t
  }

  predicate Shared(handles: seq<int>, fd: int)
    requires Taken(handles, fd)
  {
    (fd == 1 || fd == 2) && |handles| > 2 && handles[1] == handles[2]
  }

  /** A close, given what the host answers if it is asked. */
  function Closed(t: Table, fd: int, res: int): Table {
    if !Taken(t.handles, fd) then t
    else if Shared(t.handles, fd) then t.(handles := t.handles[fd := -1])
    else if res == 0 then Table(t.handles[fd := -1], t.live - {t.handles[fd]})
    else t
  }

  /** What the host answers during an open: to opening, querying and closing the probe of an exclusive
      creation, and to the open itself. */
  datatype Answers = Answers(probe: int, tty: int, length: int, probeClose: int, open: int) {
    predicate Stats() {
      tty == 1 || (tty == 0 && length != -1)
    }
  }

  /** The table after the probe of an exclusive creation. */
  function Probed(t: Table, a: Answers): Table {
    if a.probe >= 0 then Closed(Opened(t, a.probe), Lowest(t.handles), a.probeClose) else t
  }

  /** The probe found a file. */
  predicate Exists(a: Answers) {
    a.probe >= 0 && a.Stats()
  }

  /** An open with O_CREAT and O_EXCL. The slot is chosen before the probe. */
  function OpenedExclusive(t: Table, a: Answers): Table {
    var slot := Lowest(t.handles);
    if slot == |t.handles| || |Probed(t, a).handles| != |t.handles| then t
    else if Exists(a) then Probed(t, a)
    else Placed(Probed(t, a), slot, a.open)
  }

  predicate FreshAnswers(t: Table, a: Answers, exclusive: bool) {
    if exclusive then Fresh(t, a.probe) && (!Exists(a) ==> Fresh(Probed(t, a), a.open)) else Fresh(t, a.open)
  }

  // ----- one step

  lemma HeldAfterUpdate(handles: seq<int>, i: nat, h: int)
    requires i < |handles|
    ensures forall x :: x != -1 && x != handles[i] ==> (x in Held(handles[i := h]) <==> x in Held(handles) || x == h)
    ensures h != -1 ==> h in Held(handles[i := h])
  {
    var after := handles[i := h];
    forall x | x in Held(after) && x != h ensures x in Held(handles) {
      var k :| 0 <= k < |after| && after[k] == x;
      assert handles[k] == x;
    }
    forall x | x in Held(handles) && x != handles[i] ensures x in Held(after) {
      var k :| 0 <= k < |handles| && handles[k] == x;
      assert after[k] == x;
    }
    assert after[i] == h;
  }

  lemma PlacedIsWhole(t: Table, slot: nat, fh: int)
    requires Whole(t) && slot < MAX_OPEN && t.handles[slot] == -1 && Fresh(t, fh)
    ensures Whole(Placed(t, slot, fh))
  {
    if fh >= 0 {
      HeldAfterUpdate(t.handles, slot, fh);
      assert Held(t.handles[slot := fh]) == t.live + {fh};
    }
  }

  lemma OpenedIsWhole(t: Table, fh: int)
    requires Whole(t) && Fresh(t, fh)
    ensures Whole(Opened(t, fh))
  {
    if Lowest(t.handles) < MAX_OPEN {
      PlacedIsWhole(t, Lowest(t.handles), fh);
    }
  }

  /** Freeing a slot loses its handle exactly when no other slot has it. */
  lemma FreedSlot(t: Table, fd: nat)
    requires Whole(t) && Taken(t.handles, fd)
    ensures Held(t.handles[fd := -1]) == if Shared(t.handles, fd) then t.live else t.live - {t.handles[fd]}
  {
    var h, after := t.handles[fd], t.handles[fd := -1];
    HeldAfterUpdate(t.handles, fd, -1);
    if Shared(t.handles, fd) {
      assert after[3 - fd] == h;
    } else {
      assert forall k :: 0 <= k < |after| ==> after[k] != h;
    }
  }

  lemma ClosedIsWhole(t: Table, fd: int, res: int)
    requires Whole(t)
    ensures Whole(Closed(t, fd, res))
  {
    if Taken(t.handles, fd) {
      FreedSlot(t, fd);
    }
  }

  /** A handle that standard output and standard error share stays open when the first of them is
      closed, and goes when the second is. */
  lemma SharedClosesSecond(t: Table, first: int, res: int, res': int)
    requires Whole(t) && Taken(t.handles, 1) && t.handles[1] == t.handles[2] && (first == 1 || first == 2)
    ensures var once := Closed(t, first, res);
      var twice := Closed(once, 3 - first, res');
      && once.live == t.live && once.handles[3 - first] == t.handles[1] && !Taken(once.handles, first)
      && twice.live == if res' == 0 then t.live - {t.handles[1]} else t.live
  {}

  // ----- the probe

  /** A probe that is closed again leaves the table as it was; one that is not stays in the slot that
      was chosen. */
  lemma ProbeIsUndone(t: Table, a: Answers)
    requires Whole(t) && Lowest(t.handles) < MAX_OPEN && Fresh(t, a.probe)
    ensures Probed(t, a) == if a.probe >= 0 && a.probeClose != 0 then Opened(t, a.probe) else t
    ensures Whole(Probed(t, a))
  {
    var slot := Lowest(t.handles);
    OpenedIsWhole(t, a.probe);
    if a.probe >= 0 {
      var o := Opened(t, a.probe);
      ClosedIsWhole(o, slot, a.probeClose);
      assert a.probe !in Held(t.handles);
      assert forall k :: 0 <= k < MAX_OPEN && k != slot ==> o.handles[k] != a.probe;
      assert !Shared(o.handles, slot);
      assert o.handles[slot := -1] == t.handles && o.live - {a.probe} == t.live;
    }
  }

  /** The one case in which a handle is lost: the probe opened a file that could then neither be
      queried nor closed, and the creation itself succeeded. */
  predicate Loses(t: Table, a: Answers) {
    Lowest(t.handles) < |t.handles| && a.probe >= 0 && !a.Stats() && a.probeClose != 0 && a.open >= 0
  }

  /** An exclusive creation keeps the table whole except in exactly that case: the probe's handle then
      stays open at the host without a slot. */
  lemma ExclusiveIsWhole(t: Table, a: Answers)
    requires Whole(t) && FreshAnswers(t, a, true)
    ensures Whole(OpenedExclusive(t, a)) <==> !Loses(t, a)
  {
    var slot := Lowest(t.handles);
    if slot < MAX_OPEN {
      ProbeIsUndone(t, a);
      var p := Probed(t, a);
      if a.probe >= 0 && a.probeClose != 0 {
        if !a.Stats() && a.open >= 0 {
          LostHandle(t, slot, a.probe, a.open);
        }
      } else if !Exists(a) {
        PlacedIsWhole(p, slot, a.open);
      }
    }
  }

  /** For instance in an empty table: the probe's handle 3 is lost. */
  lemma ProbeLost(t: Table)
    requires t == Table(seq(MAX_OPEN, _ => -1), {})
    ensures var a := Answers(3, -1, -1, -1, 4);
      Whole(t) && FreshAnswers(t, a, true) && OpenedExclusive(t, a) == Table(t.handles[0 := 4], {3, 4}) && !Whole(OpenedExclusive(t, a))
  {
    var a := Answers(3, -1, -1, -1, 4);
    assert t.handles[0] == -1 && Lowest(t.handles) == 0;
    assert Probed(t, a) == Table(t.handles[0 := 3], {3});
    assert t.handles[0 := 3][0 := 4] == t.handles[0 := 4];
    ExclusiveIsWhole(t, a);
  }

  lemma LostHandle(t: Table, slot: nat, lost: int, fh: int)
    requires Whole(t) && slot < MAX_OPEN && t.handles[slot] == -1
    requires lost >= 0 && lost !in t.live && fh >= 0 && fh != lost
    ensures !Whole(Placed(Placed(t, slot, lost), slot, fh))
  {
    var after := t.handles[slot := lost][slot := fh];
    assert after == t.handles[slot := fh];
    assert forall k :: 0 <= k < MAX_OPEN && t.handles[k] != -1 ==> t.handles[k] in Held(t.handles);
    assert forall k :: 0 <= k < |after| ==> after[k] != lost;
  }

  // ----- every run

  datatype Op = Open(exclusive: bool, answers: Answers) | Close(fd: int, res: int)

  function Step(t: Table, op: Op): Table {
    match op
    case Open(exclusive, a) => if exclusive then OpenedExclusive(t, a) else Opened(t, a.open)
    case Close(fd, res) => Closed(t, fd, res)
  }

  function Run(t: Table, ops: seq<Op>): Table {
    if ops == [] then t else Step(Run(t, ops[..|ops| - 1]), ops[|ops| - 1])
  }

  /** The host returns fresh handles, and no exclusive creation is the losing case. */
  ghost predicate GoodHost(t: Table, ops: seq<Op>) {
    ops == [] ||
    (var before, op := Run(t, ops[..|ops| - 1]), ops[|ops| - 1];
     GoodHost(t, ops[..|ops| - 1])
     && (op.Open? ==> FreshAnswers(before, op.answers, op.exclusive) && (op.exclusive ==> !Loses(before, op.answers))))
  }

  /** Over every run no handle is lost, shared by mistake, or kept after it was closed. */
  lemma {:induction false} RunIsWhole(t: Table, ops: seq<Op>)
    requires Whole(t) && GoodHost(t, ops)
    ensures Whole(Run(t, ops))
  {
    if ops != [] {
      var before, op := Run(t, ops[..|ops| - 1]), ops[|ops| - 1];
      RunIsWhole(t, ops[..|ops| - 1]);
      match op
      case Open(exclusive, a) =>
        if exclusive {
          ExclusiveIsWhole(before, a);
        } else {
          OpenedIsWhole(before, a.open);
        }
      case Close(fd, res) => ClosedIsWhole(before, fd, res);
    }
  }

  /** The table after start-up, given the three handles of the console. */
  function Initial(stdin: int, stdout: int, stderr: int): Table {
    var err := if stderr == -1 then stdout else stderr;
    var handles := [stdin, stdout, err] + seq(MAX_OPEN - 3, _ => -1);
    Table(handles, Held(handles))
  }

  lemma ThreeHeld(a: int, b: int, c: int)
    ensures Held([a, b, c] + seq(MAX_OPEN - 3, _ => -1)) == {a, b, c} - {-1}
  {
    var handles := [a, b, c] + seq(MAX_OPEN - 3, _ => -1);
    assert handles[0] == a && handles[1] == b && handles[2] == c;
  }

  /** It is whole unless the host gave standard input the handle of another stream. */
  lemma InitialIsWhole(stdin: int, stdout: int, stderr: int)
    ensures Whole(Initial(stdin, stdout, stderr)) <==> stdin == -1 || (stdin != stdout && stdin != stderr)
  {
    var handles := Initial(stdin, stdout, stderr).handles;
    assert handles[0] == stdin && handles[1] == stdout && handles[2] == if stderr == -1 then stdout else stderr;
  }

  // ----- reading, writing and seeking

  datatype Errno = Clear | EBADF | ENOENT | EMFILE | EEXIST | EINVAL | EOVERFLOW | Host

  datatype Whence = Set | Current | End | Unknown

  /** A 32-bit signed sum. */
  function Int32(x: int): int {
    (x + 0x8000_0000) % 0x1_0000_0000 - 0x8000_0000
  }

  predicate IsInt32(x: int) {
    -0x8000_0000 <= x < 0x8000_0000
  }

  /** Where a relative seek ends up: nowhere if the 32-bit sum is negative. */
  function Relative(pos: int, offset: int): (r: (int, Errno))
  {
    var at := Int32(pos + offset);
    if at < 0 then (-1, if pos > 0 && at > 0 then EOVERFLOW else EINVAL) else (at, Clear)
  }

  /** The overflow is never reported as such: a sum that is too large is taken for a negative one, and
      one that is far too negative for a valid position. */
  lemma OverflowLooksInvalid(pos: int, offset: int)
    requires IsInt32(pos) && IsInt32(offset)
    ensures Relative(pos, offset).1 != EOVERFLOW
    ensures Relative(pos, offset) == (pos + offset, Clear) <==> 0 <= pos + offset < 0x8000_0000
    ensures pos + offset >= 0x8000_0000 || -0x8000_0000 <= pos + offset < 0 ==> Relative(pos, offset) == (-1, EINVAL)
    ensures pos + offset < -0x8000_0000 ==> Relative(pos, offset) == (pos + offset + 0x1_0000_0000, Clear)
  {}

  // ----- open modes

  const O_WRONLY: nat := 1
  const O_RDWR: nat := 2
  const O_APPEND: nat := 8
  const O_CREAT: nat := 0x200
  const O_TRUNC: nat := 0x400
  const O_EXCL: nat := 0x800
  const O_BINARY: nat := 0x1_0000

  predicate Has(flags: nat, bit: nat)
    requires bit > 0
  {
    flags / bit % 2 == 1
  }

  /** The host's mode number: r, r+, w, w+, a, a+ are 0, 2, 4, 6, 8, 10, and one more for binary. */
  function HostMode(flags: nat): nat {
    var binary := if Has(flags, O_BINARY) then 1 else 0;
    var update := if Has(flags, O_RDWR) then 2 else 0;
    var write := if Has(flags, O_CREAT) || Has(flags, O_TRUNC) || Has(flags, O_WRONLY) then 4 else 0;
    binary + update + if Has(flags, O_APPEND) then 8 else write
  }

  // ----- the table itself

  datatype Slot = Slot(handle: int, flags: nat, ino: int, pos: int)

  /** A file's attributes; everyone may read it, and everyone may write it or no one. */
  datatype FileStat = FileStat(character: bool, regular: bool, writable: bool, size: int, blksize: int, blocks: int, ino: int, nlink: int)

  const NO_STAT := FileStat(false, false, false, 0, 0, 0, 0, 0)

  /** Blocks of 1024 bytes, in 32-bit arithmetic that rounds towards zero. */
  function BlocksFor(length: int): int {
    var x := Int32(length + 1023);
    if x >= 0 then x / 1024 else 0 - (0 - x) / 1024
  }

  function StatOf(slot: Slot, tty: bool, length: int): FileStat {
    FileStat(tty, !tty, Has(slot.flags, 2), if tty then 0 else length, if tty then 0 else 1024, if tty then 0 else BlocksFor(length),
             slot.ino, 1)
  }

  /** A descriptor is reported writable exactly if it was opened for writing, alone or with reading; the
      sum of both access modes counts as neither. */
  lemma WritableIfOpenedSo(fh: int, flags: nat, ino: int, tty: bool, length: int)
    ensures StatOf(Slot(fh, flags + 1, ino, 0), tty, length).writable <==> flags % 4 == O_WRONLY || flags % 4 == O_RDWR
  {
    assert (flags + 1) / 2 % 2 == 1 <==> flags % 4 == 1 || flags % 4 == 2;
  }

  /** The blocks reported hold the file, with less than one to spare, exactly if the rounding does not
      overflow. */
  lemma BlocksHold(length: int)
    requires 0 <= length < 0x8000_0000
    ensures length <= BlocksFor(length) * 1024 < length + 1024 <==> length + 1023 < 0x8000_0000
  {}

  class Files {
    const slots: array<Slot>
    var ino: int
    var errno: Errno
    ghost var live: set<int>
    ghost var modes: seq<nat>

    ghost predicate Valid() {
      slots.Length == MAX_OPEN
    }

    ghost function Handles(): seq<int>
      reads slots
    {
      seq(slots.Length, i requires 0 <= i < slots.Length reads slots => slots[i].handle)
    }

    ghost function State(): Table
      reads this, slots
    {
      Table(Handles(), live)
    }

    constructor ()
      ensures Valid() && fresh(slots) && live == {} && modes == []
    {
      slots := new Slot[MAX_OPEN](_ => Slot(0, 0, 0, 0));
      ino, errno, live, modes := 1, Clear, {}, [];
    }

    /** The host opens a file: -1 for a failure, or a handle. */
    method HostOpen(mode: nat, answer: int) returns (fh: int)
      requires answer >= -1
      modifies this`live, this`modes
      ensures fh == answer && modes == old(modes) + [mode] && live == if fh >= 0 then old(live) + {fh} else old(live)
    {
      live := if answer >= 0 then live + {answer} else live;
      modes := modes + [mode];
      return answer;
    }

    /** The host closes a handle, which must be open. */
    method HostClose(fh: int, answer: int) returns (res: int)
      requires fh in live
      modifies this`live, this`errno
      ensures res == answer && live == if res == 0 then old(live) - {fh} else old(live)
      ensures errno == if res == -1 then Host else old(errno)
    {
      live := if answer == 0 then live - {fh} else live;
      if answer == -1 {
        errno := Host;
      }
      return answer;
    }

    /** Any other request about a handle, which must be open too. */
    method HostAsk(fh: int, answer: int) returns (res: int)
      requires fh in live
      ensures res == answer
    {
      return answer;
    }

    method FindSlot(fd: int) returns (found: bool)
      requires Valid()
      ensures found <==> Taken(Handles(), fd)
    {
      return 0 <= fd < MAX_OPEN && slots[fd].handle != -1;
    }

    method NewSlot() returns (fd: int)
      requires Valid()
      ensures fd == if Lowest(Handles()) < MAX_OPEN then Lowest(Handles()) else -1
    {
      var i := 0;
      while i < MAX_OPEN && slots[i].handle != -1
        invariant 0 <= i <= MAX_OPEN
        invariant forall k :: 0 <= k < i ==> slots[k].handle != -1
      {
        i := i + 1;
      }
      LowestIs(Handles(), i);
      return if i == MAX_OPEN then -1 else i;
    }

    /** Setting a slot's handle sets it in the table. */
    method SetHandle(fd: nat, fh: int)
      requires Valid() && fd < MAX_OPEN
      modifies slots
      ensures Handles() == old(Handles())[fd := fh]
      ensures slots[..] == old(slots[..])[fd := old(slots[fd]).(handle := fh)]
    {
      slots[fd] := slots[fd].(handle := fh);
    }

    method FreeAll()
      requires Valid()
      modifies slots
      ensures forall k :: 0 <= k < MAX_OPEN ==> slots[k] == old(slots[k]).(handle := -1)
    {
      for i := 0 to MAX_OPEN
        invariant forall k :: 0 <= k < i ==> slots[k] == old(slots[k]).(handle := -1)
        invariant forall k :: i <= k < MAX_OPEN ==> slots[k] == old(slots[k])
      {
        slots[i] := slots[i].(handle := -1);
      }
    }

    /** Start-up: the console is opened for reading, writing and appending. The flags all go to slot 0. */
    method InitialiseMonitorHandles(stdin: int, stdout: int, stderr: int)
      requires Valid() && live == {} && stdin >= -1 && stdout >= -1 && stderr >= -1
      modifies this`live, this`modes, slots
      ensures State() == Initial(stdin, stdout, stderr)
      ensures Whole(State()) <==> stdin == -1 || (stdin != stdout && stdin != stderr)
      ensures modes == old(modes) + [0, 4, 8]
      ensures slots[0].pos == slots[1].pos == slots[2].pos == 0
      ensures slots[0].flags == 2 && slots[1].flags == old(slots[1].flags) && slots[2].flags == old(slots[2].flags)
    {
      var in' := HostOpen(0, stdin);
      var out := HostOpen(4, stdout);
      var err := HostOpen(8, stderr);
      if err == -1 {
        err := out;
      }
      FreeAll();
      slots[0] := slots[0].(handle := in', flags := 1, pos := 0);
      slots[1] := slots[1].(handle := out, pos := 0);
      slots[0] := slots[0].(flags := 2);
      slots[2] := slots[2].(handle := err, pos := 0);
      slots[0] := slots[0].(flags := 2);
      assert Handles() == Initial(stdin, stdout, stderr).handles;
      ThreeHeld(stdin, out, err);
      InitialIsWhole(stdin, stdout, stderr);
    }

    method Close(fd: int, answer: int) returns (res: int)
      requires Valid() && Whole(State())
      modifies this`live, this`errno, slots
      ensures State() == Closed(old(State()), fd, answer) && Whole(State())
      ensures res == if !Taken(old(Handles()), fd) then -1 else if Shared(old(Handles()), fd) then 0 else answer
      ensures !Taken(old(Handles()), fd) ==> errno == EBADF
      ensures forall k :: 0 <= k < MAX_OPEN && k != fd ==> slots[k] == old(slots[k])
    {
      ClosedIsWhole(State(), fd, answer);
      var found := FindSlot(fd);
      if !found {
        errno := EBADF;
        return -1;
      }
      assert Handles()[fd] in Held(Handles());
      if (fd == 1 || fd == 2) && slots[1].handle == slots[2].handle {
        SetHandle(fd, -1);
        return 0;
      }
      res := HostClose(slots[fd].handle, answer);
      if res == 0 {
        SetHandle(fd, -1);
      }
    }

    /** The attributes of a descriptor: those of a terminal, or of a file whose length the host knows. */
    method SwiStat(fd: int, tty: int, length: int) returns (res: int, st: FileStat)
      requires Valid() && Whole(State())
      modifies this`errno
      ensures res == if Taken(Handles(), fd) && (tty == 1 || (tty == 0 && length != -1)) then 0 else -1
      ensures res == 0 ==> st == StatOf(slots[fd], tty == 1, length)
      ensures !Taken(Handles(), fd) ==> errno == EBADF
    {
      st := NO_STAT;
      var found := FindSlot(fd);
      if !found {
        errno := EBADF;
        return -1, st;
      }
      assert Handles()[fd] in Held(Handles());
      var answer := HostAsk(slots[fd].handle, tty);
      if answer != 0 && answer != 1 {
        errno := Host;
        return -1, st;
      }
      if answer == 1 {
        st := st.(character := true);
      } else {
        st := st.(regular := true);
        var n := HostAsk(slots[fd].handle, length);
        if n == -1 {
          errno := Host;
          return -1, st;
        }
        st := st.(size := n, blksize := 1024, blocks := BlocksFor(n));
      }
      st := st.(writable := Has(slots[fd].flags, 2), ino := slots[fd].ino, nlink := 1);
      return 0, st;
    }

    /** Open without a probe. */
    method OpenPlain(flags: nat, answer: int) returns (res: int)
      requires Valid() && Whole(State()) && Fresh(State(), answer)
      modifies this`live, this`modes, this`errno, this`ino, slots
      ensures State() == Opened(old(State()), answer) && Whole(State())
      ensures res == if Lowest(old(Handles())) == MAX_OPEN || answer < 0 then -1 else Lowest(old(Handles()))
      ensures res >= 0 ==> slots[res].flags == flags + 1 && slots[res].pos == 0 && slots[res].ino == old(ino) && ino == old(ino) + 1
      ensures Lowest(old(Handles())) == MAX_OPEN ==> errno == EMFILE && modes == old(modes)
      ensures Lowest(old(Handles())) < MAX_OPEN ==> modes == old(modes) + [HostMode(flags)]
      ensures forall k :: 0 <= k < MAX_OPEN && k != res ==> slots[k] == old(slots[k])
    {
      OpenedIsWhole(State(), answer);
      var fd := NewSlot();
      if fd == -1 {
        errno := EMFILE;
        return -1;
      }
      res := OpenInto(fd, flags, answer);
    }

    /** The last part of an open: ask the host, and put its handle into the chosen slot. */
    method OpenInto(fd: nat, flags: nat, answer: int) returns (res: int)
      requires Valid() && fd < MAX_OPEN && Fresh(State(), answer)
      modifies this`live, this`modes, this`errno, this`ino, slots
      ensures State() == Placed(old(State()), fd, answer)
      ensures res == if answer < 0 then -1 else fd
      ensures res >= 0 ==> slots[fd] == Slot(answer, flags + 1, old(ino), 0) && ino == old(ino) + 1
      ensures modes == old(modes) + [HostMode(flags)]
      ensures forall k :: 0 <= k < MAX_OPEN && k != res ==> slots[k] == old(slots[k])
    {
      var fh := HostOpen(HostMode(flags), answer);
      if fh >= 0 {
        slots[fd] := Slot(fh, flags + 1, ino, 0);
        ino := ino + 1;
        return fd;
      }
      errno := Host;
      return fh;
    }

    /** Query a file by name: open it for reading, query it, and close it whatever that came to. */
    method Stat(a: Answers) returns (res: int)
      requires Valid() && Whole(State()) && Fresh(State(), a.probe)
      modifies this`live, this`modes, this`errno, this`ino, slots
      ensures State() == Probed(old(State()), a) && Whole(State())
      ensures res == if Exists(a) && Lowest(old(Handles())) < MAX_OPEN then 0 else -1
      ensures modes == old(modes) + if Lowest(old(Handles())) < MAX_OPEN then [HostMode(0)] else []
      ensures Lowest(old(Handles())) == MAX_OPEN ==> errno == EMFILE
      ensures forall k :: 0 <= k < MAX_OPEN && k != Lowest(old(Handles())) ==> slots[k] == old(slots[k])
    {
      if Lowest(Handles()) < MAX_OPEN {
        ProbeIsUndone(State(), a);
      }
      var fd := OpenPlain(0, a.probe);
      if fd == -1 {
        return -1;
      }
      var st;
      res, st := SwiStat(fd, a.tty, a.length);
      var _ := Close(fd, a.probeClose);
    }

    /** Open a file. The slot is chosen first; an exclusive creation then probes for the file. */
    method SwiOpen(named: bool, flags: nat, a: Answers) returns (res: int)
      requires Valid() && Whole(State()) && FreshAnswers(State(), a, Has(flags, O_CREAT) && Has(flags, O_EXCL))
      modifies this`live, this`modes, this`errno, this`ino, slots
      ensures !named ==> res == -1 && errno == ENOENT && State() == old(State())
      ensures named && Lowest(old(Handles())) == MAX_OPEN ==> res == -1 && errno == EMFILE && State() == old(State())
      ensures named && Lowest(old(Handles())) < MAX_OPEN ==>
        var exclusive := Has(flags, O_CREAT) && Has(flags, O_EXCL);
        && State() == Step(old(State()), Open(exclusive, a))
        && (exclusive && Exists(a) ==> res == -1 && errno == EEXIST && modes == old(modes) + [HostMode(0)])
        && (!(exclusive && Exists(a)) ==>
              && res == (if a.open < 0 then -1 else Lowest(old(Handles())))
              && modes == old(modes) + (if exclusive then [HostMode(0)] else []) + [HostMode(flags)]
              && (res >= 0 ==> slots[res].handle == a.open && slots[res].flags == flags + 1 && slots[res].pos == 0))
      ensures forall k :: 0 <= k < MAX_OPEN && k != Lowest(old(Handles())) ==> slots[k] == old(slots[k])
    {
      if !named {
        errno := ENOENT;
        return -1;
      }
      var fd := NewSlot();
      if fd == -1 {
        errno := EMFILE;
        return -1;
      }
      if Has(flags, O_CREAT) && Has(flags, O_EXCL) {
        ProbeIsUndone(State(), a);
        var found := Stat(a);
        if found != -1 {
          errno := EEXIST;
          return -1;
        }
      }
      res := OpenInto(fd, flags, a.open);
    }

    /** Read, given how many bytes the host says it did not read. */
    method Read(fd: int, len: int, answer: int) returns (n: int)
      requires Valid() && Whole(State())
      modifies this`errno, slots
      ensures !Taken(old(Handles()), fd) ==> n == -1 && errno == EBADF && slots[..] == old(slots[..])
      ensures Taken(old(Handles()), fd) && answer == -1 ==> n == -1 && errno == Host && slots[..] == old(slots[..])
      ensures Taken(old(Handles()), fd) && answer != -1 ==>
        n == len - answer && slots[..] == old(slots[..])[fd := old(slots[fd]).(pos := Int32(old(slots[fd].pos) + n))]
    {
      var found := FindSlot(fd);
      if !found {
        errno := EBADF;
        return -1;
      }
      assert Handles()[fd] in Held(Handles());
      var res := HostAsk(slots[fd].handle, answer);
      if res == -1 {
        errno := Host;
        return -1;
      }
      slots[fd] := slots[fd].(pos := Int32(slots[fd].pos + (len - res)));
      return len - res;
    }

    /** Write, given how many bytes the host says it did not write; none written is looked into. */
    method Write(fd: int, len: int, answer: int) returns (n: int)
      requires Valid() && Whole(State())
      modifies this`errno, slots
      ensures !Taken(old(Handles()), fd) ==> n == -1 && errno == EBADF && slots[..] == old(slots[..])
      ensures Taken(old(Handles()), fd) && answer < 0 ==> n == -1 && slots[..] == old(slots[..])
      ensures Taken(old(Handles()), fd) && answer >= 0 ==>
        && n == len - answer && (n == 0 ==> errno == Host)
        && slots[..] == old(slots[..])[fd := old(slots[fd]).(pos := Int32(old(slots[fd].pos) + n))]
    {
      var found := FindSlot(fd);
      if !found {
        errno := EBADF;
        return -1;
      }
      assert Handles()[fd] in Held(Handles());
      var res := HostAsk(slots[fd].handle, answer);
      if res < 0 {
        if res == -1 {
          errno := Host;
        }
        return -1;
      }
      slots[fd] := slots[fd].(pos := Int32(slots[fd].pos + (len - res)));
      if len - res == 0 {
        errno := Host;
      }
      return len - res;
    }

    /** Seek, given the length of the file and the answer to the seek. */
    method SwiLseek(fd: int, offset: int, whence: Whence, length: int, answer: int) returns (at: int)
      requires Valid() && Whole(State())
      modifies this`errno, slots
      ensures !Taken(old(Handles()), fd) ==> at == -1 && errno == EBADF && slots[..] == old(slots[..])
      ensures Taken(old(Handles()), fd) ==>
        var pos := old(slots[fd].pos);
        var relative := Relative(pos, offset);
        if whence == Unknown then at == -1 && errno == EINVAL && slots[..] == old(slots[..])
        else if whence == Current && relative.0 == -1 then at == -1 && errno == relative.1 && slots[..] == old(slots[..])
        else if (whence == End && length == -1) || answer < 0 then at == -1 && slots[..] == old(slots[..])
        else
          && at == (if whence == Set then offset else if whence == Current then relative.0 else Int32(offset + length))
          && slots[..] == old(slots[..])[fd := old(slots[fd]).(pos := at)]
    {
      var found := FindSlot(fd);
      if !found {
        errno := EBADF;
        return -1;
      }
      assert Handles()[fd] in Held(Handles());
      if whence == Unknown {
        errno := EINVAL;
        return -1;
      }
      at := offset;
      if whence == Current {
        at := Int32(slots[fd].pos + at);
        if at < 0 {
          errno := if slots[fd].pos > 0 && at > 0 then EOVERFLOW else EINVAL;
          return -1;
        }
      }
      if whence == End {
        var n := HostAsk(slots[fd].handle, length);
        if n == -1 {
          errno := Host;
          return -1;
        }
        at := Int32(at + n);
      }
      var res := HostAsk(slots[fd].handle, answer);
      if res >= 0 {
        slots[fd] := slots[fd].(pos := at);
        return at;
      }
      if res == -1 {
        errno := Host;
      }
      return -1;
    }
  }

  lemma {:induction false} LowestIs(handles: seq<int>, i: nat)
    requires i <= |handles| && (i < |handles| ==> handles[i] == -1) && forall k :: 0 <= k < i ==> handles[k] != -1
    ensures Lowest(handles) == i
  {
    if i > 0 {
      LowestIs(handles[1..], i - 1);
    }
  }
}
