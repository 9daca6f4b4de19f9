/** Packets of the GDB remote serial protocol: `$`, data, `#`, and two checksum digits. The receiver
    is specified as an automaton that reads one byte at a time. */
module Packet {
  import opened Basics
  import opened HexCodec

  const BUFMAX: nat := 400
  const PLUS: Byte := 0x2b
  const MINUS: Byte := 0x2d
  const COLON: Byte := 0x3a

  type Buffer = b: seq<Byte> | |b| == BUFMAX witness seq(BUFMAX, _ => 0)

  // ----- the receiver as an automaton

  datatype Mode = Hunting | Reading | FirstDigit | SecondDigit | Complete

  /** The receive buffer, how much of it this packet has filled, the running checksum, and the
      first checksum digit moved into place. */
  datatype Rx = Rx(mode: Mode, buf: Buffer, count: nat, sum: Byte, high: Byte)

  ghost predicate ValidRx(s: Rx) {
    (s.mode == Reading ==> s.count < BUFMAX - 1) && (s.mode == FirstDigit || s.mode == SecondDigit ==> s.count < BUFMAX)
  }

  function Fresh(s: Rx): Rx {
    s.(mode := Reading, count := 0, sum := 0)
  }

  function Step(s: Rx, ch: Byte): (r: Rx)
    requires ValidRx(s)
    ensures ValidRx(r)
  {
    match s.mode
    case Hunting => if ch == DOLLAR then Fresh(s) else s
    case Reading =>
      if ch == DOLLAR then Fresh(s)
      else if ch == HASH then s.(mode := FirstDigit, buf := s.buf[s.count := 0])
      else
        var t := s.(buf := s.buf[s.count := ch], count := s.count + 1, sum := (s.sum + ch) % 256);
        if t.count < BUFMAX - 1 then t else t.(mode := Hunting, buf := t.buf[t.count := 0])
    case FirstDigit => s.(mode := SecondDigit, high := Hex(ch) * 16 % 256)
    case SecondDigit => if s.sum == (s.high + Hex(ch)) % 256 then s.(mode := Complete) else s.(mode := Hunting)
    case Complete => s
  }

  /** What the receiver sends back on a byte: a verdict after the second digit, and the sequence
      characters when the packet carries some. */
  function Reply(s: Rx, ch: Byte): seq<Byte> {
    if s.mode != SecondDigit then []
    else if s.sum != (s.high + Hex(ch)) % 256 then [MINUS]
    else if s.buf[2] == COLON then [PLUS, s.buf[0], s.buf[1]]
    else [PLUS]
  }

  /** The state, the place in the input and the replies when a packet is complete or the input ends. */
  datatype Reception = Reception(rx: Rx, pos: nat, replies: seq<Byte>)

  function Receive(s: Rx, input: seq<Byte>, pos: nat, replies: seq<Byte>): (r: Reception)
    requires ValidRx(s) && pos <= |input|
    ensures ValidRx(r.rx) && pos <= r.pos <= |input|
    decreases |input| - pos
  {
    if s.mode == Complete || pos == |input| then Reception(s, pos, replies)
    else Receive(Step(s, input[pos]), input, pos + 1, replies + Reply(s, input[pos]))
  }

  function Waiting(buf: Buffer): Rx {
    Rx(Hunting, buf, 0, 0, 0)
  }

  /** Where the text of a complete packet begins: behind the sequence characters, if there are any. */
  function Start(buf: Buffer): nat {
    if buf[2] == COLON then 3 else 0
  }

  /** The bytes from index `i` to the next zero. */
  function CString(buf: seq<Byte>, i: nat): (s: seq<Byte>)
    requires i <= |buf|
    ensures i + |s| <= |buf|
    decreases |buf| - i
  {
    if i == |buf| || buf[i] == 0 then [] else [buf[i]] + CString(buf, i + 1)
  }

  // ----- the sender

  function Sum(data: seq<Byte>): Byte {
    if data == [] then 0 else (Sum(data[..|data| - 1]) + data[|data| - 1]) % 256
  }

  function Frame(data: seq<Byte>): seq<Byte> {
    [DOLLAR] + data + [HASH, HexChar(Sum(data) / 16), HexChar(Sum(data) % 16)]
  }

  /** Send a packet until it is acknowledged; `acks` is what the other side answers. */
  method PutPacket(buffer: array<Byte>, acks: seq<Byte>) returns (out: seq<Byte>, acked: bool, used: nat)
    requires 0 in buffer[..]
    ensures acked <==> PLUS in acks
    ensures acked ==> 1 <= used <= |acks| && acks[used - 1] == PLUS && PLUS !in acks[..used - 1]
    ensures !acked ==> used == |acks|
    ensures out == Repeated(Frame(CString(buffer[..], 0)), if acked then used else used + 1)
  {
    out, used := [], 0;
    ghost var frame := Frame(CString(buffer[..], 0));
    while true
      invariant used <= |acks| && PLUS !in acks[..used]
      invariant out == Repeated(frame, used)
      decreases |acks| - used
    {
      var one := SendFrame(buffer);
      out := out + one;
      if used == |acks| {
        return out, false, used;
      }
      var ack := acks[used];
      used := used + 1;
      if ack == PLUS {
        return out, true, used;
      }
    }
  }

  function Repeated(frame: seq<Byte>, n: nat): seq<Byte> {
    if n == 0 then [] else Repeated(frame, n - 1) + frame
  }

  method SendFrame(buffer: array<Byte>) returns (out: seq<Byte>)
    requires 0 in buffer[..]
    ensures out == Frame(CString(buffer[..], 0))
  {
    ghost var data := CString(buffer[..], 0);
    CStringEnds(buffer[..], 0);
    assert |data| > 0 ==> data[0] == buffer[..][0];
    var checksum: Byte, count := 0, 0;
    out := [DOLLAR];
    while buffer[count] != 0
      invariant count <= |data| < buffer.Length && (buffer[count] == 0 <==> count == |data|)
      invariant out == [DOLLAR] + data[..count] && checksum == Sum(data[..count])
      decreases |data| - count
    {
      assert data[..count + 1][..count] == data[..count];
      out := out + [buffer[count]];
      checksum := (checksum + buffer[count]) % 256;
      count := count + 1;
      assert count < |data| ==> data[count] == buffer[..][count];
    }
    assert data[..count] == data;
    out := out + [HASH, HexChar(checksum / 16), HexChar(checksum % 16)];
  }

  lemma {:induction false} CStringEnds(buf: seq<Byte>, i: nat)
    requires i <= |buf| && 0 in buf[i..]
    ensures i + |CString(buf, i)| < |buf| && buf[i + |CString(buf, i)|] == 0
    ensures forall k :: 0 <= k < |CString(buf, i)| ==> CString(buf, i)[k] == buf[i + k] != 0
    decreases |buf| - i
  {
    var s := CString(buf, i);
    if buf[i] != 0 {
      assert buf[i..] == [buf[i]] + buf[i + 1..];
      CStringEnds(buf, i + 1);
      CStringBegins(buf, i);
      forall k | 0 <= k < |s| ensures s[k] == buf[i + k] != 0 {
        if k > 0 {
          assert CString(buf, i + 1)[k - 1] == buf[i + 1 + (k - 1)];
        }
      }
    }
  }

  lemma CStringBegins(buf: seq<Byte>, i: nat)
    requires i < |buf| && buf[i] != 0
    ensures |CString(buf, i)| == |CString(buf, i + 1)| + 1 && CString(buf, i)[0] == buf[i]
    ensures forall k :: 0 < k < |CString(buf, i)| ==> CString(buf, i)[k] == CString(buf, i + 1)[k - 1]
  {}

  // ----- the receiving loops

  /** The automaton has read `pos` bytes and what it will come to is unchanged. */
  ghost predicate At(s: Rx, buf: seq<Byte>, input: seq<Byte>, pos: nat, replies: seq<Byte>, whole: Reception)
  {
    ValidRx(s) && s.buf == buf && pos <= |input| && Receive(s, input, pos, replies) == whole
  }

  /** Skip to the start character. */
  method Hunt(buffer: array<Byte>, input: seq<Byte>, pos0: nat, replies: seq<Byte>, ghost s: Rx, ghost whole: Reception)
    returns (found: bool, pos: nat)
    requires s.mode == Hunting && At(s, buffer[..], input, pos0, replies, whole)
    ensures pos0 <= pos <= |input| && (found ==> pos0 < pos)
    ensures if found then At(Fresh(s), buffer[..], input, pos, replies, whole)
            else pos == |input| && At(s, buffer[..], input, pos, replies, whole)
  {
    found, pos := false, pos0;
    while pos < |input| && !found
      invariant pos0 <= pos <= |input| && (found ==> pos0 < pos)
      invariant At(if found then Fresh(s) else s, buffer[..], input, pos, replies, whole)
    {
      found := input[pos] == DOLLAR;
      assert replies + [] == replies;
      pos := pos + 1;
    }
  }

  /** Read the data of a packet into the buffer and end it with a zero. The start character begins
      the packet anew; without an end character the buffer fills up and the packet is given up. */
  method ReadData(buffer: array<Byte>, input: seq<Byte>, pos0: nat, replies: seq<Byte>, ghost s0: Rx, ghost whole: Reception)
    returns (blocked: bool, hash: bool, pos: nat, checksum: Byte, ghost s: Rx)
    requires buffer.Length == BUFMAX && At(Fresh(s0), buffer[..], input, pos0, replies, whole)
    modifies buffer
    ensures pos0 <= pos && At(s, buffer[..], input, pos, replies, whole)
    ensures blocked ==> pos == |input| && s.mode == Reading
    ensures !blocked ==> s.mode == (if hash then FirstDigit else Hunting) && s.sum == checksum
  {
    s, pos, checksum := Fresh(s0), pos0, 0;
    blocked, hash := false, false;
    var count := 0;
    while count < BUFMAX - 1
      invariant pos0 <= pos && count == s.count <= BUFMAX - 1 && checksum == s.sum
      invariant if count < BUFMAX - 1 then s.mode == Reading && At(s, buffer[..], input, pos, replies, whole)
                else s.mode == Hunting && At(s, buffer[..][count := 0], input, pos, replies, whole)
      decreases |input| - pos
    {
      if pos == |input| {
        return true, false, pos, checksum, s;
      }
      var ch := input[pos];
      assert replies + [] == replies;
      s := Step(s, ch);
      pos := pos + 1;
      if ch == DOLLAR {
        checksum, count := 0, 0;
      } else if ch == HASH {
        hash := true;
        break;
      } else {
        checksum := (checksum + ch) % 256;
        buffer[count] := ch;
        count := count + 1;
      }
    }
    buffer[count] := 0;
  }

  /** Wait for a packet with a good checksum and acknowledge it, or until the input ends. */
  method GetPacket(buffer: array<Byte>, input: seq<Byte>) returns (ok: bool, start: nat, pos: nat, replies: seq<Byte>)
    requires buffer.Length == BUFMAX
    modifies buffer
    ensures var r := Receive(Waiting(old(buffer[..])), input, 0, []);
      && ok == (r.rx.mode == Complete)
      && buffer[..] == r.rx.buf && pos == r.pos && replies == r.replies
    ensures ok ==> start == Start(buffer[..])
  {
    ghost var s := Waiting(buffer[..]);
    ghost var whole := Receive(s, input, 0, []);
    start, pos, replies := 0, 0, [];
    while true
      invariant s.mode == Hunting && At(s, buffer[..], input, pos, replies, whole)
      decreases |input| - pos
    {
      var found;
      found, pos := Hunt(buffer, input, pos, replies, s, whole);
      if !found {
        return false, 0, pos, replies;
      }
      var blocked, hash, checksum;
      blocked, hash, pos, checksum, s := ReadData(buffer, input, pos, replies, s, whole);
      if blocked {
        return false, 0, pos, replies;
      }
      if hash {
        if pos == |input| {
          return false, 0, pos, replies;
        }
        var xmitcsum := Hex(input[pos]) * 16 % 256;
        assert replies + [] == replies;
        s := Step(s, input[pos]);
        pos := pos + 1;
        assert At(s, buffer[..], input, pos, replies, whole);
        if pos == |input| {
          return false, 0, pos, replies;
        }
        xmitcsum := (xmitcsum + Hex(input[pos])) % 256;
        ghost var reply := Reply(s, input[pos]);
        s := Step(s, input[pos]);
        pos := pos + 1;
        if checksum != xmitcsum {
          assert reply == [MINUS];
          replies := replies + [MINUS];
        } else {
          var seqid := if buffer[2] == COLON then [buffer[0], buffer[1]] else [];
          assert reply == [PLUS] + seqid;
          replies := replies + ([PLUS] + seqid);
          assert At(s, buffer[..], input, pos, replies, whole) && s.mode == Complete;
          return true, Start(buffer[..]), pos, replies;
        }
      }
    }
  }

  // ----- what a run of bytes does to the receiver

  /** The state after some bytes, and what was sent back on the way. */
  datatype Fed = Fed(rx: Rx, replies: seq<Byte>)

  function FeedByte(f: Fed, ch: Byte): (g: Fed)
    requires ValidRx(f.rx)
    ensures ValidRx(g.rx)
  {
    Fed(Step(f.rx, ch), f.replies + Reply(f.rx, ch))
  }

  function Feed(f: Fed, bytes: seq<Byte>): (g: Fed)
    requires ValidRx(f.rx)
    ensures ValidRx(g.rx)
  {
    if bytes == [] then f else FeedByte(Feed(f, bytes[..|bytes| - 1]), bytes[|bytes| - 1])
  }

  /** What a receiver that waits for a packet has made of some bytes. */
  function Heard(buf: Buffer, bytes: seq<Byte>): (f: Fed)
    ensures ValidRx(f.rx)
  {
    Feed(Fed(Waiting(buf), []), bytes)
  }

  lemma FeedOneMore(f: Fed, bytes: seq<Byte>, ch: Byte)
    requires ValidRx(f.rx)
    ensures Feed(f, bytes + [ch]) == FeedByte(Feed(f, bytes), ch)
  {
    assert (bytes + [ch])[..|bytes|] == bytes;
  }

  lemma FeedOne(f: Fed, ch: Byte)
    requires ValidRx(f.rx)
    ensures Feed(f, [ch]) == FeedByte(f, ch)
  {
    FeedOneMore(f, [], ch);
    assert [] + [ch] == [ch];
  }

  lemma ConcatOneMore(f: Fed, a: seq<Byte>, front: seq<Byte>, ch: Byte, g: Fed)
    requires ValidRx(f.rx) && g == Feed(f, a) && Feed(f, a + front) == Feed(g, front)
    ensures Feed(f, a + (front + [ch])) == Feed(g, front + [ch])
  {
    Regrouped(a, front, [ch]);
    FeedOneMore(f, a + front, ch);
    FeedOneMore(g, front, ch);
  }

  lemma {:induction false} FeedConcat(f: Fed, a: seq<Byte>, b: seq<Byte>)
    requires ValidRx(f.rx)
    ensures Feed(f, a + b) == Feed(Feed(f, a), b)
    decreases |b|
  {
    if b == [] {
      assert a + b == a;
    } else {
      var front, ch := b[..|b| - 1], b[|b| - 1];
      assert front + [ch] == b;
      FeedConcat(f, a, front);
      ConcatOneMore(f, a, front, ch, Feed(f, a));
    }
  }

  /** Outside the second digit nothing is answered. */
  lemma Quiet(f: Fed, ch: Byte)
    requires ValidRx(f.rx) && f.rx.mode != SecondDigit
    ensures FeedByte(f, ch) == Fed(Step(f.rx, ch), f.replies)
  {}

  /** Receiving is feeding, up to the first complete packet. */
  lemma {:induction false} ReceiveFeeds(buf: Buffer, prefix: seq<Byte>, rest: seq<Byte>)
    requires prefix == [] || Heard(buf, prefix[..|prefix| - 1]).rx.mode != Complete
    ensures var f := Heard(buf, prefix); Receive(Waiting(buf), prefix + rest, 0, []) == Receive(f.rx, prefix + rest, |prefix|, f.replies)
    decreases |prefix|
  {
    if prefix != [] {
      var front, ch := prefix[..|prefix| - 1], prefix[|prefix| - 1];
      if front != [] {
        CompleteStays(buf, front);
      }
      ReceiveFeeds(buf, front, [ch] + rest);
      assert front + ([ch] + rest) == prefix + rest && (prefix + rest)[|front|] == ch;
    }
  }

  lemma CompleteStays(buf: Buffer, bytes: seq<Byte>)
    requires bytes != []
    ensures Heard(buf, bytes[..|bytes| - 1]).rx.mode == Complete ==> Heard(buf, bytes).rx.mode == Complete
  {}

  /** A packet that is still missing when some bytes are fed is complete only behind them. */
  lemma CompletesLater(s: Rx, input: seq<Byte>, pos: nat, replies: seq<Byte>)
    requires ValidRx(s) && s.mode != Complete && pos <= |input|
    ensures var r := Receive(s, input, pos, replies); r.rx.mode == Complete ==> r.pos > pos
  {}

  predicate Plain(data: seq<Byte>) {
    DOLLAR !in data && HASH !in data
  }

  lemma {:induction false} FeedNoise(f: Fed, noise: seq<Byte>)
    requires f.rx.mode == Hunting && ValidRx(f.rx) && DOLLAR !in noise
    ensures Feed(f, noise) == f
    decreases |noise|
  {
    if noise != [] {
      FeedNoise(f, noise[..|noise| - 1]);
      Quiet(f, noise[|noise| - 1]);
    }
  }

  /** The buffer with `data` put in from `count` on. */
  function Filled(buf: Buffer, count: nat, data: seq<Byte>): Buffer
    requires count + |data| <= BUFMAX
  {
    buf[..count] + data + buf[count + |data|..]
  }

  /** The state after reading plain data. */
  function AfterData(s: Rx, data: seq<Byte>): Rx
    requires s.count + |data| < BUFMAX - 1
  {
    s.(buf := Filled(s.buf, s.count, data), count := s.count + |data|, sum := (s.sum + Sum(data)) % 256)
  }

  lemma AfterOneMore(s: Rx, data: seq<Byte>, ch: Byte)
    requires s.mode == Reading && s.count + |data| + 1 < BUFMAX - 1 && ch != DOLLAR && ch != HASH
    ensures Step(AfterData(s, data), ch) == AfterData(s, data + [ch])
  {
    assert (data + [ch])[..|data|] == data;
    assert Filled(s.buf, s.count, data)[s.count + |data| := ch] == Filled(s.buf, s.count, data + [ch]);
    SumsCommute(s.sum, Sum(data), ch);
  }

  lemma SumsCommute(a: int, b: int, c: int)
    ensures ((a + b) % 256 + c) % 256 == (a + (b + c) % 256) % 256
  {}

  lemma {:induction false} FeedData(f: Fed, data: seq<Byte>)
    requires f.rx.mode == Reading && ValidRx(f.rx) && Plain(data) && f.rx.count + |data| < BUFMAX - 1
    ensures Feed(f, data) == Fed(AfterData(f.rx, data), f.replies)
    decreases |data|
  {
    if data == [] {
      assert Filled(f.rx.buf, f.rx.count, data) == f.rx.buf;
    } else {
      var front, ch := data[..|data| - 1], data[|data| - 1];
      assert data == front + [ch];
      FeedData(f, front);
      Quiet(Feed(f, front), ch);
      AfterOneMore(f.rx, front, ch);
    }
  }

  // ----- a packet, from any state between packets

  predicate Ready(s: Rx) {
    s.mode == Hunting || s.mode == Reading
  }

  lemma FeedStart(f: Fed, data: seq<Byte>)
    requires ValidRx(f.rx) && Ready(f.rx) && Plain(data) && |data| < BUFMAX - 1
    ensures ValidRx(AfterData(Fresh(f.rx), data)) && Feed(f, [DOLLAR] + data) == Fed(AfterData(Fresh(f.rx), data), f.replies)
  {
    FeedOne(f, DOLLAR);
    Quiet(f, DOLLAR);
    FeedData(Fed(Fresh(f.rx), f.replies), data);
    FeedConcat(f, [DOLLAR], data);
  }

  /** The end character and both checksum digits. */
  function AfterSum(t: Rx, c1: Byte, c2: Byte): Rx
    requires t.mode == Reading && t.count < BUFMAX - 1
  {
    Step(Step(Step(t, HASH), c1), c2)
  }

  /** The verdict on a packet. */
  function SumReply(t: Rx, c1: Byte, c2: Byte): seq<Byte>
    requires t.mode == Reading && t.count < BUFMAX - 1
  {
    Reply(Step(Step(t, HASH), c1), c2)
  }

  /** What is sent back for a good packet. */
  function Acknowledgement(buf: Buffer): seq<Byte> {
    if buf[2] == COLON then [PLUS, buf[0], buf[1]] else [PLUS]
  }

  lemma SumDecides(t: Rx, c1: Byte, c2: Byte)
    requires t.mode == Reading && t.count < BUFMAX - 1
    ensures var r := AfterSum(t, c1, c2);
      && ValidRx(r) && r.buf == t.buf[t.count := 0]
      && r.mode == (if t.sum == HexPair(c1, c2) then Complete else Hunting)
      && SumReply(t, c1, c2) == if t.sum != HexPair(c1, c2) then [MINUS] else Acknowledgement(r.buf)
  {}

  lemma FeedSum(f: Fed, c1: Byte, c2: Byte)
    requires f.rx.mode == Reading && ValidRx(f.rx)
    ensures Feed(f, [HASH, c1, c2]) == Fed(AfterSum(f.rx, c1, c2), f.replies + SumReply(f.rx, c1, c2))
    ensures Feed(f, [HASH, c1]).rx.mode == SecondDigit
  {
    var u := Fed(Step(f.rx, HASH), f.replies);
    FeedOne(f, HASH);
    Quiet(f, HASH);
    FeedOneMore(f, [HASH], c1);
    Quiet(u, c1);
    FeedOneMore(f, [HASH, c1], c2);
    assert [HASH] + [c1] == [HASH, c1] && [HASH, c1] + [c2] == [HASH, c1, c2];
  }

  lemma SumOfAll(s: Rx, data: seq<Byte>)
    requires |data| < BUFMAX - 1
    ensures AfterData(Fresh(s), data) == Rx(Reading, Filled(s.buf, 0, data), |data|, Sum(data), s.high)
  {
    SmallSum(Sum(data));
  }

  lemma SmallSum(x: Byte)
    ensures (0 + x) % 256 == x
  {}

  /** A whole packet is complete or refused, as its checksum says, and not before its last byte. */
  lemma FeedPacket(f: Fed, data: seq<Byte>, c1: Byte, c2: Byte)
    requires ValidRx(f.rx) && Ready(f.rx) && Plain(data) && |data| < BUFMAX - 1
    ensures var g := Feed(f, [DOLLAR] + data + [HASH, c1, c2]);
      && g.rx.buf == Filled(f.rx.buf, 0, data)[|data| := 0]
      && g.rx.mode == (if Sum(data) == HexPair(c1, c2) then Complete else Hunting)
      && g.replies == f.replies + if Sum(data) == HexPair(c1, c2) then Acknowledgement(g.rx.buf) else [MINUS]
    ensures Feed(f, [DOLLAR] + data + [HASH, c1]).rx.mode != Complete
  {
    FeedStart(f, data);
    SumOfAll(f.rx, data);
    var t := Feed(f, [DOLLAR] + data);
    FeedSum(t, c1, c2);
    SumDecides(t.rx, c1, c2);
    FeedConcat(f, [DOLLAR] + data, [HASH, c1, c2]);
    FeedConcat(f, [DOLLAR] + data, [HASH, c1]);
  }

  lemma HexDigitsOf(x: Byte)
    ensures HexPair(HexChar(x / 16), HexChar(x % 16)) == x
  {
    HexPairOfHexOf(x);
  }

  // ----- a packet behind anything at all

  /** The first two characters of a packet, taken for checksum digits, happen to be right. */
  predicate Misread(s: Rx, data: seq<Byte>) {
    if s.mode == FirstDigit then s.sum == HexPair(DOLLAR, if data == [] then HASH else data[0])
    else s.mode == SecondDigit && s.sum == (s.high + Hex(DOLLAR)) % 256
  }

  /** The part of a packet that a receiver waiting for checksum digits takes for them. */
  function Eaten(s: Rx, data: seq<Byte>): seq<Byte> {
    if s.mode == SecondDigit then [DOLLAR] else [DOLLAR, if data == [] then HASH else data[0]]
  }

  lemma FeedEaten(f: Fed, data: seq<Byte>)
    requires ValidRx(f.rx) && (f.rx.mode == FirstDigit || f.rx.mode == SecondDigit)
    ensures Feed(f, Eaten(f.rx, data)) == Judged(f, Misread(f.rx, data), Feed(f, Eaten(f.rx, data)).rx.high)
    ensures Feed(f, Eaten(f.rx, data)[..|Eaten(f.rx, data)| - 1]).rx.mode != Complete
  {
    var e := Eaten(f.rx, data);
    FeedOne(f, DOLLAR);
    if f.rx.mode == FirstDigit {
      Quiet(f, DOLLAR);
      FeedOneMore(f, [DOLLAR], e[1]);
      assert [DOLLAR] + [e[1]] == e && e[..1] == [DOLLAR];
      SecondDigitJudges(Fed(Step(f.rx, DOLLAR), f.replies), e[1]);
    } else {
      assert e[..0] == [];
      SecondDigitJudges(f, DOLLAR);
    }
  }

  /** The receiver after its verdict. */
  function Judged(f: Fed, good: bool, high: Byte): Fed {
    if good then Fed(f.rx.(mode := Complete, high := high), f.replies + Acknowledgement(f.rx.buf))
    else Fed(f.rx.(mode := Hunting, high := high), f.replies + [MINUS])
  }

  lemma SecondDigitJudges(f: Fed, ch: Byte)
    requires f.rx.mode == SecondDigit && ValidRx(f.rx)
    ensures FeedByte(f, ch) == Judged(f, f.rx.sum == (f.rx.high + Hex(ch)) % 256, f.rx.high)
  {}

  /** The rest of the packet has no start character. */
  lemma EatenSplits(s: Rx, data: seq<Byte>)
    requires Plain(data) && (s.mode == FirstDigit || s.mode == SecondDigit)
    ensures var e := Eaten(s, data);
      |e| < |Frame(data)| && Frame(data) == e + Frame(data)[|e|..] && DOLLAR !in Frame(data)[|e|..]
  {
    var rest := data + [HASH, HexChar(Sum(data) / 16), HexChar(Sum(data) % 16)];
    assert Frame(data) == [DOLLAR] + rest && Frame(data)[1..] == rest && DOLLAR !in rest;
    assert rest[0] == if data == [] then HASH else data[0];
    assert Frame(data)[2..] == rest[1..];
  }

  /** A receiver waiting for checksum digits loses the packet. */
  lemma FeedLost(f: Fed, data: seq<Byte>)
    requires ValidRx(f.rx) && (f.rx.mode == FirstDigit || f.rx.mode == SecondDigit) && Plain(data) && !Misread(f.rx, data)
    ensures var g := Feed(f, Frame(data)); g.rx.mode == Hunting && g.replies == f.replies + [MINUS]
  {
    var e := Eaten(f.rx, data);
    EatenSplits(f.rx, data);
    FeedEaten(f, data);
    FeedNoise(Feed(f, e), Frame(data)[|e|..]);
    FeedConcat(f, e, Frame(data)[|e|..]);
  }

  /** Behind any bytes that leave no complete packet, a framed packet is received whole if and only if
      the receiver is not just then waiting for checksum digits. Then its data stands in the buffer,
      it is acknowledged, and nothing behind it was read. */
  lemma FrameArrives(buf: Buffer, prefix: seq<Byte>, data: seq<Byte>, tail: seq<Byte>)
    requires Plain(data) && |data| < BUFMAX - 1 && Heard(buf, prefix).rx.mode != Complete
    ensures var f := Heard(buf, prefix);
      var r := Receive(Waiting(buf), prefix + Frame(data) + tail, 0, []);
      && (r.rx.mode == Complete && r.pos == |prefix| + |Frame(data)| <==> Ready(f.rx))
      && (Ready(f.rx) ==> Arrived(r, f, data))
  {
    var f := Heard(buf, prefix);
    if Ready(f.rx) {
      FrameReceived(buf, prefix, data, tail);
    } else if Misread(f.rx, data) {
      MisreadFrame(buf, prefix, data, tail);
    } else {
      FrameLost(buf, prefix, data, tail);
    }
  }

  /** A reception that ends with the data in the buffer and its acknowledgement. */
  ghost predicate Arrived(r: Reception, f: Fed, data: seq<Byte>) {
    |data| < BUFMAX - 1 && r.rx.buf == Filled(f.rx.buf, 0, data)[|data| := 0] && r.replies == f.replies + Acknowledgement(r.rx.buf)
  }

  lemma FrameReceived(buf: Buffer, prefix: seq<Byte>, data: seq<Byte>, tail: seq<Byte>)
    requires Plain(data) && |data| < BUFMAX - 1 && Ready(Heard(buf, prefix).rx)
    ensures var r := Receive(Waiting(buf), prefix + Frame(data) + tail, 0, []);
      r.rx.mode == Complete && r.pos == |prefix| + |Frame(data)| && Arrived(r, Heard(buf, prefix), data)
  {
    var f, c1, c2 := Heard(buf, prefix), HexChar(Sum(data) / 16), HexChar(Sum(data) % 16);
    HexDigitsOf(Sum(data));
    FeedPacket(f, data, c1, c2);
    FeedConcat(Fed(Waiting(buf), []), prefix, Frame(data));
    FeedConcat(Fed(Waiting(buf), []), prefix, [DOLLAR] + data + [HASH, c1]);
    var all := prefix + Frame(data);
    assert all[..|all| - 1] == prefix + ([DOLLAR] + data + [HASH, c1]);
    ReceiveFeeds(buf, all, tail);
  }

  lemma FrameLost(buf: Buffer, prefix: seq<Byte>, data: seq<Byte>, tail: seq<Byte>)
    requires var s := Heard(buf, prefix).rx; Plain(data) && s.mode != Complete && !Ready(s) && !Misread(s, data)
    ensures var r := Receive(Waiting(buf), prefix + Frame(data) + tail, 0, []);
      r.rx.mode == Complete ==> r.pos > |prefix| + |Frame(data)|
    ensures var g := Heard(buf, prefix + Frame(data)); g.rx.mode == Hunting && g.replies == Heard(buf, prefix).replies + [MINUS]
  {
    var all := prefix + Frame(data);
    FeedLost(Heard(buf, prefix), data);
    FeedConcat(Fed(Waiting(buf), []), prefix, Frame(data));
    CompleteStays(buf, all);
    ReceiveFeeds(buf, all, tail);
    CompletesLater(Heard(buf, all).rx, all + tail, |all|, Heard(buf, all).replies);
  }

  /** In the worst case the packet cut off before is acknowledged in its place. */
  lemma MisreadFrame(buf: Buffer, prefix: seq<Byte>, data: seq<Byte>, tail: seq<Byte>)
    requires Plain(data) && Misread(Heard(buf, prefix).rx, data)
    ensures var f := Heard(buf, prefix);
      var r := Receive(Waiting(buf), prefix + Frame(data) + tail, 0, []);
      && r.rx.mode == Complete && r.pos == |prefix| + |Eaten(f.rx, data)| < |prefix| + |Frame(data)|
      && r.rx.buf == f.rx.buf && r.replies == f.replies + Acknowledgement(f.rx.buf)
  {
    var f := Heard(buf, prefix);
    var e := Eaten(f.rx, data);
    EatenSplits(f.rx, data);
    FeedEaten(f, data);
    FeedConcat(Fed(Waiting(buf), []), prefix, e);
    FeedConcat(Fed(Waiting(buf), []), prefix, e[..|e| - 1]);
    var all, rest := prefix + e, Frame(data)[|e|..] + tail;
    assert all[..|all| - 1] == prefix + e[..|e| - 1];
    assert all + rest == prefix + Frame(data) + tail;
    ReceiveFeeds(buf, all, rest);
  }

  /** A packet that is lost this way without being misread is refused once, and is received when the
      sender repeats it. */
  lemma RepeatArrives(buf: Buffer, prefix: seq<Byte>, data: seq<Byte>, tail: seq<Byte>)
    requires Plain(data) && |data| < BUFMAX - 1
    requires var s := Heard(buf, prefix).rx; s.mode != Complete && !Ready(s) && !Misread(s, data)
    ensures var r := Receive(Waiting(buf), prefix + Repeated(Frame(data), 2) + tail, 0, []);
      && r.rx.mode == Complete && r.pos == |prefix| + 2 * |Frame(data)|
      && r.rx.buf[..|data|] == data && r.rx.buf[|data|] == 0
      && r.replies == Heard(buf, prefix).replies + [MINUS] + Acknowledgement(r.rx.buf)
  {
    FrameLost(buf, prefix, data, tail);
    FrameReceived(buf, prefix + Frame(data), data, tail);
    RepeatedTwice(Frame(data), 2);
    Regrouped(prefix, Frame(data), Frame(data));
    LengthOfThree(prefix, Frame(data), Frame(data));
    FilledHolds(Heard(buf, prefix + Frame(data)).rx.buf, data);
  }

  lemma LengthOfThree(a: seq<Byte>, b: seq<Byte>, c: seq<Byte>)
    ensures |a + b + c| == |a| + |b| + |c|
  {}

  /** The buffer begins with the data and its end. */
  lemma FilledHolds(buf: Buffer, data: seq<Byte>)
    requires |data| < BUFMAX - 1
    ensures var after := Filled(buf, 0, data)[|data| := 0]; after[..|data|] == data && after[|data|] == 0
  {}

  lemma RepeatedTwice(frame: seq<Byte>, n: nat)
    requires n == 2
    ensures Repeated(frame, n) == frame + frame
  {
    assert Repeated(frame, n - 1) == Repeated(frame, n - 2) + frame == [] + frame == frame;
  }

  /** A packet cut behind its end character, in front of a good one: the good one is lost, and the
      cut one is acknowledged if its checksum happens to be what the good one begins with. */
  lemma CutBehindEnd(buf: Buffer, d: Byte, data: seq<Byte>, tail: seq<Byte>)
    requires d != DOLLAR && d != HASH && Plain(data) && |data| < BUFMAX - 1
    ensures var r := Receive(Waiting(buf), [DOLLAR, d, HASH] + Frame(data) + tail, 0, []);
      && Heard(buf, [DOLLAR, d, HASH]).rx.mode == FirstDigit
      && !(r.rx.mode == Complete && r.pos == 3 + |Frame(data)|)
      && (r.rx.mode == Complete && r.pos == 5 <==> d == HexPair(DOLLAR, if data == [] then HASH else data[0]))
      && (d == HexPair(DOLLAR, if data == [] then HASH else data[0]) ==> PLUS in r.replies)
  {
    HeardCut(buf, d);
    FrameArrives(buf, [DOLLAR, d, HASH], data, tail);
    if d == HexPair(DOLLAR, if data == [] then HASH else data[0]) {
      MisreadFrame(buf, [DOLLAR, d, HASH], data, tail);
    } else {
      FrameLost(buf, [DOLLAR, d, HASH], data, tail);
    }
  }

  lemma HeardCut(buf: Buffer, d: Byte)
    requires d != DOLLAR && d != HASH
    ensures var s := Heard(buf, [DOLLAR, d, HASH]).rx; s.mode == FirstDigit && s.sum == d
  {
    var w := Fed(Waiting(buf), []);
    FeedStart(w, [d]);
    SumOfAll(w.rx, [d]);
    assert [d][..0] == [];
    FeedOneMore(w, [DOLLAR] + [d], HASH);
    assert [DOLLAR] + [d] + [HASH] == [DOLLAR, d, HASH];
  }

  // ----- usual traffic before a good packet

  /** Noise without a start character; a packet cut off before its end character; a packet whose
      checksum digits are wrong; and a packet too long for the buffer. */
  datatype Segment = Noise(data: seq<Byte>) | Cut(data: seq<Byte>) | Bad(data: seq<Byte>, c1: Byte, c2: Byte) | Overlong(data: seq<Byte>)

  function Bytes(g: Segment): seq<Byte> {
    match g
    case Noise(data) => data
    case Cut(data) => [DOLLAR] + data
    case Bad(data, c1, c2) => [DOLLAR] + data + [HASH, c1, c2]
    case Overlong(data) => [DOLLAR] + data
  }

  predicate ValidSegment(g: Segment) {
    match g
    case Noise(data) => DOLLAR !in data
    case Cut(data) => Plain(data) && |data| < BUFMAX - 1
    case Bad(data, c1, c2) => Plain(data) && |data| < BUFMAX - 1 && Sum(data) != HexPair(c1, c2)
    case Overlong(data) => |data| >= BUFMAX - 1 && Plain(data[..BUFMAX - 1]) && DOLLAR !in data[BUFMAX - 1..]
  }

  /** Whatever follows a cut packet but does not start a new one is still part of it. */
  predicate ValidTraffic(segments: seq<Segment>) {
    && (forall k :: 0 <= k < |segments| ==> ValidSegment(segments[k]))
    && (forall k :: 0 < k < |segments| && segments[k].Noise? ==> !segments[k - 1].Cut?)
  }

  function Traffic(segments: seq<Segment>): seq<Byte> {
    if segments == [] then [] else Traffic(segments[..|segments| - 1]) + Bytes(segments[|segments| - 1])
  }

  /** One refusal for every packet with a wrong checksum. */
  function Verdicts(segments: seq<Segment>): seq<Byte> {
    if segments == [] then []
    else Verdicts(segments[..|segments| - 1]) + Verdict(segments[|segments| - 1])
  }

  function Verdict(g: Segment): seq<Byte> {
    if g.Bad? then [MINUS] else []
  }

  lemma FeedOverlong(f: Fed, data: seq<Byte>)
    requires ValidRx(f.rx) && Ready(f.rx) && ValidSegment(Overlong(data))
    ensures var g := Feed(f, [DOLLAR] + data); g.rx.mode == Hunting && g.replies == f.replies
  {
    var first, last, rest := data[..BUFMAX - 2], data[BUFMAX - 2], data[BUFMAX - 1..];
    OverlongParts(data);
    FeedStart(f, first);
    FeedOneMore(f, [DOLLAR] + first, last);
    Quiet(Feed(f, [DOLLAR] + first), last);
    FeedNoise(Feed(f, [DOLLAR] + first + [last]), rest);
    FeedConcat(f, [DOLLAR] + first + [last], rest);
  }

  lemma OverlongParts(data: seq<Byte>)
    requires ValidSegment(Overlong(data))
    ensures var first, last, rest := data[..BUFMAX - 2], data[BUFMAX - 2], data[BUFMAX - 1..];
      && [DOLLAR] + data == [DOLLAR] + first + [last] + rest
      && Plain(first) && last != DOLLAR && last != HASH && DOLLAR !in rest
  {
    var first, last := data[..BUFMAX - 2], data[BUFMAX - 2];
    assert data[..BUFMAX - 1] == first + [last];
    assert forall x :: x in first ==> x in data[..BUFMAX - 1];
    assert last in data[..BUFMAX - 1];
  }

  /** Whatever the segment, the receiver is ready for the next packet afterwards, having refused the
      segment if it was a packet with a wrong checksum. */
  lemma FeedSegment(f: Fed, g: Segment)
    requires ValidRx(f.rx) && (f.rx.mode == Hunting || (f.rx.mode == Reading && !g.Noise?)) && ValidSegment(g)
    ensures var h := Feed(f, Bytes(g)); h.rx.mode == (if g.Cut? then Reading else Hunting) && h.replies == f.replies + Verdict(g)
  {
    match g
    case Noise(data) => FeedNoise(f, data);
    case Cut(data) => FeedStart(f, data);
    case Bad(data, c1, c2) => FeedPacket(f, data, c1, c2);
    case Overlong(data) => FeedOverlong(f, data);
  }

  lemma TrafficPrefix(segments: seq<Segment>)
    requires ValidTraffic(segments) && segments != []
    ensures var before, g := segments[..|segments| - 1], segments[|segments| - 1];
      ValidTraffic(before) && ValidSegment(g) && (g.Noise? && before != [] ==> !before[|before| - 1].Cut?)
  {}

  lemma {:induction false} HeardTraffic(buf: Buffer, segments: seq<Segment>)
    requires ValidTraffic(segments)
    ensures var f := Heard(buf, Traffic(segments));
      && f.rx.mode == (if segments != [] && segments[|segments| - 1].Cut? then Reading else Hunting)
      && f.replies == Verdicts(segments)
    decreases |segments|
  {
    if segments != [] {
      var before, g := segments[..|segments| - 1], segments[|segments| - 1];
      TrafficPrefix(segments);
      HeardTraffic(buf, before);
      FeedSegment(Heard(buf, Traffic(before)), g);
      FeedConcat(Fed(Waiting(buf), []), Traffic(before), Bytes(g));
    }
  }

  /** After any such traffic a framed packet is received whole; the refusals and the acknowledgement
      are all that was answered. */
  lemma Resynchronises(buf: Buffer, segments: seq<Segment>, data: seq<Byte>, tail: seq<Byte>)
    requires ValidTraffic(segments) && Plain(data) && |data| < BUFMAX - 1
    ensures var r := Receive(Waiting(buf), Traffic(segments) + Frame(data) + tail, 0, []);
      && r.rx.mode == Complete && r.pos == |Traffic(segments)| + |Frame(data)|
      && r.rx.buf[..|data|] == data && r.rx.buf[|data|] == 0
      && r.replies == Verdicts(segments) + Acknowledgement(r.rx.buf)
  {
    HeardTraffic(buf, segments);
    FrameReceived(buf, Traffic(segments), data, tail);
  }

  // ----- what a program finds in the buffer

  /** The byte that decides whether sequence characters are seen: the packet's own, its end, or what
      the buffer held before. */
  function Mark(buf: Buffer, data: seq<Byte>): Byte {
    if |data| > 2 then data[2] else if |data| == 2 then 0 else buf[2]
  }

  /** The text of a packet received into a buffer is its data, unless the mark is a colon: then it is
      the data behind the mark, or for data of less than two bytes whatever the buffer held there. */
  lemma ReceivedText(buf: Buffer, data: seq<Byte>)
    requires |data| < BUFMAX - 1 && 0 !in data
    ensures var after := Filled(buf, 0, data)[|data| := 0];
      && after[2] == Mark(buf, data)
      && CString(after, Start(after)) == if Mark(buf, data) != COLON then data else if |data| > 2 then data[3..] else CString(buf, 3)
  {
    var after := Filled(buf, 0, data)[|data| := 0];
    assert after[..|data|] == data;
    StringInBuffer(after, data, 0);
    if |data| > 2 {
      StringInBuffer(after, data, 3);
    } else {
      SameString(buf, after, 3);
    }
  }

  lemma {:induction false} StringInBuffer(buf: seq<Byte>, data: seq<Byte>, i: nat)
    requires i <= |data| < |buf| && 0 !in data && buf[..|data|] == data && buf[|data|] == 0
    ensures CString(buf, i) == data[i..]
    decreases |data| - i
  {
    if i < |data| {
      StringInBuffer(buf, data, i + 1);
      assert buf[i] == buf[..|data|][i] == data[i] && data[i] in data;
    }
  }

  lemma {:induction false} SameString(a: seq<Byte>, b: seq<Byte>, i: nat)
    requires i <= |a| == |b| && forall k :: i <= k < |a| ==> a[k] == b[k]
    ensures CString(a, i) == CString(b, i)
    decreases |a| - i
  {
    if i < |a| {
      SameString(a, b, i + 1);
    }
  }

  /** What one stub sends, another receives: behind any bytes that leave the receiver ready, the text
      found is the data if and only if the mark is no colon; short data behind a stale colon is the
      one case that depends on what else the buffer held. */
  lemma RoundTrip(buf: Buffer, prefix: seq<Byte>, data: seq<Byte>, tail: seq<Byte>)
    requires Plain(data) && |data| < BUFMAX - 1 && 0 !in data && Ready(Heard(buf, prefix).rx)
    ensures var f := Heard(buf, prefix);
      var r := Receive(Waiting(buf), prefix + Frame(data) + tail, 0, []);
      && (CString(r.rx.buf, Start(r.rx.buf)) == data
          <==> Mark(f.rx.buf, data) != COLON || (|data| < 2 && CString(f.rx.buf, 3) == data))
      && (Mark(f.rx.buf, data) != COLON ==> r.replies == f.replies + [PLUS])
  {
    FrameReceived(buf, prefix, data, tail);
    ReceivedText(Heard(buf, prefix).rx.buf, data);
  }

  /** A text with a colon in third place loses its beginning. */
  lemma ColonIsLost(buf: Buffer)
    ensures var data: seq<Byte> := [0x61, 0x62, COLON, 0x63];
      var r := Receive(Waiting(buf), Frame(data), 0, []);
      r.rx.mode == Complete && CString(r.rx.buf, Start(r.rx.buf)) == [0x63] && r.replies == [PLUS, 0x61, 0x62]
  {
    var data: seq<Byte> := [0x61, 0x62, COLON, 0x63];
    FrameReceived(buf, [], data, []);
    ReceivedText(buf, data);
    assert [] + Frame(data) + [] == Frame(data);
    assert Filled(buf, 0, data)[..4] == data;
  }
}
