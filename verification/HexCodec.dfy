/** The stub's memory codecs: bytes as pairs of hex digits, and bytes as they are with three of
    them escaped. */
module HexCodec {
  import opened Basics

  const DOLLAR: Byte := 0x24
  const HASH: Byte := 0x23
  const ESCAPE: Byte := 0x7d

  // ----- hex digits

  function HexChar(k: int): Byte
    requires 0 <= k < 16
  {
    if k < 10 then 0x30 + k else 0x61 + k - 10
  }

  /** The value of a hex digit in either case, or -1. */
  function Hex(ch: Byte): (h: int)
    ensures -1 <= h < 16
  {
    if 0x61 <= ch <= 0x66 then ch - 0x61 + 10
    else if 0x30 <= ch <= 0x39 then ch - 0x30
    else if 0x41 <= ch <= 0x46 then ch - 0x41 + 10
    else -1
  }

  /** Two digits put together in an unsigned char; a bad digit goes in as -1. */
  function HexPair(hi: Byte, lo: Byte): Byte {
    (Hex(hi) * 16 % 256 + Hex(lo)) % 256
  }

  function HexOf(b: Byte): seq<Byte> {
    [HexChar(b / 16), HexChar(b % 16)]
  }

  lemma HexPairOfHexOf(b: Byte)
    ensures HexPair(HexOf(b)[0], HexOf(b)[1]) == b
  {
    var hi, lo := b / 16, b % 16;
    assert Hex(HexChar(hi)) == hi && Hex(HexChar(lo)) == lo;
    assert hi * 16 % 256 == hi * 16 && hi * 16 + lo == b;
  }

  /** The text of a block of memory. */
  function Encoded(mem: seq<Byte>): (text: seq<Byte>)
    ensures |text| == 2 * |mem|
  {
    seq(2 * |mem|, i requires 0 <= i < 2 * |mem| => HexOf(mem[i / 2])[i % 2])
  }

  function Decoded(text: seq<Byte>): (mem: seq<Byte>)
    ensures |mem| == |text| / 2
  {
    seq(|text| / 2, i requires 0 <= i < |text| / 2 => HexPair(text[2 * i], text[2 * i + 1]))
  }

  /** Any block of memory is restored from its text. */
  lemma DecodedEncoded(mem: seq<Byte>)
    ensures Decoded(Encoded(mem)) == mem
  {
    var text := Encoded(mem);
    forall i | 0 <= i < |mem| ensures Decoded(text)[i] == mem[i] {
      assert text[2 * i] == HexOf(mem[i])[0] && text[2 * i + 1] == HexOf(mem[i])[1] by {
        assert (2 * i) / 2 == i && (2 * i + 1) / 2 == i && (2 * i + 1) % 2 == 1;
      }
      HexPairOfHexOf(mem[i]);
    }
  }

  // ----- escaped binary

  predicate Special(b: Byte) {
    b == DOLLAR || b == HASH || b == ESCAPE
  }

  /** What the debugger sends: the three special bytes go out behind the escape with bit 5 flipped. */
  function Escaped(data: seq<Byte>): seq<Byte> {
    if data == [] then []
    else EscapedByte(data[0]) + Escaped(data[1..])
  }

  /** Only a pair that an escape can have produced is taken for one. */
  predicate EscapePair(text: seq<Byte>) {
    |text| >= 2 && text[0] == ESCAPE && (text[1] == 0x03 || text[1] == 0x04 || text[1] == 0x5d)
  }

  function Taken(text: seq<Byte>): nat {
    if EscapePair(text) then 2 else 1
  }

  /** The byte the next one or two bytes of the text stand for. */
  function First(text: seq<Byte>): Byte
    requires text != []
  {
    if EscapePair(text) then text[1] + 0x20 else text[0]
  }

  /** Those bytes as the decoder leaves them. */
  function CookedFirst(text: seq<Byte>): seq<Byte>
    requires text != []
  {
    if EscapePair(text) then [ESCAPE, First(text)] else [First(text)]
  }

  /** A decoding: the bytes, how much of the text they use up, and the text as the decoder leaves it. */
  datatype Decoding = Short | Done(data: seq<Byte>, used: nat, cooked: seq<Byte>)

  function Prepended(data: seq<Byte>, cooked: seq<Byte>, d: Decoding): Decoding {
    if d == Short then Short else Done(data + d.data, |cooked| + d.used, cooked + d.cooked)
  }

  /** Take `count` bytes from escaped text. */
  function Unescape(text: seq<Byte>, count: nat): (d: Decoding)
    ensures d.Done? ==> |d.data| == count && d.used <= |text| == |d.cooked|
    decreases count
  {
    if count == 0 then Done([], 0, text)
    else if text == [] || (text[0] == ESCAPE && |text| < 2) then Short
    else Prepended([First(text)], CookedFirst(text), Unescape(text[Taken(text)..], count - 1))
  }

  function EscapedByte(b: Byte): seq<Byte> {
    if Special(b) then [ESCAPE, b - 0x20] else [b]
  }

  lemma TakeOne(b: Byte, rest: seq<Byte>, count: nat)
    ensures var d, e := Unescape(rest, count), Unescape(EscapedByte(b) + rest, count + 1);
      d.Done? ==> e.Done? && e.data == [b] + d.data && e.used == |EscapedByte(b)| + d.used
  {
    var text := EscapedByte(b) + rest;
    assert text[0] == EscapedByte(b)[0];
    if Special(b) {
      assert text[1] == b - 0x20;
    }
    assert Taken(text) == |EscapedByte(b)|;
    assert text[Taken(text)..] == rest;
  }

  lemma OneMoreTaken(b: Byte, data: seq<Byte>, rest: seq<Byte>, tail: seq<Byte>)
    requires var d := Unescape(rest + tail, |data|); d.Done? && d.data == data && d.used == |rest|
    ensures var d := Unescape(EscapedByte(b) + rest + tail, |data| + 1);
      d.Done? && d.data == [b] + data && d.used == |EscapedByte(b)| + |rest|
  {
    TakeOne(b, rest + tail, |data|);
    Regrouped(EscapedByte(b), rest, tail);
  }

  /** Every block of bytes survives escaping, whatever follows it, and exactly its own text is used. */
  lemma {:induction false} UnescapeEscaped(data: seq<Byte>, tail: seq<Byte>)
    ensures var d := Unescape(Escaped(data) + tail, |data|);
      d.Done? && d.data == data && d.used == |Escaped(data)|
  {
    if data != [] {
      UnescapeEscaped(data[1..], tail);
      OneMoreTaken(data[0], data[1..], Escaped(data[1..]), tail);
      assert data == [data[0]] + data[1..];
    }
  }

  /** Escaped text is safe inside a packet. */
  lemma {:induction false} EscapedIsFramable(data: seq<Byte>)
    ensures DOLLAR !in Escaped(data) && HASH !in Escaped(data)
  {
    if data != [] {
      EscapedIsFramable(data[1..]);
    }
  }

  // ----- the loops. `safe` is how many bytes of the block lie before the first faulting address;
  // without fault detection the caller vouches for all of them.

  method Mem2Hex(mem: array<Byte>, m: nat, buf: array<Byte>, b: nat, count: nat, safe: nat) returns (next: nat, fault: bool)
    requires mem != buf && m + Min(count, safe) <= mem.Length && b + 2 * count < buf.Length
    modifies buf
    ensures fault <==> safe < count
    ensures next == b + 2 * Min(count, safe)
    ensures buf[b..next] == Encoded(mem[m..m + Min(count, safe)])
    ensures !fault ==> buf[next] == 0
    ensures buf[..b] == old(buf[..b]) && buf[next + 1..] == old(buf[next + 1..]) && (fault ==> buf[next] == old(buf[next]))
  {
    next, fault := b, false;
    for i := 0 to count
      invariant i <= safe && next == b + 2 * i
      invariant forall k :: 0 <= k < 2 * i ==> buf[b + k] == HexOf(mem[m + k / 2])[k % 2]
      invariant forall k :: 0 <= k < b || next <= k < buf.Length ==> buf[k] == old(buf[k])
    {
      if i == safe {
        return next, true;
      }
      var ch := mem[m + i];
      buf[next] := HexChar(ch / 16);
      buf[next + 1] := HexChar(ch % 16);
      next := next + 2;
    }
    buf[next] := 0;
  }

  /** Writes decoded bytes one after the other; the byte at the first faulting address is not written. */
  method Hex2Mem(buf: array<Byte>, b: nat, mem: array<Byte>, m: nat, count: nat, safe: nat) returns (next: nat, fault: bool)
    requires mem != buf && m + Min(count, safe) <= mem.Length && b + 2 * Min(count, safe + 1) <= buf.Length
    modifies mem
    ensures fault <==> safe < count
    ensures next == m + Min(count, safe + 1)
    ensures mem[m..m + Min(count, safe)] == Decoded(buf[b..b + 2 * Min(count, safe)])
    ensures mem[..m] == old(mem[..m]) && mem[m + Min(count, safe)..] == old(mem[m + Min(count, safe)..])
  {
    next, fault := m, false;
    for i := 0 to count
      invariant i <= safe && next == m + i
      invariant forall k :: 0 <= k < i ==> mem[m + k] == HexPair(buf[b + 2 * k], buf[b + 2 * k + 1])
      invariant forall k :: 0 <= k < m || next <= k < mem.Length ==> mem[k] == old(mem[k])
    {
      var ch := HexPair(buf[b + 2 * i], buf[b + 2 * i + 1]);
      if i == safe {
        return next + 1, true;
      }
      mem[next] := ch;
      next := next + 1;
    }
  }

  lemma PrependedTwice(out: seq<Byte>, cooked: seq<Byte>, x: seq<Byte>, y: seq<Byte>, d: Decoding)
    ensures Prepended(out, cooked, Prepended(x, y, d)) == Prepended(out + x, cooked + y, d)
  {
    if d.Done? {
      assert out + (x + d.data) == (out + x) + d.data;
      assert cooked + (y + d.cooked) == (cooked + y) + d.cooked;
    }
  }

  /** A block in three parts. */
  ghost predicate Parts(block: seq<Byte>, a: seq<Byte>, b: seq<Byte>, c: seq<Byte>) {
    block == a + b + c
  }

  lemma PartsAre(block: seq<Byte>, a: seq<Byte>, b: seq<Byte>, c: seq<Byte>)
    requires Parts(block, a, b, c)
    ensures block[..|a|] == a && block[|a|..|a| + |b|] == b && block[|a| + |b|..] == c && block[|a|..] == b + c
  {}

  lemma PartsMove(block: seq<Byte>, a: seq<Byte>, b: seq<Byte>, x: seq<Byte>, c: seq<Byte>)
    ensures Parts(block, a + b, x, c) <==> Parts(block, a, b + x, c)
    ensures Parts(block, a, b, x + c) <==> Parts(block, a + b, x, c)
  {
    assert (a + b) + x == a + (b + x);
    assert a + b + (x + c) == (a + b) + x + c;
  }

  /** Read one byte of escaped text, restoring it in place. */
  method TakeByte(buf: array<Byte>, p: nat, ghost before: seq<Byte>, ghost text: seq<Byte>) returns (ch: Byte, q: nat)
    requires |before| == p && text != [] && (text[0] == ESCAPE ==> |text| >= 2) && Parts(buf[..], before, text, [])
    modifies buf
    ensures ch == First(text) && q == p + Taken(text) <= buf.Length
    ensures Parts(buf[..], before, CookedFirst(text), text[Taken(text)..])
  {
    ghost var whole := buf[..];
    q := p;
    assert buf[q] == whole[p] == text[0];
    if buf[q] == 0x7d {
      assert buf[q + 1] == whole[p + 1] == text[1];
      if buf[q + 1] == 0x03 || buf[q + 1] == 0x04 || buf[q + 1] == 0x5d {
        q := q + 1;
        buf[q] := buf[q] + 0x20;
        assert buf[..] == whole[p + 1 := First(text)];
        assert text == text[..2] + text[2..];
      }
    }
    assert text == [text[0]] + text[1..];
    ch := buf[q];
    q := q + 1;
  }

  method StoreByte(mem: array<Byte>, next: nat, ch: Byte, ghost before: seq<Byte>, ghost rest: seq<Byte>)
    requires |before| == next && rest != [] && Parts(mem[..], before, [], rest)
    modifies mem
    ensures Parts(mem[..], before, [ch], rest[1..])
  {
    ghost var whole := mem[..];
    assert rest == [rest[0]] + rest[1..];
    mem[next] := ch;
    assert mem[..] == whole[next := ch];
  }

  /** The two blocks while a decoding runs: `cooked` passed over in one with `text` to come, `out`
      written in the other over what was there. */
  ghost predicate Midway(buf: seq<Byte>, before: seq<Byte>, cooked: seq<Byte>, text: seq<Byte>,
                         mem: seq<Byte>, below: seq<Byte>, out: seq<Byte>, above: seq<Byte>) {
    Parts(buf, before, cooked, text) && Parts(mem, below, out, above)
  }

  /** Take one byte and store it. */
  method TakeAndStore(buf: array<Byte>, p: nat, mem: array<Byte>, next: nat, ghost before: seq<Byte>, ghost cooked: seq<Byte>,
                      ghost text: seq<Byte>, ghost below: seq<Byte>, ghost out: seq<Byte>, ghost above: seq<Byte>) returns (q: nat)
    requires mem != buf && Midway(buf[..], before, cooked, text, mem[..], below, out, above)
    requires p == |before| + |cooked| && next == |below| + |out|
    requires text != [] && above != [] && (text[0] == ESCAPE ==> |text| >= 2)
    modifies mem, buf
    ensures q == p + |CookedFirst(text)|
    ensures Midway(buf[..], before, cooked + CookedFirst(text), text[Taken(text)..], mem[..], below, out + [First(text)], above[1..])
  {
    PartsMove(buf[..], before, cooked, text, []);
    assert text + [] == text;
    var ch;
    ch, q := TakeByte(buf, p, before + cooked, text);
    PartsMove(buf[..], before, cooked, CookedFirst(text), text[Taken(text)..]);
    assert [] + above == above;
    PartsMove(mem[..], below, out, [], above);
    StoreByte(mem, next, ch, below + out, above);
    PartsMove(mem[..], below, out, [ch], above[1..]);
  }

  /** Takes `count` bytes from the escaped text, restoring escaped bytes in the buffer on the way. The
      byte at the first faulting address is taken as well, but not written. */
  method Bin2Mem(buf: array<Byte>, b: nat, mem: array<Byte>, m: nat, count: nat, safe: nat)
    returns (next: nat, used: nat, fault: bool)
    requires mem != buf && m + Min(count, safe) <= mem.Length && b <= buf.Length
    requires Unescape(buf[b..], Min(count, safe + 1)).Done?
    modifies mem, buf
    ensures fault <==> safe < count
    ensures next == m + Min(count, safe + 1)
    ensures var d := Unescape(old(buf[b..]), Min(count, safe + 1));
      used == d.used && buf[b..] == d.cooked && mem[m..m + Min(count, safe)] == d.data[..Min(count, safe)]
    ensures mem[..m] == old(mem[..m]) && mem[m + Min(count, safe)..] == old(mem[m + Min(count, safe)..]) && buf[..b] == old(buf[..b])
  {
    ghost var before, text, below, above := buf[..b], buf[b..], mem[..m], mem[m..];
    ghost var out, cooked, rest;
    next, used, fault, out, cooked, rest := Bin2MemParts(buf, b, mem, m, count, safe, before, text, below, above);
    PartsAre(buf[..], before, cooked, rest);
    PartsAre(mem[..], below, out, above[|out|..]);
    RestOfRest(old(mem[..]), m, |out|);
  }

  lemma RestOfRest(block: seq<Byte>, m: nat, n: nat)
    requires m + n <= |block|
    ensures block[m..][n..] == block[m + n..]
  {}

  /** The same, with both blocks given and left in their parts. */
  method Bin2MemParts(buf: array<Byte>, b: nat, mem: array<Byte>, m: nat, count: nat, safe: nat, ghost before: seq<Byte>,
                      ghost text: seq<Byte>, ghost below: seq<Byte>, ghost above: seq<Byte>)
    returns (next: nat, used: nat, fault: bool, ghost out: seq<Byte>, ghost cooked: seq<Byte>, ghost rest: seq<Byte>)
    requires mem != buf && |before| == b && |below| == m && Min(count, safe) <= |above|
    requires buf[..] == before + text && mem[..] == below + above && Unescape(text, Min(count, safe + 1)).Done?
    modifies mem, buf
    ensures (fault <==> safe < count) && next == m + Min(count, safe + 1) && |out| == Min(count, safe) && used == |cooked|
    ensures Parts(buf[..], before, cooked, rest) && Parts(mem[..], below, out, above[|out|..])
    ensures var d := Unescape(text, Min(count, safe + 1)); d.used == used && d.cooked == cooked + rest && d.data[..|out|] == out
  {
    ghost var all := Min(count, safe + 1);
    var p;
    next, p, out, cooked, rest := Bin2MemLoop(buf, b, mem, m, Min(count, safe), all, before, text, below, above);
    fault := safe < count;
    if fault {
      p := TakeFaulting(buf, p, before, cooked, rest);
      next := next + 1;
      Ends(out, cooked, rest, 1, Unescape(text, all));
      cooked, rest := cooked + CookedFirst(rest), rest[Taken(rest)..];
    } else {
      Ends(out, cooked, rest, 0, Unescape(text, all));
    }
    used := p - b;
  }

  /** What a decoding comes to with no byte or one byte left to take. */
  lemma Ends(out: seq<Byte>, cooked: seq<Byte>, rest: seq<Byte>, left: nat, whole: Decoding)
    requires left <= 1 && whole.Done? && Prepended(out, cooked, Unescape(rest, left)) == whole
    ensures whole.data[..|out|] == out
    ensures left == 0 ==> whole.used == |cooked| && whole.cooked == cooked + rest
    ensures left == 1 ==> rest != [] && whole.used == |cooked + CookedFirst(rest)|
                          && whole.cooked == (cooked + CookedFirst(rest)) + rest[Taken(rest)..]
  {
    if left == 1 {
      OneTaken(rest);
      assert cooked + (CookedFirst(rest) + rest[Taken(rest)..]) == (cooked + CookedFirst(rest)) + rest[Taken(rest)..];
    }
  }

  lemma OneTaken(text: seq<Byte>)
    requires Unescape(text, 1).Done?
    ensures text != [] && (text[0] == ESCAPE ==> |text| >= 2)
    ensures Unescape(text, 1) == Done([First(text)], |CookedFirst(text)|, CookedFirst(text) + text[Taken(text)..])
  {
    assert Unescape(text[Taken(text)..], 0) == Done([], 0, text[Taken(text)..]);
    assert [First(text)] + [] == [First(text)];
  }

  /** The byte at a faulting address: taken from the text, but not written. */
  method TakeFaulting(buf: array<Byte>, p: nat, ghost before: seq<Byte>, ghost cooked: seq<Byte>, ghost text: seq<Byte>)
    returns (q: nat)
    requires Parts(buf[..], before, cooked, text) && p == |before| + |cooked| && Unescape(text, 1).Done?
    modifies buf
    ensures text != [] && q == p + |CookedFirst(text)|
    ensures Parts(buf[..], before, cooked + CookedFirst(text), text[Taken(text)..])
  {
    OneTaken(text);
    PartsMove(buf[..], before, cooked, text, []);
    assert text + [] == text;
    var ch;
    ch, q := TakeByte(buf, p, before + cooked, text);
    PartsMove(buf[..], before, cooked, CookedFirst(text), text[Taken(text)..]);
  }

  /** The loop has taken and stored `i` of the bytes. */
  ghost predicate Taking(buf: seq<Byte>, before: seq<Byte>, cooked: seq<Byte>, rest: seq<Byte>, mem: seq<Byte>, below: seq<Byte>,
                         out: seq<Byte>, above: seq<Byte>, i: nat, all: nat, whole: Decoding) {
    && |out| == i <= all && i <= |above| && whole.Done? && Midway(buf, before, cooked, rest, mem, below, out, above[i..])
    && Prepended(out, cooked, Unescape(rest, all - i)) == whole
  }

  lemma TakingBegins(before: seq<Byte>, text: seq<Byte>, below: seq<Byte>, above: seq<Byte>, all: nat)
    requires Unescape(text, all).Done?
    ensures Taking(before + text, before, [], text, below + above, below, [], above, 0, all, Unescape(text, all))
  {
    assert before + [] == before && below + [] == below;
    PrependNothing(Unescape(text, all));
  }

  /** Takes and stores `count` bytes of the `all` that the text is good for. */
  method Bin2MemLoop(buf: array<Byte>, b: nat, mem: array<Byte>, m: nat, count: nat, ghost all: nat,
                     ghost before: seq<Byte>, ghost text: seq<Byte>, ghost below: seq<Byte>, ghost above: seq<Byte>)
    returns (next: nat, p: nat, ghost out: seq<Byte>, ghost cooked: seq<Byte>, ghost rest: seq<Byte>)
    requires mem != buf && |before| == b && |below| == m && count <= |above| && count <= all && Unescape(text, all).Done?
    requires buf[..] == before + text && mem[..] == below + above
    modifies mem, buf
    ensures next == m + count && p == b + |cooked|
    ensures Taking(buf[..], before, cooked, rest, mem[..], below, out, above, count, all, Unescape(text, all))
  {
    next, p, out, cooked, rest := m, b, [], [], text;
    TakingBegins(before, text, below, above, all);
    for i := 0 to count
      invariant next == m + i && p == b + |cooked|
      invariant Taking(buf[..], before, cooked, rest, mem[..], below, out, above, i, all, Unescape(text, all))
    {
      p, out, cooked, rest := TakeNext(buf, p, mem, next, before, cooked, rest, below, out, above, i, all, Unescape(text, all));
      next := next + 1;
    }
  }

  /** One turn of the loop. */
  method TakeNext(buf: array<Byte>, p: nat, mem: array<Byte>, next: nat, ghost before: seq<Byte>, ghost cooked: seq<Byte>,
                  ghost rest: seq<Byte>, ghost below: seq<Byte>, ghost out: seq<Byte>, ghost above: seq<Byte>,
                  ghost i: nat, ghost all: nat, ghost whole: Decoding)
    returns (q: nat, ghost out': seq<Byte>, ghost cooked': seq<Byte>, ghost rest': seq<Byte>)
    requires mem != buf && p == |before| + |cooked| && next == |below| + i && i < all && i < |above|
    requires Taking(buf[..], before, cooked, rest, mem[..], below, out, above, i, all, whole)
    modifies mem, buf
    ensures q == |before| + |cooked'|
    ensures Taking(buf[..], before, cooked', rest', mem[..], below, out', above, i + 1, all, whole)
  {
    TakesOne(out, cooked, rest, all - i);
    q := TakeAndStore(buf, p, mem, next, before, cooked, rest, below, out, above[i..]);
    assert above[i..][1..] == above[i + 1..];
    out', cooked', rest' := out + [First(rest)], cooked + CookedFirst(rest), rest[Taken(rest)..];
  }

  lemma PrependNothing(d: Decoding)
    ensures Prepended([], [], d) == d
  {}

  lemma TakesOne(out: seq<Byte>, cooked: seq<Byte>, rest: seq<Byte>, count: nat)
    requires count > 0 && Prepended(out, cooked, Unescape(rest, count)).Done?
    ensures rest != [] && (rest[0] == ESCAPE ==> |rest| >= 2)
    ensures Prepended(out, cooked, Unescape(rest, count))
         == Prepended(out + [First(rest)], cooked + CookedFirst(rest), Unescape(rest[Taken(rest)..], count - 1))
  {
    PrependedTwice(out, cooked, [First(rest)], CookedFirst(rest), Unescape(rest[Taken(rest)..], count - 1));
  }
}
