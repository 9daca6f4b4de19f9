/** What the call-graph profiler is meant to know: the log of recorded calls, and
    everything that can be read off it. Nothing here mentions arrays or links. */
module ArcLog {
  import opened Basics

  /** One recorded call: the bucket of the caller and the entry point of the callee. */
  datatype Arc = Arc(bucket: nat, selfpc: nat)

  /** The distinct arcs of a log in the order in which they were first recorded. */
  function FirstSeen(log: seq<Arc>): (seen: seq<Arc>)
  {
    if log == [] then []
    else
      var before := FirstSeen(log[..|log| - 1]);
      var last := log[|log| - 1];
      if last in before then before else before + [last]
  }

  /** `pcs` with every occurrence of `pc` taken out, the rest in the same order. */
  function Without(pcs: seq<nat>, pc: nat): (r: seq<nat>)
    ensures pc !in r
    ensures forall x :: x != pc ==> (x in r <==> x in pcs)
  {
    if pcs == [] then []
    else if pcs[0] == pc then Without(pcs[1..], pc)
    else [pcs[0]] + Without(pcs[1..], pc)
  }

  /** The callees recorded for one bucket, a call moving its callee to the front. */
  function Recent(log: seq<Arc>, bucket: nat): (pcs: seq<nat>)
  {
    if log == [] then []
    else
      var before := Recent(log[..|log| - 1], bucket);
      var last := log[|log| - 1];
      if last.bucket == bucket then [last.selfpc] + Without(before, last.selfpc) else before
  }

  /** The position of the latest occurrence of an arc. */
  function LastCall(log: seq<Arc>, a: Arc): (i: nat)
    requires a in log
    ensures i < |log| && log[i] == a
    ensures forall j :: i < j < |log| ==> log[j] != a
  {
    if log[|log| - 1] == a then |log| - 1 else LastCall(log[..|log| - 1], a)
  }

  ghost predicate Distinct<T>(s: seq<T>)
  {
    forall i, j :: 0 <= i < j < |s| ==> s[i] != s[j]
  }

  // ----- facts about the definitions

  lemma {:induction false} FirstSeenMembers(log: seq<Arc>)
    ensures Distinct(FirstSeen(log))
    ensures forall a :: a in FirstSeen(log) <==> a in log
    ensures |FirstSeen(log)| <= |log|
  {
    if log != [] {
      FirstSeenMembers(log[..|log| - 1]);
      assert log == log[..|log| - 1] + [log[|log| - 1]];
    }
  }

  lemma {:induction false} WithoutMembers(pcs: seq<nat>, pc: nat)
    ensures forall x :: x in Without(pcs, pc) <==> x in pcs && x != pc
    ensures pc !in pcs ==> Without(pcs, pc) == pcs
  {
    if pcs != [] {
      WithoutMembers(pcs[1..], pc);
      assert pcs == [pcs[0]] + pcs[1..];
    }
  }

  lemma {:induction false} WithoutDistinct(pcs: seq<nat>, pc: nat)
    requires Distinct(pcs)
    ensures Distinct(Without(pcs, pc))
  {
    if pcs != [] {
      WithoutDistinct(pcs[1..], pc);
      WithoutMembers(pcs[1..], pc);
      assert pcs[0] !in pcs[1..];
    }
  }

  /** An element that occurs once is cut out. */
  lemma {:induction false} WithoutAt(pcs: seq<nat>, j: nat)
    requires Distinct(pcs) && j < |pcs|
    ensures Without(pcs, pcs[j]) == pcs[..j] + pcs[j + 1..]
  {
    var rest := pcs[1..];
    if j == 0 {
      assert pcs[0] !in rest;
      WithoutMembers(rest, pcs[0]);
    } else {
      WithoutAt(rest, j - 1);
      assert pcs[..j] == [pcs[0]] + rest[..j - 1];
      assert pcs[j + 1..] == rest[j..];
    }
  }

  lemma {:induction false} RecentMembers(log: seq<Arc>, b: nat)
    ensures Distinct(Recent(log, b))
    ensures forall pc :: pc in Recent(log, b) <==> Arc(b, pc) in log
  {
    if log != [] {
      var before, last := log[..|log| - 1], log[|log| - 1];
      RecentMembers(before, b);
      WithoutDistinct(Recent(before, b), last.selfpc);
      assert log == before + [last];
      assert forall pc :: Arc(b, pc) in log <==> Arc(b, pc) in before || Arc(b, pc) == last;
    }
  }

  /** Relative positions survive the removal of an element. */
  lemma {:induction false} WithoutKeepsOrder(pcs: seq<nat>, pc: nat, i: nat, j: nat)
    returns (i': nat, j': nat)
    requires i < j < |Without(pcs, pc)|
    ensures i' < j' < |pcs| && pcs[i'] == Without(pcs, pc)[i] && pcs[j'] == Without(pcs, pc)[j]
  {
    if pcs[0] == pc {
      i', j' := WithoutKeepsOrder(pcs[1..], pc, i, j);
      i', j' := i' + 1, j' + 1;
    } else if i == 0 {
      i' := 0;
      assert Without(pcs, pc)[j] in pcs[1..];
      var k :| 0 <= k < |pcs[1..]| && pcs[1..][k] == Without(pcs, pc)[j];
      j' := k + 1;
    } else {
      i', j' := WithoutKeepsOrder(pcs[1..], pc, i - 1, j - 1);
      i', j' := i' + 1, j' + 1;
    }
  }

  /** Move-to-front is exactly ordering by most recent call. */
  lemma {:induction false} RecentIsByLastCall(log: seq<Arc>, b: nat, i: nat, j: nat)
    requires i < j < |Recent(log, b)|
    ensures Arc(b, Recent(log, b)[i]) in log && Arc(b, Recent(log, b)[j]) in log
    ensures LastCall(log, Arc(b, Recent(log, b)[i])) > LastCall(log, Arc(b, Recent(log, b)[j]))
  {
    RecentMembers(log, b);
    var r := Recent(log, b);
    assert r[i] in r && r[j] in r;
    var before, last := log[..|log| - 1], log[|log| - 1];
    if last.bucket != b {
      RecentIsByLastCall(before, b, i, j);
    } else if i == 0 {
      assert r[0] == last.selfpc && r[j] != r[0];
    } else {
      assert r[i] == Without(Recent(before, b), last.selfpc)[i - 1] && r[j] == Without(Recent(before, b), last.selfpc)[j - 1];
      var i', j' := WithoutKeepsOrder(Recent(before, b), last.selfpc, i - 1, j - 1);
      RecentIsByLastCall(before, b, i', j');
      assert r[i] != r[0] && r[j] != r[0];
    }
  }

  // ----- runs of the profiler, seen from outside

  /** A call as the profiler sees it: return addresses one frame up and here. */
  datatype Call = Call(frompc: nat, selfpc: nat)

  /** The whole abstract state: the profiled text, the pool limit, whether recording is on,
      and the log of the calls recorded so far. */
  datatype Profile = Profile(lowpc: nat, textsize: nat, tolimit: nat, on: bool, log: seq<Arc>)

  function Offset(p: Profile, c: Call): nat {
    (c.frompc - p.lowpc) % WORD
  }

  /** The arc a call contributes, if it comes from the profiled text. */
  function Hit(p: Profile, c: Call): seq<Arc> {
    if Offset(p, c) < p.textsize then [Arc(Offset(p, c) / 2, c.selfpc)] else []
  }

  /** What one call does: nothing when off or outside the text, one more log entry when the
      arc is known or a node is left for it, and otherwise the end of all recording. */
  function Record(p: Profile, c: Call): (r: Profile)
  {
    var hit := Hit(p, c);
    if !p.on || hit == [] then p
    else if hit[0] in p.log || |FirstSeen(p.log)| + 1 < p.tolimit then p.(log := p.log + hit)
    else p.(on := false)
  }

  function RecordAll(p: Profile, calls: seq<Call>): (r: Profile)
    ensures r.lowpc == p.lowpc && r.textsize == p.textsize && r.tolimit == p.tolimit
  {
    if calls == [] then p else Record(RecordAll(p, calls[..|calls| - 1]), calls[|calls| - 1])
  }

  /** The log extended by every call that comes from the profiled text, dropping none. */
  function Heard(p: Profile, calls: seq<Call>): seq<Arc> {
    if calls == [] then p.log else Heard(p, calls[..|calls| - 1]) + Hit(p, calls[|calls| - 1])
  }

  lemma {:induction false} FirstSeenGrows(log: seq<Arc>, more: seq<Arc>)
    ensures FirstSeen(log) <= FirstSeen(log + more)
  {
    if more == [] {
      assert log + more == log;
    } else {
      var m := more[..|more| - 1];
      FirstSeenGrows(log, m);
      assert (log + more)[..|log + more| - 1] == log + m;
    }
  }

  /** Everything heard is in the log, unless it did not fit the pool. */
  ghost predicate Complete(p: Profile, heard: seq<Arc>)
  {
    && |FirstSeen(p.log)| < p.tolimit
    && (p.on <==> |FirstSeen(heard)| < p.tolimit)
    && (p.on ==> p.log == heard)
  }

  lemma RecordIsComplete(p: Profile, heard: seq<Arc>, c: Call)
    requires Complete(p, heard)
    ensures Complete(Record(p, c), heard + Hit(p, c))
  {
    var hit := Hit(p, c);
    if hit == [] {
      assert heard + hit == heard;
    } else {
      FirstSeenMembers(heard);
      FirstSeenGrows(heard, hit);
      assert (heard + hit)[..|heard + hit| - 1] == heard;
    }
  }

  /** Over any run, recording is still on exactly when the distinct arcs met so far fit the
      pool, and then no call from the text has been lost. */
  lemma {:induction false} RunIsComplete(p: Profile, calls: seq<Call>)
    requires p.on && |FirstSeen(p.log)| < p.tolimit
    ensures Complete(RecordAll(p, calls), Heard(p, calls))
  {
    if calls != [] {
      var before, c := calls[..|calls| - 1], calls[|calls| - 1];
      var q := RecordAll(p, before);
      RunIsComplete(p, before);
      assert Heard(p, calls) == Heard(p, before) + Hit(q, c);
      RecordIsComplete(q, Heard(p, before), c);
    }
  }

  /** Once recording has stopped no later call changes anything. */
  lemma {:induction false} OverflowIsFinal(p: Profile, calls: seq<Call>)
    requires !p.on
    ensures RecordAll(p, calls) == p
  {
    if calls != [] {
      OverflowIsFinal(p, calls[..|calls| - 1]);
    }
  }

  // ----- the dump

  datatype RawArc = RawArc(frompc: nat, selfpc: nat, count: int)

  function Base(lowpc: nat, bucket: nat): nat {
    (lowpc + bucket * 2) % WORD
  }

  ghost function RawOf(lowpc: nat, log: seq<Arc>, a: Arc): RawArc {
    RawArc(Base(lowpc, a.bucket), a.selfpc, multiset(log)[a])
  }

  /** The recorded arcs, bucket by bucket, each bucket's most recent callee first. */
  ghost function Listing(buckets: nat, log: seq<Arc>): seq<Arc>
  {
    if buckets == 0 then []
    else Listing(buckets - 1, log) + BucketArcs(buckets - 1, log)
  }

  ghost function BucketArcs(b: nat, log: seq<Arc>): seq<Arc> {
    var r := Recent(log, b);
    seq(|r|, i requires 0 <= i < |r| => Arc(b, r[i]))
  }

  ghost function Records(lowpc: nat, arcs: seq<Arc>, log: seq<Arc>): seq<RawArc> {
    seq(|arcs|, i requires 0 <= i < |arcs| => RawOf(lowpc, log, arcs[i]))
  }

  ghost function Dump(lowpc: nat, buckets: nat, log: seq<Arc>): seq<RawArc> {
    Records(lowpc, Listing(buckets, log), log)
  }

  lemma DumpExtends(lowpc: nat, b: nat, log: seq<Arc>)
    ensures Dump(lowpc, b + 1, log) == Dump(lowpc, b, log) + Records(lowpc, BucketArcs(b, log), log)
  {}

  ghost function Total(dump: seq<RawArc>): int {
    if dump == [] then 0 else Total(dump[..|dump| - 1]) + dump[|dump| - 1].count
  }

  lemma {:induction false} ListingMembers(buckets: nat, log: seq<Arc>)
    ensures Distinct(Listing(buckets, log))
    ensures forall a :: a in Listing(buckets, log) <==> a in log && a.bucket < buckets
  {
    if buckets > 0 {
      var b := buckets - 1;
      ListingMembers(b, log);
      RecentMembers(log, b);
      var s, t := Listing(b, log), BucketArcs(b, log);
      forall a | a in t ensures a in log && a.bucket == b {
        var i :| 0 <= i < |t| && t[i] == a;
        assert Recent(log, b)[i] in Recent(log, b);
      }
      forall a | a in log && a.bucket == b ensures a in t {
        assert a == Arc(b, a.selfpc) && a.selfpc in Recent(log, b);
        var i :| 0 <= i < |Recent(log, b)| && Recent(log, b)[i] == a.selfpc;
        assert t[i] == a;
      }
      forall i, j | 0 <= i < j < |s + t| ensures (s + t)[i] != (s + t)[j] {
        if i < |s| <= j {
          assert s[i] in s && t[j - |s|] in t;
        }
      }
    }
  }

  ghost function Multiplicities(arcs: seq<Arc>, m: multiset<Arc>): int {
    if arcs == [] then 0 else Multiplicities(arcs[..|arcs| - 1], m) + m[arcs[|arcs| - 1]]
  }

  lemma {:induction false} MultiplicitiesAgree(arcs: seq<Arc>, m: multiset<Arc>, n: multiset<Arc>)
    requires forall a :: a in arcs ==> m[a] == n[a]
    ensures Multiplicities(arcs, m) == Multiplicities(arcs, n)
  {
    if arcs != [] {
      MultiplicitiesAgree(arcs[..|arcs| - 1], m, n);
    }
  }

  /** A sequence naming each element of a multiset once has multiplicities that add up to its size. */
  lemma {:induction false} MultiplicitiesAddUp(arcs: seq<Arc>, m: multiset<Arc>)
    requires Distinct(arcs)
    requires forall a :: a in m <==> a in arcs
    ensures Multiplicities(arcs, m) == |m|
  {
    if arcs == [] {
      assert m == multiset{};
    } else {
      var a, rest := arcs[|arcs| - 1], arcs[..|arcs| - 1];
      var m' := m[a := 0];
      assert forall x :: x in arcs <==> x in rest || x == a;
      MultiplicitiesAddUp(rest, m');
      MultiplicitiesAgree(rest, m, m');
    }
  }

  lemma {:induction false} TotalOfRecords(lowpc: nat, log: seq<Arc>, arcs: seq<Arc>)
    ensures Total(Records(lowpc, arcs, log)) == Multiplicities(arcs, multiset(log))
  {
    if arcs != [] {
      var d, rest := Records(lowpc, arcs, log), arcs[..|arcs| - 1];
      TotalOfRecords(lowpc, log, rest);
      assert d[..|d| - 1] == Records(lowpc, rest, log);
    }
  }

  /** The dump has one record per distinct recorded arc and no other, no two records share
      caller and callee, and the counts add up to the number of recorded calls. */
  lemma DumpIsExact(lowpc: nat, buckets: nat, log: seq<Arc>)
    requires forall a :: a in log ==> a.bucket < buckets
    requires buckets * 2 <= WORD
    ensures var d := Dump(lowpc, buckets, log);
      && |d| == |FirstSeen(log)|
      && (forall a :: a in log ==> RawOf(lowpc, log, a) in d)
      && (forall r :: r in d ==> exists a :: a in log && r == RawOf(lowpc, log, a))
      && (forall i, j :: 0 <= i < j < |d| ==> d[i].frompc != d[j].frompc || d[i].selfpc != d[j].selfpc)
      && Total(d) == |log|
  {
    var arcs, d := Listing(buckets, log), Dump(lowpc, buckets, log);
    ListingMembers(buckets, log);
    DumpTotal(lowpc, buckets, log);
    FirstSeenMembers(log);
    SameSize(arcs, FirstSeen(log));
    forall a | a in log ensures RawOf(lowpc, log, a) in d {
      var i :| 0 <= i < |arcs| && arcs[i] == a;
      assert d[i] == RawOf(lowpc, log, a);
    }
    forall r | r in d ensures exists a :: a in log && r == RawOf(lowpc, log, a) {
      var i :| 0 <= i < |d| && d[i] == r;
      assert arcs[i] in arcs;
    }
    DumpKeysDiffer(lowpc, buckets, log);
  }

  lemma DumpKeysDiffer(lowpc: nat, buckets: nat, log: seq<Arc>)
    requires buckets * 2 <= WORD
    ensures var d := Dump(lowpc, buckets, log);
      forall i, j :: 0 <= i < j < |d| ==> d[i].frompc != d[j].frompc || d[i].selfpc != d[j].selfpc
  {
    var arcs, d := Listing(buckets, log), Dump(lowpc, buckets, log);
    ListingMembers(buckets, log);
    forall i, j | 0 <= i < j < |d| && d[i].frompc == d[j].frompc ensures d[i].selfpc != d[j].selfpc {
      assert arcs[i] in arcs && arcs[j] in arcs && arcs[i] != arcs[j];
      BasesDiffer(lowpc, arcs[i].bucket, arcs[j].bucket);
    }
  }

  lemma DumpTotal(lowpc: nat, buckets: nat, log: seq<Arc>)
    requires forall a :: a in log ==> a.bucket < buckets
    ensures Total(Dump(lowpc, buckets, log)) == |log|
  {
    var arcs := Listing(buckets, log);
    ListingMembers(buckets, log);
    TotalOfRecords(lowpc, log, arcs);
    MultiplicitiesAddUp(arcs, multiset(log));
  }

  /** Bucket bases identify their buckets, even if adding the base wraps. */
  lemma BasesDiffer(lowpc: nat, b: nat, c: nat)
    requires b * 2 < WORD && c * 2 < WORD
    requires Base(lowpc, b) == Base(lowpc, c)
    ensures b == c
  {
    var q := (lowpc + b * 2) / WORD - (lowpc + c * 2) / WORD;
    assert b * 2 - c * 2 == WORD * q;
    assert -1 < q < 1;
  }

  lemma SameSize<T>(s: seq<T>, t: seq<T>)
    requires Distinct(s) && Distinct(t)
    requires forall x :: x in s <==> x in t
    ensures |s| == |t|
  {
    SetSize(s);
    SetSize(t);
    assert (set x | x in s) == (set x | x in t);
  }

  lemma {:induction false} SetSize<T>(s: seq<T>)
    requires Distinct(s)
    ensures |set x | x in s| == |s|
  {
    if s != [] {
      var n := |s| - 1;
      SetSize(s[..n]);
      assert (set x | x in s) == (set x | x in s[..n]) + {s[n]};
    }
  }

  /** No stored count can overflow a 32-bit signed long before that many calls were recorded. */
  lemma {:induction false} CountBounded(log: seq<Arc>, a: Arc)
    ensures multiset(log)[a] <= |log|
  {
    if log != [] {
      CountBounded(log[..|log| - 1], a);
      assert log == log[..|log| - 1] + [log[|log| - 1]];
    }
  }
}
