/** The profiler's arc table: chains of nodes linked by array index, searched linearly, a hit
    moved to the front. The table is proved to hold exactly what the log of recorded calls says. */
module ArcTable {
  import opened ArcLog
  import opened Basics

  const HISTOGRAM_GRAIN: nat := 4   // HISTFRACTION * sizeof(HISTCOUNTER)
  const FROMS_GRAIN: nat := 2       // HASHFRACTION * sizeof(*froms)
  const ARC_DENSITY: nat := 2
  const MIN_ARCS: nat := 50
  const MAX_ARCS: nat := 65534

  datatype Node = Node(selfpc: nat, count: int, link: nat)

  const ZERO_NODE := Node(0, 0, 0)

  // ----- the representation, on values

  /** `chain` lists the nodes reached from `head` by following links, ending at link 0. */
  ghost predicate Linked(head: nat, tos: seq<Node>, chain: seq<nat>)
  {
    && head == (if chain == [] then 0 else chain[0])
    && (forall i :: 0 <= i < |chain| ==> 1 <= chain[i] < |tos|)
    && forall i {:trigger tos[chain[i]]} :: 0 <= i < |chain| ==> tos[chain[i]].link == if i + 1 < |chain| then chain[i + 1] else 0
  }

  /** Along the chain of bucket `b` stand the callees `pcs`, node k standing for the arc `seen[k - 1]`. */
  ghost predicate Lists(chain: seq<nat>, b: nat, seen: seq<Arc>, pcs: seq<nat>)
  {
    && |chain| == |pcs|
    && forall i :: 0 <= i < |chain| ==> 1 <= chain[i] <= |seen| && seen[chain[i] - 1] == Arc(b, pcs[i])
  }

  /** Node k holds the callee of the arc `seen[k - 1]` and the number of its calls. */
  ghost predicate Counts(tos: seq<Node>, seen: seq<Arc>, calls: multiset<Arc>)
  {
    && |seen| < |tos|
    && forall k :: 1 <= k <= |seen| ==> tos[k].selfpc == seen[k - 1].selfpc && tos[k].count == calls[seen[k - 1]]
  }

  /** Nodes are allocated in the order in which arcs are first seen, each counts its arc's calls,
      and each bucket's chain lists its callees, the most recently called first. */
  ghost predicate Represents(froms: seq<nat>, tos: seq<Node>, chains: seq<seq<nat>>, log: seq<Arc>)
  {
    && |chains| == |froms|
    && (forall a :: a in log ==> a.bucket < |froms|)
    && Counts(tos, FirstSeen(log), multiset(log))
    && (forall b {:trigger Linked(froms[b], tos, chains[b])} :: 0 <= b < |froms| ==> Linked(froms[b], tos, chains[b]))
    && (forall b {:trigger Lists(chains[b], b, FirstSeen(log), Recent(log, b))} ::
          0 <= b < |froms| ==> Lists(chains[b], b, FirstSeen(log), Recent(log, b)))
  }

  ghost predicate OnChain(chains: seq<seq<nat>>, k: nat)
  {
    exists b, i :: 0 <= b < |chains| && 0 <= i < |chains[b]| && chains[b][i] == k
  }

  lemma SamePlace(froms: seq<nat>, tos: seq<Node>, chains: seq<seq<nat>>, log: seq<Arc>, b: nat, i: nat, c: nat, j: nat)
    requires Represents(froms, tos, chains, log)
    requires b < |chains| && i < |chains[b]| && c < |chains| && j < |chains[c]| && chains[b][i] == chains[c][j]
    ensures b == c && i == j
  {
    assert Lists(chains[b], b, FirstSeen(log), Recent(log, b)) && Lists(chains[c], c, FirstSeen(log), Recent(log, c));
    RecentMembers(log, b);
  }

  lemma NodeOnChain(froms: seq<nat>, tos: seq<Node>, chains: seq<seq<nat>>, log: seq<Arc>, k: nat)
    requires Represents(froms, tos, chains, log) && 1 <= k <= |FirstSeen(log)|
    ensures OnChain(chains, k)
  {
    FirstSeenMembers(log);
    var seen := FirstSeen(log);
    var a := seen[k - 1];
    var b := a.bucket;
    assert a in seen && a == Arc(b, a.selfpc);
    RecentMembers(log, b);
    var i :| 0 <= i < |Recent(log, b)| && Recent(log, b)[i] == a.selfpc;
    assert Lists(chains[b], b, FirstSeen(log), Recent(log, b));
    assert chains[b][i] == k;
  }

  /** No callee occurs twice along a chain. */
  ghost predicate NoRepeats(tos: seq<Node>, chain: seq<nat>) {
    forall i, j :: 0 <= i < j < |chain| ==>
      1 <= chain[i] < |tos| && 1 <= chain[j] < |tos| && tos[chain[i]].selfpc != tos[chain[j]].selfpc
  }

  /** The chains are acyclic, disjoint, and together hold every allocated node exactly once;
      within a chain no callee occurs twice. */
  lemma ChainsPartitionPool(froms: seq<nat>, tos: seq<Node>, chains: seq<seq<nat>>, log: seq<Arc>)
    requires Represents(froms, tos, chains, log)
    ensures forall b, i, c, j :: 0 <= b < |chains| && 0 <= i < |chains[b]| && 0 <= c < |chains| && 0 <= j < |chains[c]| ==>
              chains[b][i] == chains[c][j] ==> b == c && i == j
    ensures forall k: nat :: OnChain(chains, k) <==> 1 <= k <= |FirstSeen(log)|
    ensures forall b :: 0 <= b < |chains| ==> NoRepeats(tos, chains[b])
  {
    forall b, i, c, j | 0 <= b < |chains| && 0 <= i < |chains[b]| && 0 <= c < |chains| && 0 <= j < |chains[c]|
                        && chains[b][i] == chains[c][j]
      ensures b == c && i == j
    {
      SamePlace(froms, tos, chains, log, b, i, c, j);
    }
    forall k: nat | OnChain(chains, k) ensures 1 <= k <= |FirstSeen(log)| {
      var b, i :| 0 <= b < |chains| && 0 <= i < |chains[b]| && chains[b][i] == k;
      assert Lists(chains[b], b, FirstSeen(log), Recent(log, b));
    }
    forall k: nat | 1 <= k <= |FirstSeen(log)| ensures OnChain(chains, k) {
      NodeOnChain(froms, tos, chains, log, k);
    }
    forall b | 0 <= b < |chains| ensures NoRepeats(tos, chains[b]) {
      forall i | 0 <= i < |chains[b]| ensures Holding(tos, chains[b][i], Recent(log, b), i) {
        NodeAt(froms, tos, chains, log, b, i);
      }
      RecentMembers(log, b);
      DistinctHoldings(tos, chains[b], Recent(log, b));
    }
  }

  ghost predicate Holding(tos: seq<Node>, k: nat, pcs: seq<nat>, i: nat) {
    1 <= k < |tos| && i < |pcs| && tos[k].selfpc == pcs[i]
  }

  lemma DistinctHoldings(tos: seq<Node>, chain: seq<nat>, pcs: seq<nat>)
    requires Distinct(pcs) && forall i :: 0 <= i < |chain| ==> Holding(tos, chain[i], pcs, i)
    ensures NoRepeats(tos, chain)
  {
    forall i, j | 0 <= i < j < |chain|
      ensures 1 <= chain[i] < |tos| && 1 <= chain[j] < |tos| && tos[chain[i]].selfpc != tos[chain[j]].selfpc
    {
      assert Holding(tos, chain[i], pcs, i) && Holding(tos, chain[j], pcs, j);
    }
  }

  lemma SeenGrows(log: seq<Arc>, a: Arc)
    ensures FirstSeen(log + [a]) == if a in log then FirstSeen(log) else FirstSeen(log) + [a]
  {
    assert (log + [a])[..|log|] == log;
    FirstSeenMembers(log);
  }

  lemma RecentGrows(log: seq<Arc>, a: Arc, b: nat)
    ensures Recent(log + [a], b) == if b == a.bucket then [a.selfpc] + Without(Recent(log, b), a.selfpc) else Recent(log, b)
  {
    assert (log + [a])[..|log|] == log;
  }

  /** The links along a chain are the same. */
  ghost predicate SameLinks(chain: seq<nat>, tos: seq<Node>, tos': seq<Node>) {
    |tos'| == |tos| && forall j :: 0 <= j < |chain| ==> chain[j] < |tos| && tos'[chain[j]].link == tos[chain[j]].link
  }

  lemma LinksKept(head: nat, tos: seq<Node>, chain: seq<nat>, tos': seq<Node>)
    requires Linked(head, tos, chain) && SameLinks(chain, tos, tos')
    ensures Linked(head, tos', chain)
  {}

  /** Changing one chain and no link outside it rebuilds the representation. */
  lemma OneChainChanged(froms: seq<nat>, tos: seq<Node>, chains: seq<seq<nat>>, log: seq<Arc>, a: Arc,
                        head: nat, tos': seq<Node>, chain': seq<nat>)
    requires Represents(froms, tos, chains, log)
    requires a.bucket < |froms| && |tos'| == |tos|
    requires Counts(tos', FirstSeen(log + [a]), multiset(log + [a]))
    requires Linked(head, tos', chain') && Lists(chain', a.bucket, FirstSeen(log + [a]), Recent(log + [a], a.bucket))
    requires |chains| == |froms|
    requires forall c :: 0 <= c < |chains| && c != a.bucket ==> SameLinks(chains[c], tos, tos')
    ensures Represents(froms[a.bucket := head], tos', chains[a.bucket := chain'], log + [a])
  {
    SeenGrows(log, a);
    forall b | 0 <= b < |froms| && b != a.bucket
      ensures Linked(froms[b], tos', chains[b]) && Lists(chains[b], b, FirstSeen(log + [a]), Recent(log + [a], b))
    {
      RecentGrows(log, a, b);
      assert Linked(froms[b], tos, chains[b]) && Lists(chains[b], b, FirstSeen(log), Recent(log, b));
      LinksKept(froms[b], tos, chains[b], tos');
      ListsGrown(chains[b], b, FirstSeen(log), FirstSeen(log + [a]), Recent(log, b));
    }
    var froms', chains' := froms[a.bucket := head], chains[a.bucket := chain'];
    forall b | 0 <= b < |froms'|
      ensures Linked(froms'[b], tos', chains'[b]) && Lists(chains'[b], b, FirstSeen(log + [a]), Recent(log + [a], b))
    {
      assert b != a.bucket ==> froms'[b] == froms[b] && chains'[b] == chains[b];
    }
  }

  lemma ListsGrown(chain: seq<nat>, b: nat, seen: seq<Arc>, more: seq<Arc>, pcs: seq<nat>)
    requires Lists(chain, b, seen, pcs) && seen <= more
    ensures Lists(chain, b, more, pcs)
  {}

  lemma CountsAfterHit(tos: seq<Node>, seen: seq<Arc>, calls: multiset<Arc>, k: nat, tos': seq<Node>)
    requires Counts(tos, seen, calls) && Distinct(seen) && 1 <= k <= |seen|
    requires |tos'| == |tos| && tos'[k].selfpc == tos[k].selfpc && tos'[k].count == tos[k].count + 1
    requires forall n :: 1 <= n < |tos| && n != k ==> tos'[n].selfpc == tos[n].selfpc && tos'[n].count == tos[n].count
    ensures Counts(tos', seen, calls + multiset{seen[k - 1]})
  {}

  lemma CountsAfterNew(tos: seq<Node>, seen: seq<Arc>, calls: multiset<Arc>, a: Arc, tos': seq<Node>)
    requires Counts(tos, seen, calls) && a !in seen && a !in calls
    requires var k := |seen| + 1;
      k < |tos| && |tos'| == |tos| && tos'[k].selfpc == a.selfpc && tos'[k].count == 1
      && forall n :: 1 <= n < |tos| && n != k ==> tos'[n] == tos[n]
    ensures Counts(tos', seen + [a], calls + multiset{a})
  {
    forall n | 1 <= n <= |seen| ensures tos'[n].count == (calls + multiset{a})[seen[n - 1]] {
      assert seen[n - 1] in seen;
    }
  }

  ghost function MovedToFront<T>(chain: seq<T>, j: nat): seq<T>
    requires j < |chain|
  {
    [chain[j]] + chain[..j] + chain[j + 1..]
  }

  lemma CutToFront(pcs: seq<nat>, j: nat)
    requires Distinct(pcs) && j < |pcs|
    ensures [pcs[j]] + Without(pcs, pcs[j]) == MovedToFront(pcs, j)
  {
    WithoutAt(pcs, j);
  }

  /** What a repeated call does to the log's readings: the callee moves to the front. */
  lemma ReadingsAfterHit(log: seq<Arc>, a: Arc, j: nat)
    requires j < |Recent(log, a.bucket)| && Recent(log, a.bucket)[j] == a.selfpc
    ensures a in log && FirstSeen(log + [a]) == FirstSeen(log)
    ensures multiset(log + [a]) == multiset(log) + multiset{a}
    ensures Recent(log + [a], a.bucket) == MovedToFront(Recent(log, a.bucket), j)
  {
    var pcs := Recent(log, a.bucket);
    RecentMembers(log, a.bucket);
    assert pcs[j] in pcs && a == Arc(a.bucket, a.selfpc);
    CutToFront(pcs, j);
    RecentGrows(log, a, a.bucket);
    SeenGrows(log, a);
  }

  /** What a first call does: the callee is added in front. */
  lemma ReadingsAfterNew(log: seq<Arc>, a: Arc)
    requires a !in log
    ensures FirstSeen(log + [a]) == FirstSeen(log) + [a] && a !in FirstSeen(log)
    ensures multiset(log + [a]) == multiset(log) + multiset{a}
    ensures Recent(log + [a], a.bucket) == [a.selfpc] + Recent(log, a.bucket)
  {
    FirstSeenMembers(log);
    var pcs := Recent(log, a.bucket);
    RecentMembers(log, a.bucket);
    assert a == Arc(a.bucket, a.selfpc);
    WithoutMembers(pcs, a.selfpc);
    RecentGrows(log, a, a.bucket);
    SeenGrows(log, a);
  }

  lemma LinkAt(head: nat, tos: seq<Node>, chain: seq<nat>, i: nat)
    requires Linked(head, tos, chain) && i < |chain|
    ensures 1 <= chain[i] < |tos|
    ensures tos[chain[i]].link == if i + 1 < |chain| then chain[i + 1] else 0
  {}

  /** Counting a node changes no link. */
  lemma CountedStaysLinked(head: nat, tos: seq<Node>, chain: seq<nat>, k: nat, tos': seq<Node>)
    requires Linked(head, tos, chain) && k < |tos| && tos' == tos[k := tos[k].(count := tos[k].count + 1)]
    ensures Linked(head, tos', chain)
  {
    forall i | 0 <= i < |chain|
      ensures 1 <= chain[i] < |tos'| && tos'[chain[i]].link == if i + 1 < |chain| then chain[i + 1] else 0
    {
      LinkAt(head, tos, chain, i);
    }
  }

  /** The callee was found at the head of the chain: only its count changes. */
  lemma HitAtHead(froms: seq<nat>, tos: seq<Node>, chains: seq<seq<nat>>, log: seq<Arc>, a: Arc, tos': seq<Node>)
    requires Represents(froms, tos, chains, log)
    requires a.bucket < |froms| && 0 < froms[a.bucket] < |tos| && tos[froms[a.bucket]].selfpc == a.selfpc
    requires var k := froms[a.bucket]; tos' == tos[k := tos[k].(count := tos[k].count + 1)]
    ensures Represents(froms, tos', chains, log + [a])
  {
    var b := a.bucket;
    HeadIsFirst(froms, tos, chains, log, a);
    ReadingsAfterHit(log, a, 0);
    FirstSeenMembers(log);
    CountsAfterHit(tos, FirstSeen(log), multiset(log), froms[b], tos');
    CountedStaysLinked(froms[b], tos, chains[b], froms[b], tos');
    LinksWhenCounted(froms, tos, chains, log, froms[b], tos');
    OneChainChanged(froms, tos, chains, log, a, froms[b], tos', chains[b]);
    assert froms[b := froms[b]] == froms && chains[b := chains[b]] == chains;
  }

  /** What is known about a callee found at the head of its chain. */
  lemma HeadIsFirst(froms: seq<nat>, tos: seq<Node>, chains: seq<seq<nat>>, log: seq<Arc>, a: Arc)
    requires Represents(froms, tos, chains, log)
    requires a.bucket < |froms| && 0 < froms[a.bucket] < |tos| && tos[froms[a.bucket]].selfpc == a.selfpc
    ensures var b, k, pcs := a.bucket, froms[a.bucket], Recent(log, a.bucket);
      && Linked(k, tos, chains[b]) && Lists(chains[b], b, FirstSeen(log), pcs) && pcs != [] && pcs[0] == a.selfpc
      && MovedToFront(pcs, 0) == pcs && k <= |FirstSeen(log)| && FirstSeen(log)[k - 1] == a
  {
    var b := a.bucket;
    assert Linked(froms[b], tos, chains[b]) && Lists(chains[b], b, FirstSeen(log), Recent(log, b));
    NodeAt(froms, tos, chains, log, b, 0);
  }

  lemma LinksWhenCounted(froms: seq<nat>, tos: seq<Node>, chains: seq<seq<nat>>, log: seq<Arc>, k: nat, tos': seq<Node>)
    requires Represents(froms, tos, chains, log) && k < |tos| && tos' == tos[k := tos[k].(count := tos[k].count + 1)]
    ensures forall c :: 0 <= c < |chains| ==> SameLinks(chains[c], tos, tos')
  {
    forall c | 0 <= c < |chains| ensures SameLinks(chains[c], tos, tos') {
      assert Linked(froms[c], tos, chains[c]);
    }
  }

  /** `top` was counted, cut out behind `prev`, and made to point at `head`. */
  ghost predicate Relinked(tos: seq<Node>, prev: nat, top: nat, head: nat, tos': seq<Node>)
    requires prev < |tos| && top < |tos|
  {
    && |tos'| == |tos| && prev != top
    && tos'[top] == Node(tos[top].selfpc, tos[top].count + 1, head)
    && tos'[prev] == Node(tos[prev].selfpc, tos[prev].count, tos[top].link)
    && forall n :: 0 <= n < |tos| && n != prev && n != top ==> tos'[n] == tos[n]
  }

  /** The callee was found further down: its node is unlinked and put at the head. */
  lemma HitBelowHead(froms: seq<nat>, tos: seq<Node>, chains: seq<seq<nat>>, log: seq<Arc>, a: Arc, j: nat, tos': seq<Node>)
    requires Represents(froms, tos, chains, log)
    requires a.bucket < |froms| && 0 < j < |chains[a.bucket]|
    requires forall i :: 0 <= i < |chains[a.bucket]| ==> 1 <= chains[a.bucket][i] < |tos|
    requires tos[chains[a.bucket][j]].selfpc == a.selfpc
    requires Relinked(tos, chains[a.bucket][j - 1], chains[a.bucket][j], froms[a.bucket], tos')
    ensures Represents(froms[a.bucket := chains[a.bucket][j]], tos',
                       chains[a.bucket := MovedToFront(chains[a.bucket], j)], log + [a])
  {
    var b := a.bucket;
    var seen := FirstSeen(log);
    assert Linked(froms[b], tos, chains[b]) && Lists(chains[b], b, seen, Recent(log, b));
    ReadingsAfterHit(log, a, j);
    CountsWhenRelinked(tos, seen, log, chains[b][j - 1], chains[b][j], froms[b], tos', a);
    ChainsPartitionPool(froms, tos, chains, log);
    RelinkedToFront(froms[b], tos, chains[b], j, tos');
    LinksElsewhere(froms, tos, chains, log, b, j, tos');
    ListsMoved(chains[b], b, seen, Recent(log, b), j);
    OneChainChanged(froms, tos, chains, log, a, chains[b][j], tos', MovedToFront(chains[b], j));
  }

  lemma CountsWhenRelinked(tos: seq<Node>, seen: seq<Arc>, log: seq<Arc>, prev: nat, top: nat, head: nat, tos': seq<Node>, a: Arc)
    requires seen == FirstSeen(log) && Counts(tos, seen, multiset(log)) && prev < |tos| && 1 <= top <= |seen| < |tos|
    requires Relinked(tos, prev, top, head, tos') && seen[top - 1] == a
    ensures Counts(tos', seen, multiset(log + [a]))
  {
    FirstSeenMembers(log);
    CountsAfterHit(tos, seen, multiset(log), top, tos');
    assert multiset(log + [a]) == multiset(log) + multiset{a};
  }

  lemma LinksElsewhere(froms: seq<nat>, tos: seq<Node>, chains: seq<seq<nat>>, log: seq<Arc>, b: nat, j: nat, tos': seq<Node>)
    requires Represents(froms, tos, chains, log) && b < |chains| && 0 < j < |chains[b]|
    requires 1 <= chains[b][j - 1] < |tos| && 1 <= chains[b][j] < |tos| && b < |froms|
    requires Relinked(tos, chains[b][j - 1], chains[b][j], froms[b], tos')
    ensures forall c :: 0 <= c < |chains| && c != b ==> SameLinks(chains[c], tos, tos')
  {
    forall c | 0 <= c < |chains| && c != b ensures SameLinks(chains[c], tos, tos') {
      forall i | 0 <= i < |chains[c]|
        ensures chains[c][i] < |tos| && tos'[chains[c][i]].link == tos[chains[c][i]].link
      {
        NotElsewhere(froms, tos, chains, log, b, j, c, i);
        NotElsewhere(froms, tos, chains, log, b, j - 1, c, i);
      }
    }
  }

  lemma NotElsewhere(froms: seq<nat>, tos: seq<Node>, chains: seq<seq<nat>>, log: seq<Arc>, b: nat, i: nat, c: nat, j: nat)
    requires Represents(froms, tos, chains, log)
    requires b < |chains| && i < |chains[b]| && c < |chains| && j < |chains[c]| && b != c
    ensures 1 <= chains[c][j] < |tos| && chains[b][i] != chains[c][j]
  {
    assert Linked(froms[c], tos, chains[c]);
    if chains[b][i] == chains[c][j] {
      SamePlace(froms, tos, chains, log, b, i, c, j);
    }
  }

  lemma ListsMoved(chain: seq<nat>, b: nat, seen: seq<Arc>, pcs: seq<nat>, j: nat)
    requires Lists(chain, b, seen, pcs) && j < |chain|
    ensures Lists(MovedToFront(chain, j), b, seen, MovedToFront(pcs, j))
  {
    var moved := MovedToFront(chain, j);
    forall i | 0 <= i < |moved|
      ensures 1 <= moved[i] <= |seen| && seen[moved[i] - 1] == Arc(b, MovedToFront(pcs, j)[i])
    {
      var at := if i == 0 then j else if i <= j then i - 1 else i;
      assert moved[i] == chain[at] && MovedToFront(pcs, j)[i] == pcs[at];
    }
  }

  lemma RelinkedToFront(head: nat, tos: seq<Node>, chain: seq<nat>, j: nat, tos': seq<Node>)
    requires Linked(head, tos, chain) && Distinct(chain) && 0 < j < |chain|
    requires forall i :: 0 <= i < |chain| ==> 1 <= chain[i] < |tos|
    requires Relinked(tos, chain[j - 1], chain[j], head, tos')
    ensures Linked(chain[j], tos', MovedToFront(chain, j))
  {
    var moved := MovedToFront(chain, j);
    forall i | 0 <= i < |moved|
      ensures 1 <= moved[i] < |tos'| && tos'[moved[i]].link == if i + 1 < |moved| then moved[i + 1] else 0
    {
      var at := if i == 0 then j else if i <= j then i - 1 else i;
      assert moved[i] == chain[at];
      assert 1 <= chain[at] < |tos| && tos[chain[at]].link == if at + 1 < |chain| then chain[at + 1] else 0;
      assert 1 <= chain[j] < |tos| && tos[chain[j]].link == if j + 1 < |chain| then chain[j + 1] else 0;
      if at == j - 1 || at == j {
      } else {
        assert chain[at] != chain[j] && chain[at] != chain[j - 1];
      }
    }
  }

  /** The callee is new to the bucket: a fresh node goes to the head of the chain. */
  lemma NewAtHead(froms: seq<nat>, tos: seq<Node>, chains: seq<seq<nat>>, log: seq<Arc>, a: Arc, tos': seq<Node>)
    requires Represents(froms, tos, chains, log)
    requires a.bucket < |froms| && a !in log
    requires var k := |FirstSeen(log)| + 1;
      k < |tos| && |tos'| == |tos| && tos'[k] == Node(a.selfpc, 1, froms[a.bucket])
      && forall n :: 1 <= n < |tos| && n != k ==> tos'[n] == tos[n]
    ensures var k := |FirstSeen(log)| + 1;
      Represents(froms[a.bucket := k], tos', chains[a.bucket := [k] + chains[a.bucket]], log + [a])
  {
    var b, seen, pcs := a.bucket, FirstSeen(log), Recent(log, a.bucket);
    var k, chain := |seen| + 1, chains[b];
    assert Linked(froms[b], tos, chain) && Lists(chain, b, seen, pcs);
    ReadingsAfterNew(log, a);
    CountsAfterNew(tos, seen, multiset(log), a, tos');
    assert Linked(k, tos', [k] + chain) && Lists([k] + chain, b, seen + [a], [a.selfpc] + pcs) by {
      PushedOnChain(froms[b], tos, chain, b, seen, pcs, a, tos');
    }
    forall c | 0 <= c < |chains| && c != b ensures SameLinks(chains[c], tos, tos') {
      assert Linked(froms[c], tos, chains[c]) && Lists(chains[c], c, seen, Recent(log, c));
    }
    OneChainChanged(froms, tos, chains, log, a, k, tos', [k] + chain);
  }

  lemma PushedOnChain(head: nat, tos: seq<Node>, chain: seq<nat>, b: nat, seen: seq<Arc>, pcs: seq<nat>, a: Arc, tos': seq<Node>)
    requires Linked(head, tos, chain) && Lists(chain, b, seen, pcs) && a.bucket == b
    requires var k := |seen| + 1;
      k < |tos| && |tos'| == |tos| && tos'[k].link == head && forall n :: 1 <= n < k ==> tos'[n] == tos[n]
    ensures var k := |seen| + 1;
      Linked(k, tos', [k] + chain) && Lists([k] + chain, b, seen + [a], [a.selfpc] + pcs)
  {
    var k := |seen| + 1;
    var pushed := [k] + chain;
    forall i | 0 <= i < |pushed|
      ensures 1 <= pushed[i] < |tos'| && tos'[pushed[i]].link == if i + 1 < |pushed| then pushed[i + 1] else 0
    {
      if i > 0 {
        assert pushed[i] == chain[i - 1] <= |seen| && tos'[chain[i - 1]] == tos[chain[i - 1]];
        assert tos[chain[i - 1]].link == if i < |chain| then chain[i] else 0;
      } else {
        assert head == if chain == [] then 0 else chain[0];
      }
      assert i < |chain| ==> pushed[i + 1] == chain[i];
    }
    assert Linked(k, tos', pushed);
  }

  /** The node at place `j` of a chain holds the bucket's j-th most recent callee. */
  lemma NodeAt(froms: seq<nat>, tos: seq<Node>, chains: seq<seq<nat>>, log: seq<Arc>, b: nat, j: nat)
    requires Represents(froms, tos, chains, log)
    requires b < |froms| && j < |chains[b]|
    ensures |chains[b]| == |Recent(log, b)| && 1 <= chains[b][j] < |tos|
    ensures tos[chains[b][j]].selfpc == Recent(log, b)[j] && Arc(b, Recent(log, b)[j]) in log
    ensures tos[chains[b][j]].link == if j + 1 < |chains[b]| then chains[b][j + 1] else 0
  {
    assert Linked(froms[b], tos, chains[b]) && Lists(chains[b], b, FirstSeen(log), Recent(log, b));
    RecentMembers(log, b);
    assert Recent(log, b)[j] in Recent(log, b);
  }

  /** What is known about a place below the head of a chain. */
  lemma PlaceBelowHead(froms: seq<nat>, tos: seq<Node>, chains: seq<seq<nat>>, log: seq<Arc>, b: nat, j: nat)
    requires Represents(froms, tos, chains, log) && b < |froms| && 0 < j < |chains[b]|
    ensures 1 <= chains[b][j - 1] < |tos| && 1 <= chains[b][j] < |tos| && chains[b][j - 1] != chains[b][j]
    ensures tos[chains[b][j - 1]].link == chains[b][j] && j < |Recent(log, b)|
  {
    NodeAt(froms, tos, chains, log, b, j);
    NodeAt(froms, tos, chains, log, b, j - 1);
    ChainsPartitionPool(froms, tos, chains, log);
  }

  /** What relinking such a node comes to. */
  lemma MovedBelowHead(froms: seq<nat>, tos: seq<Node>, chains: seq<seq<nat>>, log: seq<Arc>, b: nat, j: nat, tos': seq<Node>)
    requires Represents(froms, tos, chains, log) && b < |froms| && 0 < j < |chains[b]|
    requires 1 <= chains[b][j - 1] < |tos| && 1 <= chains[b][j] < |tos| && j < |Recent(log, b)|
    requires Relinked(tos, chains[b][j - 1], chains[b][j], froms[b], tos')
    ensures var a := Arc(b, Recent(log, b)[j]);
      && Represents(froms[b := chains[b][j]], tos', chains[b := MovedToFront(chains[b], j)], log + [a])
      && FirstSeen(log + [a]) == FirstSeen(log) && tos'[0] == tos[0]
  {
    var a := Arc(b, Recent(log, b)[j]);
    NodeAt(froms, tos, chains, log, b, j);
    assert Linked(froms[b], tos, chains[b]);
    HitBelowHead(froms, tos, chains, log, a, j, tos');
    ReadingsAfterHit(log, a, j);
  }

  lemma NodesNonzero(froms: seq<nat>, tos: seq<Node>, chains: seq<seq<nat>>, log: seq<Arc>, b: nat)
    requires Represents(froms, tos, chains, log) && b < |froms|
    ensures forall i :: 0 <= i < |chains[b]| ==> chains[b][i] != 0
  {
    assert Linked(froms[b], tos, chains[b]);
  }

  lemma CountAt(froms: seq<nat>, tos: seq<Node>, chains: seq<seq<nat>>, log: seq<Arc>, b: nat, j: nat)
    requires Represents(froms, tos, chains, log)
    requires b < |froms| && j < |chains[b]| && 1 <= chains[b][j] < |tos| && j < |Recent(log, b)|
    ensures tos[chains[b][j]].count == multiset(log)[Arc(b, Recent(log, b)[j])]
  {
    assert Lists(chains[b], b, FirstSeen(log), Recent(log, b));
  }

  /** The head slot of a bucket is 0 exactly when nothing was recorded for it. */
  lemma HeadOf(froms: seq<nat>, tos: seq<Node>, chains: seq<seq<nat>>, log: seq<Arc>, b: nat)
    requires Represents(froms, tos, chains, log) && b < |froms|
    ensures froms[b] == (if chains[b] == [] then 0 else chains[b][0])
    ensures froms[b] == 0 <==> Recent(log, b) == []
    ensures |chains[b]| == |Recent(log, b)|
  {
    assert Linked(froms[b], tos, chains[b]) && Lists(chains[b], b, FirstSeen(log), Recent(log, b));
  }

  /** The nodes in use, and node 0, fit the pool. */
  lemma SeenFits(froms: seq<nat>, tos: seq<Node>, chains: seq<seq<nat>>, log: seq<Arc>)
    requires Represents(froms, tos, chains, log)
    ensures |FirstSeen(log)| < |tos|
  {}

  /** The counter kept in node 0 is no part of any chain. */
  lemma CounterIgnored(froms: seq<nat>, tos: seq<Node>, chains: seq<seq<nat>>, log: seq<Arc>, tos': seq<Node>)
    requires Represents(froms, tos, chains, log)
    requires |tos'| == |tos| && forall n :: 1 <= n < |tos| ==> tos'[n] == tos[n]
    ensures Represents(froms, tos', chains, log)
  {
    forall b | 0 <= b < |froms| ensures Linked(froms[b], tos', chains[b]) {
      assert Linked(froms[b], tos, chains[b]);
    }
  }

  lemma EmptyTable(froms: seq<nat>, tos: seq<Node>, chains: seq<seq<nat>>)
    requires |chains| == |froms| && |tos| > 0
    requires forall b :: 0 <= b < |froms| ==> froms[b] == 0 && chains[b] == []
    ensures Represents(froms, tos, chains, [])
  {}

  // ----- the addresses and sizes monstartup derives from the text segment

  function LowPc(ftext: nat): nat {
    ftext / HISTOGRAM_GRAIN * HISTOGRAM_GRAIN
  }

  function TextSize(ftext: nat, etext: nat): (size: nat)
    ensures size < WORD && size % HISTOGRAM_GRAIN == 0
  {
    GrainsApart((etext + HISTOGRAM_GRAIN - 1) % WORD / HISTOGRAM_GRAIN, ftext / HISTOGRAM_GRAIN);
    ((etext + HISTOGRAM_GRAIN - 1) % WORD / HISTOGRAM_GRAIN * HISTOGRAM_GRAIN - LowPc(ftext)) % WORD
  }

  lemma GrainsApart(a: int, b: int)
    ensures (a * HISTOGRAM_GRAIN - b * HISTOGRAM_GRAIN) % WORD % HISTOGRAM_GRAIN == 0
  {}

  function PoolLimit(textsize: nat): (limit: nat)
    ensures MIN_ARCS <= limit <= MAX_ARCS
  {
    var wanted := textsize * ARC_DENSITY % WORD / 100;
    if wanted < MIN_ARCS then MIN_ARCS else if wanted > MAX_ARCS then MAX_ARCS else wanted
  }

  /** The offset test lets through one value whose slot lies just past the table: the text size itself. */
  lemma OnlyTextSizeOverruns(textsize: nat, offset: nat)
    requires textsize % HISTOGRAM_GRAIN == 0 && offset <= textsize
    ensures offset / FROMS_GRAIN < textsize / FROMS_GRAIN <==> offset != textsize
  {}

  /** Which of the three sbrk requests of monstartup succeed. */
  datatype Sbrk = Sbrk(histogram: bool, froms: bool, tos: bool)

  /** The profile monstartup begins with. */
  function StartedProfile(ftext: nat, etext: nat, mem: Sbrk): Profile {
    var size := TextSize(ftext, etext);
    Profile(LowPc(ftext), size, PoolLimit(size), mem.histogram && mem.froms && mem.tos && size != 0, [])
  }

  class Profiler {
    const ftext: nat
    const etext: nat
    var alreadySetup: bool
    var profiling: int
    var froms: array<nat>
    var tos: array<Node>
    var tolimit: nat
    var lowpc: nat
    var textsize: nat
    /** The calls recorded so far, and the chains the two arrays encode. */
    ghost var log: seq<Arc>
    ghost var chains: seq<seq<nat>>

    ghost predicate Allocated()
      reads this
    {
      tos.Length != 0
    }

    /** The two arrays hold the log, whatever `profiling` says. */
    ghost predicate Holds()
      reads this, froms, tos
    {
      && Allocated()
      && froms.Length == textsize / FROMS_GRAIN
      && tolimit == tos.Length == PoolLimit(textsize)
      && Represents(froms[..], tos[..], chains, log)
      && |FirstSeen(log)| <= tos[0].link <= tolimit
    }

    ghost predicate Valid()
      reads this, froms, tos
    {
      && (!alreadySetup ==> profiling == 3 && !Allocated())
      && (alreadySetup ==> lowpc == LowPc(ftext) && textsize == TextSize(ftext, etext))
      && (!Allocated() ==> profiling == 3 && log == [])
      && (Allocated() ==>
            && Holds()
            && (profiling == 0 || profiling == 2 || profiling == 3)
            && (profiling == 0 ==> tos[0].link == |FirstSeen(log)|))
    }

    /** The abstract state. A profiler that has not been set up has no profile yet. */
    ghost function Abstract(): Profile
      requires alreadySetup
      reads this
    {
      Profile(lowpc, textsize, PoolLimit(textsize), profiling == 0, log)
    }

    constructor (ftext: nat, etext: nat)
      requires ftext < WORD && etext < WORD
      ensures Valid() && !alreadySetup && log == [] && fresh(froms) && fresh(tos)
      ensures this.ftext == ftext && this.etext == etext
    {
      this.ftext, this.etext := ftext, etext;
      alreadySetup, profiling := false, 3;
      froms, tos := new nat[0], new Node[0];
      tolimit, lowpc, textsize := 0, 0, 0;
      log, chains := [], [];
    }

    method MonControl(mode: bool)
      modifies this`profiling
      ensures profiling == if mode then 0 else 3
    {
      if mode {
        profiling := 0;
      } else {
        profiling := 3;
      }
    }

    method MonStartup(mem: Sbrk)
      requires Valid() && !alreadySetup
      modifies this
      ensures froms == old(froms) || fresh(froms)
      ensures tos == old(tos) || fresh(tos)
      ensures alreadySetup && Valid()
      ensures Abstract() == StartedProfile(ftext, etext, mem)
      ensures Allocated() <==> mem.histogram && mem.froms && mem.tos
    {
      alreadySetup := true;
      lowpc, textsize := LowPc(ftext), TextSize(ftext, etext);
      if !mem.histogram { return; }
      if !mem.froms { return; }
      tolimit := PoolLimit(textsize);
      if !mem.tos { return; }
      froms := new nat[textsize / FROMS_GRAIN](_ => 0);
      tos := new Node[tolimit](_ => ZERO_NODE);
      chains := seq(froms.Length, _ => []);
      EmptyTable(froms[..], tos[..], chains);
      if textsize / HISTOGRAM_GRAIN == 0 { return; }
      MonControl(true);
    }

    /** One call from `frompc` into the function at `selfpc`. The one offset that overruns the
        table is the caller's to avoid. The profile moves exactly as the abstract step says, so
        an accepted call adds one to the count of one arc and changes no other. */
    method MCount(frompc: nat, selfpc: nat, mem: Sbrk)
      requires Valid()
      requires (frompc - LowPc(ftext)) % WORD != TextSize(ftext, etext)
      modifies this, froms, tos
      ensures Valid() && alreadySetup
      ensures froms == old(froms) || fresh(froms)
      ensures tos == old(tos) || fresh(tos)
      ensures Abstract() ==
        Record(if old(alreadySetup) then old(Abstract()) else StartedProfile(ftext, etext, mem), Call(frompc, selfpc))
      ensures old(alreadySetup) && old(profiling) != 0 ==> froms[..] == old(froms[..]) && tos[..] == old(tos[..])
    {
      if !alreadySetup {
        MonStartup(mem);
      }
      if profiling != 0 { return; }
      profiling := profiling + 1;
      var offset := (frompc - lowpc) % WORD;
      if offset > textsize {
        profiling := profiling - 1;
        return;
      }
      OnlyTextSizeOverruns(textsize, offset);
      CountArc(offset / FROMS_GRAIN, selfpc);
    }

    /** Look the callee up on the chain of bucket `b` and count the call. */
    method CountArc(b: nat, selfpc: nat)
      requires Holds() && profiling == 1 && tos[0].link == |FirstSeen(log)|
      requires b < froms.Length
      modifies `profiling, `log, `chains, froms, tos
      ensures Holds()
      ensures if Arc(b, selfpc) in old(log) || |FirstSeen(old(log))| + 1 < tolimit
              then profiling == 0 && log == old(log) + [Arc(b, selfpc)] && tos[0].link == |FirstSeen(log)|
              else profiling == 2 && log == old(log)
    {
      HeadOf(froms[..], tos[..], chains, log, b);
      RecentMembers(log, b);
      var toindex := froms[b];
      if toindex == 0 {
        Allocate(b, selfpc);
        return;
      }
      var top := toindex;
      NodeAt(froms[..], tos[..], chains, log, b, 0);
      if tos[top].selfpc == selfpc {
        CountHead(b, selfpc);
        return;
      }
      var found, prevtop;
      ghost var i;
      found, prevtop, top, i := Search(b, selfpc);
      if found {
        MoveToFront(b, prevtop, top, i);
      } else {
        Allocate(b, selfpc);
      }
    }

    /** Walk down a chain whose head is another callee. */
    method Search(b: nat, selfpc: nat) returns (found: bool, prevtop: nat, top: nat, ghost i: nat)
      requires Holds() && b < froms.Length && froms[b] != 0 && froms[b] < tos.Length && tos[froms[b]].selfpc != selfpc
      ensures found ==> 0 < i < |chains[b]| == |Recent(log, b)| && prevtop == chains[b][i - 1] && top == chains[b][i]
      ensures found ==> Recent(log, b)[i] == selfpc
      ensures !found ==> Arc(b, selfpc) !in log
    {
      HeadOf(froms[..], tos[..], chains, log, b);
      NodeAt(froms[..], tos[..], chains, log, b, 0);
      RecentMembers(log, b);
      prevtop, top, i := 0, froms[b], 0;
      while true
        invariant 0 <= i < |chains[b]| == |Recent(log, b)| && top == chains[b][i]
        invariant selfpc !in Recent(log, b)[..i + 1]
        decreases |chains[b]| - i
      {
        NodeAt(froms[..], tos[..], chains, log, b, i);
        if tos[top].link == 0 {
          NodesNonzero(froms[..], tos[..], chains, log, b);
          assert Recent(log, b)[..i + 1] == Recent(log, b);
          return false, prevtop, top, i;
        }
        prevtop := top;
        top := tos[top].link;
        i := i + 1;
        NodeAt(froms[..], tos[..], chains, log, b, i);
        if tos[top].selfpc == selfpc {
          return true, prevtop, top, i;
        }
      }
    }

    /** The usual case: the callee is at the head of its chain. */
    method CountHead(b: nat, selfpc: nat)
      requires Holds() && profiling == 1
      requires b < froms.Length && froms[b] != 0 && froms[b] < tos.Length && tos[froms[b]].selfpc == selfpc
      modifies `profiling, `log, tos
      ensures Holds() && profiling == 0
      ensures log == old(log) + [Arc(b, selfpc)]
      ensures Arc(b, selfpc) in old(log) && tos[0].link == old(tos[0].link) && FirstSeen(log) == FirstSeen(old(log))
    {
      ghost var tos0 := tos[..];
      var top := froms[b];
      HeadOf(froms[..], tos0, chains, log, b);
      NodeAt(froms[..], tos0, chains, log, b, 0);
      ReadingsAfterHit(log, Arc(b, selfpc), 0);
      tos[top] := tos[top].(count := tos[top].count + 1);
      HitAtHead(froms[..], tos0, chains, log, Arc(b, selfpc), tos[..]);
      log := log + [Arc(b, selfpc)];
      profiling := profiling - 1;
    }

    /** The callee is nowhere on its chain: take the next node of the pool, or stop for good. The
        two places that allocate differ only in the link they store, and both store the old head. */
    method Allocate(b: nat, selfpc: nat)
      requires Holds() && profiling == 1 && tos[0].link == |FirstSeen(log)|
      requires b < froms.Length && Arc(b, selfpc) !in log
      modifies `profiling, `log, `chains, froms, tos
      ensures Holds()
      ensures if |FirstSeen(old(log))| + 1 < tolimit
              then profiling == 0 && log == old(log) + [Arc(b, selfpc)] && tos[0].link == |FirstSeen(log)|
              else profiling == 2 && log == old(log)
    {
      var toindex := CountUp();
      if toindex >= tolimit {
        profiling := profiling + 1;
        return;
      }
      LinkNew(b, selfpc, toindex);
      profiling := profiling - 1;
    }

    /** The counter in node 0 goes up; 16 bits are enough for it. */
    method CountUp() returns (toindex: nat)
      requires Holds() && tos[0].link == |FirstSeen(log)|
      modifies tos
      ensures Holds() && toindex == tos[0].link == |FirstSeen(log)| + 1
    {
      ghost var tos0 := tos[..];
      SeenFits(froms[..], tos0, chains, log);
      toindex := (tos[0].link + 1) % 0x1_0000;
      tos[0] := tos[0].(link := toindex);
      CounterIgnored(froms[..], tos0, chains, log, tos[..]);
    }

    /** Fill the new node and put it at the head of its chain. */
    method LinkNew(b: nat, selfpc: nat, toindex: nat)
      requires Holds() && tos[0].link == toindex == |FirstSeen(log)| + 1 < tolimit
      requires b < froms.Length && Arc(b, selfpc) !in log
      modifies `log, `chains, froms, tos
      ensures Holds() && log == old(log) + [Arc(b, selfpc)] && tos[0].link == |FirstSeen(log)|
    {
      ghost var tos0, froms0 := tos[..], froms[..];
      tos[toindex] := Node(selfpc, 1, froms[b]);
      froms[b] := toindex;
      NewAtHead(froms0, tos0, chains, log, Arc(b, selfpc), tos[..]);
      assert froms[..] == froms0[b := toindex];
      ReadingsAfterNew(log, Arc(b, selfpc));
      chains := chains[b := [toindex] + chains[b]];
      log := log + [Arc(b, selfpc)];
    }

    /** The callee is at place `i` of its chain, behind `prevtop`: count the call, unlink the node
        and put it at the head. */
    method MoveToFront(b: nat, prevtop: nat, top: nat, ghost i: nat)
      requires Holds() && profiling == 1
      requires b < froms.Length && 0 < i < |chains[b]| && prevtop == chains[b][i - 1] && top == chains[b][i]
      modifies `profiling, `log, `chains, froms, tos
      ensures Holds() && profiling == 0
      ensures i < |Recent(old(log), b)| && log == old(log) + [Arc(b, Recent(old(log), b)[i])]
      ensures tos[0].link == old(tos[0].link) && FirstSeen(log) == FirstSeen(old(log))
    {
      ghost var tos0, froms0 := tos[..], froms[..];
      PlaceBelowHead(froms0, tos0, chains, log, b, i);
      Relink(b, prevtop, top);
      MovedBelowHead(froms0, tos0, chains, log, b, i, tos[..]);
      profiling := profiling - 1;
      Log(chains[b := MovedToFront(chains[b], i)], Arc(b, Recent(log, b)[i]));
    }

    /** The arrays hold one more call. */
    ghost method Log(newChains: seq<seq<nat>>, a: Arc)
      requires Allocated() && froms.Length == textsize / FROMS_GRAIN && tolimit == tos.Length == PoolLimit(textsize)
      requires Represents(froms[..], tos[..], newChains, log + [a]) && |FirstSeen(log + [a])| <= tos[0].link <= tolimit
      modifies `log, `chains
      ensures Holds() && log == old(log) + [a] && chains == newChains
    {
      log := log + [a];
      chains := newChains;
    }

    /** Count the node, cut it out behind its predecessor, and put it at the head of bucket `b`. */
    method Relink(b: nat, prevtop: nat, top: nat)
      requires b < froms.Length && prevtop < tos.Length && top < tos.Length && prevtop != top && tos[prevtop].link == top
      modifies froms, tos
      ensures Relinked(old(tos[..]), prevtop, top, old(froms[b]), tos[..]) && froms[..] == old(froms[..])[b := top]
    {
      tos[top] := tos[top].(count := tos[top].count + 1);
      var toindex: nat := tos[prevtop].link;
      tos[prevtop] := tos[prevtop].(link := tos[top].link);
      tos[top] := tos[top].(link := froms[b]);
      froms[b] := toindex;
    }

    /** Stop profiling; the table is kept. */
    method Stop()
      requires Valid() && Allocated()
      modifies `profiling
      ensures Valid() && Holds() && profiling == 3
    {
      MonControl(false);
    }

    /** Stop profiling and write out the table: what comes out is exactly the dump of the log. The
        source reads the table without asking whether it was allocated, so that is the caller's duty. */
    method MCleanup() returns (dump: seq<RawArc>)
      requires Valid() && Allocated()
      modifies `profiling
      ensures Valid() && profiling == 3 && log == old(log)
      ensures dump == Dump(lowpc, froms.Length, log)
    {
      Stop();
      dump := DumpTable();
    }

    /** The outer loop of the dump: every bucket in turn. */
    method DumpTable() returns (dump: seq<RawArc>)
      requires Holds()
      ensures dump == Dump(lowpc, froms.Length, log)
    {
      dump := [];
      for fromindex := 0 to froms.Length
        invariant dump == Dump(lowpc, fromindex, log)
      {
        dump := DumpBucket(fromindex, dump);
      }
    }

    /** One bucket more of the dump: nothing for an empty one. */
    method DumpBucket(b: nat, before: seq<RawArc>) returns (dump: seq<RawArc>)
      requires Holds() && b < froms.Length && before == Dump(lowpc, b, log)
      ensures dump == Dump(lowpc, b + 1, log)
    {
      HeadOf(froms[..], tos[..], chains, log, b);
      DumpExtends(lowpc, b, log);
      dump := before;
      if froms[b] != 0 {
        var records := DumpChain(b);
        dump := dump + records;
      }
    }

    /** The inner loop of the dump: walk one chain. */
    method DumpChain(b: nat) returns (records: seq<RawArc>)
      requires Holds() && b < froms.Length
      ensures records == Records(lowpc, BucketArcs(b, log), log)
    {
      var frompc := Base(lowpc, b);
      ghost var arcs := BucketArcs(b, log);
      HeadOf(froms[..], tos[..], chains, log, b);
      records := [];
      var toindex := froms[b];
      ghost var i := 0;
      while toindex != 0
        modifies {}
        invariant 0 <= i <= |chains[b]|
        invariant toindex == if i < |chains[b]| then chains[b][i] else 0
        invariant records == Records(lowpc, arcs[..i], log)
        decreases |chains[b]| - i
      {
        NodeAt(froms[..], tos[..], chains, log, b, i);
        CountAt(froms[..], tos[..], chains, log, b, i);
        records := records + [RawArc(frompc, tos[toindex].selfpc, tos[toindex].count)];
        toindex := tos[toindex].link;
        i := i + 1;
        assert arcs[..i] == arcs[..i - 1] + [arcs[i - 1]];
      }
      NodesNonzero(froms[..], tos[..], chains, log, b);
      assert arcs[..i] == arcs;
    }
  }
}
